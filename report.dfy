/**
 * The report renderer. The HTML document is modelled as the sequence of its
 * blocks: one header per device that has items, followed by one card per item.
 * The fixed page head (style sheet, dated title) and the fixed signature around
 * the blocks are not modelled.
 */
module Report {
  import opened Wrappers
  import Config
  import opened Style
  import opened Decimal

  /**
   * A catalog item as the API returns it. A field is None when the key is
   * missing from the item's JSON object.
   */
  datatype Item = Item(
    name: Option<string>,
    nickname: Option<string>,
    preview: Option<string>,
    downloadTimes: Option<int>,
    views: Option<int>,
    updatedAt: Option<int>)

  /**
   * The update time shown on a card: literal text, or the local date-time
   * (`%Y-%m-%d %H:%M`) of a timestamp in milliseconds.
   */
  datatype Stamp = Text(text: string) | LocalTime(ms: int)

  /** A block of the report body. */
  datatype Block =
    | Header(deviceName: string, code: string)
    | Card(preview: string, style: ImageStyle, name: string, nickname: string,
           updated: Stamp, downloads: string, views: string)

  /** Device codes with their item lists, in the mapping's insertion order. */
  type Devices = seq<(string, seq<Item>)>

  /**
   * `format_ts`: a missing or zero timestamp is shown as "N/A"; any other is
   * shown as the local date-time of that timestamp.
   */
  function FormatTs(ts: Option<int>): (r: Stamp)
    ensures r == Text("N/A") <==> ts == None || ts == Some(0)
    ensures r.LocalTime? ==> ts == Some(r.ms)
    ensures !(ts == None || ts == Some(0)) ==> r == LocalTime(ts.value)
  {
    if ts == None || ts == Some(0) then Text("N/A") else LocalTime(ts.value)
  }

  /** `DEVICE_NAMES.get(code, code)`. */
  function DeviceName(code: string): string {
    if code in Config.DeviceNames then Config.DeviceNames[code] else code
  }

  /** The card of one item, with the script's defaults for missing fields. */
  function CardFor(item: Item, style: ImageStyle): Block {
    Card(item.preview.GetOr(""), style, item.name.GetOr("Unknown"), item.nickname.GetOr("Unknown"),
         FormatTs(item.updatedAt), IntToString(item.downloadTimes.GetOr(0)), IntToString(item.views.GetOr(0)))
  }

  /** One card per item, in the items' order, all in the given style. */
  function Cards(items: seq<Item>, style: ImageStyle): (cards: seq<Block>)
    ensures |cards| == |items|
    ensures forall k :: 0 <= k < |items| ==> cards[k] == CardFor(items[k], style)
  {
    if items == [] then []
    else
      var n := |items| - 1;
      Cards(items[..n], style) + [CardFor(items[n], style)]
  }

  /** What one device contributes: nothing when it has no items, else its header and its cards. */
  function Section(code: string, items: seq<Item>): seq<Block> {
    if items == [] then [] else [Header(DeviceName(code), code)] + Cards(items, GetImageStyle(code))
  }

  /** The blocks that `render` gives each device, concatenated in the devices' order. */
  function Concat(devices: Devices, render: (string, seq<Item>) -> seq<Block>): seq<Block> {
    if devices == [] then []
    else
      var n := |devices| - 1;
      Concat(devices[..n], render) + render(devices[n].0, devices[n].1)
  }

  /** The blocks of all devices, in order. */
  function Body(devices: Devices): seq<Block> {
    Concat(devices, Section)
  }

  predicate HasContent(devices: Devices) {
    exists i :: 0 <= i < |devices| && devices[i].1 != []
  }

  /** `generate_html`: no document when no device has an item. */
  function Render(devices: Devices): Option<seq<Block>> {
    if HasContent(devices) then Some(Body(devices)) else None
  }

  /**
   * `generate_html` as the script runs it: the body is extended block by block
   * while the devices and their items are walked, and a flag records whether
   * any device had an item.
   */
  method GenerateHtml(allData: Devices) returns (html: Option<seq<Block>>)
    ensures html == Render(allData)
  {
    var body: seq<Block> := [];
    var hasContent := false;
    for i := 0 to |allData|
      invariant body == Body(allData[..i])
      invariant hasContent <==> body != []
    {
      var dtype, items := allData[i].0, allData[i].1;
      ConcatStep(allData, i, Section);
      if items == [] {
        continue;
      }
      hasContent := true;
      var deviceName := DeviceName(dtype);
      var imageStyle := GetImageStyle(dtype);
      var section := [Header(deviceName, dtype)];
      for k := 0 to |items|
        invariant section == [Header(deviceName, dtype)] + Cards(items[..k], imageStyle)
      {
        var item := items[k];
        var name := item.name.GetOr("Unknown");
        var nick := item.nickname.GetOr("Unknown");
        var preview := item.preview.GetOr("");
        var dl := item.downloadTimes.GetOr(0);
        var views := item.views.GetOr(0);
        var timeStr := FormatTs(item.updatedAt);
        CardsStep(items, k, imageStyle);
        AppendAssoc([Header(deviceName, dtype)], Cards(items[..k], imageStyle), [CardFor(item, imageStyle)]);
        section := section + [Card(preview, imageStyle, name, nick, timeStr, IntToString(dl), IntToString(views))];
      }
      assert items[..|items|] == items;
      body := body + section;
    }
    assert allData[..|allData|] == allData;
    BodyEmptyIff(allData);
    html := if hasContent then Some(body) else None;
  }

  lemma AppendAssoc<T>(a: seq<T>, b: seq<T>, c: seq<T>)
    ensures a + (b + c) == (a + b) + c
  {
  }

  lemma CardsStep(items: seq<Item>, k: int, style: ImageStyle)
    requires 0 <= k < |items|
    ensures Cards(items[..k + 1], style) == Cards(items[..k], style) + [CardFor(items[k], style)]
  {
    assert items[..k + 1][..k] == items[..k];
  }

  lemma BodyStep(devices: Devices, i: int)
    requires 0 <= i < |devices|
    ensures Body(devices[..i + 1]) == Body(devices[..i]) + Section(devices[i].0, devices[i].1)
    ensures HasContent(devices[..i + 1]) <==> HasContent(devices[..i]) || devices[i].1 != []
  {
    ConcatStep(devices, i, Section);
    HasContentStep(devices, i);
  }

  lemma ConcatStep(devices: Devices, i: int, render: (string, seq<Item>) -> seq<Block>)
    requires 0 <= i < |devices|
    ensures Concat(devices[..i + 1], render) == Concat(devices[..i], render) + render(devices[i].0, devices[i].1)
  {
    assert devices[..i + 1][..i] == devices[..i];
  }

  lemma HasContentStep(devices: Devices, i: int)
    requires 0 <= i < |devices|
    ensures HasContent(devices[..i + 1]) <==> HasContent(devices[..i]) || devices[i].1 != []
  {
    if HasContent(devices[..i + 1]) && devices[i].1 == [] {
      var j :| 0 <= j < i + 1 && devices[..i + 1][j].1 != [];
      assert devices[..i][j].1 != [];
    }
    if devices[i].1 != [] {
      assert devices[..i + 1][i].1 != [];
    }
    if HasContent(devices[..i]) {
      var j :| 0 <= j < i && devices[..i][j].1 != [];
      assert devices[..i + 1][j].1 != [];
    }
  }

  // ---------------------------------------------------------------------------
  // Properties of the rendered body
  // ---------------------------------------------------------------------------

  lemma {:induction false} ConcatAppend(d1: Devices, d2: Devices, render: (string, seq<Item>) -> seq<Block>)
    ensures Concat(d1 + d2, render) == Concat(d1, render) + Concat(d2, render)
  {
    if d2 == [] {
      assert d1 + d2 == d1;
    } else {
      var n := |d2| - 1;
      var d2', last := d2[..n], d2[n];
      assert (d1 + d2)[..|d1| + n] == d1 + d2';
      assert (d1 + d2)[|d1| + n] == last;
      ConcatAppend(d1, d2', render);
    }
  }

  lemma ConcatOne(code: string, items: seq<Item>, render: (string, seq<Item>) -> seq<Block>)
    ensures Concat([(code, items)], render) == render(code, items)
  {
    var one: Devices := [(code, items)];
    assert one[..0] == [];
  }

  /** Rendering a concatenation of device lists renders each in turn: devices keep their order. */
  lemma BodyAppend(d1: Devices, d2: Devices)
    ensures Body(d1 + d2) == Body(d1) + Body(d2)
  {
    ConcatAppend(d1, d2, Section);
  }

  /** A device with an empty item list contributes no block, wherever it stands. */
  lemma EmptyDeviceContributesNothing(d1: Devices, code: string, d2: Devices)
    ensures Body(d1 + [(code, [])] + d2) == Body(d1 + d2)
  {
    var empty: Devices := [(code, [])];
    ConcatOne(code, [], Section);
    ConcatAppend(d1 + empty, d2, Section);
    ConcatAppend(d1, empty, Section);
    ConcatAppend(d1, d2, Section);
  }

  lemma {:induction false} ConcatEmptyIff(devices: Devices, render: (string, seq<Item>) -> seq<Block>)
    ensures Concat(devices, render) == [] <==> forall i :: 0 <= i < |devices| ==> render(devices[i].0, devices[i].1) == []
  {
    if devices != [] {
      var n := |devices| - 1;
      ConcatEmptyIff(devices[..n], render);
      assert forall i :: 0 <= i < n ==> devices[..n][i] == devices[i];
    }
  }

  /** The body is empty exactly when no device has an item. */
  lemma BodyEmptyIff(devices: Devices)
    ensures Body(devices) == [] <==> !HasContent(devices)
  {
    ConcatEmptyIff(devices, Section);
    assert forall i :: 0 <= i < |devices| ==> (Section(devices[i].0, devices[i].1) == [] <==> devices[i].1 == []);
  }

  /**
   * `generate_html` returns no document exactly when every device's item list is
   * empty; otherwise the document it returns has at least one block.
   */
  lemma RenderNoneIff(devices: Devices)
    ensures Render(devices) == None <==> forall i :: 0 <= i < |devices| ==> devices[i].1 == []
    ensures Render(devices).Some? ==> Render(devices).value != []
  {
    BodyEmptyIff(devices);
  }

  /**
   * Where each device lands: a device with items starts, right after the blocks
   * of the devices before it, with a header showing its display name (the code
   * itself for an unknown code) and its code, followed by its k-th item's card at
   * position k, in the style of its code.
   */
  lemma SectionPlacement(devices: Devices, i: int, k: int)
    requires 0 <= i < |devices| && 0 <= k < |devices[i].1|
    ensures var body, at, code := Body(devices), |Body(devices[..i])|, devices[i].0;
      && at + 1 + k < |body|
      && body[at] == Header(if code in Config.DeviceNames then Config.DeviceNames[code] else code, code)
      && body[at + 1 + k] == CardFor(devices[i].1[k], GetImageStyle(code))
  {
    BodyAround(devices, i);
    SectionAt(devices[i].0, devices[i].1, k);
  }

  lemma BodyAround(devices: Devices, i: int)
    requires 0 <= i < |devices|
    ensures Body(devices) == Body(devices[..i]) + Section(devices[i].0, devices[i].1) + Body(devices[i + 1..])
  {
    assert devices == devices[..i + 1] + devices[i + 1..];
    BodyAppend(devices[..i + 1], devices[i + 1..]);
    BodyStep(devices, i);
  }

  lemma SectionAt(code: string, items: seq<Item>, k: int)
    requires 0 <= k < |items|
    ensures |Section(code, items)| == 1 + |items|
    ensures Section(code, items)[0] == Header(DeviceName(code), code)
    ensures Section(code, items)[1 + k] == CardFor(items[k], GetImageStyle(code))
  {
    var style := GetImageStyle(code);
    var cards := Cards(items, style);
    assert Section(code, items) == [Header(DeviceName(code), code)] + cards;
    assert cards[k] == CardFor(items[k], style);
  }

  /**
   * The card of an item: missing name and nickname read "Unknown", a missing
   * preview is empty, a missing or zero timestamp reads "N/A", and the counts
   * (0 when missing) are printed so that reading them back gives the counts exactly.
   */
  lemma CardFields(item: Item, style: ImageStyle)
    ensures var card := CardFor(item, style);
      && card.name == (if item.name.Some? then item.name.value else "Unknown")
      && card.nickname == (if item.nickname.Some? then item.nickname.value else "Unknown")
      && card.preview == (if item.preview.Some? then item.preview.value else "")
      && (card.updated == Text("N/A") <==> item.updatedAt == None || item.updatedAt == Some(0))
      && ParseInt(card.downloads) == Some(if item.downloadTimes.Some? then item.downloadTimes.value else 0)
      && ParseInt(card.views) == Some(if item.views.Some? then item.views.value else 0)
  {
    IntRoundTrip(item.downloadTimes.GetOr(0));
    IntRoundTrip(item.views.GetOr(0));
  }

  /** One device with one item renders as exactly one header and one card. */
  lemma SingleItemReport(code: string, item: Item)
    ensures Render([(code, [item])]) == Some([Header(DeviceName(code), code), CardFor(item, GetImageStyle(code))])
  {
    var single: Devices := [(code, [item])];
    assert single[0].1 != [];
    ConcatOne(code, [item], Section);
    var style := GetImageStyle(code);
    assert Cards([item], style) == [CardFor(item, style)];
    assert Body(single) == [Header(DeviceName(code), code)] + [CardFor(item, style)];
    assert [Header(DeviceName(code), code)] + [CardFor(item, style)] == [Header(DeviceName(code), code), CardFor(item, style)];
  }

  // ---------------------------------------------------------------------------
  // Reading the section structure back from the blocks
  // ---------------------------------------------------------------------------

  /**
   * The outline of a block sequence: each header with the number of cards that
   * follow it before the next header. A card before any header belongs to no section.
   */
  function Outline(blocks: seq<Block>): seq<(Block, nat)> {
    if blocks == [] then []
    else
      var prev := Outline(blocks[..|blocks| - 1]);
      var b := blocks[|blocks| - 1];
      if b.Header? then prev + [(b, 0)]
      else if prev == [] then []
      else CountOneMore(prev)
  }

  /** The outline with one more card in its last section. */
  function CountOneMore(outline: seq<(Block, nat)>): seq<(Block, nat)>
    requires outline != []
  {
    var n := |outline| - 1;
    outline[..n] + [(outline[n].0, outline[n].1 + 1)]
  }

  lemma CountOneMoreAppend(p: seq<(Block, nat)>, q: seq<(Block, nat)>)
    requires q != []
    ensures CountOneMore(p + q) == p + CountOneMore(q)
  {
    var n := |q| - 1;
    assert (p + q)[..|p| + n] == p + q[..n];
    assert (p + q)[|p| + n] == q[n];
  }

  /** The expected outline: one entry per device with items, carrying its header and its number of items. */
  function Sections(devices: Devices): seq<(Block, nat)> {
    if devices == [] then []
    else
      var (code, items) := devices[|devices| - 1];
      Sections(devices[..|devices| - 1]) + (if items == [] then [] else [(Header(DeviceName(code), code), |items|)])
  }

  lemma {:induction false} OutlineNonEmpty(blocks: seq<Block>)
    requires blocks != [] && blocks[0].Header?
    ensures Outline(blocks) != []
  {
    var n := |blocks| - 1;
    if n > 0 && !blocks[n].Header? {
      assert blocks[..n][0] == blocks[0];
      OutlineNonEmpty(blocks[..n]);
    }
  }

  /** A block sequence that starts with a header starts a fresh section. */
  lemma {:induction false} OutlineAppend(a: seq<Block>, b: seq<Block>)
    requires b == [] || b[0].Header?
    ensures Outline(a + b) == Outline(a) + Outline(b)
  {
    if b == [] {
      assert a + b == a;
    } else {
      var n := |b| - 1;
      var b', last := b[..n], b[n];
      assert a + b == (a + b') + [last];
      assert b == b' + [last];
      OutlineSnoc(a + b', last);
      OutlineSnoc(b', last);
      if n > 0 {
        assert b'[0] == b[0];
      }
      OutlineAppend(a, b');
      if !last.Header? {
        OutlineNonEmpty(b');
        CountOneMoreAppend(Outline(a), Outline(b'));
      }
    }
  }

  lemma OutlineSnoc(blocks: seq<Block>, x: Block)
    ensures Outline(blocks + [x]) ==
      if x.Header? then Outline(blocks) + [(x, 0)]
      else if Outline(blocks) == [] then []
      else CountOneMore(Outline(blocks))
  {
    assert (blocks + [x])[..|blocks|] == blocks;
  }

  lemma {:induction false} OutlineOfSection(h: Block, cards: seq<Block>)
    requires h.Header?
    requires forall j :: 0 <= j < |cards| ==> cards[j].Card?
    ensures Outline([h] + cards) == [(h, |cards|)]
  {
    if cards == [] {
      assert [h] + cards == [h];
      assert [h][..0] == [];
    } else {
      var n := |cards| - 1;
      assert ([h] + cards)[..|cards|] == [h] + cards[..n];
      assert ([h] + cards)[|cards|] == cards[n];
      OutlineOfSection(h, cards[..n]);
    }
  }

  /**
   * Reading the body back: it holds exactly one header per device with items,
   * in the devices' order, each followed by exactly as many cards as the device
   * has items; devices without items leave no trace.
   */
  lemma {:induction false} OutlineOfBody(devices: Devices)
    ensures Outline(Body(devices)) == Sections(devices)
  {
    if devices != [] {
      var n := |devices| - 1;
      var (code, items) := devices[n];
      OutlineOfBody(devices[..n]);
      BodyStep(devices, n);
      assert devices[..n + 1] == devices;
      if items == [] {
        assert Body(devices) == Body(devices[..n]);
      } else {
        var h := Header(DeviceName(code), code);
        var cards := Cards(items, GetImageStyle(code));
        OutlineAppend(Body(devices[..n]), [h] + cards);
        OutlineOfSection(h, cards);
      }
    }
  }
}
