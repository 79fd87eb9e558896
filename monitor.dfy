/**
 * The script's entry point: fetch every target device once, keep each accepted
 * payload's items in an insertion-ordered mapping from device code to items,
 * render the report, and choose what goes into the e-mail body. The fetches
 * themselves are inputs: `fetched[i]` is what the i-th fetch returned.
 */
module Monitor {
  import opened Wrappers
  import opened Targets
  import opened Report

  /** The JSON object a successful fetch returns: its `code` and `data` members (None when missing). */
  datatype Payload = Payload(code: Option<int>, data: Option<seq<Item>>)

  /** The items kept for one fetch: the payload's data (default empty) when its code is 0, else none. */
  function Accepted(fetched: Option<Payload>): seq<Item> {
    if fetched.Some? && fetched.value.code == Some(0) then fetched.value.data.GetOr([]) else []
  }

  // ---------------------------------------------------------------------------
  // The results mapping: a Python dict, kept in insertion order
  // ---------------------------------------------------------------------------

  function Keys(d: Devices): (keys: seq<string>)
    ensures |keys| == |d| && forall i :: 0 <= i < |d| ==> keys[i] == d[i].0
  {
    seq(|d|, i requires 0 <= i < |d| => d[i].0)
  }

  predicate Distinct(s: seq<string>) {
    forall i, j :: 0 <= i < j < |s| ==> s[i] != s[j]
  }

  /** `d.get(key)`. */
  function Lookup(d: Devices, key: string): Option<seq<Item>> {
    if d == [] then None
    else if d[0].0 == key then Some(d[0].1)
    else Lookup(d[1..], key)
  }

  /**
   * `d[key] = value`: a key already present keeps its position and gets the new
   * value; a new key is appended at the end. No other key is affected.
   */
  function Assign(d: Devices, key: string, value: seq<Item>): (r: Devices)
    ensures Lookup(r, key) == Some(value)
    ensures forall k :: k != key ==> Lookup(r, k) == Lookup(d, k)
    ensures key in Keys(d) ==> Keys(r) == Keys(d)
    ensures key !in Keys(d) ==> Keys(r) == Keys(d) + [key]
  {
    if d == [] then [(key, value)]
    else if d[0].0 == key then
      var r := [(key, value)] + d[1..];
      assert r[1..] == d[1..];
      r
    else
      var rest := Assign(d[1..], key, value);
      var r := [d[0]] + rest;
      assert r[1..] == rest;
      assert Keys(d) == [d[0].0] + Keys(d[1..]);
      r
  }

  /** The results mapping after the loop of `main` has handled every target. */
  function ResultsOf(targets: seq<string>, fetched: seq<Option<Payload>>): Devices
    requires |fetched| == |targets|
  {
    if targets == [] then []
    else
      var n := |targets| - 1;
      Assign(ResultsOf(targets[..n], fetched[..n]), targets[n], Accepted(fetched[n]))
  }

  /** The loop of `main` that fills the results mapping, one fetch per target. */
  method BuildResults(targets: seq<string>, fetched: seq<Option<Payload>>) returns (results: Devices)
    requires |fetched| == |targets|
    ensures results == ResultsOf(targets, fetched)
  {
    results := [];
    for i := 0 to |targets|
      invariant results == ResultsOf(targets[..i], fetched[..i])
    {
      var dtype := targets[i];
      var data := fetched[i];
      assert targets[..i + 1][..i] == targets[..i] && fetched[..i + 1][..i] == fetched[..i];
      if data.Some? && data.value.code == Some(0) {
        results := Assign(results, dtype, data.value.data.GetOr([]));
      } else {
        results := Assign(results, dtype, []);
      }
    }
    assert targets[..|targets|] == targets && fetched[..|fetched|] == fetched;
  }

  // ---------------------------------------------------------------------------
  // Properties of the results mapping
  // ---------------------------------------------------------------------------

  /** The codes of `targets` with repeats removed, in order of first appearance. */
  function Dedup(targets: seq<string>): seq<string> {
    if targets == [] then []
    else
      var n := |targets| - 1;
      var prev := Dedup(targets[..n]);
      if targets[n] in prev then prev else prev + [targets[n]]
  }

  lemma {:induction false} DedupSpec(targets: seq<string>)
    ensures Distinct(Dedup(targets))
    ensures forall c :: c in Dedup(targets) <==> c in targets
  {
    if targets != [] {
      var n := |targets| - 1;
      DedupSpec(targets[..n]);
      assert targets == targets[..n] + [targets[n]];
    }
  }

  /**
   * The keys of the results mapping are the target codes, each once, in the
   * order in which they first appear among the targets.
   */
  lemma {:induction false} ResultsKeys(targets: seq<string>, fetched: seq<Option<Payload>>)
    requires |fetched| == |targets|
    ensures Keys(ResultsOf(targets, fetched)) == Dedup(targets)
    ensures Distinct(Keys(ResultsOf(targets, fetched)))
    ensures forall c :: c in Keys(ResultsOf(targets, fetched)) <==> c in targets
  {
    if targets != [] {
      var n := |targets| - 1;
      ResultsKeys(targets[..n], fetched[..n]);
    }
    DedupSpec(targets);
  }

  /**
   * Every target code maps to what its last fetch yielded: the payload's data
   * (default empty) when the fetch returned an object with code 0, and no items
   * otherwise.
   */
  lemma {:induction false} LastFetchWins(targets: seq<string>, fetched: seq<Option<Payload>>, i: int)
    requires |fetched| == |targets| && 0 <= i < |targets|
    requires targets[i] !in targets[i + 1..]
    ensures Lookup(ResultsOf(targets, fetched), targets[i]) == Some(Accepted(fetched[i]))
  {
    var n := |targets| - 1;
    if i < n {
      assert targets[n] in targets[i + 1..];
      assert targets[..n][i + 1..] == targets[i + 1..n];
      assert targets[..n][i] == targets[i] && fetched[..n][i] == fetched[i];
      LastFetchWins(targets[..n], fetched[..n], i);
    }
  }

  /** With no repeated target, the results list every target in order, each with its own fetch's items. */
  lemma {:induction false} DistinctTargetsResults(targets: seq<string>, fetched: seq<Option<Payload>>)
    requires |fetched| == |targets| && Distinct(targets)
    ensures |ResultsOf(targets, fetched)| == |targets|
    ensures forall i :: 0 <= i < |targets| ==> ResultsOf(targets, fetched)[i] == (targets[i], Accepted(fetched[i]))
  {
    if targets != [] {
      var n := |targets| - 1;
      var prev := ResultsOf(targets[..n], fetched[..n]);
      DistinctTargetsResults(targets[..n], fetched[..n]);
      ResultsKeys(targets[..n], fetched[..n]);
      assert targets[n] !in targets[..n] by {
        forall j | 0 <= j < n ensures targets[..n][j] != targets[n] {
          assert targets[..n][j] == targets[j];
        }
      }
      AssignNewKey(prev, targets[n], Accepted(fetched[n]));
    }
  }

  /** Assigning a key that is not present appends it. */
  lemma {:induction false} AssignNewKey(d: Devices, key: string, value: seq<Item>)
    requires key !in Keys(d)
    ensures Assign(d, key, value) == d + [(key, value)]
  {
    if d != [] {
      assert d[0].0 == Keys(d)[0];
      assert key !in Keys(d[1..]) by {
        forall j | 0 <= j < |d| - 1 ensures Keys(d[1..])[j] != key {
          assert Keys(d[1..])[j] == Keys(d)[j + 1];
        }
      }
      AssignNewKey(d[1..], key, value);
      assert d == [d[0]] + d[1..];
    }
  }

  /** In a mapping with distinct keys, looking up the key at position j gives the value at j. */
  lemma {:induction false} LookupAt(d: Devices, j: int)
    requires Distinct(Keys(d)) && 0 <= j < |d|
    ensures Lookup(d, d[j].0) == Some(d[j].1)
  {
    if j > 0 {
      assert Keys(d)[0] != Keys(d)[j];
      assert Distinct(Keys(d[1..])) by {
        forall a, b | 0 <= a < b < |d| - 1 ensures Keys(d[1..])[a] != Keys(d[1..])[b] {
          assert Keys(d)[a + 1] != Keys(d)[b + 1];
        }
      }
      LookupAt(d[1..], j - 1);
    }
  }

  /** The last position at which `c` occurs among the targets. */
  lemma LastOccurrence(targets: seq<string>, c: string) returns (i: int)
    requires c in targets
    ensures 0 <= i < |targets| && targets[i] == c && c !in targets[i + 1..]
  {
    i := |targets| - 1;
    while targets[i] != c
      invariant 0 <= i < |targets|
      invariant c !in targets[i + 1..]
      invariant c in targets[..i + 1]
      decreases i
    {
      assert targets[i..] == [targets[i]] + targets[i + 1..];
      assert targets[..i + 1] == targets[..i] + [targets[i]];
      i := i - 1;
    }
  }

  /**
   * The report is absent exactly when every target's last fetch yielded no
   * items: it failed, its code was not 0, or its data was missing or empty.
   */
  lemma NoReportIff(targets: seq<string>, fetched: seq<Option<Payload>>)
    requires |fetched| == |targets|
    ensures Render(ResultsOf(targets, fetched)) == None <==>
      forall i :: 0 <= i < |targets| && targets[i] !in targets[i + 1..] ==> Accepted(fetched[i]) == []
  {
    var r := ResultsOf(targets, fetched);
    RenderNoneIff(r);
    ResultsKeys(targets, fetched);
    if Render(r) == None {
      forall i | 0 <= i < |targets| && targets[i] !in targets[i + 1..]
        ensures Accepted(fetched[i]) == []
      {
        LastFetchWins(targets, fetched, i);
        assert targets[i] in Keys(r);
        var j :| 0 <= j < |r| && Keys(r)[j] == targets[i];
        LookupAt(r, j);
      }
    } else {
      var j :| 0 <= j < |r| && r[j].1 != [];
      assert r[j].0 in targets by {
        assert Keys(r)[j] == r[j].0;
      }
      var i := LastOccurrence(targets, r[j].0);
      LastFetchWins(targets, fetched, i);
      LookupAt(r, j);
    }
  }

  // ---------------------------------------------------------------------------
  // main
  // ---------------------------------------------------------------------------

  /** What main writes to the e-mail body file: the report, or the fixed "no new data today" notice. */
  datatype EmailBody = ReportBody(blocks: seq<Block>) | NoNewData

  /**
   * `main`, given the TARGET_TYPES setting and what each fetch returned: the
   * e-mail body is the rendered report of the results mapping, or the notice
   * when that mapping has no item at all.
   */
  method RunMonitor(env: Option<string>, fetched: seq<Option<Payload>>) returns (body: EmailBody)
    requires |fetched| == |TargetTypes(env)|
    ensures var results := ResultsOf(TargetTypes(env), fetched);
      && (body == NoNewData <==> forall j :: 0 <= j < |results| ==> results[j].1 == [])
      && (body.ReportBody? ==> body.blocks == Body(results) && body.blocks != [])
  {
    var targets := TargetTypes(env);
    var results := BuildResults(targets, fetched);
    var html := GenerateHtml(results);
    RenderNoneIff(results);
    if html.Some? {
      body := ReportBody(html.value);
    } else {
      body := NoNewData;
    }
  }
}
