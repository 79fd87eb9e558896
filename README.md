# Watch-face report monitor, modelled in Dafny

The monitor is a small script (`monitor.py`). It asks a watch-face catalog API for the newest
faces of a few device models and renders them into the HTML body of a daily e-mail. This project
models the parts of that script that compute something:

- **Target list** (`targets.dfy`, module `Targets`). The `TARGET_TYPES` setting is split on
  commas, each piece is stripped of whitespace as Python's `str.strip()` does, and empty pieces
  are dropped. Splitting and stripping are modelled character by character. Both are proved
  against independent partners: `Join` for the split, and a characterisation of the stripped
  infix for the strip.
- **Image style** (`style.dfy`, module `Style`). This is `get_image_style`. The display width is
  fixed at 80 px. The height is `int(80 * H / W)`: truncation toward zero, written out as
  `TruncDiv` over a quotient computed by repeated subtraction (proved equal to floor division). The corner radius is kept as the exact ratio `R*80 / W`. The reference tables are
  parameters (`StyleFor`), so the `w_raw <= 0` fallback branch can be reached. `GetImageStyle`
  applies the script's own tables (`config.dfy`, module `Config`).
- **Count printing** (`decimal.dfy`, module `Decimal`). The report interpolates integer counts
  with Python's `str`. This module models that and proves that the printed text parses back to
  the count.
- **Report rendering** (`report.dfy`, module `Report`). This is `generate_html`. The document is
  modelled as its sequence of blocks: a `Header(name, code)` per device that has items, then a
  `Card(...)` per item. `Body` concatenates the per-device sections in order. `GenerateHtml` is
  the script's nested loop with its `has_content` flag. It is proved equal to the functional
  specification `Render`. The inner loop collects one device's blocks and then appends them; the
  script appends each block to the page directly, with the same result. The lemmas about `Render` and `Body`
  state what the document contains.
- **Entry point** (`monitor.dfy`, module `Monitor`). This covers the loop of `main` that fills
  the `results` dict. The dict is an insertion-ordered sequence of pairs, and Python's
  `d[k] = v` is modelled by `Assign`. `RunMonitor` models `main` choosing between the report and
  the "no new data" notice. The fetches are an input: `fetched[i]` is what the i-th fetch
  returned.

Two behaviours of the script are easy to misread; the model follows the code:

- A `TARGET_TYPES` variable that is set but empty gives no targets (`os.environ.get` only falls
  back when the variable is missing). It does not give the default list.
- A device code missing from the tables uses a 1×1 reference and a raw radius of 4. The radius
  shown is therefore 4·80/1 = 320 px, not a 4 px radius. The 4 px radius appears only for a
  negative reference width (`Style.UnknownDeviceStyle`, `Style.NegativeWidthFallsBack`).

## Model

| member | source | states |
|---|---|---|
| `Targets.Split` | monitor.py:38 | `s.split(",")` always has at least one piece, and no piece contains the separator |
| `Targets.JoinSplit` | monitor.py:38 | joining the pieces of a split with the separator gives back the original string |
| `Targets.SplitJoin` | monitor.py:38 | splitting a join of separator-free pieces gives back exactly those pieces |
| `Targets.SplitAppend` | monitor.py:38 | the pieces of `a + "," + b` are the pieces of `a` followed by the pieces of `b` |
| `Targets.Strip` | monitor.py:38 | `t.strip()` is an infix of `t` with only whitespace around it, and neither of its ends is whitespace |
| `Targets.StripStripped` | monitor.py:38 | a string with no whitespace at either end is unchanged by strip |
| `Targets.KeepStripped` | monitor.py:38 | the comprehension keeps at most as many entries as there are tokens, each non-empty and stripped |
| `Targets.KeepStrippedAppend` | monitor.py:38 | the comprehension over two token lists is the comprehension over each, in order, so tokens are handled one by one |
| `Targets.ParseTargets` | monitor.py:37-38 | every parsed target code is non-empty, has no surrounding whitespace and contains no comma |
| `Targets.TargetTypesString` | monitor.py:37 | the variable's value whenever it is set, even when empty; the default "p65,o66,n67" only when it is missing |
| `Targets.TargetTypes` | monitor.py:37-38 | the target codes are the parse of that string, each non-empty, without surrounding whitespace and without a comma |
| `Targets.ParseTargetsAppend` | monitor.py:38 | parsing `a + "," + b` gives the codes of `a` followed by the codes of `b`, so order is kept |
| `Targets.ParseSingle` | monitor.py:38 | a comma-free string names no code when it is all whitespace, and otherwise exactly one code: itself stripped; with ParseTargetsAppend this fixes the whole parse |
| `Targets.ParseJoinedTargets` | monitor.py:38 | round trip: comma-joining non-empty, comma-free, stripped codes and parsing gives back exactly those codes |
| `Targets.DefaultTargets` | monitor.py:37-38 | with the variable unset, the targets are p65, o66, n67, in that order |
| `Targets.EmptySettingHasNoTargets` | monitor.py:37-38 | a variable that is set but empty gives no targets |
| `Style.TruncDivRoundsTowardZero` | monitor.py:66 | `int(a / b)` is floor division on a non-negative dividend and positive divisor, and negating either operand negates it |
| `Style.TruncDiv` | monitor.py:66 | `int(a / b)`: the quotient of the magnitudes, negative exactly when one operand is; TruncDivRoundsTowardZero pins it down |
| `Style.StyleFromReference` | monitor.py:65-81 | width 80; the radius is the scaled ratio exactly when the reference width is positive, and a fixed 4 px when it is negative |
| `Style.StyleFor` | monitor.py:60-83 | the display width is always 80; the radius is the proportional ratio exactly when the reference width is positive |
| `Style.GetImageStyle` | monitor.py:60-83 | with the script's tables, the width is 80 and the proportional radius is always used, never the fallback |
| `Style.HeightIsFloor` | monitor.py:65-67 | for W > 0 and H ≥ 0 the height h satisfies h·W ≤ 80·H < (h+1)·W, i.e. it is ⌊80·H/W⌋ |
| `Style.RadiusIsProportional` | monitor.py:70-78 | for W > 0 the radius is the exact ratio num/den with num·W = R·80·den: radius/80 = R/W |
| `Style.StyleIsScaleInvariant` | monitor.py:65-78 | multiplying W, H and R by one positive factor leaves the height and the radius unchanged |
| `Style.KnownDeviceStyles` | monitor.py:60-83 | p65, o66, n67 render at 80×95, 80×196, 80×114 with radii 8160/432, 17840/212, 3840/336 px |
| `Style.UnknownDeviceStyle` | monitor.py:65-78 | an unknown code falls back to (1,1) and R = 4: an 80×80 box with radius 320/1 px |
| `Style.NegativeWidthFallsBack` | monitor.py:73-81 | a negative reference width takes the fallback branch, a fixed 4 px radius |
| `Decimal.NatToStringShape` | monitor.py:154 | a non-negative count prints as at least one decimal digit, only digits, with no leading zero |
| `Decimal.IntToStringShape` | monitor.py:154 | a count prints as decimal digits, with a leading '-' exactly when it is negative, followed by the digits of its magnitude without a leading zero; no grouping separators |
| `Decimal.IntToString` | monitor.py:154 | `str(n)`: a minus sign for a negative n, then the digits of its magnitude; IntToStringShape and IntRoundTrip state its properties |
| `Decimal.IntRoundTrip` | monitor.py:154 | parsing a printed count gives back the count exactly |
| `Decimal.IntToStringInjective` | monitor.py:154 | distinct counts print differently |
| `Report.FormatTs` | monitor.py:56-57 | a missing or zero timestamp shows exactly "N/A"; any other is shown as the local time of that timestamp |
| `Report.DeviceName` | monitor.py:129 | `DEVICE_NAMES.get(code, code)`: the display name of a listed code, else the code itself; SectionPlacement states where it appears |
| `Report.CardFor` | monitor.py:137-159 | the card of one item with the script's defaults; CardFields states what each field shows |
| `Report.Cards` | monitor.py:137-159 | a device's cards are one per item, in the items' order: card k is item k's card in the device's style |
| `Report.Section` | monitor.py:123-159 | a device contributes nothing without items, else its header and its cards; SectionPlacement and OutlineOfBody state the layout |
| `Report.Body` | monitor.py:123-159 | the sections of all devices in the mapping's order; BodyAppend, BodyEmptyIff and OutlineOfBody state its properties |
| `Report.Render` | monitor.py:121-170 | `generate_html`'s result: no document when no device has an item, else the body; RenderNoneIff states this |
| `Report.GenerateHtml` | monitor.py:86-170 | the nested loop with its `has_content` flag returns exactly `Render(all_data)` |
| `Report.BodyAppend` | monitor.py:123-136 | rendering two device lists in sequence gives their blocks in sequence, so device order is kept |
| `Report.EmptyDeviceContributesNothing` | monitor.py:123-125 | a device with an empty item list adds no block, wherever it stands |
| `Report.BodyEmptyIff` | monitor.py:121-127 | the body has no block exactly when no device has an item |
| `Report.RenderNoneIff` | monitor.py:121-170 | `generate_html` returns None exactly when every device's item list is empty; otherwise the document is non-empty |
| `Report.SectionPlacement` | monitor.py:129-159 | right after the blocks of earlier devices, a device's header shows `DEVICE_NAMES[code]` (else the code) with the code, and its k-th card follows at offset 1+k |
| `Report.CardFields` | monitor.py:137-154 | a card shows name/nickname or "Unknown", preview or "", "N/A" for a missing or zero time, and counts (default 0) that parse back exactly |
| `Report.SingleItemReport` | monitor.py:123-159 | one device with one item renders as exactly one header followed by one card |
| `Report.OutlineOfBody` | monitor.py:123-159 | read back from the blocks: one header per device with items, in input order, each followed by exactly as many cards as it has items |
| `Monitor.Assign` | monitor.py:179-181 | `d[k] = v`: afterwards k maps to v and other keys are unchanged; an existing key keeps its position; a new key is appended |
| `Monitor.Accepted` | monitor.py:177-181 | the items a fetch contributes: its `data` (default []) when it returned an object with code 0, else []; LastFetchWins uses it |
| `Monitor.ResultsOf` | monitor.py:175-181 | the results mapping as the fold of `d[k] = v` over the targets; BuildResults, ResultsKeys and LastFetchWins state its properties |
| `Monitor.BuildResults` | monitor.py:175-181 | the loop of `main` yields exactly the fold of `Assign` over the targets and their fetch results |
| `Monitor.DedupSpec` | monitor.py:176-181 | the deduplicated target list has no repeats and the same members as the targets |
| `Monitor.ResultsKeys` | monitor.py:175-181 | the results' keys are the target codes, each once, in order of first appearance |
| `Monitor.LastFetchWins` | monitor.py:176-181 | each target maps to its last fetch's `data` (default []) when that fetch returned code 0, and to [] otherwise |
| `Monitor.DistinctTargetsResults` | monitor.py:175-181 | without repeated targets, entry i is (target i, the items accepted from fetch i) |
| `Monitor.AssignNewKey` | monitor.py:179-181 | assigning a key that is not yet present appends it at the end |
| `Monitor.LookupAt` | monitor.py:179-181 | with distinct keys, looking up the key at position j gives the value at position j |
| `Monitor.NoReportIff` | monitor.py:174-185 | there is no report exactly when every target's last fetch failed, had a code other than 0, or had no items |
| `Monitor.RunMonitor` | monitor.py:174-191 | `main` writes the notice exactly when every result list is empty, and otherwise the rendered blocks, which are non-empty |

## Left out

- `fetch_data` (the HTTP GET with headers, a 15 s timeout and exceptions swallowed into None) is not modelled. Its results are an input: one `Option<Payload>` per fetch.
- The JSON is modelled only for well-typed values. A key that is present with `null`, counts or timestamps that are not integers, a payload that is not an object (where `.get` raises), and `code` values such as `False` or `0.0` (which Python treats as equal to 0) are not modelled.
- `Report.FormatTs` does not compute the text of a non-zero timestamp, because that depends on the local time zone and on `datetime` formatting. Its result there is `LocalTime(ms)`, which stands for the `%Y-%m-%d %H:%M` local time of that timestamp.
- The `.2f` formatting of the radius and all float rounding are not modelled. The radius is the exact ratio, and `int(80 * h / w)` is exact truncation; the two differ only when a float quotient rounds across an integer.
- A reference width of 0 is excluded by a precondition (`Style.WidthsNonZero`) and not modelled as an error. The script divides by the width before testing it and raises ZeroDivisionError; its own tables never have a zero width.
- Text output is not modelled: the CSS, the dated title, the signature, the style strings, and the HTML markup of headers and cards. Interpolated text is not escaped in the script; the model keeps fields as values.
- The `os.environ` read, the file writes of `email_body.html` and the console messages are I/O. The model takes the setting as an `Option<string>` and returns the chosen body as `EmailBody`.
