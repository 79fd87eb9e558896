/**
 * Parsing of the TARGET_TYPES setting: the comma-separated list of device codes
 * to monitor. The string is split on ',', each piece is stripped of surrounding
 * whitespace as Python's `str.strip()` does, and empty pieces are dropped.
 */
module Targets {
  import opened Wrappers
  import Config

  /** The characters for which Python's `str.isspace()` holds; `str.strip()` removes exactly these. */
  predicate IsSpace(c: char) {
    || c == ' '
    || '\t' <= c <= '\r'
    || '\U{001C}' <= c <= '\U{001F}'
    || c == '\U{0085}' || c == '\U{00A0}' || c == '\U{1680}'
    || '\U{2000}' <= c <= '\U{200A}'
    || c == '\U{2028}' || c == '\U{2029}' || c == '\U{202F}' || c == '\U{205F}' || c == '\U{3000}'
  }

  predicate AllSpace(s: string) {
    forall i :: 0 <= i < |s| ==> IsSpace(s[i])
  }

  /** Neither end of `s` is whitespace. */
  predicate IsStripped(s: string) {
    s == [] || (!IsSpace(s[0]) && !IsSpace(s[|s| - 1]))
  }

  // ---------------------------------------------------------------------------
  // str.split(sep)
  // ---------------------------------------------------------------------------

  /** Python's `s.split(sep)` for a one-character separator: always at least one piece. */
  function Split(s: string, sep: char): (parts: seq<string>)
    ensures |parts| >= 1
    ensures forall i :: 0 <= i < |parts| ==> sep !in parts[i]
  {
    if s == [] then [""]
    else
      var rest := Split(s[1..], sep);
      if s[0] == sep then [""] + rest
      else [[s[0]] + rest[0]] + rest[1..]
  }

  /** `sep.join(parts)`: the inverse of Split. */
  function Join(parts: seq<string>, sep: char): string
    requires |parts| >= 1
  {
    if |parts| == 1 then parts[0] else parts[0] + [sep] + Join(parts[1..], sep)
  }

  /** Joining the pieces of a split gives back the original string. */
  lemma {:induction false} JoinSplit(s: string, sep: char)
    ensures Join(Split(s, sep), sep) == s
  {
    if s != [] {
      var rest := Split(s[1..], sep);
      JoinSplit(s[1..], sep);
      if s[0] == sep {
        assert Split(s, sep) == [""] + rest;
        assert Split(s, sep)[1..] == rest;
      } else {
        var parts := Split(s, sep);
        assert parts == [[s[0]] + rest[0]] + rest[1..];
        if |rest| == 1 {
          assert parts == [[s[0]] + rest[0]];
        } else {
          assert parts[1..] == rest[1..];
          assert Join(parts, sep) == [s[0]] + (rest[0] + [sep] + Join(rest[1..], sep));
        }
      }
    }
  }

  /** Splitting at a separator that follows `a` splits `a` and `b` independently. */
  lemma {:induction false} SplitAppend(a: string, b: string, sep: char)
    ensures Split(a + [sep] + b, sep) == Split(a, sep) + Split(b, sep)
  {
    var s := a + [sep] + b;
    var splitB := Split(b, sep);
    if a == [] {
      assert s[0] == sep && s[1..] == b;
    } else {
      assert s[0] == a[0] && s[1..] == a[1..] + [sep] + b;
      var restA := Split(a[1..], sep);
      var rest := Split(s[1..], sep);
      assert rest == restA + splitB by {
        SplitAppend(a[1..], b, sep);
      }
      if a[0] == sep {
        calc {
          Split(s, sep);
          [""] + rest;
          ([""] + restA) + splitB;
          Split(a, sep) + splitB;
        }
      } else {
        assert rest[0] == restA[0] && rest[1..] == restA[1..] + splitB;
        calc {
          Split(s, sep);
          [[a[0]] + rest[0]] + rest[1..];
          ([[a[0]] + restA[0]] + restA[1..]) + splitB;
          Split(a, sep) + splitB;
        }
      }
    }
  }

  /** Splitting a join of separator-free pieces gives back the pieces. */
  lemma {:induction false} SplitJoin(parts: seq<string>, sep: char)
    requires |parts| >= 1
    requires forall i :: 0 <= i < |parts| ==> sep !in parts[i]
    ensures Split(Join(parts, sep), sep) == parts
  {
    if |parts| == 1 {
      SplitNoSep(parts[0], sep);
    } else {
      SplitNoSep(parts[0], sep);
      SplitJoin(parts[1..], sep);
      SplitAppend(parts[0], Join(parts[1..], sep), sep);
      assert parts == [parts[0]] + parts[1..];
    }
  }

  lemma {:induction false} SplitNoSep(s: string, sep: char)
    requires sep !in s
    ensures Split(s, sep) == [s]
  {
    if s != [] {
      assert sep !in s[1..] by {
        forall i | 0 <= i < |s[1..]| ensures s[1..][i] != sep {
          assert s[1..][i] == s[i + 1];
        }
      }
      SplitNoSep(s[1..], sep);
      assert [s[0]] + s[1..] == s;
    }
  }

  // ---------------------------------------------------------------------------
  // str.strip()
  // ---------------------------------------------------------------------------

  /** The first position at or after `i` that does not hold whitespace (`|s|` if none). */
  function SkipSpace(s: string, i: nat): (j: nat)
    requires i <= |s|
    ensures i <= j <= |s|
    ensures forall k :: i <= k < j ==> IsSpace(s[k])
    ensures j < |s| ==> !IsSpace(s[j])
    decreases |s| - i
  {
    if i < |s| && IsSpace(s[i]) then SkipSpace(s, i + 1) else i
  }

  /** The end of `s[lo..hi]` once its trailing whitespace is removed. */
  function SkipSpaceBack(s: string, lo: nat, hi: nat): (j: nat)
    requires lo <= hi <= |s|
    ensures lo <= j <= hi
    ensures forall k :: j <= k < hi ==> IsSpace(s[k])
    ensures j > lo ==> !IsSpace(s[j - 1])
    decreases hi
  {
    if hi > lo && IsSpace(s[hi - 1]) then SkipSpaceBack(s, lo, hi - 1) else hi
  }

  /**
   * `s.strip()`: the infix of `s` that remains once its leading and trailing
   * whitespace is removed; neither of its ends is whitespace.
   */
  function Strip(s: string): (r: string)
    ensures IsStripped(r)
    ensures |r| <= |s|
    ensures exists i :: 0 <= i <= |s| - |r| && r == s[i..i + |r|] && AllSpace(s[..i]) && AllSpace(s[i + |r|..])
  {
    var i := SkipSpace(s, 0);
    var j := SkipSpaceBack(s, i, |s|);
    assert AllSpace(s[..i]) by {
      forall k | 0 <= k < i ensures IsSpace(s[..i][k]) {
        assert s[..i][k] == s[k];
      }
    }
    assert AllSpace(s[j..]) by {
      forall k | 0 <= k < |s| - j ensures IsSpace(s[j..][k]) {
        assert s[j..][k] == s[j + k];
      }
    }
    s[i..j]
  }

  /** A string whose ends are not whitespace is left alone by Strip. */
  lemma StripStripped(s: string)
    requires IsStripped(s)
    ensures Strip(s) == s
  {
  }

  // ---------------------------------------------------------------------------
  // TARGET_TYPES
  // ---------------------------------------------------------------------------

  /** `[t.strip() for t in tokens if t.strip()]`. */
  function KeepStripped(tokens: seq<string>): (codes: seq<string>)
    ensures |codes| <= |tokens|
    ensures forall i :: 0 <= i < |codes| ==> codes[i] != "" && IsStripped(codes[i])
  {
    if tokens == [] then []
    else
      var t := Strip(tokens[0]);
      (if t != "" then [t] else []) + KeepStripped(tokens[1..])
  }

  lemma {:induction false} KeepStrippedAppend(a: seq<string>, b: seq<string>)
    ensures KeepStripped(a + b) == KeepStripped(a) + KeepStripped(b)
  {
    if a == [] {
      assert a + b == b;
    } else {
      var t := Strip(a[0]);
      var head: seq<string> := if t != "" then [t] else [];
      assert (a + b)[0] == a[0];
      assert (a + b)[1..] == a[1..] + b;
      calc {
        KeepStripped(a + b);
        head + KeepStripped(a[1..] + b);
        { KeepStrippedAppend(a[1..], b); }
        head + (KeepStripped(a[1..]) + KeepStripped(b));
        (head + KeepStripped(a[1..])) + KeepStripped(b);
        KeepStripped(a) + KeepStripped(b);
      }
    }
  }

  /** The device codes named by a TARGET_TYPES string. */
  function ParseTargets(s: string): (codes: seq<string>)
    ensures forall i :: 0 <= i < |codes| ==> codes[i] != "" && IsStripped(codes[i]) && ',' !in codes[i]
  {
    var tokens := Split(s, ',');
    var codes := KeepStripped(tokens);
    assert forall i :: 0 <= i < |codes| ==> ',' !in codes[i] by {
      NoSepInKept(tokens, ',');
    }
    codes
  }

  lemma {:induction false} NoSepInKept(tokens: seq<string>, sep: char)
    requires forall i :: 0 <= i < |tokens| ==> sep !in tokens[i]
    ensures forall i :: 0 <= i < |KeepStripped(tokens)| ==> sep !in KeepStripped(tokens)[i]
  {
    if tokens != [] {
      NoSepInKept(tokens[1..], sep);
      var t := Strip(tokens[0]);
      var j := SkipSpace(tokens[0], 0);
      assert t == tokens[0][j..SkipSpaceBack(tokens[0], j, |tokens[0]|)];
      assert sep !in t by {
        forall k | 0 <= k < |t| ensures t[k] != sep {
          assert t[k] == tokens[0][j + k];
        }
      }
    }
  }

  /** The TARGET_TYPES string: the environment's value when set (even if empty), else the default list. */
  function TargetTypesString(env: Option<string>): (s: string)
    ensures env.Some? ==> s == env.value
    ensures env.None? ==> s == Config.DefaultTargetTypes
  {
    env.GetOr(Config.DefaultTargetTypes)
  }

  /** The device codes the monitor queries, in order. */
  function TargetTypes(env: Option<string>): (codes: seq<string>)
    ensures forall i :: 0 <= i < |codes| ==> codes[i] != "" && IsStripped(codes[i]) && ',' !in codes[i]
  {
    ParseTargets(TargetTypesString(env))
  }

  /** Parsing a comma-joined string parses each part independently and keeps their order. */
  lemma ParseTargetsAppend(a: string, b: string)
    ensures ParseTargets(a + "," + b) == ParseTargets(a) + ParseTargets(b)
  {
    SplitAppend(a, b, ',');
    KeepStrippedAppend(Split(a, ','), Split(b, ','));
  }

  /**
   * Round trip: joining non-empty, comma-free codes that have no surrounding
   * whitespace with "," and parsing the result gives back exactly those codes.
   */
  lemma ParseJoinedTargets(codes: seq<string>)
    requires |codes| >= 1
    requires forall i :: 0 <= i < |codes| ==> codes[i] != "" && IsStripped(codes[i]) && ',' !in codes[i]
    ensures ParseTargets(Join(codes, ',')) == codes
  {
    SplitJoin(codes, ',');
    KeptUnchanged(codes);
  }

  lemma {:induction false} KeptUnchanged(codes: seq<string>)
    requires forall i :: 0 <= i < |codes| ==> codes[i] != "" && IsStripped(codes[i])
    ensures KeepStripped(codes) == codes
  {
    if codes != [] {
      var tail := codes[1..];
      KeptUnchanged(tail);
      calc {
        KeepStripped(codes);
        { StripStripped(codes[0]); }
        [codes[0]] + KeepStripped(tail);
        [codes[0]] + tail;
      }
    }
  }

  /** Without the environment variable the monitor queries p65, o66 and n67, in that order. */
  lemma DefaultTargets()
    ensures TargetTypes(None) == ["p65", "o66", "n67"]
  {
    var codes := ["p65", "o66", "n67"];
    assert Join(codes, ',') == Config.DefaultTargetTypes;
    ParseJoinedTargets(codes);
  }

  /** An environment variable that is set but empty yields no targets at all. */
  lemma EmptySettingHasNoTargets()
    ensures TargetTypes(Some("")) == []
  {
  }

  /** A string without commas names at most one code: itself, stripped. */
  lemma ParseSingle(s: string)
    requires ',' !in s
    ensures ParseTargets(s) == if Strip(s) == "" then [] else [Strip(s)]
  {
    SplitNoSep(s, ',');
  }
}
