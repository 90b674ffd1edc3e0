/** The market list: `POLYMARKET_MARKETS` split on commas, each piece
    stripped of surrounding whitespace, empty pieces dropped; an empty
    variable stops the process before any polling. */
module Config {
  import opened Wrappers

  /** The characters Python's `str.strip()` removes (those `str.isspace()`
      accepts). */
  predicate IsSpace(c: char) {
    || c == ' ' || c == '\t' || c == '\n' || c == '\r' || c == '\U{0B}' || c == '\U{0C}'
    || ('\U{1C}' <= c <= '\U{1F}') || c == '\U{85}' || c == '\U{A0}' || c == '\U{1680}'
    || ('\U{2000}' <= c <= '\U{200A}') || c == '\U{2028}' || c == '\U{2029}'
    || c == '\U{202F}' || c == '\U{205F}' || c == '\U{3000}'
  }

  predicate AllSpace(s: string) {
    forall k :: 0 <= k < |s| ==> IsSpace(s[k])
  }

  /** A non-empty string that neither starts nor ends with whitespace. */
  predicate Trimmed(x: string) {
    x != [] && !IsSpace(x[0]) && !IsSpace(x[|x| - 1])
  }

  /** The first index at or after `i` that does not hold whitespace (or
      `|s|`): where `str.lstrip()` starts cutting no more. */
  function SkipSpaces(s: string, i: nat): (j: nat)
    requires i <= |s|
    ensures i <= j <= |s|
    ensures forall k :: i <= k < j ==> IsSpace(s[k])
    ensures j < |s| ==> !IsSpace(s[j])
    decreases |s| - i
  {
    if i < |s| && IsSpace(s[i]) then SkipSpaces(s, i + 1) else i
  }

  /** The least index `e`, not below `lo`, such that only whitespace lies
      between `e` and `j`: where `str.rstrip()` stops cutting. */
  function BackSpaces(s: string, lo: nat, j: nat): (e: nat)
    requires lo <= j <= |s|
    ensures lo <= e <= j
    ensures forall k :: e <= k < j ==> IsSpace(s[k])
    ensures e > lo ==> !IsSpace(s[e - 1])
    decreases j
  {
    if j > lo && IsSpace(s[j - 1]) then BackSpaces(s, lo, j - 1) else j
  }

  /** `str.strip()`: the middle of `s` once its leading and trailing
      whitespace are cut off. */
  function Strip(s: string): (r: string)
    ensures |r| <= |s|
    ensures r != [] ==> Trimmed(r)
  {
    var lo := SkipSpaces(s, 0);
    var hi := BackSpaces(s, lo, |s|);
    assert hi > lo ==> s[lo..hi][0] == s[lo] && s[lo..hi][hi - lo - 1] == s[hi - 1];
    s[lo..hi]
  }

  /** What `Strip` removes: `s` is the result with whitespace before it
      (the first `i` characters) and whitespace after it. */
  lemma StripIsFactor(s: string) returns (i: nat)
    ensures i + |Strip(s)| <= |s|
    ensures s[i..i + |Strip(s)|] == Strip(s)
    ensures AllSpace(s[..i]) && AllSpace(s[i + |Strip(s)|..])
  {
    i := SkipSpaces(s, 0);
    var hi := BackSpaces(s, i, |s|);
    assert Strip(s) == s[i..hi];
    assert forall k :: 0 <= k < i ==> s[..i][k] == s[k];
    assert forall k :: 0 <= k < |s| - hi ==> s[hi..][k] == s[hi + k];
  }

  /** The converse: whitespace around a string that neither starts nor ends
      with whitespace is exactly what `Strip` takes away. Together with
      `StripIsFactor` this pins `Strip` down completely. */
  lemma StripUnique(before: string, r: string, after: string)
    requires AllSpace(before) && AllSpace(after)
    requires r != [] ==> Trimmed(r)
    ensures Strip(before + r + after) == r
  {
    var s := before + r + after;
    var lo := SkipSpaces(s, 0);
    var hi := BackSpaces(s, lo, |s|);
    assert forall k :: 0 <= k < |before| ==> s[k] == before[k];
    assert forall k :: 0 <= k < |r| ==> s[|before| + k] == r[k];
    assert forall k :: 0 <= k < |after| ==> s[|before| + |r| + k] == after[k];
    if r == [] {
      assert forall k :: 0 <= k < |s| ==> IsSpace(s[k]) by {
        forall k | 0 <= k < |s| ensures IsSpace(s[k]) {
          if k >= |before| { assert s[|before| + |r| + (k - |before|)] == s[k]; }
        }
      }
      assert lo == |s|;
    } else {
      assert !IsSpace(s[|before|]);
      assert lo == |before|;
      assert !IsSpace(s[|before| + |r| - 1]);
      assert forall k :: |before| + |r| <= k < |s| ==> IsSpace(s[k]) by {
        forall k | |before| + |r| <= k < |s| ensures IsSpace(s[k]) {
          assert s[|before| + |r| + (k - |before| - |r|)] == s[k];
        }
      }
      assert hi == |before| + |r|;
      assert s[lo..hi] == r;
    }
  }

  /** A stripped string is empty exactly when the original was all
      whitespace. */
  lemma StripEmpty(s: string)
    ensures Strip(s) == [] <==> AllSpace(s)
  {
    var lo := SkipSpaces(s, 0);
    var hi := BackSpaces(s, lo, |s|);
    assert Strip(s) == s[lo..hi];
    if AllSpace(s) {
      assert lo == |s|;
    }
  }

  /** Reassembles comma-separated pieces: the inverse of `Split`. */
  function Join(parts: seq<string>): (s: string)
    decreases |parts|
  {
    if |parts| == 0 then ""
    else if |parts| == 1 then parts[0]
    else parts[0] + [','] + Join(parts[1..])
  }

  /** `str.split(",")`: the pieces between commas, an empty piece wherever
      two commas meet or a comma opens or closes the string, and `[""]` for
      the empty string. */
  function Split(s: string): (parts: seq<string>)
    ensures |parts| >= 1
    ensures forall i :: 0 <= i < |parts| ==> ',' !in parts[i]
    decreases |s|
  {
    if |s| == 0 then [""]
    else
      var rest := Split(s[1..]);
      if s[0] == ',' then [""] + rest
      else [[s[0]] + rest[0]] + rest[1..]
  }

  /** Regrouping a concatenation around a comma. */
  lemma PrependAssoc(ch: char, a: string, b: string)
    ensures ([ch] + a) + [','] + b == [ch] + (a + [','] + b)
  {
  }

  /** Prefixing the first piece with a character prefixes the join. */
  lemma JoinExtendsFirst(ch: char, parts: seq<string>)
    requires |parts| >= 1
    ensures Join([[ch] + parts[0]] + parts[1..]) == [ch] + Join(parts)
  {
    var ext := [[ch] + parts[0]] + parts[1..];
    if |parts| > 1 {
      assert ext[1..] == parts[1..];
      PrependAssoc(ch, parts[0], Join(parts[1..]));
    }
  }

  /** Rejoining the pieces with commas gives back the split string. */
  lemma {:induction false} JoinSplit(s: string)
    ensures Join(Split(s)) == s
    decreases |s|
  {
    if |s| > 0 {
      JoinSplit(s[1..]);
      var rest := Split(s[1..]);
      if s[0] == ',' {
        assert ([""] + rest)[1..] == rest;
      } else {
        JoinExtendsFirst(s[0], rest);
        assert s == [s[0]] + s[1..];
      }
    }
  }

  /** Splitting is the inverse of joining comma-free pieces as well. */
  lemma {:induction false} SplitJoin(parts: seq<string>)
    requires |parts| >= 1
    requires forall i :: 0 <= i < |parts| ==> ',' !in parts[i]
    ensures Split(Join(parts)) == parts
    decreases |parts|
  {
    if |parts| == 1 {
      SplitCommaFree(parts[0]);
    } else {
      SplitJoin(parts[1..]);
      SplitAround(parts[0], Join(parts[1..]));
      SplitCommaFree(parts[0]);
      assert parts == [parts[0]] + parts[1..];
    }
  }

  /** A comma-free string is a single piece. */
  lemma {:induction false} SplitCommaFree(s: string)
    requires ',' !in s
    ensures Split(s) == [s]
    decreases |s|
  {
    if |s| > 0 {
      assert s[1..] == s[|s| - (|s| - 1)..];
      assert ',' !in s[1..];
      SplitCommaFree(s[1..]);
      assert s == [s[0]] + s[1..];
    }
  }

  /** A comma separates the pieces on its left from those on its right. */
  lemma {:induction false} SplitAround(a: string, b: string)
    ensures Split(a + [','] + b) == Split(a) + Split(b)
    decreases |a|
  {
    if |a| == 0 {
      assert a + [','] + b == [','] + b;
      assert ([','] + b)[1..] == b;
    } else {
      var s := a + [','] + b;
      assert s[0] == a[0];
      assert s[1..] == a[1..] + [','] + b;
      SplitAround(a[1..], b);
    }
  }

  /** Stripping never introduces a character. */
  lemma StripKeepsOut(s: string, c: char)
    requires c !in s
    ensures c !in Strip(s)
  {
    var i := StripIsFactor(s);
    var r := Strip(s);
    assert forall k :: 0 <= k < |r| ==> r[k] == s[i + k];
  }

  /** The comprehension `[m.strip() for m in pieces if m.strip()]`. */
  function KeepNonEmpty(pieces: seq<string>): (ids: seq<string>)
    ensures |ids| <= |pieces|
    ensures forall i :: 0 <= i < |ids| ==> Trimmed(ids[i])
    decreases |pieces|
  {
    if |pieces| == 0 then []
    else
      var tail := KeepNonEmpty(pieces[1..]);
      var head := Strip(pieces[0]);
      if head == [] then tail
      else
        assert Trimmed(head);
        assert forall i :: 1 <= i < |tail| + 1 ==> ([head] + tail)[i] == tail[i - 1];
        [head] + tail
  }

  /** Comma-free pieces give comma-free identifiers. */
  lemma {:induction false} KeepNonEmptyCommaFree(pieces: seq<string>)
    requires forall i :: 0 <= i < |pieces| ==> ',' !in pieces[i]
    ensures forall i :: 0 <= i < |KeepNonEmpty(pieces)| ==> ',' !in KeepNonEmpty(pieces)[i]
    decreases |pieces|
  {
    if |pieces| > 0 {
      assert forall i :: 0 <= i < |pieces| - 1 ==> pieces[1..][i] == pieces[i + 1];
      KeepNonEmptyCommaFree(pieces[1..]);
      StripKeepsOut(pieces[0], ',');
    }
  }

  /** Some piece strips to `x`. */
  predicate StripsTo(pieces: seq<string>, x: string) {
    exists i :: 0 <= i < |pieces| && Strip(pieces[i]) == x
  }

  lemma StripsToCons(pieces: seq<string>, x: string)
    requires |pieces| > 0
    ensures StripsTo(pieces, x) <==> Strip(pieces[0]) == x || StripsTo(pieces[1..], x)
  {
    if StripsTo(pieces, x) && Strip(pieces[0]) != x {
      var i :| 0 <= i < |pieces| && Strip(pieces[i]) == x;
      assert pieces[1..][i - 1] == pieces[i];
    }
    if StripsTo(pieces[1..], x) {
      var j :| 0 <= j < |pieces| - 1 && Strip(pieces[1..][j]) == x;
      assert pieces[j + 1] == pieces[1..][j];
    }
  }

  /** An identifier is listed exactly when it is the non-empty stripped form
      of some piece. */
  lemma {:induction false} KeepNonEmptyMembers(pieces: seq<string>, x: string)
    ensures x in KeepNonEmpty(pieces) <==> x != [] && StripsTo(pieces, x)
    decreases |pieces|
  {
    if |pieces| > 0 {
      KeepNonEmptyMembers(pieces[1..], x);
      StripsToCons(pieces, x);
    }
  }

  /** The comprehension works piece by piece. */
  lemma {:induction false} KeepNonEmptyAppend(a: seq<string>, b: seq<string>)
    ensures KeepNonEmpty(a + b) == KeepNonEmpty(a) + KeepNonEmpty(b)
    decreases |a|
  {
    if |a| == 0 {
      assert a + b == b;
    } else {
      assert (a + b)[0] == a[0];
      assert (a + b)[1..] == a[1..] + b;
      KeepNonEmptyAppend(a[1..], b);
    }
  }

  /** `MARKETS`: the identifiers read from `POLYMARKET_MARKETS`, at most
      one per piece, each non-empty, trimmed and free of commas. */
  function MarketIds(env: string): (ids: seq<string>)
    ensures |ids| <= |Split(env)|
    ensures forall i :: 0 <= i < |ids| ==> Trimmed(ids[i]) && ',' !in ids[i]
  {
    KeepNonEmptyCommaFree(Split(env));
    KeepNonEmpty(Split(env))
  }

  /** Start-up configuration: `None` is the `SystemExit` raised for an empty
      variable. A variable holding only commas and whitespace passes that
      test. */
  function ParseMarkets(env: string): (r: Option<seq<string>>)
    ensures r.None? <==> env == ""
    ensures r.Some? ==> r.value == MarketIds(env)
    ensures r.Some? ==> forall i :: 0 <= i < |r.value| ==>
              Trimmed(r.value[i]) && ',' !in r.value[i]
  {
    if env == "" then None else Some(MarketIds(env))
  }

  /** The identifiers keep the order in which they appear in the variable:
      the identifiers of `a,b` are those of `a` followed by those of `b`. */
  lemma MarketIdsInOrder(a: string, b: string)
    ensures MarketIds(a + [','] + b) == MarketIds(a) + MarketIds(b)
  {
    SplitAround(a, b);
    KeepNonEmptyAppend(Split(a), Split(b));
  }

  /** One identifier with no comma, padded with whitespace, reads as itself. */
  lemma MarketIdsSingle(s: string)
    requires ',' !in s && Strip(s) != []
    ensures MarketIds(s) == [Strip(s)]
  {
    SplitCommaFree(s);
  }

  /** A variable of commas and whitespace only passes the empty-variable test
      and yields no markets at all. */
  lemma OnlySeparatorsYieldNoMarkets(env: string)
    requires env != ""
    requires forall k :: 0 <= k < |env| ==> env[k] == ',' || IsSpace(env[k])
    ensures ParseMarkets(env) == Some([])
  {
    NoIdsFromSeparators(env);
  }

  /** Commas and whitespace alone hold no identifier. */
  lemma {:induction false} NoIdsFromSeparators(env: string)
    requires forall k :: 0 <= k < |env| ==> env[k] == ',' || IsSpace(env[k])
    ensures MarketIds(env) == []
    decreases |env|
  {
    if ',' !in env {
      SplitCommaFree(env);
      assert AllSpace(env);
    } else {
      var i :| 0 <= i < |env| && env[i] == ',';
      assert env == env[..i] + [','] + env[i + 1..];
      var right := env[i + 1..];
      forall k | 0 <= k < |right|
        ensures right[k] == ',' || IsSpace(right[k])
      {
        assert right[k] == env[i + 1 + k];
      }
      NoIdsFromSeparators(env[..i]);
      NoIdsFromSeparators(env[i + 1..]);
      MarketIdsInOrder(env[..i], env[i + 1..]);
    }
  }
}
