/** The Python string operations the script builds on, on strings of Unicode scalar values:
    str.isspace, str.strip(), str.replace of one character, str.split with a one-character
    separator, and str.join. */
module Text {

  /** Python's str.isspace() for one character: the 29 code points Python treats as
      whitespace (tab through carriage return, the four information separators, space,
      NEL, no-break space and the Unicode space separators). */
  predicate IsSpace(c: char) {
    || c == ' '
    || ('\t' <= c <= '\r')
    || ('\U{1C}' <= c <= '\U{1F}')
    || c == '\U{85}' || c == '\U{A0}' || c == '\U{1680}'
    || ('\U{2000}' <= c <= '\U{200A}')
    || c == '\U{2028}' || c == '\U{2029}' || c == '\U{202F}' || c == '\U{205F}' || c == '\U{3000}'
  }

  predicate AllSpace(s: string) {
    forall i :: 0 <= i < |s| ==> IsSpace(s[i])
  }

  /** The first index at or after `i` that holds no whitespace, or `|s|` if none does. */
  function SkipSpace(s: string, i: nat): (k: nat)
    requires i <= |s|
    ensures i <= k <= |s|
    ensures forall j :: i <= j < k ==> IsSpace(s[j])
    ensures k < |s| ==> !IsSpace(s[k])
    decreases |s| - i
  {
    if i < |s| && IsSpace(s[i]) then SkipSpace(s, i + 1) else i
  }

  /** Walking back from `j` (but not below `lo`) over whitespace: the end of the text
      before the trailing whitespace. */
  function SkipSpaceBack(s: string, lo: nat, j: nat): (k: nat)
    requires lo <= j <= |s|
    ensures lo <= k <= j
    ensures forall m :: k <= m < j ==> IsSpace(s[m])
    ensures k > lo ==> !IsSpace(s[k - 1])
  {
    if j > lo && IsSpace(s[j - 1]) then SkipSpaceBack(s, lo, j - 1) else j
  }

  /** Python's `s.strip()`: the result neither starts nor ends with whitespace, uses only
      characters of `s`, and is empty exactly when `s` is all whitespace; StripCutsEnds
      says that only leading and trailing whitespace is cut. */
  function Strip(s: string): (r: string)
    ensures r == [] || (!IsSpace(r[0]) && !IsSpace(r[|r| - 1]))
    ensures multiset(r) <= multiset(s)
    ensures r == [] <==> AllSpace(s)
  {
    var a := SkipSpace(s, 0);
    var b := SkipSpaceBack(s, a, |s|);
    SliceKeepsCharacters(s, a, b);
    s[a..b]
  }

  /** `strip()` cuts whitespace off the two ends and nothing else: the result is a middle
      slice of `s` with only whitespace before and after it. */
  lemma StripCutsEnds(s: string)
    ensures exists a, b :: 0 <= a <= b <= |s| && Strip(s) == s[a..b] && AllSpace(s[..a]) && AllSpace(s[b..])
  {
    var a := SkipSpace(s, 0);
    var b := SkipSpaceBack(s, a, |s|);
    assert AllSpace(s[..a]) && AllSpace(s[b..]);
  }

  lemma {:induction false} SliceKeepsCharacters(s: string, i: nat, j: nat)
    requires i <= j <= |s|
    ensures multiset(s[i..j]) <= multiset(s)
  {
    assert s == s[..i] + s[i..j] + s[j..];
  }

  /** Python's `s.replace(from, to)` for single characters. */
  function ReplaceChar(s: string, from: char, to: char): (r: string)
    ensures |r| == |s|
    ensures forall i :: 0 <= i < |s| ==> r[i] == if s[i] == from then to else s[i]
    ensures forall c :: c in r ==> c == to || (c in s && c != from)
  {
    if s == [] then [] else [if s[0] == from then to else s[0]] + ReplaceChar(s[1..], from, to)
  }

  /** Python's `sep.join(parts)`. */
  function Join(parts: seq<string>, sep: string): string {
    if |parts| == 0 then ""
    else if |parts| == 1 then parts[0]
    else parts[0] + sep + Join(parts[1..], sep)
  }

  /** Python's `s.split(sep)` for a one-character separator: there is always at least one
      piece and no piece holds the separator. */
  function Split(s: string, sep: char): (r: seq<string>)
    ensures |r| >= 1
    ensures forall i :: 0 <= i < |r| ==> sep !in r[i]
  {
    if |s| == 0 then [""]
    else
      var rest := Split(s[1..], sep);
      if s[0] == sep then [""] + rest else [[s[0]] + rest[0]] + rest[1..]
  }

  /** Joining the pieces of a split with the separator gives the text back. */
  lemma {:induction false} JoinSplit(s: string, sep: char)
    ensures Join(Split(s, sep), [sep]) == s
  {
    if |s| > 0 {
      JoinSplit(s[1..], sep);
      assert s == [s[0]] + s[1..];
      if s[0] != sep {
        JoinConsFirst(s[0], Split(s[1..], sep), [sep]);
      }
    }
  }

  lemma {:induction false} JoinConsFirst(c: char, parts: seq<string>, sep: string)
    requires |parts| >= 1
    ensures Join([[c] + parts[0]] + parts[1..], sep) == [c] + Join(parts, sep)
  {
  }

  /** A separator splits the text on its two sides independently. */
  lemma {:induction false} SplitAround(a: string, b: string, sep: char)
    ensures Split(a + [sep] + b, sep) == Split(a, sep) + Split(b, sep)
  {
    if a == [] {
      assert a + [sep] + b == [sep] + b;
      SplitAtSeparator(b, sep);
    } else {
      var c, x := a[0], a[1..];
      assert a == [c] + x;
      assert a + [sep] + b == [c] + (x + [sep] + b);
      SplitAround(x, b, sep);
      SplitAroundStep(c, x, b, sep);
    }
  }

  lemma {:induction false} SplitAroundStep(c: char, x: string, b: string, sep: char)
    requires Split(x + [sep] + b, sep) == Split(x, sep) + Split(b, sep)
    ensures Split([c] + (x + [sep] + b), sep) == Split([c] + x, sep) + Split(b, sep)
  {
    var front, tail := Split(x, sep), Split(b, sep);
    if c == sep {
      SplitAtSeparator(x + [sep] + b, sep);
      SplitAtSeparator(x, sep);
      AppendAssociates([""], front, tail);
    } else {
      SplitAtOther(c, x + [sep] + b, sep);
      SplitAtOther(c, x, sep);
      var y := [c] + front[0];
      assert (front + tail)[0] == front[0] && (front + tail)[1..] == front[1..] + tail;
      AppendAssociates([y], front[1..], tail);
    }
  }

  /** One step of the split: a leading separator closes an empty piece... */
  lemma {:induction false} SplitAtSeparator(x: string, sep: char)
    ensures Split([sep] + x, sep) == [""] + Split(x, sep)
  {
    assert ([sep] + x)[1..] == x;
  }

  /** ... and any other character opens the first piece. */
  lemma {:induction false} SplitAtOther(c: char, x: string, sep: char)
    requires c != sep
    ensures Split([c] + x, sep) == [[c] + Split(x, sep)[0]] + Split(x, sep)[1..]
  {
    assert ([c] + x)[1..] == x;
  }

  lemma AppendAssociates<T>(a: seq<T>, b: seq<T>, c: seq<T>)
    ensures a + (b + c) == (a + b) + c
  {
  }

  lemma {:induction false} SplitWithoutSeparator(s: string, sep: char)
    requires sep !in s
    ensures Split(s, sep) == [s]
  {
    if s != [] {
      SplitWithoutSeparator(s[1..], sep);
      assert [s[0]] + s[1..] == s;
    }
  }

  /** Stripping leading whitespace off an already stripped, non-empty text. */
  lemma {:induction false} StripAfterSpace(lead: string, t: string)
    requires AllSpace(lead)
    requires t != [] && !IsSpace(t[0]) && !IsSpace(t[|t| - 1])
    ensures Strip(lead + t) == t
  {
    var s := lead + t;
    var a := SkipSpace(s, 0);
    assert s[|lead|] == t[0];
    assert a == |lead|;
    var b := SkipSpaceBack(s, a, |s|);
    assert s[|s| - 1] == t[|t| - 1];
    assert b == |s|;
    assert s[a..b] == t;
  }

  lemma {:induction false} JoinCharacters(parts: seq<string>, sep: string, c: char)
    requires c in Join(parts, sep)
    ensures c in sep || exists p :: p in parts && c in p
  {
    if |parts| > 1 {
      var rest := Join(parts[1..], sep);
      assert Join(parts, sep) == parts[0] + sep + rest;
      if c !in parts[0] && c !in sep {
        JoinCharacters(parts[1..], sep, c);
      }
    }
  }

  lemma {:induction false} ReplaceAbsent(s: string, from: char, to: char)
    requires from !in s
    ensures ReplaceChar(s, from, to) == s
  {
  }

  /** Every character of a piece occurs in the text that was split. */
  lemma {:induction false} SplitPieceCharacters(s: string, sep: char, p: string, c: char)
    requires p in Split(s, sep) && c in p
    ensures c in s
  {
    if |s| > 0 {
      var rest := Split(s[1..], sep);
      if p in rest {
        SplitPieceCharacters(s[1..], sep, p, c);
      } else if c != s[0] {
        assert p == [s[0]] + rest[0];
        SplitPieceCharacters(s[1..], sep, rest[0], c);
      }
    }
  }
}
