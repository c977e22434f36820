/** The Python `str` methods the parser relies on: `strip`, `lstrip`, `rstrip`,
    `find`, `split` on one character, `join` and `zfill`. */
module Strings {
  import opened Chars

  /** Which characters a strip method removes: whitespace for `s.strip()`,
      or the one character given as argument, as in `s.rstrip('.')`. */
  datatype StripSet = Whitespace | Only(c: char)

  predicate Removes(cs: StripSet, c: char) {
    match cs
    case Whitespace => IsSpace(c)
    case Only(d) => c == d
  }

  /** `s.lstrip(...)`: the longest suffix of `s` that does not start with a
      removed character. */
  function LStrip(s: string, cs: StripSet): (r: string)
    ensures |r| <= |s|
    ensures r == [] || !Removes(cs, r[0])
    decreases |s|
  {
    if |s| > 0 && Removes(cs, s[0]) then LStrip(s[1..], cs) else s
  }

  /** What `lstrip` keeps is a suffix of its input. */
  lemma {:induction false} LStripSuffix(s: string, cs: StripSet)
    ensures LStrip(s, cs) == s[|s| - |LStrip(s, cs)|..]
    decreases |s|
  {
    if |s| > 0 && Removes(cs, s[0]) {
      LStripSuffix(s[1..], cs);
    }
  }

  /** `s.rstrip(...)`: the longest prefix of `s` that does not end with a
      removed character. */
  function RStrip(s: string, cs: StripSet): (r: string)
    ensures |r| <= |s|
    ensures r == [] || !Removes(cs, r[|r| - 1])
    decreases |s|
  {
    if |s| > 0 && Removes(cs, s[|s| - 1]) then RStrip(s[..|s| - 1], cs) else s
  }

  /** What `rstrip` keeps is a prefix of its input. */
  lemma {:induction false} RStripPrefix(s: string, cs: StripSet)
    ensures RStrip(s, cs) == s[..|RStrip(s, cs)|]
    decreases |s|
  {
    if |s| > 0 && Removes(cs, s[|s| - 1]) {
      RStripPrefix(s[..|s| - 1], cs);
    }
  }

  /** Everything `lstrip` removes is a removed character. */
  lemma {:induction false} LStripRemoved(s: string, cs: StripSet)
    ensures forall k :: 0 <= k < |s| - |LStrip(s, cs)| ==> Removes(cs, s[k])
    decreases |s|
  {
    if |s| > 0 && Removes(cs, s[0]) {
      LStripRemoved(s[1..], cs);
    }
  }

  /** Everything `rstrip` removes is a removed character. */
  lemma {:induction false} RStripRemoved(s: string, cs: StripSet)
    ensures forall k :: |RStrip(s, cs)| <= k < |s| ==> Removes(cs, s[k])
    decreases |s|
  {
    if |s| > 0 && Removes(cs, s[|s| - 1]) {
      RStripRemoved(s[..|s| - 1], cs);
    }
  }

  /** Neither end of `s` is whitespace: what `strip()` produces. */
  predicate IsStripped(s: string) {
    s == [] || (!IsSpace(s[0]) && !IsSpace(s[|s| - 1]))
  }

  /** `s.strip()`: `s` without its leading and trailing whitespace. */
  function Strip(s: string): (r: string)
    ensures IsStripped(r)
    ensures IsStripped(s) ==> r == s
  {
    var l := LStrip(s, Whitespace);
    var r := RStrip(l, Whitespace);
    RStripPrefix(l, Whitespace);
    assert r != [] ==> r[0] == l[0];
    r
  }

  /** `s.strip()` is empty exactly when `s` is blank. */
  lemma StripEmpty(s: string)
    ensures Strip(s) == [] <==> forall k :: 0 <= k < |s| ==> IsSpace(s[k])
  {
    var l := LStrip(s, Whitespace);
    if Strip(s) != [] {
      LStripSuffix(s, Whitespace);
      var k := |s| - |l|;
      assert l != [] && s[k] == l[0];
    } else {
      LStripRemoved(s, Whitespace);
      RStripRemoved(l, Whitespace);
      assert l == [];
    }
  }

  lemma StripUnfold(s: string)
    ensures Strip(s) == RStrip(LStrip(s, Whitespace), Whitespace)
  {
  }

  /** `strip()` adds no character: one absent from `s` is absent from the
      result. */
  lemma StripKeepsOut(s: string, c: char)
    requires c !in s
    ensures c !in Strip(s)
  {
    var l := LStrip(s, Whitespace);
    StripUnfold(s);
    LStripSuffix(s, Whitespace);
    RStripPrefix(l, Whitespace);
    SliceKeepsOut(s, |s| - |l|, |s|, c);
    SliceKeepsOut(l, 0, |RStrip(l, Whitespace)|, c);
  }

  /** `s.strip()` is the slice of `s` between its leading and its trailing
      whitespace: only whitespace is removed, and only at the two ends. */
  lemma StripSlice(s: string)
    ensures var a := |s| - |LStrip(s, Whitespace)|;
            && a + |Strip(s)| <= |s| && Strip(s) == s[a..a + |Strip(s)|]
            && (forall k :: 0 <= k < a ==> IsSpace(s[k]))
            && (forall k :: a + |Strip(s)| <= k < |s| ==> IsSpace(s[k]))
  {
    var l := LStrip(s, Whitespace);
    StripUnfold(s);
    LStripSuffix(s, Whitespace);
    RStripPrefix(l, Whitespace);
    LStripRemoved(s, Whitespace);
    RStripRemoved(l, Whitespace);
    PrefixOfSuffix(s, l, RStrip(l, Whitespace));
  }

  /** A prefix `r` of a suffix `l` of `s` is a slice of `s`; when what the
      suffix and the prefix leave out is whitespace, everything around the
      slice is whitespace. */
  lemma PrefixOfSuffix(s: string, l: string, r: string)
    requires |l| <= |s| && l == s[|s| - |l|..]
    requires |r| <= |l| && r == l[..|r|]
    requires forall k :: 0 <= k < |s| - |l| ==> Removes(Whitespace, s[k])
    requires forall k :: |r| <= k < |l| ==> Removes(Whitespace, l[k])
    ensures var a := |s| - |l|;
            && a + |r| <= |s| && r == s[a..a + |r|]
            && (forall k :: 0 <= k < a ==> IsSpace(s[k]))
            && (forall k :: a + |r| <= k < |s| ==> IsSpace(s[k]))
  {
    var a := |s| - |l|;
    forall k | a + |r| <= k < |s| ensures IsSpace(s[k]) {
      assert s[k] == l[k - a];
    }
  }

  /** Two successive `rstrip` calls cut two trailing runs off `s`. */
  lemma TwoTrailingRuns(s: string, x: char, y: char)
    ensures var e := RStrip(s, Only(x));
            var d := RStrip(e, Only(y));
            && |d| <= |e| <= |s|
            && (forall k :: |e| <= k < |s| ==> s[k] == x)
            && (e == [] || s[|e| - 1] != x)
            && (forall k :: |d| <= k < |e| ==> s[k] == y)
            && (d == [] || s[|d| - 1] != y)
            && d == s[..|d|]
  {
    var e := RStrip(s, Only(x));
    var d := RStrip(e, Only(y));
    RStripPrefix(s, Only(x));
    RStripRemoved(s, Only(x));
    RStripPrefix(e, Only(y));
    RStripRemoved(e, Only(y));
    PrefixOfPrefix(s, e, d);
  }

  lemma PrefixOfPrefix(s: string, e: string, d: string)
    requires |e| <= |s| && e == s[..|e|]
    requires |d| <= |e| && d == e[..|d|]
    ensures d == s[..|d|]
    ensures forall k :: |d| <= k < |e| ==> s[k] == e[k]
  {
  }

  lemma SliceKeepsOut(s: string, a: nat, b: nat, c: char)
    requires a <= b <= |s| && c !in s
    ensures c !in s[a..b]
  {
  }

  /** Leading whitespace does not change what `strip()` returns. */
  lemma StripLeadingSpace(c: char, t: string)
    requires IsSpace(c)
    ensures Strip([c] + t) == Strip(t)
  {
    assert ([c] + t)[1..] == t;
  }

  /** Stripping twice is stripping once. */
  lemma StripIdempotent(s: string)
    ensures Strip(Strip(s)) == Strip(s)
  {
  }

  /** `s.find(c)`, with "absent" reported as `|s|` rather than -1: the index
      of the first `c` in `s`. */
  function IndexOf(s: string, c: char): (i: nat)
    ensures i <= |s|
    ensures c !in s[..i]
    ensures i < |s| ==> s[i] == c
    ensures i == |s| <==> c !in s
    decreases |s|
  {
    if |s| == 0 then 0
    else if s[0] == c then 0
    else
      var j := IndexOf(s[1..], c);
      assert s[..j + 1] == [s[0]] + s[1..][..j];
      1 + j
  }

  /** `sep.join(parts)` for a one-character separator. */
  function Join(parts: seq<string>, sep: char): string
  {
    if |parts| == 0 then ""
    else if |parts| == 1 then parts[0]
    else parts[0] + [sep] + Join(parts[1..], sep)
  }

  /** `s.split(sep)` for a one-character separator: the maximal runs of `s`
      between occurrences of `sep`, always at least one (possibly empty). */
  function Split(s: string, sep: char): (parts: seq<string>)
    ensures |parts| >= 1
    ensures forall k :: 0 <= k < |parts| ==> sep !in parts[k]
    ensures Join(parts, sep) == s
    decreases |s|
  {
    var i := IndexOf(s, sep);
    if i == |s| then [s]
    else
      var rest := Split(s[i + 1..], sep);
      assert s == s[..i] + [sep] + s[i + 1..];
      [s[..i]] + rest
  }

  /** `Split` undoes `Join`: pieces that do not contain the separator are
      recovered exactly from their join. */
  lemma {:induction false} SplitJoin(parts: seq<string>, sep: char)
    requires |parts| >= 1
    requires forall k :: 0 <= k < |parts| ==> sep !in parts[k]
    ensures Split(Join(parts, sep), sep) == parts
    decreases |parts|
  {
    var s := Join(parts, sep);
    if |parts| == 1 {
      assert sep !in s;
    } else {
      var rest := parts[1..];
      var tail := Join(rest, sep);
      var i := |parts[0]|;
      assert s == parts[0] + [sep] + tail;
      assert s[..i] == parts[0] && s[i] == sep && s[i + 1..] == tail;
      SplitAt(s, sep, i);
      SplitJoin(rest, sep);
      assert parts == [parts[0]] + rest;
    }
  }

  /** Splitting at the first separator: the text before it, then the split
      of the text after it. */
  lemma SplitAt(s: string, sep: char, i: nat)
    requires i < |s| && s[i] == sep && sep !in s[..i]
    ensures Split(s, sep) == [s[..i]] + Split(s[i + 1..], sep)
  {
    IndexOfFirst(s, sep, i);
  }

  /** The first `c` is at `i` when `s[i]` is `c` and none comes before it. */
  lemma IndexOfFirst(s: string, c: char, i: nat)
    requires i < |s| && s[i] == c && c !in s[..i]
    ensures IndexOf(s, c) == i
  {
  }

  /** The number of occurrences of `c` in `s`. */
  function Count(s: string, c: char): nat
  {
    multiset(s)[c]
  }

  /** `s.split(sep)` has one more piece than `s` has separators. */
  lemma {:induction false} SplitCount(s: string, sep: char)
    ensures |Split(s, sep)| == Count(s, sep) + 1
    decreases |s|
  {
    var i := IndexOf(s, sep);
    if i == |s| {
      assert sep !in multiset(s);
    } else {
      assert s == s[..i] + [sep] + s[i + 1..];
      assert sep !in multiset(s[..i]);
      assert multiset(s) == multiset(s[..i]) + multiset{sep} + multiset(s[i + 1..]);
      SplitCount(s[i + 1..], sep);
    }
  }

  /** A leading `+` or `-`, which `zfill` keeps in front of the padding. */
  predicate HasSign(s: string) {
    |s| > 0 && (s[0] == '+' || s[0] == '-')
  }

  function Zeros(n: nat): (r: string)
    ensures |r| == n && forall k :: 0 <= k < n ==> r[k] == '0'
  {
    if n == 0 then "" else Zeros(n - 1) + "0"
  }

  /** `s.zfill(width)`: `s` padded on the left with `0` up to `width`
      characters, the padding going after a leading sign. */
  function ZFill(s: string, width: nat): (r: string)
    ensures |r| == if |s| < width then width else |s|
    ensures |s| >= width ==> r == s
    ensures forall k :: 0 <= k < |r| ==> r[k] == '0' || r[k] in s
    ensures |s| < width && !HasSign(s) ==>
              (forall k :: 0 <= k < width - |s| ==> r[k] == '0') && r[width - |s|..] == s
    ensures |s| < width && HasSign(s) ==>
              && r[0] == s[0]
              && (forall k :: 1 <= k <= width - |s| ==> r[k] == '0')
              && r[width - |s| + 1..] == s[1..]
  {
    if |s| >= width then s
    else if HasSign(s) then [s[0]] + Zeros(width - |s|) + s[1..]
    else Zeros(width - |s|) + s
  }

  /** Padding an already padded field changes nothing. */
  lemma ZFillIdempotent(s: string, width: nat)
    ensures ZFill(ZFill(s, width), width) == ZFill(s, width)
  {
  }

  /** The padding rule on the fields a date holds, including the sign rule. */
  lemma ZFillExamples()
    ensures ZFill("3", 2) == "03"
    ensures ZFill("12", 2) == "12"
    ensures ZFill("2024", 2) == "2024"
    ensures ZFill("", 2) == "00"
    ensures ZFill("-", 2) == "-0"
  {
  }
}
