/** The three regular expressions that `re.split` applies in the parser,
    written as matchers, and `re.split` itself.

    Each pattern is deterministic once `\s` and `\w` are known to share no
    character: a greedy `\s+` or `\w+` can only stop at the end of its run,
    because what follows it in the pattern (`e`, `…`, a capital, whitespace)
    is never a character the run could have taken instead. So a match that
    starts at a given position, if any, has one end, computed from maximal
    runs. */
module Patterns {
  import opened Chars
  import opened Options

  /** End of the maximal run of whitespace that starts at `i`. */
  function SpaceRunEnd(s: string, i: nat): (j: nat)
    requires i <= |s|
    ensures i <= j <= |s|
    ensures j == |s| || !IsSpace(s[j])
    decreases |s| - i
  {
    if i < |s| && IsSpace(s[i]) then SpaceRunEnd(s, i + 1) else i
  }

  /** Everything the whitespace run covers is whitespace. */
  lemma {:induction false} SpaceRun(s: string, i: nat)
    requires i <= |s|
    ensures forall k :: i <= k < SpaceRunEnd(s, i) ==> IsSpace(s[k])
    decreases |s| - i
  {
    if i < |s| && IsSpace(s[i]) {
      SpaceRun(s, i + 1);
    }
  }

  /** End of the maximal run of word characters (`\w`) that starts at `i`. */
  function WordRunEnd(s: string, i: nat): (j: nat)
    requires i <= |s|
    ensures i <= j <= |s|
    ensures j == |s| || !IsWordChar(s[j])
    decreases |s| - i
  {
    if i < |s| && IsWordChar(s[i]) then WordRunEnd(s, i + 1) else i
  }

  /** Everything the word run covers is a word character. */
  lemma {:induction false} WordRun(s: string, i: nat)
    requires i <= |s|
    ensures forall k :: i <= k < WordRunEnd(s, i) ==> IsWordChar(s[k])
    decreases |s| - i
  {
    if i < |s| && IsWordChar(s[i]) {
      WordRun(s, i + 1);
    }
  }

  /** The patterns split on:
      - `EtBeforeName`: `\s+et\s+(?=[A-ZÉÈÀÊÂÔÛÇÏÜ]\w+\s+[A-ZÉÈÀÊÂÔÛÇÏÜ])`,
        the word "et" before a first name and the capital of a surname;
      - `CommaBeforeName`: `,\s+(?=[A-ZÉÈÀÊÂÔÛÇÏÜ]\w+\s+[A-ZÉÈÀÊÂÔÛÇÏÜ]\w+)`,
        a comma before a first name and a whole surname;
      - `Ellipsis`: `\s*…\s*`, the ellipsis character between channels. */
  datatype Pattern = EtBeforeName | CommaBeforeName | Ellipsis

  /** The name-shaped lookahead at `p`: a capital, more word characters,
      whitespace, a capital, and, when `fullSurname` holds, at least one
      more word character after that capital. */
  predicate NameAt(s: string, p: nat, fullSurname: bool)
    requires p <= |s|
  {
    && p < |s| && IsCap(s[p])
    && var w := WordRunEnd(s, p + 1);
    && w > p + 1
    && var q := SpaceRunEnd(s, w);
    && q > w && q < |s| && IsCap(s[q])
    && (fullSurname ==> WordRunEnd(s, q + 1) > q + 1)
  }

  /** Whether `pat` matches `s` starting exactly at `i`, and where the match
      ends. */
  function MatchAt(pat: Pattern, s: string, i: nat): (r: Option<nat>)
    requires i <= |s|
    ensures r.Some? ==> i < r.value <= |s|
  {
    match pat
    case EtBeforeName =>
      var a := SpaceRunEnd(s, i);
      if a > i && a + 2 <= |s| && s[a] == 'e' && s[a + 1] == 't' then
        var b := SpaceRunEnd(s, a + 2);
        if b > a + 2 && NameAt(s, b, false) then Some(b) else None
      else None
    case CommaBeforeName =>
      if i < |s| && s[i] == ',' then
        var b := SpaceRunEnd(s, i + 1);
        if b > i + 1 && NameAt(s, b, true) then Some(b) else None
      else None
    case Ellipsis =>
      var a := SpaceRunEnd(s, i);
      if a < |s| && s[a] == '…' then Some(SpaceRunEnd(s, a + 1)) else None
  }

  /** What `re.search` finds from `i`: the leftmost position at or after `i`
      where a match starts, or `|s|` when there is none. */
  function NextMatch(pat: Pattern, s: string, i: nat): (j: nat)
    requires i <= |s|
    ensures i <= j <= |s|
    ensures j < |s| ==> MatchAt(pat, s, j).Some?
    decreases |s| - i
  {
    if i == |s| || MatchAt(pat, s, i).Some? then i else NextMatch(pat, s, i + 1)
  }

  /** No match starts before the one `NextMatch` finds: it is the leftmost. */
  lemma {:induction false} NextMatchLeftmost(pat: Pattern, s: string, i: nat)
    requires i <= |s|
    ensures forall k :: i <= k < NextMatch(pat, s, i) ==> MatchAt(pat, s, k).None?
    decreases |s| - i
  {
    var j := NextMatch(pat, s, i);
    if i < |s| && MatchAt(pat, s, i).None? {
      assert j == NextMatch(pat, s, i + 1);
      NextMatchLeftmost(pat, s, i + 1);
      NoMatchExtend(pat, s, i, j);
    } else {
      assert j == i;
    }
  }

  /** A stretch without a match grows by one position on the left. */
  lemma NoMatchExtend(pat: Pattern, s: string, i: nat, j: nat)
    requires i < j <= |s| && MatchAt(pat, s, i).None?
    requires forall k :: i + 1 <= k < j ==> MatchAt(pat, s, k).None?
    ensures forall k :: i <= k < j ==> MatchAt(pat, s, k).None?
  {
  }

  /** `re.split(pat, s[i..])`: the text between leftmost non-overlapping
      matches, each search resuming where the previous match ended. */
  function SplitFrom(pat: Pattern, s: string, i: nat): (pieces: seq<string>)
    requires i <= |s|
    decreases |s| - i
  {
    var j := NextMatch(pat, s, i);
    if j == |s| then [s[i..]]
    else [s[i..j]] + SplitFrom(pat, s, MatchAt(pat, s, j).value)
  }

  /** The separators `SplitFrom` cuts out, in order. */
  function SeparatorsFrom(pat: Pattern, s: string, i: nat): seq<string>
    requires i <= |s|
    decreases |s| - i
  {
    var j := NextMatch(pat, s, i);
    if j == |s| then []
    else [s[j..MatchAt(pat, s, j).value]] + SeparatorsFrom(pat, s, MatchAt(pat, s, j).value)
  }

  /** `re.split(pat, s)`. */
  function ReSplit(pat: Pattern, s: string): seq<string> {
    SplitFrom(pat, s, 0)
  }

  /** There is one piece more than there are separators, and a single piece
      exactly when the pattern matches nowhere from `i`. */
  lemma {:induction false} SplitFromCount(pat: Pattern, s: string, i: nat)
    requires i <= |s|
    ensures |SplitFrom(pat, s, i)| == |SeparatorsFrom(pat, s, i)| + 1
    ensures |SplitFrom(pat, s, i)| == 1 <==> NextMatch(pat, s, i) == |s|
    decreases |s| - i
  {
    var j := NextMatch(pat, s, i);
    if j < |s| {
      SplitFromCount(pat, s, MatchAt(pat, s, j).value);
    }
  }

  /** `pieces[0] + seps[0] + pieces[1] + ... + pieces[|seps|]`. */
  function Interleave(pieces: seq<string>, seps: seq<string>): string
    requires |pieces| == |seps| + 1
  {
    if |seps| == 0 then pieces[0]
    else pieces[0] + seps[0] + Interleave(pieces[1..], seps[1..])
  }

  /** Splitting loses nothing: the pieces, put back together with the
      separators that were cut out, give back the input. */
  lemma {:induction false} SplitRejoinFrom(pat: Pattern, s: string, i: nat)
    requires i <= |s|
    ensures |SplitFrom(pat, s, i)| == |SeparatorsFrom(pat, s, i)| + 1
    ensures Interleave(SplitFrom(pat, s, i), SeparatorsFrom(pat, s, i)) == s[i..]
    decreases |s| - i
  {
    var j := NextMatch(pat, s, i);
    if j < |s| {
      var e := MatchAt(pat, s, j).value;
      var pieces, seps := SplitFrom(pat, s, e), SeparatorsFrom(pat, s, e);
      SplitRejoinFrom(pat, s, e);
      assert SplitFrom(pat, s, i) == [s[i..j]] + pieces;
      assert SeparatorsFrom(pat, s, i) == [s[j..e]] + seps;
      InterleaveCons(s[i..j], s[j..e], pieces, seps);
      SliceConcat(s, i, j, e);
    }
  }

  lemma InterleaveCons(piece: string, sep: string, pieces: seq<string>, seps: seq<string>)
    requires |pieces| == |seps| + 1
    ensures Interleave([piece] + pieces, [sep] + seps) == piece + sep + Interleave(pieces, seps)
  {
    assert ([piece] + pieces)[1..] == pieces;
    assert ([sep] + seps)[1..] == seps;
  }

  lemma SliceConcat(s: string, i: nat, j: nat, e: nat)
    requires i <= j <= e <= |s|
    ensures s[i..] == s[i..j] + s[j..e] + s[e..]
  {
    assert s[j..] == s[j..e] + s[e..];
    assert s[i..] == s[i..j] + s[j..];
  }

  lemma SplitRejoin(pat: Pattern, s: string)
    ensures |ReSplit(pat, s)| == |SeparatorsFrom(pat, s, 0)| + 1
    ensures Interleave(ReSplit(pat, s), SeparatorsFrom(pat, s, 0)) == s
  {
    SplitRejoinFrom(pat, s, 0);
  }

  /** A split that finds no separator returns the whole input as one piece. */
  lemma SplitSingle(pat: Pattern, s: string)
    requires |ReSplit(pat, s)| == 1
    ensures ReSplit(pat, s) == [s]
  {
    SplitRejoin(pat, s);
  }

  /** Every piece `re.split` on the ellipsis pattern leaves is free of `…`:
      each ellipsis character is inside some separator. */
  lemma {:induction false} EllipsisFreeFrom(s: string, i: nat)
    requires i <= |s|
    ensures forall k :: 0 <= k < |SplitFrom(Ellipsis, s, i)| ==> '…' !in SplitFrom(Ellipsis, s, i)[k]
    decreases |s| - i
  {
    var j := NextMatch(Ellipsis, s, i);
    NextMatchLeftmost(Ellipsis, s, i);
    var first := s[i..j];
    forall p | 0 <= p < |first| ensures first[p] != '…' {
      assert MatchAt(Ellipsis, s, i + p).None?;
    }
    if j < |s| {
      var e := MatchAt(Ellipsis, s, j).value;
      EllipsisFreeFrom(s, e);
      assert SplitFrom(Ellipsis, s, i) == [first] + SplitFrom(Ellipsis, s, e);
    } else {
      assert s[i..] == first;
    }
  }

  lemma EllipsisFree(s: string)
    ensures forall k :: 0 <= k < |ReSplit(Ellipsis, s)| ==> '…' !in ReSplit(Ellipsis, s)[k]
  {
    EllipsisFreeFrom(s, 0);
  }

  /** Whether a pattern's lookahead asks for a whole surname. */
  predicate FullSurname(pat: Pattern) {
    pat == CommaBeforeName
  }

  /** Where the text the lookahead inspects ends. */
  function NameEnd(s: string, p: nat, fullSurname: bool): (e: nat)
    requires p <= |s| && NameAt(s, p, fullSurname)
    ensures p < e <= |s|
  {
    SpaceRunEnd(s, WordRunEnd(s, p + 1)) + if fullSurname then 2 else 1
  }

  /** A whitespace run ends at the first character that is not whitespace. */
  lemma SpaceRunEndAt(s: string, i: nat, j: nat)
    requires i <= j <= |s|
    requires forall k :: i <= k < j ==> IsSpace(s[k])
    requires j == |s| || !IsSpace(s[j])
    ensures SpaceRunEnd(s, i) == j
  {
    SpaceRun(s, i);
  }

  lemma WordRunEndAt(s: string, i: nat, j: nat)
    requires i <= j <= |s|
    requires forall k :: i <= k < j ==> IsWordChar(s[k])
    requires j == |s| || !IsWordChar(s[j])
    ensures WordRunEnd(s, i) == j
  {
    WordRun(s, i);
  }

  /** Both name-shaped patterns end exactly where their lookahead starts. */
  lemma MatchEndsAtName(pat: Pattern, s: string, j: nat)
    requires pat != Ellipsis && j <= |s| && MatchAt(pat, s, j).Some?
    ensures NameAt(s, MatchAt(pat, s, j).value, FullSurname(pat))
  {
  }

  /** No separator starts inside the name its lookahead inspected: the name
      holds no whitespace run followed by "et", and no comma. */
  lemma NoMatchInsideName(pat: Pattern, s: string, b: nat, k: nat)
    requires pat != Ellipsis && b <= |s| && NameAt(s, b, FullSurname(pat))
    requires b <= k < NameEnd(s, b, FullSurname(pat))
    ensures MatchAt(pat, s, k).None?
  {
    var w := WordRunEnd(s, b + 1);
    var q := SpaceRunEnd(s, w);
    if k == b || k == q {
      ClassesAreSeparate(s[k]);
      NoMatchAtWordChar(pat, s, k);
    } else if k < w {
      WordRun(s, b + 1);
      NoMatchAtWordChar(pat, s, k);
    } else if k < q {
      SpaceRun(s, w);
      NoMatchInSpaces(pat, s, k, q);
    } else {
      WordRun(s, q + 1);
      NoMatchAtWordChar(pat, s, k);
    }
  }

  /** Neither name-shaped separator starts on a word character. */
  lemma NoMatchAtWordChar(pat: Pattern, s: string, k: nat)
    requires pat != Ellipsis && k < |s| && IsWordChar(s[k])
    ensures MatchAt(pat, s, k).None?
  {
    ClassesAreSeparate(s[k]);
    SpaceRunEndAt(s, k, k);
  }

  /** Neither name-shaped separator starts inside whitespace that runs up to
      a capital: the capital is not the `e` of "et". */
  lemma NoMatchInSpaces(pat: Pattern, s: string, k: nat, q: nat)
    requires pat != Ellipsis && k < q < |s| && IsCap(s[q])
    requires forall i :: k <= i < q ==> IsSpace(s[i])
    ensures MatchAt(pat, s, k).None?
  {
    ClassesAreSeparate(s[q]);
    SpaceRunEndAt(s, k, q);
  }

  /** The piece that follows a name-shaped separator holds the whole name the
      lookahead inspected. */
  lemma NextMatchPastName(pat: Pattern, s: string, b: nat)
    requires pat != Ellipsis && b <= |s| && NameAt(s, b, FullSurname(pat))
    ensures NextMatch(pat, s, b) >= NameEnd(s, b, FullSurname(pat))
  {
    var j := NextMatch(pat, s, b);
    if j < NameEnd(s, b, FullSurname(pat)) {
      NoMatchInsideName(pat, s, b, j);
    }
  }

  /** The lookahead only looks at the name itself, so it still holds of any
      slice that keeps the name whole. */
  lemma NameAtSlice(s: string, b: nat, x: nat, fullSurname: bool)
    requires b <= |s| && NameAt(s, b, fullSurname)
    requires NameEnd(s, b, fullSurname) <= x <= |s|
    ensures NameAt(s[b..x], 0, fullSurname)
  {
    var t := s[b..x];
    var w := WordRunEnd(s, b + 1);
    var q := SpaceRunEnd(s, w);
    assert t[0] == s[b] && t[q - b] == s[q];
    WordRunEndSlice(s, b, x, b + 1);
    SpaceRunEndSlice(s, b, x, w);
    if fullSurname {
      assert t[q - b + 1] == s[q + 1];
    }
  }

  /** The first piece after a name-shaped separator starts with that name. */
  lemma FirstPieceStartsWithName(pat: Pattern, s: string, b: nat)
    requires pat != Ellipsis && b <= |s| && NameAt(s, b, FullSurname(pat))
    ensures NameAt(SplitFrom(pat, s, b)[0], 0, FullSurname(pat))
  {
    var j := NextMatch(pat, s, b);
    NextMatchPastName(pat, s, b);
    NameAtSlice(s, b, j, FullSurname(pat));
    if j == |s| {
      assert SplitFrom(pat, s, b)[0] == s[b..j];
    }
  }

  /** `re.split` on "et" or on a comma cuts only in front of a name: every
      piece after the first begins with a capitalised first name followed by
      the capital of a surname (and, for the comma, the rest of it). */
  lemma {:induction false} LaterPiecesStartWithNameFrom(pat: Pattern, s: string, i: nat)
    requires pat != Ellipsis && i <= |s|
    ensures forall k :: 1 <= k < |SplitFrom(pat, s, i)| ==> NameAt(SplitFrom(pat, s, i)[k], 0, FullSurname(pat))
    decreases |s| - i
  {
    var j := NextMatch(pat, s, i);
    if j < |s| {
      var e := MatchAt(pat, s, j).value;
      var rest := SplitFrom(pat, s, e);
      MatchEndsAtName(pat, s, j);
      SplitFromCount(pat, s, e);
      FirstPieceStartsWithName(pat, s, e);
      LaterPiecesStartWithNameFrom(pat, s, e);
      SplitFromMatch(pat, s, i, j, e);
      NamedAfterFirst(s[i..j], rest, FullSurname(pat));
    }
  }

  /** Pieces that all start with a name stay so behind one more piece. */
  lemma NamedAfterFirst(first: string, rest: seq<string>, fullSurname: bool)
    requires |rest| > 0 && NameAt(rest[0], 0, fullSurname)
    requires forall k :: 1 <= k < |rest| ==> NameAt(rest[k], 0, fullSurname)
    ensures forall k :: 1 <= k < |[first] + rest| ==> NameAt(([first] + rest)[k], 0, fullSurname)
  {
    var pieces := [first] + rest;
    forall k | 1 <= k < |pieces| ensures NameAt(pieces[k], 0, fullSurname) {
      assert pieces[k] == rest[k - 1];
    }
  }

  lemma LaterPiecesStartWithName(pat: Pattern, s: string)
    requires pat != Ellipsis
    ensures forall k :: 1 <= k < |ReSplit(pat, s)| ==> NameAt(ReSplit(pat, s)[k], 0, FullSurname(pat))
  {
    LaterPiecesStartWithNameFrom(pat, s, 0);
  }

  /** The leftmost match from `i` is at `j` when no match starts in between
      and one starts at `j` (or `j` is the end of the text). */
  lemma NextMatchIs(pat: Pattern, s: string, i: nat, j: nat)
    requires i <= j <= |s|
    requires forall k :: i <= k < j ==> MatchAt(pat, s, k).None?
    requires j < |s| ==> MatchAt(pat, s, j).Some?
    ensures NextMatch(pat, s, i) == j
  {
    NextMatchLeftmost(pat, s, i);
  }

  /** A text the pattern matches nowhere comes back as a single piece. */
  lemma NoMatchNoSplit(pat: Pattern, s: string)
    requires forall k :: 0 <= k < |s| ==> MatchAt(pat, s, k).None?
    ensures ReSplit(pat, s) == [s]
  {
    NextMatchIs(pat, s, 0, |s|);
  }

  /** A text without a comma is never split on the comma pattern. */
  lemma NoCommaNoSplit(s: string)
    requires ',' !in s
    ensures ReSplit(CommaBeforeName, s) == [s]
  {
    NoMatchNoSplit(CommaBeforeName, s);
  }

  /** A comma followed by whitespace and then a character that is not a
      capital does not split. */
  lemma CommaBeforeLowerCase(x: string, t: string)
    requires ',' !in x && ',' !in t
    requires t != [] && !IsSpace(t[0]) && !IsCap(t[0])
    ensures ReSplit(CommaBeforeName, x + ", " + t) == [x + ", " + t]
  {
    var s := x + ", " + t;
    var n := |x|;
    forall k | 0 <= k < |s| ensures MatchAt(CommaBeforeName, s, k).None? {
      if k == n {
        assert s[n + 1] == ' ' && s[n + 2] == t[0];
        SpaceRunEndAt(s, n + 1, n + 2);
      }
    }
    NoMatchNoSplit(CommaBeforeName, s);
  }

  /** Whitespace right before "et" at `m`: where every "et" separator puts
      its word. */
  predicate SpaceEtAt(s: string, m: nat) {
    0 < m && m + 1 < |s| && IsSpace(s[m - 1]) && s[m] == 'e' && s[m + 1] == 't'
  }

  predicate NoSpaceEt(s: string) {
    forall m: nat :: m < |s| ==> !SpaceEtAt(s, m)
  }

  /** An "et" separator needs "et" right after its whitespace run. */
  lemma EtMatchNeedsSpaceEt(s: string, k: nat)
    requires k <= |s| && MatchAt(EtBeforeName, s, k).Some?
    ensures SpaceRunEnd(s, k) > k && SpaceEtAt(s, SpaceRunEnd(s, k))
  {
    SpaceRun(s, k);
  }

  /** Whether `s` starts with the letters "et". */
  predicate StartsWithEt(s: string) {
    |s| >= 2 && s[0] == 'e' && s[1] == 't'
  }

  /** Joining two texts without whitespace-then-"et" creates none, as long
      as none straddles the junction: the second does not start with "et"
      after whitespace, nor with `t` after whitespace and `e`. */
  lemma NoSpaceEtAppend(x: string, y: string)
    requires NoSpaceEt(x) && NoSpaceEt(y)
    requires x != [] && IsSpace(x[|x| - 1]) ==> !StartsWithEt(y)
    requires |x| >= 2 && IsSpace(x[|x| - 2]) && x[|x| - 1] == 'e' ==> y == [] || y[0] != 't'
    ensures NoSpaceEt(x + y)
  {
    var s := x + y;
    forall m: nat | m < |s| ensures !SpaceEtAt(s, m) {
      if m + 1 < |x| {
        assert !SpaceEtAt(x, m);
      } else if m > |x| {
        assert !SpaceEtAt(y, m - |x|);
      }
    }
  }

  /** A whitespace run that ends inside a slice ends at the same place in
      the slice. */
  lemma SpaceRunEndSlice(s: string, b: nat, x: nat, i: nat)
    requires b <= i <= x <= |s| && SpaceRunEnd(s, i) < x
    ensures SpaceRunEnd(s[b..x], i - b) == SpaceRunEnd(s, i) - b
  {
    var t, j := s[b..x], SpaceRunEnd(s, i);
    SpaceRun(s, i);
    forall k | i - b <= k < j - b ensures IsSpace(t[k]) {
      assert t[k] == s[b + k];
    }
    assert t[j - b] == s[j];
    SpaceRunEndAt(t, i - b, j - b);
  }

  /** A word run that ends inside a slice ends at the same place in the
      slice. */
  lemma WordRunEndSlice(s: string, b: nat, x: nat, i: nat)
    requires b <= i <= x <= |s| && WordRunEnd(s, i) < x
    ensures WordRunEnd(s[b..x], i - b) == WordRunEnd(s, i) - b
  {
    var t, j := s[b..x], WordRunEnd(s, i);
    WordRun(s, i);
    forall k | i - b <= k < j - b ensures IsWordChar(t[k]) {
      assert t[k] == s[b + k];
    }
    assert t[j - b] == s[j];
    WordRunEndAt(t, i - b, j - b);
  }

  /** Runs computed inside a suffix are the same runs, shifted. */
  lemma SpaceRunEndShift(x: string, y: string, i: nat)
    requires i <= |y|
    ensures SpaceRunEnd(x + y, |x| + i) == |x| + SpaceRunEnd(y, i)
  {
    var s, j := x + y, SpaceRunEnd(y, i);
    SpaceRun(y, i);
    forall k | |x| + i <= k < |x| + j ensures IsSpace(s[k]) {
      assert s[k] == y[k - |x|];
    }
    SpaceRunEndAt(s, |x| + i, |x| + j);
  }

  lemma WordRunEndShift(x: string, y: string, i: nat)
    requires i <= |y|
    ensures WordRunEnd(x + y, |x| + i) == |x| + WordRunEnd(y, i)
  {
    var s, j := x + y, WordRunEnd(y, i);
    WordRun(y, i);
    forall k | |x| + i <= k < |x| + j ensures IsWordChar(s[k]) {
      assert s[k] == y[k - |x|];
    }
    WordRunEndAt(s, |x| + i, |x| + j);
  }

  /** The lookahead at the start of `y` still holds after any prefix. */
  lemma NameAtShift(x: string, y: string, fullSurname: bool)
    requires NameAt(y, 0, fullSurname)
    ensures NameAt(x + y, |x|, fullSurname)
  {
    var s := x + y;
    var w := WordRunEnd(y, 1);
    var q := SpaceRunEnd(y, w);
    WordRunEndShift(x, y, 1);
    SpaceRunEndShift(x, y, w);
    assert s[|x|] == y[0] && s[|x| + q] == y[q];
    if fullSurname {
      WordRunEndShift(x, y, q + 1);
    }
  }

  /** The lookahead holds of any text that starts with a text where it
      holds. */
  lemma NameAtPrefix(x: string, y: string, fullSurname: bool)
    requires NameAt(x, 0, fullSurname)
    ensures NameAt(x + y, 0, fullSurname)
  {
    var s := x + y;
    var w := WordRunEnd(x, 1);
    var q := SpaceRunEnd(x, w);
    WordRun(x, 1);
    SpaceRun(x, w);
    assert forall k :: 0 <= k < |x| ==> s[k] == x[k];
    WordRunEndAt(s, 1, w);
    SpaceRunEndAt(s, w, q);
    if fullSurname {
      WordRun(x, q + 1);
      assert s[q + 1] == x[q + 1];
    }
  }

  /** In `a et b`, under the conditions of `EtSplitsBeforeName`, the only
      whitespace-then-"et" is the one written between `a` and `b`. */
  lemma NoOtherSpaceEt(a: string, b: string, m: nat)
    requires NoSpaceEt(a) && NoSpaceEt(b) && b != [] && IsCap(b[0])
    requires m < |a + " et " + b| && m != |a| + 1
    ensures !SpaceEtAt(a + " et " + b, m)
  {
    var s := a + " et " + b;
    var n := |a|;
    if m == 0 || m + 1 >= |s| {
    } else if m + 1 < n {
      assert s[m - 1] == a[m - 1] && s[m] == a[m] && s[m + 1] == a[m + 1];
      assert !SpaceEtAt(a, m);
    } else if m >= n + 5 {
      var m' := m - n - 4;
      assert s[m - 1] == b[m' - 1] && s[m] == b[m'] && s[m + 1] == b[m' + 1];
      assert !SpaceEtAt(b, m');
    } else if m == n + 4 {
      assert s[m] == b[0];
    } else {
      assert s[n] == ' ' && s[n + 1] == 'e' && s[n + 2] == 't' && s[n + 3] == ' ';
    }
  }

  /** In `a et b`, no "et" separator starts anywhere but at the whitespace
      written between `a` and `b`. */
  lemma EtMatchOnlyBetween(a: string, b: string, k: nat)
    requires a != [] && !IsSpace(a[|a| - 1])
    requires NoSpaceEt(a) && NoSpaceEt(b) && b != [] && IsCap(b[0])
    requires k <= |a + " et " + b| && k != |a|
    ensures MatchAt(EtBeforeName, a + " et " + b, k).None?
  {
    var s := a + " et " + b;
    var n := |a|;
    var r := SpaceRunEnd(s, k);
    SpaceRun(s, k);
    if r > k && r < |s| {
      if k < n {
        assert s[n - 1] == a[n - 1];
        assert r <= n - 1;
      }
      NoOtherSpaceEt(a, b, r);
    }
  }

  /** In `a et b`, the " et " written between `a` and `b` is a separator
      when `b` starts with a name. */
  lemma EtMatchBetween(a: string, b: string)
    requires NameAt(b, 0, false)
    ensures MatchAt(EtBeforeName, a + " et " + b, |a|) == Some(|a| + 4)
  {
    var s := a + " et " + b;
    var n := |a|;
    assert s[n] == ' ' && s[n + 1] == 'e' && s[n + 2] == 't' && s[n + 3] == ' ';
    ClassesAreSeparate(b[0]);
    assert s[n + 4] == b[0];
    SpaceRunEndAt(s, n, n + 1);
    SpaceRunEndAt(s, n + 3, n + 4);
    NameAtShift(a + " et ", b, false);
  }

  /** `re.split` on "et" cuts `a et b` into `a` and `b` when `b` starts with
      a first name and the capital of a surname, `a` does not end in
      whitespace, and neither holds whitespace followed by "et". */
  lemma EtSplitsBeforeName(a: string, b: string)
    requires a != [] && !IsSpace(a[|a| - 1])
    requires NoSpaceEt(a) && NoSpaceEt(b)
    requires NameAt(b, 0, false)
    ensures ReSplit(EtBeforeName, a + " et " + b) == [a, b]
  {
    var s := a + " et " + b;
    var n := |a|;
    forall k | 0 <= k < n ensures MatchAt(EtBeforeName, s, k).None? {
      EtMatchOnlyBetween(a, b, k);
    }
    forall k | n + 4 <= k < |s| ensures MatchAt(EtBeforeName, s, k).None? {
      EtMatchOnlyBetween(a, b, k);
    }
    EtMatchBetween(a, b);
    SplitInTwo(EtBeforeName, a, " et ", b);
  }

  /** A text whose "et" pattern never matches: no whitespace is followed by
      "et". */
  lemma NoSpaceEtNoSplit(s: string)
    requires NoSpaceEt(s)
    ensures ReSplit(EtBeforeName, s) == [s]
  {
    forall k | 0 <= k < |s| ensures MatchAt(EtBeforeName, s, k).None? {
      var m := SpaceRunEnd(s, k);
      assert !SpaceEtAt(s, m);
      if MatchAt(EtBeforeName, s, k).Some? {
        EtMatchNeedsSpaceEt(s, k);
      }
    }
    NoMatchNoSplit(EtBeforeName, s);
  }

  /** Every comma of `s` introduces a title: it is followed by one space and
      then a character that is neither whitespace nor a capital. */
  predicate CommasBeforeLowerCase(s: string) {
    forall k :: 0 <= k < |s| && s[k] == ',' ==>
      k + 2 < |s| && s[k + 1] == ' ' && !IsSpace(s[k + 2]) && !IsCap(s[k + 2])
  }

  /** A comma followed by one space and a character that is not a capital
      is not a separator. */
  lemma NoCommaMatchAt(s: string, k: nat)
    requires k + 2 < |s| && s[k + 1] == ' ' && !IsSpace(s[k + 2]) && !IsCap(s[k + 2])
    ensures MatchAt(CommaBeforeName, s, k).None?
  {
    SpaceRunEndAt(s, k + 1, k + 2);
  }

  /** "name, title" with comma-free parts and a title that is not empty and
      does not start with whitespace or a capital. */
  lemma CommaBeforeTitle(x: string, t: string)
    requires ',' !in x && ',' !in t
    requires t != [] && !IsSpace(t[0]) && !IsCap(t[0])
    ensures CommasBeforeLowerCase(x + ", " + t)
  {
    var s := x + ", " + t;
    forall k | 0 <= k < |s| && s[k] == ','
      ensures k + 2 < |s| && s[k + 1] == ' ' && !IsSpace(s[k + 2]) && !IsCap(s[k + 2])
    {
      if k == |x| {
        assert s[|x| + 1] == ' ' && s[|x| + 2] == t[0];
      }
    }
  }

  /** In `a, b`, no comma separator starts anywhere but at the comma written
      between `a` and `b`. */
  lemma CommaMatchOnlyBetween(a: string, b: string, k: nat)
    requires CommasBeforeLowerCase(a) && CommasBeforeLowerCase(b)
    requires k < |a + ", " + b| && k != |a|
    ensures MatchAt(CommaBeforeName, a + ", " + b, k).None?
  {
    var s := a + ", " + b;
    var n := |a|;
    if k < n && a[k] == ',' {
      assert s[k + 1] == a[k + 1] && s[k + 2] == a[k + 2];
      NoCommaMatchAt(s, k);
    } else if k >= n + 2 && b[k - n - 2] == ',' {
      var i := k - n - 2;
      assert s[k + 1] == b[i + 1] && s[k + 2] == b[i + 2];
      NoCommaMatchAt(s, k);
    } else if k < n {
      assert s[k] == a[k];
    } else if k >= n + 2 {
      assert s[k] == b[k - n - 2];
    } else {
      assert s[k] == ' ';
    }
  }

  lemma CommaMatchOnlyBetweenAll(a: string, b: string)
    requires CommasBeforeLowerCase(a) && CommasBeforeLowerCase(b)
    ensures forall k :: 0 <= k < |a| ==> MatchAt(CommaBeforeName, a + ", " + b, k).None?
    ensures forall k :: |a| + 2 <= k < |a + ", " + b| ==> MatchAt(CommaBeforeName, a + ", " + b, k).None?
  {
    forall k | 0 <= k < |a| ensures MatchAt(CommaBeforeName, a + ", " + b, k).None? {
      CommaMatchOnlyBetween(a, b, k);
    }
    forall k | |a| + 2 <= k < |a + ", " + b| ensures MatchAt(CommaBeforeName, a + ", " + b, k).None? {
      CommaMatchOnlyBetween(a, b, k);
    }
  }

  /** In `a, b`, the ", " written between `a` and `b` is a separator when
      `b` starts with a first name and a whole surname. */
  lemma CommaMatchBetween(a: string, b: string)
    requires NameAt(b, 0, true)
    ensures MatchAt(CommaBeforeName, a + ", " + b, |a|) == Some(|a| + 2)
  {
    var s := a + ", " + b;
    var n := |a|;
    assert s[n] == ',' && s[n + 1] == ' ' && s[n + 2] == b[0];
    ClassesAreSeparate(b[0]);
    SpaceRunEndAt(s, n + 1, n + 2);
    NameAtShift(a + ", ", b, true);
  }

  /** `re.split` on a comma before a name cuts `a, b` into `a` and `b` when
      `b` starts with a first name and a whole surname and every other comma
      introduces a title. */
  lemma CommaSplitsBeforeName(a: string, b: string)
    requires CommasBeforeLowerCase(a) && CommasBeforeLowerCase(b)
    requires NameAt(b, 0, true)
    ensures ReSplit(CommaBeforeName, a + ", " + b) == [a, b]
  {
    CommaMatchOnlyBetweenAll(a, b);
    CommaMatchBetween(a, b);
    SplitInTwo(CommaBeforeName, a, ", ", b);
  }

  /** A text with exactly one match, which covers the separator written
      between `a` and `b`, splits into `a` and `b`. */
  lemma SplitInTwo(pat: Pattern, a: string, sep: string, b: string)
    requires forall k :: 0 <= k < |a| ==> MatchAt(pat, a + sep + b, k).None?
    requires MatchAt(pat, a + sep + b, |a|) == Some(|a| + |sep|)
    requires forall k :: |a| + |sep| <= k < |a + sep + b| ==> MatchAt(pat, a + sep + b, k).None?
    ensures ReSplit(pat, a + sep + b) == [a, b]
  {
    SplitAtOnlyMatch(pat, a + sep + b, |a|, |a| + |sep|);
    ConcatParts(a, sep, b);
  }

  /** A text whose only match is at `n`, ending at `e`, splits into the text
      before `n` and the text from `e`. */
  lemma SplitAtOnlyMatch(pat: Pattern, s: string, n: nat, e: nat)
    requires n < e <= |s|
    requires forall k :: 0 <= k < n ==> MatchAt(pat, s, k).None?
    requires MatchAt(pat, s, n) == Some(e)
    requires forall k :: e <= k < |s| ==> MatchAt(pat, s, k).None?
    ensures ReSplit(pat, s) == [s[..n], s[e..]]
  {
    NextMatchIs(pat, s, 0, n);
    NextMatchIs(pat, s, e, |s|);
    SplitFromMatch(pat, s, 0, n, e);
    SplitFromLast(pat, s, e);
  }

  lemma ConcatParts(a: string, sep: string, b: string)
    ensures (a + sep + b)[..|a|] == a && (a + sep + b)[|a| + |sep|..] == b
  {
  }

  lemma SplitFromMatch(pat: Pattern, s: string, i: nat, j: nat, e: nat)
    requires i <= j < |s| && NextMatch(pat, s, i) == j && MatchAt(pat, s, j) == Some(e)
    ensures SplitFrom(pat, s, i) == [s[i..j]] + SplitFrom(pat, s, e)
  {
  }

  lemma SplitFromLast(pat: Pattern, s: string, i: nat)
    requires i <= |s| && NextMatch(pat, s, i) == |s|
    ensures SplitFrom(pat, s, i) == [s[i..]]
  {
  }

  /** The ellipsis pattern cannot match where no `…` follows. */
  lemma NoEllipsisMatch(s: string, k: nat)
    requires k <= |s| && forall i :: k <= i < |s| ==> s[i] != '…'
    ensures MatchAt(Ellipsis, s, k).None?
  {
  }

  /** A text that starts with `…` and holds no other splits into an empty
      piece and the rest, when the rest does not start with whitespace. */
  lemma EllipsisLead(p: string)
    requires p != [] && !IsSpace(p[0]) && '…' !in p
    ensures ReSplit(Ellipsis, "…" + p) == ["", p]
  {
    var s := "…" + p;
    assert s[0] == '…' && s[1] == p[0];
    SpaceRunEndAt(s, 0, 0);
    SpaceRunEndAt(s, 1, 1);
    forall k | 1 <= k < |s| ensures MatchAt(Ellipsis, s, k).None? {
      forall i | k <= i < |s| ensures s[i] != '…' {
        assert s[i] == p[i - 1];
      }
      NoEllipsisMatch(s, k);
    }
    SplitAtOnlyMatch(Ellipsis, s, 0, 1);
    assert s[..0] == "" && s[1..] == p;
  }

  /** An "et" separator at `i`: whitespace up to `a`, the letters "et",
      whitespace up to `e`, and at `e` the first name and the surname's
      capital that the lookahead inspects. */
  predicate IsEtSeparator(s: string, i: nat, a: nat, e: nat) {
    && i < a && a + 2 < e <= |s|
    && (forall k :: i <= k < a ==> IsSpace(s[k]))
    && s[a] == 'e' && s[a + 1] == 't'
    && (forall k :: a + 2 <= k < e ==> IsSpace(s[k]))
    && NameAt(s, e, false)
  }

  /** A comma separator at `i`: a comma, whitespace up to `e`, and at `e` a
      first name and a whole surname. */
  predicate IsCommaSeparator(s: string, i: nat, e: nat) {
    && i + 1 < e <= |s| && s[i] == ','
    && (forall k :: i < k < e ==> IsSpace(s[k]))
    && NameAt(s, e, true)
  }

  /** An ellipsis separator at `i`: one `…` at `a` with whitespace on both
      sides, the whitespace after it taken to its end `e`. */
  predicate IsEllipsisSeparator(s: string, i: nat, a: nat, e: nat) {
    && i <= a < e <= |s| && s[a] == '…'
    && (forall k :: i <= k < e && k != a ==> IsSpace(s[k]))
    && (e == |s| || !IsSpace(s[e]))
  }

  /** What the "et" matcher takes is an "et" separator. */
  lemma EtMatchIsSeparator(s: string, i: nat)
    requires i <= |s| && MatchAt(EtBeforeName, s, i).Some?
    ensures IsEtSeparator(s, i, SpaceRunEnd(s, i), MatchAt(EtBeforeName, s, i).value)
  {
    SpaceRun(s, i);
    SpaceRun(s, SpaceRunEnd(s, i) + 2);
  }

  /** Every "et" separator is what the matcher takes. */
  lemma EtSeparatorIsMatch(s: string, i: nat, a: nat, e: nat)
    requires IsEtSeparator(s, i, a, e)
    ensures MatchAt(EtBeforeName, s, i) == Some(e)
  {
    SpaceRunEndAt(s, i, a);
    ClassesAreSeparate(s[e]);
    SpaceRunEndAt(s, a + 2, e);
  }

  /** What the comma matcher takes is a comma separator. */
  lemma CommaMatchIsSeparator(s: string, i: nat)
    requires i <= |s| && MatchAt(CommaBeforeName, s, i).Some?
    ensures IsCommaSeparator(s, i, MatchAt(CommaBeforeName, s, i).value)
  {
    SpaceRun(s, i + 1);
  }

  /** Every comma separator is what the matcher takes. */
  lemma CommaSeparatorIsMatch(s: string, i: nat, e: nat)
    requires IsCommaSeparator(s, i, e)
    ensures MatchAt(CommaBeforeName, s, i) == Some(e)
  {
    ClassesAreSeparate(s[e]);
    SpaceRunEndAt(s, i + 1, e);
  }

  /** What the ellipsis matcher takes is an ellipsis separator. */
  lemma EllipsisMatchIsSeparator(s: string, i: nat)
    requires i <= |s| && MatchAt(Ellipsis, s, i).Some?
    ensures IsEllipsisSeparator(s, i, SpaceRunEnd(s, i), MatchAt(Ellipsis, s, i).value)
  {
    SpaceRun(s, i);
    SpaceRun(s, SpaceRunEnd(s, i) + 1);
  }

  /** Every ellipsis separator is what the matcher takes. */
  lemma EllipsisSeparatorIsMatch(s: string, i: nat, a: nat, e: nat)
    requires IsEllipsisSeparator(s, i, a, e)
    ensures MatchAt(Ellipsis, s, i) == Some(e)
  {
    SpaceRunEndAt(s, i, a);
    SpaceRunEndAt(s, a + 1, e);
  }

  /** The text each pattern spells out between its whitespace runs. */
  function Literal(pat: Pattern): string {
    match pat
    case EtBeforeName => "et"
    case CommaBeforeName => ","
    case Ellipsis => "…"
  }

  /** Every character of `x` is whitespace or one of `lit`. */
  predicate OnlySpaceAnd(x: string, lit: string) {
    forall k :: 0 <= k < |x| ==> IsSpace(x[k]) || x[k] in lit
  }

  /** An "et" separator holds only whitespace and the letters "et". */
  lemma EtSeparatorCutsOnly(s: string, i: nat, a: nat, e: nat)
    requires IsEtSeparator(s, i, a, e)
    ensures OnlySpaceAnd(s[i..e], "et")
  {
    var x := s[i..e];
    forall k | 0 <= k < |x| ensures IsSpace(x[k]) || x[k] in "et" {
      assert x[k] == s[i + k];
      if i + k == a {
        assert x[k] == "et"[0];
      } else if i + k == a + 1 {
        assert x[k] == "et"[1];
      }
    }
  }

  /** A comma separator holds only whitespace and the comma. */
  lemma CommaSeparatorCutsOnly(s: string, i: nat, e: nat)
    requires IsCommaSeparator(s, i, e)
    ensures OnlySpaceAnd(s[i..e], ",")
  {
    var x := s[i..e];
    forall k | 0 <= k < |x| ensures IsSpace(x[k]) || x[k] in "," {
      assert x[k] == s[i + k];
      if k == 0 {
        assert x[k] == ","[0];
      }
    }
  }

  /** An ellipsis separator holds only whitespace and the `…`. */
  lemma EllipsisSeparatorCutsOnly(s: string, i: nat, a: nat, e: nat)
    requires IsEllipsisSeparator(s, i, a, e)
    ensures OnlySpaceAnd(s[i..e], "…")
  {
    var x := s[i..e];
    forall k | 0 <= k < |x| ensures IsSpace(x[k]) || x[k] in "…" {
      assert x[k] == s[i + k];
      if i + k == a {
        assert x[k] == "…"[0];
      }
    }
  }

  /** A match cuts out only whitespace and the pattern's literal. */
  lemma MatchCutsOnly(pat: Pattern, s: string, j: nat)
    requires j <= |s| && MatchAt(pat, s, j).Some?
    ensures OnlySpaceAnd(s[j..MatchAt(pat, s, j).value], Literal(pat))
  {
    var e := MatchAt(pat, s, j).value;
    match pat
    case EtBeforeName =>
      EtMatchIsSeparator(s, j);
      EtSeparatorCutsOnly(s, j, SpaceRunEnd(s, j), e);
    case CommaBeforeName =>
      CommaMatchIsSeparator(s, j);
      CommaSeparatorCutsOnly(s, j, e);
    case Ellipsis =>
      EllipsisMatchIsSeparator(s, j);
      EllipsisSeparatorCutsOnly(s, j, SpaceRunEnd(s, j), e);
  }

  /** `re.split` removes nothing but whitespace and the pattern's literal:
      every separator it cuts out is made of those. */
  lemma {:induction false} SeparatorsCutOnly(pat: Pattern, s: string, i: nat)
    requires i <= |s|
    ensures forall t :: 0 <= t < |SeparatorsFrom(pat, s, i)| ==>
              OnlySpaceAnd(SeparatorsFrom(pat, s, i)[t], Literal(pat))
    decreases |s| - i
  {
    var j := NextMatch(pat, s, i);
    if j < |s| {
      var e := MatchAt(pat, s, j).value;
      MatchCutsOnly(pat, s, j);
      SeparatorsCutOnly(pat, s, e);
    }
  }

  /** "a…b": the single ellipsis splits the text into `a` and `b` when
      neither holds `…`, `a` does not end with whitespace and `b` does not
      start with it. */
  lemma EllipsisSplitsBetween(a: string, b: string)
    requires '…' !in a && '…' !in b
    requires a == [] || !IsSpace(a[|a| - 1])
    requires b == [] || !IsSpace(b[0])
    ensures ReSplit(Ellipsis, a + "…" + b) == [a, b]
  {
    var s := a + "…" + b;
    var n := |a|;
    assert s[n] == '…';
    forall k | 0 <= k < n ensures MatchAt(Ellipsis, s, k).None? {
      SpaceRun(s, k);
      assert s[n - 1] == a[n - 1];
      var r := SpaceRunEnd(s, k);
      assert r < n && s[r] == a[r];
    }
    SpaceRunEndAt(s, n, n);
    if b != [] {
      assert s[n + 1] == b[0];
    }
    SpaceRunEndAt(s, n + 1, n + 1);
    forall k | n + 1 <= k < |s| ensures MatchAt(Ellipsis, s, k).None? {
      forall i | k <= i < |s| ensures s[i] != '…' {
        assert s[i] == b[i - n - 1];
      }
      NoEllipsisMatch(s, k);
    }
    SplitAtOnlyMatch(Ellipsis, s, n, n + 1);
    assert s[..n] == a && s[n + 1..] == b;
  }
}
