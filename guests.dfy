/** The guest splitter, `parse_invites_multiples`: one channel's guest text
    cut into (name, title) entries by the "et" and comma heuristics. */
module Guests {
  import opened Chars
  import opened Strings
  import opened Patterns

  /** One entry `{'nom': ..., 'intitule': ...}`. */
  datatype Guest = Guest(nom: string, intitule: string)

  /** What every entry the splitter keeps looks like: a non-empty, stripped
      name with no comma, and a stripped (possibly empty) title. */
  predicate WellFormedGuest(g: Guest) {
    && g.nom != ""
    && IsStripped(g.nom)
    && ',' !in g.nom
    && IsStripped(g.intitule)
  }

  /** The text is cleaned of trailing ellipsis characters, then of trailing
      periods, then of surrounding whitespace. */
  function CleanInfo(info: string): (r: string)
    ensures IsStripped(r)
  {
    Strip(RStrip(RStrip(info, Only('…')), Only('.')))
  }

  /** What the cleaning removes: the whole trailing run of ellipsis
      characters (from `m` on), then the whole trailing run of periods before
      it (from `n` to `m`); what is left, `info[..n]`, is then stripped, which
      `StripSlice` characterises. */
  lemma CleanInfoCuts(info: string)
    ensures var m := |RStrip(info, Only('…'))|;
            var n := |RStrip(RStrip(info, Only('…')), Only('.'))|;
            && n <= m <= |info|
            && (forall k :: m <= k < |info| ==> info[k] == '…')
            && (m == 0 || info[m - 1] != '…')
            && (forall k :: n <= k < m ==> info[k] == '.')
            && (n == 0 || info[n - 1] != '.')
            && CleanInfo(info) == Strip(info[..n])
  {
    TwoTrailingRuns(info, '…', '.');
  }

  /** The first-comma cut of a piece: the name is the text before the first
      comma and the title the text after it, both stripped; a piece without a
      comma is all name, with an empty title. */
  function NameAndTitle(sub: string): (g: Guest)
    ensures ',' !in g.nom && IsStripped(g.intitule)
    ensures IsStripped(sub) ==> IsStripped(g.nom)
    ensures ',' !in sub ==> g == Guest(sub, "")
  {
    if ',' in sub then
      var k := IndexOf(sub, ',');
      var nom := Strip(sub[..k]);
      StripKeepsOut(sub[..k], ',');
      Guest(nom, Strip(sub[k + 1..]))
    else Guest(sub, "")
  }

  /** The cut takes the name from before the FIRST comma: for any way of
      writing the piece as a comma-free name part, a comma and the rest. */
  lemma NameAndTitleCut(sub: string, before: string, after: string)
    requires sub == before + "," + after && ',' !in before
    ensures NameAndTitle(sub) == Guest(Strip(before), Strip(after))
  {
    assert sub[|before|] == ',' && sub[..|before|] == before;
    IndexOfFirst(sub, ',', |before|);
    assert sub[|before| + 1..] == after;
  }

  /** One piece of a multi-guest split: stripped, then cut. */
  function SubGuest(sub: string): Guest {
    NameAndTitle(Strip(sub))
  }

  /** An entry is appended only when its name is non-empty. */
  function KeepNamed(g: Guest): seq<Guest> {
    if g.nom != "" then [g] else []
  }

  /** The entries of the pieces of a multi-guest split, in order. */
  function GuestsOfSubs(subs: seq<string>): (r: seq<Guest>)
    ensures |r| <= |subs|
  {
    if |subs| == 0 then []
    else GuestsOfSubs(subs[..|subs| - 1]) + KeepNamed(SubGuest(subs[|subs| - 1]))
  }

  /** The entries of one piece of the "et" split (lines 36-72): nothing
      for a blank piece; otherwise the comma split, each of whose pieces is
      cut, or the one-guest cut when the comma split found nothing. */
  function GuestsOfPartie(partie: string): seq<Guest> {
    var p := Strip(partie);
    if p == "" then []
    else
      var subs := ReSplit(CommaBeforeName, p);
      if |subs| > 1 then GuestsOfSubs(subs) else KeepNamed(NameAndTitle(p))
  }

  /** The entries of the pieces of the "et" split, in order. */
  function GuestsOfParties(parties: seq<string>): seq<Guest> {
    if |parties| == 0 then []
    else GuestsOfParties(parties[..|parties| - 1]) + GuestsOfPartie(parties[|parties| - 1])
  }

  /** `parse_invites_multiples`, as a function of its input. */
  function ParseInvites(personneInfo: string): seq<Guest> {
    GuestsOfParties(ReSplit(EtBeforeName, CleanInfo(personneInfo)))
  }

  lemma GuestsOfSubsStep(subs: seq<string>, j: nat)
    requires j < |subs|
    ensures GuestsOfSubs(subs[..j + 1]) == GuestsOfSubs(subs[..j]) + KeepNamed(SubGuest(subs[j]))
  {
    assert subs[..j + 1][..j] == subs[..j];
  }

  lemma PairConcat<T>(u: T, v: T)
    ensures [u] + [v] == [u, v]
  {
  }

  lemma AppendAssoc<T>(a: seq<T>, b: seq<T>, c: seq<T>)
    ensures a + b + c == a + (b + c)
  {
  }

  lemma GuestsOfPartiesStep(parties: seq<string>, i: nat)
    requires i < |parties|
    ensures GuestsOfParties(parties[..i + 1]) == GuestsOfParties(parties[..i]) + GuestsOfPartie(parties[i])
  {
    assert parties[..i + 1][..i] == parties[..i];
  }

  /** Every entry of a multi-guest split is well formed. */
  lemma {:induction false} GuestsOfSubsWellFormed(subs: seq<string>)
    ensures forall k :: 0 <= k < |GuestsOfSubs(subs)| ==> WellFormedGuest(GuestsOfSubs(subs)[k])
    decreases |subs|
  {
    if |subs| > 0 {
      var init := subs[..|subs| - 1];
      GuestsOfSubsWellFormed(init);
      var g := SubGuest(subs[|subs| - 1]);
      assert g.nom != "" ==> WellFormedGuest(g);
      var r, p, q := GuestsOfSubs(subs), GuestsOfSubs(init), KeepNamed(g);
      assert r == p + q;
      forall k | 0 <= k < |r|
        ensures WellFormedGuest(r[k])
      {
        if k < |p| {
          assert r[k] == p[k];
        } else {
          assert r[k] == q[k - |p|];
        }
      }
    }
  }

  /** Every entry found in one piece of the "et" split is well formed. */
  lemma GuestsOfPartieWellFormed(partie: string)
    ensures forall k :: 0 <= k < |GuestsOfPartie(partie)| ==> WellFormedGuest(GuestsOfPartie(partie)[k])
  {
    GuestsOfSubsWellFormed(ReSplit(CommaBeforeName, Strip(partie)));
  }

  /** Every entry found in the pieces of the "et" split is well formed. */
  lemma {:induction false} GuestsOfPartiesWellFormed(parties: seq<string>)
    ensures forall k :: 0 <= k < |GuestsOfParties(parties)| ==> WellFormedGuest(GuestsOfParties(parties)[k])
    decreases |parties|
  {
    if |parties| > 0 {
      GuestsOfPartiesWellFormed(parties[..|parties| - 1]);
      GuestsOfPartieWellFormed(parties[|parties| - 1]);
    }
  }

  /** Every entry `parse_invites_multiples` returns has a non-empty, stripped,
      comma-free name and a stripped title. */
  lemma ParseInvitesWellFormed(personneInfo: string)
    ensures forall k :: 0 <= k < |ParseInvites(personneInfo)| ==> WellFormedGuest(ParseInvites(personneInfo)[k])
  {
    GuestsOfPartiesWellFormed(ReSplit(EtBeforeName, CleanInfo(personneInfo)));
  }

  /** The pieces of a multi-guest split contribute independently and in
      order: the entries of two runs of pieces are the entries of the first
      followed by those of the second. */
  lemma {:induction false} GuestsOfSubsAppend(a: seq<string>, b: seq<string>)
    ensures GuestsOfSubs(a + b) == GuestsOfSubs(a) + GuestsOfSubs(b)
    decreases |b|
  {
    if |b| == 0 {
      assert a + b == a;
    } else {
      var b0 := b[..|b| - 1];
      assert (a + b)[..|a + b| - 1] == a + b0;
      GuestsOfSubsAppend(a, b0);
      AppendAssoc(GuestsOfSubs(a), GuestsOfSubs(b0), KeepNamed(SubGuest(b[|b| - 1])));
    }
  }

  /** A piece whose name is empty is dropped, and the pieces around it keep
      their entries. */
  lemma DropsNameless(before: seq<string>, sub: string, after: seq<string>)
    requires SubGuest(sub).nom == ""
    ensures GuestsOfSubs(before + [sub] + after) == GuestsOfSubs(before) + GuestsOfSubs(after)
  {
    GuestsOfSubsAppend(before + [sub], after);
    GuestsOfSubsAppend(before, [sub]);
    assert GuestsOfSubs([sub]) == [] by {
      assert [sub][..0] == [];
      assert GuestsOfSubs([sub]) == GuestsOfSubs([]) + KeepNamed(SubGuest(sub));
    }
    assert GuestsOfSubs(before) + [] == GuestsOfSubs(before);
  }

  /** The one-guest branch treats its (stripped) piece exactly as the
      multi-guest loop treats a single piece. */
  lemma SingleBranchIsLoopBody(partie: string)
    requires IsStripped(partie)
    ensures KeepNamed(NameAndTitle(partie)) == GuestsOfSubs([partie])
  {
    assert Strip(partie) == partie;
    assert [partie][..0] == [];
    assert GuestsOfSubs([partie]) == GuestsOfSubs([]) + KeepNamed(SubGuest(partie));
  }

  /** A text that cleans to nothing has no guest. */
  lemma ParseInvitesBlank(personneInfo: string)
    requires CleanInfo(personneInfo) == ""
    ensures ParseInvites(personneInfo) == []
  {
    var parties := ReSplit(EtBeforeName, "");
    assert parties == [""];
    assert parties[..0] == [];
  }

  /** A stripped text that does not end with an ellipsis or a period is
      left as it is by the cleaning. */
  lemma CleanInfoKeeps(info: string)
    requires info != [] && IsStripped(info)
    requires info[|info| - 1] != '…' && info[|info| - 1] != '.'
    ensures CleanInfo(info) == info
  {
    assert !Removes(Only('…'), info[|info| - 1]);
    assert RStrip(info, Only('…')) == info;
    assert !Removes(Only('.'), info[|info| - 1]);
    assert RStrip(info, Only('.')) == info;
  }

  /** The entries of two pieces of the "et" split are those of the first
      followed by those of the second. */
  lemma GuestsOfTwoParties(a: string, b: string)
    ensures GuestsOfParties([a, b]) == GuestsOfPartie(a) + GuestsOfPartie(b)
  {
    assert GuestsOfParties([a]) == GuestsOfPartie(a) by {
      assert [a][..0] == [];
      assert [] + GuestsOfPartie(a) == GuestsOfPartie(a);
    }
    assert [a, b][..1] == [a];
  }

  /** A non-blank piece the comma split leaves whole goes through the
      one-guest branch. */
  lemma PartieUnsplit(partie: string)
    requires partie != [] && IsStripped(partie) && ReSplit(CommaBeforeName, partie) == [partie]
    ensures GuestsOfPartie(partie) == KeepNamed(NameAndTitle(partie))
  {
  }

  /** A piece without a comma is one guest with that name and no title. */
  lemma PartieWithoutComma(partie: string)
    requires partie != [] && IsStripped(partie) && ',' !in partie
    ensures GuestsOfPartie(partie) == [Guest(partie, "")]
  {
    NoCommaNoSplit(partie);
    PartieUnsplit(partie);
  }

  /** Written as "name, title", a piece is cut back into that name and
      that title. */
  lemma CutAtCommaSpace(nom: string, intitule: string)
    requires IsStripped(nom) && ',' !in nom && IsStripped(intitule)
    ensures NameAndTitle(nom + ", " + intitule) == Guest(nom, intitule)
  {
    assert "," + [' '] == ", ";
    AppendAssoc(nom, ",", [' ']);
    AppendAssoc(nom + ",", [' '], intitule);
    NameAndTitleCut(nom + ", " + intitule, nom, [' '] + intitule);
    StripLeadingSpace(' ', intitule);
  }

  /** A name, a comma and a title that starts in lower case are one guest:
      the comma does not split, and the first-comma cut separates name and
      title. */
  lemma PartieWithLowerCaseTitle(nom: string, intitule: string)
    requires nom != [] && IsStripped(nom) && ',' !in nom
    requires intitule != [] && IsStripped(intitule) && ',' !in intitule && !IsCap(intitule[0])
    ensures GuestsOfPartie(nom + ", " + intitule) == [Guest(nom, intitule)]
  {
    var partie := nom + ", " + intitule;
    assert IsStripped(partie) by {
      assert partie[0] == nom[0] && partie[|partie| - 1] == intitule[|intitule| - 1];
    }
    CommaBeforeLowerCase(nom, intitule);
    CutAtCommaSpace(nom, intitule);
    PartieUnsplit(partie);
  }

  /** A text that "et" cuts in two, before a first name and the capital of
      a surname, has the guests of its first half followed by those of its
      second half. */
  lemma ParseInvitesEtSplit(a: string, b: string)
    requires a != [] && IsStripped(a) && NoSpaceEt(a)
    requires IsStripped(b) && NoSpaceEt(b) && NameAt(b, 0, false)
    requires b[|b| - 1] != '…' && b[|b| - 1] != '.'
    ensures ParseInvites(a + " et " + b) == GuestsOfPartie(a) + GuestsOfPartie(b)
  {
    var s := a + " et " + b;
    assert IsStripped(s) by {
      assert s[0] == a[0] && s[|s| - 1] == b[|b| - 1];
    }
    CleanInfoKeeps(s);
    EtSplitsBeforeName(a, b);
    GuestsOfTwoParties(a, b);
  }

  /** Joining two stripped texts with ", " gives a stripped text, which has
      no whitespace-then-"et" when neither part has one and the second does
      not start with "et" (which would follow the comma's space). */
  lemma CommaJoin(x: string, t: string)
    requires x != [] && IsStripped(x) && NoSpaceEt(x)
    requires t != [] && IsStripped(t) && NoSpaceEt(t) && !StartsWithEt(t)
    ensures var b := x + ", " + t;
            IsStripped(b) && NoSpaceEt(b) && b[0] == x[0] && b[|b| - 1] == t[|t| - 1]
  {
    var b := x + ", " + t;
    AppendAssoc(x, ", ", t);
    NoSpaceEtAppend(", ", t);
    NoSpaceEtAppend(x, ", " + t);
    assert b[0] == x[0] && b[|b| - 1] == t[|t| - 1];
  }

  /** "First Last, title" starts with a name and holds no "et" after
      whitespace when the title does not start with "et". */
  lemma NameCommaTitle(x: string, t: string, fullSurname: bool)
    requires IsStripped(x) && NoSpaceEt(x) && NameAt(x, 0, fullSurname)
    requires t != [] && IsStripped(t) && NoSpaceEt(t) && !StartsWithEt(t)
    ensures var b := x + ", " + t;
            IsStripped(b) && NoSpaceEt(b) && NameAt(b, 0, fullSurname) && b[|b| - 1] == t[|t| - 1]
  {
    CommaJoin(x, t);
    AppendAssoc(x, ", ", t);
    NameAtPrefix(x, ", " + t, fullSurname);
  }

  /** The second half of "title et First Last, title" starts with a name, so
      the text splits at "et" into the title and that half. */
  lemma TitleEtNameSplit(a: string, x: string, t: string)
    requires a != [] && IsStripped(a) && NoSpaceEt(a)
    requires IsStripped(x) && NoSpaceEt(x) && NameAt(x, 0, false)
    requires t != [] && IsStripped(t) && NoSpaceEt(t) && !StartsWithEt(t)
    requires t[|t| - 1] != '.' && t[|t| - 1] != '…'
    ensures ParseInvites(a + " et " + (x + ", " + t)) == GuestsOfPartie(a) + GuestsOfPartie(x + ", " + t)
  {
    NameCommaTitle(x, t, false);
    ParseInvitesEtSplit(a, x + ", " + t);
  }

  /** The two halves of "title et First Last, title" give one guest each. */
  lemma TitleEtNameParts(a: string, x: string, t: string)
    requires a != [] && IsStripped(a) && ',' !in a
    requires x != [] && IsStripped(x) && ',' !in x
    requires t != [] && IsStripped(t) && ',' !in t && !IsCap(t[0])
    ensures GuestsOfPartie(a) + GuestsOfPartie(x + ", " + t) == [Guest(a, ""), Guest(x, t)]
  {
    PartieWithoutComma(a);
    PartieWithLowerCaseTitle(x, t);
    PairConcat(Guest(a, ""), Guest(x, t));
  }

  /** "title et First Last, title": a title with no name, "et", then a
      first name and a surname, a comma and a title that starts in lower case
      gives two guests, the first one with the title as name. The title must
      not start with "et" (which would follow the comma's space) nor end with a period or an ellipsis (which the cleaning would
      remove). */
  lemma TitleEtNameWithTitle(a: string, x: string, t: string)
    requires a != [] && IsStripped(a) && ',' !in a && NoSpaceEt(a)
    requires IsStripped(x) && ',' !in x && NoSpaceEt(x) && NameAt(x, 0, false)
    requires t != [] && IsStripped(t) && ',' !in t && NoSpaceEt(t)
    requires !IsCap(t[0]) && !StartsWithEt(t)
    requires t[|t| - 1] != '.' && t[|t| - 1] != '…'
    ensures ParseInvites(a + " et " + x + ", " + t) == [Guest(a, ""), Guest(x, t)]
  {
    AppendAssoc(a + " et ", x + ", ", t);
    AppendAssoc(a + " et ", x, ", ");
    TitleEtNameSplit(a, x, t);
    TitleEtNameParts(a, x, t);
  }

  /** A capital followed by at least one more word character. */
  predicate IsCapitalisedWord(w: string) {
    |w| >= 2 && IsCap(w[0]) && forall k :: 1 <= k < |w| ==> IsWordChar(w[k])
  }

  /** "First Last", two capitalised words: a stripped name without a comma
      or an "et", on which the whole-surname lookahead holds. */
  lemma FirstAndLastName(first: string, last: string)
    requires IsCapitalisedWord(first) && IsCapitalisedWord(last)
    ensures var y := first + " " + last;
            IsStripped(y) && ',' !in y && NoSpaceEt(y) && NameAt(y, 0, true)
  {
    var y := first + " " + last;
    var n := |first|;
    assert y[n] == ' ' && y[n + 1] == last[0] && y[n + 2] == last[1];
    forall k | 0 <= k < |y| && k != n
      ensures IsWordChar(y[k])
    {
      if k < n {
        assert y[k] == first[k];
        ClassesAreSeparate(first[0]);
      } else {
        assert y[k] == last[k - n - 1];
        ClassesAreSeparate(last[0]);
      }
    }
    forall k | 0 <= k < |y| && k != n
      ensures !IsSpace(y[k]) && y[k] != ','
    {
      ClassesAreSeparate(y[k]);
    }
    WordRunEndAt(y, 1, n);
    ClassesAreSeparate(last[0]);
    SpaceRunEndAt(y, n, n + 1);
  }

  /** The title parts of the example text: a job title with no name, and a
      title in lower case. */
  lemma ExampleTitleFacts()
    ensures var a := "cheffe cuisinière";
            a != [] && IsStripped(a) && ',' !in a && NoSpaceEt(a)
  {
  }

  lemma ExampleIntituleFacts()
    ensures var t := "historien spécialiste" + " de l'alimentation";
            && t != [] && IsStripped(t) && ',' !in t
            && !IsCap(t[0]) && !StartsWithEt(t)
            && t[|t| - 1] != '.' && t[|t| - 1] != '…'
  {
  }

  lemma ExampleIntituleNoEt()
    ensures NoSpaceEt("historien spécialiste" + " de l'alimentation")
  {
    NoSpaceEtAppend("historien spécialiste", " de l'alimentation");
  }

  /** The example text: "et" before a first name and the capital of a
      surname splits it in two, and the comma before a title in lower case
      does not split the second piece, which the first-comma cut then takes
      apart into name and title. */
  lemma ParseInvitesExample()
    ensures ParseInvites("cheffe cuisinière" + " et " + ("Loïc" + " " + "Bienassis") + ", "
                         + ("historien spécialiste" + " de l'alimentation"))
            == [Guest("cheffe cuisinière", ""),
                Guest("Loïc" + " " + "Bienassis", "historien spécialiste" + " de l'alimentation")]
  {
    ExampleTitleFacts();
    assert IsCapitalisedWord("Loïc") && IsCapitalisedWord("Bienassis");
    FirstAndLastName("Loïc", "Bienassis");
    ExampleIntituleFacts();
    ExampleIntituleNoEt();
    TitleEtNameWithTitle("cheffe cuisinière", "Loïc" + " " + "Bienassis", "historien spécialiste" + " de l'alimentation");
  }

  /** A text the "et" split leaves whole is one piece of the guest loop. */
  lemma GuestsOfOneParty(s: string)
    ensures GuestsOfParties([s]) == GuestsOfPartie(s)
  {
    assert [s][..0] == [];
    assert [] + GuestsOfPartie(s) == GuestsOfPartie(s);
  }

  /** The entries of a two-piece comma split are those of each piece. */
  lemma GuestsOfTwoSubs(a: string, b: string)
    ensures GuestsOfSubs([a, b]) == KeepNamed(SubGuest(a)) + KeepNamed(SubGuest(b))
  {
    assert [a, b][..1] == [a];
    assert [a][..0] == [];
    assert GuestsOfSubs([a]) == [] + KeepNamed(SubGuest(a));
  }

  /** "Name, title": a name, a comma and a title that starts in lower case,
      with nothing the cleaning removes, is one guest with that name and
      title. */
  lemma OneGuestWithTitle(nom: string, intitule: string)
    requires nom != [] && IsStripped(nom) && ',' !in nom && NoSpaceEt(nom)
    requires intitule != [] && IsStripped(intitule) && ',' !in intitule && NoSpaceEt(intitule)
    requires !IsCap(intitule[0]) && !StartsWithEt(intitule)
    requires intitule[|intitule| - 1] != '.' && intitule[|intitule| - 1] != '…'
    ensures ParseInvites(nom + ", " + intitule) == [Guest(nom, intitule)]
  {
    var s := nom + ", " + intitule;
    CommaJoin(nom, intitule);
    CleanInfoKeeps(s);
    NoSpaceEtNoSplit(s);
    GuestsOfOneParty(s);
    PartieWithLowerCaseTitle(nom, intitule);
  }

  /** "Name, title, First Last, title": the comma before a first name and a
      whole surname splits the piece into two guests, each cut at its own
      comma. */
  lemma PartieTwoGuests(x: string, t: string, y: string, u: string)
    requires x != [] && IsStripped(x) && ',' !in x && NoSpaceEt(x)
    requires t != [] && IsStripped(t) && ',' !in t && NoSpaceEt(t)
    requires !IsCap(t[0]) && !StartsWithEt(t)
    requires IsStripped(y) && ',' !in y && NoSpaceEt(y) && NameAt(y, 0, true)
    requires u != [] && IsStripped(u) && ',' !in u && NoSpaceEt(u)
    requires !IsCap(u[0]) && !StartsWithEt(u)
    ensures GuestsOfPartie((x + ", " + t) + ", " + (y + ", " + u)) == [Guest(x, t), Guest(y, u)]
  {
    var a, b := x + ", " + t, y + ", " + u;
    var s := a + ", " + b;
    CommaJoin(x, t);
    NameCommaTitle(y, u, true);
    ClassesAreSeparate(b[0]);
    CommaJoin(a, b);
    CommaBeforeTitle(x, t);
    CommaBeforeTitle(y, u);
    CommaSplitsBeforeName(a, b);
    GuestsOfTwoSubs(a, b);
    CutAtCommaSpace(x, t);
    CutAtCommaSpace(y, u);
    PairConcat(Guest(x, t), Guest(y, u));
  }

  /** The two-guest text passes the cleaning and the "et" split untouched,
      so `parse_invites_multiples` returns its two guests. */
  lemma ParseInvitesTwoGuests(x: string, t: string, y: string, u: string)
    requires x != [] && IsStripped(x) && ',' !in x && NoSpaceEt(x)
    requires t != [] && IsStripped(t) && ',' !in t && NoSpaceEt(t)
    requires !IsCap(t[0]) && !StartsWithEt(t)
    requires IsStripped(y) && ',' !in y && NoSpaceEt(y) && NameAt(y, 0, true)
    requires u != [] && IsStripped(u) && ',' !in u && NoSpaceEt(u)
    requires !IsCap(u[0]) && !StartsWithEt(u)
    requires u[|u| - 1] != '.' && u[|u| - 1] != '…'
    ensures ParseInvites((x + ", " + t) + ", " + (y + ", " + u)) == [Guest(x, t), Guest(y, u)]
  {
    var a, b := x + ", " + t, y + ", " + u;
    var s := a + ", " + b;
    CommaJoin(x, t);
    NameCommaTitle(y, u, true);
    ClassesAreSeparate(b[0]);
    CommaJoin(a, b);
    CleanInfoKeeps(s);
    NoSpaceEtNoSplit(s);
    GuestsOfOneParty(s);
    PartieTwoGuests(x, t, y, u);
  }

  /** The four parts of the two-guest example: two names, each followed by a
      title in lower case. */
  lemma TwoGuestsNameFacts()
    ensures IsCapitalisedWord("Jean") && IsCapitalisedWord("Martin")
    ensures IsCapitalisedWord("Sophie") && IsCapitalisedWord("Durand")
  {
  }

  lemma TwoGuestsTitleFacts()
    ensures var t := "économiste";
            && t != [] && IsStripped(t) && ',' !in t && NoSpaceEt(t)
            && !IsCap(t[0]) && !StartsWithEt(t)
    ensures var u := "sociologue";
            && u != [] && IsStripped(u) && ',' !in u && NoSpaceEt(u)
            && !IsCap(u[0]) && !StartsWithEt(u)
            && u[|u| - 1] != '.' && u[|u| - 1] != '…'
  {
  }

  /** The two-guest example: the comma before "Sophie Durand" splits, the
      commas before the two titles do not, and each piece is cut at its
      comma. */
  lemma ParseInvitesTwoGuestsExample()
    ensures ParseInvites((("Jean" + " " + "Martin") + ", " + "économiste") + ", "
                         + (("Sophie" + " " + "Durand") + ", " + "sociologue"))
            == [Guest("Jean" + " " + "Martin", "économiste"), Guest("Sophie" + " " + "Durand", "sociologue")]
  {
    TwoGuestsNameFacts();
    FirstAndLastName("Jean", "Martin");
    FirstAndLastName("Sophie", "Durand");
    TwoGuestsTitleFacts();
    ParseInvitesTwoGuests("Jean" + " " + "Martin", "économiste", "Sophie" + " " + "Durand", "sociologue");
  }

  /** The loop over the pieces of a comma split: each piece is stripped and
      cut, and appended to `invites` when its name is non-empty. */
  method AppendSubGuests(invites0: seq<Guest>, subParties: seq<string>) returns (invites: seq<Guest>)
    ensures invites == invites0 + GuestsOfSubs(subParties)
  {
    invites := invites0;
    for j := 0 to |subParties|
      invariant invites == invites0 + GuestsOfSubs(subParties[..j])
    {
      var invite := NameAndTitle(Strip(subParties[j]));
      GuestsOfSubsStep(subParties, j);
      AppendAssoc(invites0, GuestsOfSubs(subParties[..j]), KeepNamed(invite));
      if invite.nom != "" {
        invites := invites + [invite];
      }
    }
    assert subParties[..|subParties|] == subParties;
  }

  /** The body of the loop over the pieces of the "et" split: a blank piece
      adds nothing; otherwise the comma split decides between several guests
      and a single one. */
  method AppendPartieGuests(invites0: seq<Guest>, partie0: string) returns (invites: seq<Guest>)
    ensures invites == invites0 + GuestsOfPartie(partie0)
  {
    invites := invites0;
    var partie := Strip(partie0);
    if partie != "" {
      var subParties := ReSplit(CommaBeforeName, partie);
      if |subParties| > 1 {
        // several guests found by the comma split
        invites := AppendSubGuests(invites, subParties);
      } else {
        // a single guest
        var invite := NameAndTitle(partie);
        if invite.nom != "" {
          invites := invites + [invite];
        }
      }
    }
  }

  /** `parse_invites_multiples`: clean the text, split it on "et" before a
      name, split each piece on a comma before a name, and cut each resulting
      piece at its first comma into name and title. */
  method ParseInvitesMultiples(personneInfo: string) returns (invites: seq<Guest>)
    ensures invites == ParseInvites(personneInfo)
  {
    invites := [];
    var info := CleanInfo(personneInfo);
    var parties := ReSplit(EtBeforeName, info);
    for i := 0 to |parties|
      invariant invites == GuestsOfParties(parties[..i])
    {
      invites := AppendPartieGuests(invites, parties[i]);
      GuestsOfPartiesStep(parties, i);
    }
    assert parties[..|parties|] == parties;
  }
}
