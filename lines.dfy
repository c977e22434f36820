/** The line parser, `parse_matinale_line`: one text cell, made of a time
    token and channel segments separated by `…`, turned into one record per
    guest, each carrying the time and the segment's channel. */
module Lines {
  import opened Chars
  import opened Options
  import opened Strings
  import opened Patterns
  import opened Guests

  /** One record `{'heure': ..., 'chaine': ..., 'nom': ..., 'intitule': ...}`. */
  datatype Invite = Invite(heure: string, chaine: string, nom: string, intitule: string)

  /** A time token, `\d{1,2}h\d{2}`: one or two digits, `h`, two digits. */
  predicate IsTimeToken(t: string) {
    || (|t| == 4 && IsDigit(t[0]) && t[1] == 'h' && IsDigit(t[2]) && IsDigit(t[3]))
    || (|t| == 5 && IsDigit(t[0]) && IsDigit(t[1]) && t[2] == 'h' && IsDigit(t[3]) && IsDigit(t[4]))
  }

  /** `re.match(r'(\d{1,2}h\d{2})', text)`, group 1: the time token the text
      starts with, if any. The greedy `\d{1,2}` tries two digits first, then
      one. */
  function TimeToken(text: string): (r: Option<string>)
    ensures r.Some? ==> |r.value| <= |text| && r.value == text[..|r.value|] && IsTimeToken(r.value)
  {
    if |text| >= 5 && IsDigit(text[0]) && IsDigit(text[1]) && text[2] == 'h'
       && IsDigit(text[3]) && IsDigit(text[4])
    then Some(text[..5])
    else if |text| >= 4 && IsDigit(text[0]) && text[1] == 'h' && IsDigit(text[2]) && IsDigit(text[3])
    then Some(text[..4])
    else None
  }

  /** Whichever prefix of the text is a time token, the match finds exactly
      that one: at most one prefix is a token, and a token prefix is never
      missed. */
  lemma TimeTokenFindsEveryToken(text: string, n: nat)
    requires n <= |text| && IsTimeToken(text[..n])
    ensures TimeToken(text) == Some(text[..n])
  {
    assert text[..n][0] == text[0] && text[..n][1] == text[1];
    if n == 4 {
      assert text[..n][2] == text[2] && text[..n][3] == text[3];
    } else {
      assert text[..n][2] == text[2] && text[..n][3] == text[3] && text[..n][4] == text[4];
    }
  }

  /** What follows the time token: stripped, then cleared of every leading `.`
      (`lstrip('.')` removes all of them, not just one). */
  function Reste(text: string, heure: string): string
    requires |heure| <= |text|
  {
    LStrip(Strip(text[|heure|..]), Only('.'))
  }

  /** The rest is the stripped text after the token with its whole leading
      run of periods removed, however long that run is. */
  lemma ResteDropsDots(text: string, heure: string)
    requires |heure| <= |text|
    ensures var s, r := Strip(text[|heure|..]), Reste(text, heure);
            && |r| <= |s| && r == s[|s| - |r|..]
            && (r == [] || r[0] != '.')
            && forall k :: 0 <= k < |s| - |r| ==> s[k] == '.'
  {
    LStripRemoved(Strip(text[|heure|..]), Only('.'));
    LStripSuffix(Strip(text[|heure|..]), Only('.'));
  }

  /** The two groups of `re.match(r'([^:]+):\s*(.+)', p)`. */
  datatype ChannelGroups = ChannelGroups(channel: string, info: string)

  /** End of the run of characters other than newline that starts at `i`:
      how far `.` repeated can reach. */
  function LineEnd(s: string, i: nat): (j: nat)
    requires i <= |s|
    ensures i <= j <= |s|
    ensures forall k :: i <= k < j ==> s[k] != '\n'
    ensures j == |s| || s[j] == '\n'
    decreases |s| - i
  {
    if i < |s| && s[i] != '\n' then LineEnd(s, i + 1) else i
  }

  /** The last position in `[lo, hi)` that holds something other than a
      newline: where `.+` starts when `\s*` has to give characters back. */
  function LastNonNewline(s: string, lo: nat, hi: nat): (r: Option<nat>)
    requires lo <= hi <= |s|
    ensures r.Some? ==> lo <= r.value < hi && s[r.value] != '\n'
    ensures r.Some? ==> forall k :: r.value < k < hi ==> s[k] == '\n'
    ensures r.None? ==> forall k :: lo <= k < hi ==> s[k] == '\n'
    decreases hi - lo
  {
    if lo == hi then None
    else if s[hi - 1] != '\n' then Some(hi - 1)
    else LastNonNewline(s, lo, hi - 1)
  }

  /** `re.match(r'([^:]+):\s*(.+)', p)`. The channel group is everything
      before the first colon, and must not be empty. After the colon, `\s*`
      takes the whole whitespace run and `.+` the rest of that line; when
      only whitespace follows the colon, `\s*` gives back its last character
      that is not a newline, which `.+` takes alone. */
  function ChannelMatch(p: string): (r: Option<ChannelGroups>)
    ensures r.Some? ==> var c := IndexOf(p, ':');
                        0 < c < |p| && r.value.channel == p[..c]
    ensures r.Some? ==> r.value.info != [] && forall k :: 0 <= k < |r.value.info| ==> r.value.info[k] != '\n'
    ensures r.Some? ==> var c := IndexOf(p, ':');
                        var w := SpaceRunEnd(p, c + 1);
                        && (w < |p| ==> r.value.info == p[w..LineEnd(p, w)])
                        && (w == |p| ==> LastNonNewline(p, c + 1, w).Some?
                                         && r.value.info == [p[LastNonNewline(p, c + 1, w).value]])
  {
    var c := IndexOf(p, ':');
    if c == 0 || c == |p| then None
    else
      var w := SpaceRunEnd(p, c + 1);
      if w < |p| then Some(ChannelGroups(p[..c], p[w..LineEnd(p, w)]))
      else match LastNonNewline(p, c + 1, w)
        case None => None
        case Some(k) => Some(ChannelGroups(p[..c], [p[k]]))
  }

  /** The regular expression matches exactly when a colon comes after a
      non-empty channel and something other than a newline follows it. */
  lemma ChannelMatchExactly(p: string)
    ensures ChannelMatch(p).Some?
            <==> var c := IndexOf(p, ':');
                 0 < c < |p| && exists k :: c < k < |p| && p[k] != '\n'
  {
    var c := IndexOf(p, ':');
    if 0 < c < |p| {
      var w := SpaceRunEnd(p, c + 1);
      if w < |p| {
        assert p[w] != '\n';
      } else if LastNonNewline(p, c + 1, w).None? {
        assert forall k :: c < k < |p| ==> p[k] == '\n';
      }
    }
  }

  /** On a stripped segment, the only way to miss is a missing channel or
      a missing guest text: the match fails exactly when there is no colon,
      the colon comes first or the colon comes last. Whitespace cannot follow
      the colon at the end, so `\s*` never has to give anything back. */
  lemma StrippedChannelMatch(p: string)
    requires p != [] && IsStripped(p)
    ensures ChannelMatch(p).None? <==> var c := IndexOf(p, ':'); c == 0 || c >= |p| - 1
  {
    var c := IndexOf(p, ':');
    if 0 < c < |p| - 1 {
      assert !IsSpace(p[|p| - 1]);
      SpaceRun(p, c + 1);
      assert SpaceRunEnd(p, c + 1) < |p|;
    }
  }

  /** The records of a list of guests, each given the time and the channel. */
  function Tagged(heure: string, chaine: string, guests: seq<Guest>): (r: seq<Invite>)
    ensures |r| == |guests|
  {
    if |guests| == 0 then []
    else
      var g := guests[|guests| - 1];
      Tagged(heure, chaine, guests[..|guests| - 1]) + [Invite(heure, chaine, g.nom, g.intitule)]
  }

  /** Record `k` carries guest `k`'s name and title: one record per guest,
      in the guests' order. */
  lemma {:induction false} TaggedAt(heure: string, chaine: string, guests: seq<Guest>)
    ensures forall k :: 0 <= k < |guests| ==>
              Tagged(heure, chaine, guests)[k] == Invite(heure, chaine, guests[k].nom, guests[k].intitule)
    decreases |guests|
  {
    if |guests| > 0 {
      var init := guests[..|guests| - 1];
      TaggedAt(heure, chaine, init);
      forall k | 0 <= k < |guests|
        ensures Tagged(heure, chaine, guests)[k] == Invite(heure, chaine, guests[k].nom, guests[k].intitule)
      {
        if k < |init| {
          assert guests[k] == init[k];
        }
      }
    }
  }

  /** The records of one segment of the ellipsis split: nothing for a blank
      segment or one the regular expression does not match; otherwise one
      record per guest of the stripped guest text, with the stripped channel. */
  function SegmentInvites(heure: string, part: string): seq<Invite> {
    var p := Strip(part);
    if p == "" then []
    else match ChannelMatch(p)
      case None => []
      case Some(g) => Tagged(heure, Strip(g.channel), ParseInvites(Strip(g.info)))
  }

  /** The records of the segments, in order. */
  function SegmentsInvites(heure: string, parts: seq<string>): seq<Invite> {
    if |parts| == 0 then []
    else SegmentsInvites(heure, parts[..|parts| - 1]) + SegmentInvites(heure, parts[|parts| - 1])
  }

  /** `parse_matinale_line`, as a function of its input: nothing for a blank
      text or one without a leading time token; otherwise the records of the
      segments of what follows the token. */
  function LineInvites(text: string): seq<Invite> {
    if text == "" || Strip(text) == "" then []
    else match TimeToken(text)
      case None => []
      case Some(heure) => SegmentsInvites(heure, ReSplit(Ellipsis, Reste(text, heure)))
  }

  lemma SegmentsInvitesStep(heure: string, parts: seq<string>, i: nat)
    requires i < |parts|
    ensures SegmentsInvites(heure, parts[..i + 1])
            == SegmentsInvites(heure, parts[..i]) + SegmentInvites(heure, parts[i])
  {
    assert parts[..i + 1][..i] == parts[..i];
  }

  lemma TaggedStep(heure: string, chaine: string, guests: seq<Guest>, i: nat)
    requires i < |guests|
    ensures Tagged(heure, chaine, guests[..i + 1])
            == Tagged(heure, chaine, guests[..i]) + [Invite(heure, chaine, guests[i].nom, guests[i].intitule)]
  {
    assert guests[..i + 1][..i] == guests[..i];
  }

  /** The records of the segments of a concatenation are those of each part,
      in order. */
  lemma {:induction false} SegmentsInvitesAppend(heure: string, a: seq<string>, b: seq<string>)
    ensures SegmentsInvites(heure, a + b) == SegmentsInvites(heure, a) + SegmentsInvites(heure, b)
    decreases |b|
  {
    if |b| > 0 {
      var b0 := b[..|b| - 1];
      assert (a + b)[..|a + b| - 1] == a + b0;
      SegmentsInvitesAppend(heure, a, b0);
      AppendAssoc(SegmentsInvites(heure, a), SegmentsInvites(heure, b0), SegmentInvites(heure, b[|b| - 1]));
    } else {
      assert a + b == a;
    }
  }

  /** The records `for invite in invites_parsed` appends. */
  method AppendTagged(invites0: seq<Invite>, heure: string, chaine: string, guests: seq<Guest>)
    returns (invites: seq<Invite>)
    ensures invites == invites0 + Tagged(heure, chaine, guests)
  {
    invites := invites0;
    for i := 0 to |guests|
      invariant invites == invites0 + Tagged(heure, chaine, guests[..i])
    {
      var invite := guests[i];
      TaggedStep(heure, chaine, guests, i);
      AppendAssoc(invites0, Tagged(heure, chaine, guests[..i]), [Invite(heure, chaine, invite.nom, invite.intitule)]);
      invites := invites + [Invite(heure, chaine, invite.nom, invite.intitule)];
    }
    assert guests[..|guests|] == guests;
  }

  /** The body of the loop over the segments. */
  method AppendSegment(invites0: seq<Invite>, heure: string, part: string) returns (invites: seq<Invite>)
    ensures invites == invites0 + SegmentInvites(heure, part)
  {
    invites := invites0;
    var p := Strip(part);
    if p != "" {
      var m := ChannelMatch(p);
      if m.Some? {
        var chaine := Strip(m.value.channel);
        var personneInfo := Strip(m.value.info);
        var invitesParsed := ParseInvitesMultiples(personneInfo);
        invites := AppendTagged(invites, heure, chaine, invitesParsed);
      }
    }
  }

  /** `parse_matinale_line`. */
  method ParseMatinaleLine(text: string) returns (invites: seq<Invite>)
    ensures invites == LineInvites(text)
  {
    if text == "" || Strip(text) == "" {
      return [];
    }
    var heureMatch := TimeToken(text);
    if heureMatch.None? {
      return [];
    }
    var heure := heureMatch.value;
    var reste := Reste(text, heure);
    invites := [];
    var chainesParts := ReSplit(Ellipsis, reste);
    for i := 0 to |chainesParts|
      invariant invites == SegmentsInvites(heure, chainesParts[..i])
    {
      invites := AppendSegment(invites, heure, chainesParts[i]);
      SegmentsInvitesStep(heure, chainesParts, i);
    }
    assert chainesParts[..|chainesParts|] == chainesParts;
  }

  /** A matched segment is its guests, tagged. */
  lemma SegmentIsTagged(heure: string, part: string)
    requires Strip(part) != "" && ChannelMatch(Strip(part)).Some?
    ensures var g := ChannelMatch(Strip(part)).value;
            SegmentInvites(heure, part) == Tagged(heure, Strip(g.channel), ParseInvites(Strip(g.info)))
  {
  }

  /** What every record of a line looks like: a non-empty, stripped channel
      with no colon and no ellipsis character, and a well-formed guest. */
  predicate WellFormedInvite(r: Invite) {
    && r.chaine != ""
    && IsStripped(r.chaine)
    && ':' !in r.chaine
    && '…' !in r.chaine
    && WellFormedGuest(Guest(r.nom, r.intitule))
  }

  /** The stripped channel group of a segment free of `…`. */
  lemma ChannelWellFormed(part: string)
    requires '…' !in part
    requires Strip(part) != "" && ChannelMatch(Strip(part)).Some?
    ensures var chaine := Strip(ChannelMatch(Strip(part)).value.channel);
            chaine != "" && IsStripped(chaine) && ':' !in chaine && '…' !in chaine
  {
    var p := Strip(part);
    var channel := ChannelMatch(p).value.channel;
    var c := IndexOf(p, ':');
    StripKeepsOut(part, '…');
    assert channel == p[..c] && channel[0] == p[0];
    assert '…' !in channel by {
      forall k | 0 <= k < |channel|
        ensures channel[k] != '…'
      {
        assert channel[k] == p[k];
      }
    }
    StripKeepsOut(channel, '…');
    StripKeepsOut(channel, ':');
    StripEmpty(channel);
  }

  /** Every record of one segment free of `…` carries the time it was given
      and is well formed. */
  lemma SegmentWellFormed(heure: string, part: string)
    requires '…' !in part
    ensures forall k :: 0 <= k < |SegmentInvites(heure, part)| ==>
              SegmentInvites(heure, part)[k].heure == heure && WellFormedInvite(SegmentInvites(heure, part)[k])
  {
    var p := Strip(part);
    if p != "" && ChannelMatch(p).Some? {
      var g := ChannelMatch(p).value;
      var chaine, guests := Strip(g.channel), ParseInvites(Strip(g.info));
      SegmentIsTagged(heure, part);
      ChannelWellFormed(part);
      ParseInvitesWellFormed(Strip(g.info));
      TaggedAt(heure, chaine, guests);
    }
  }

  /** Every record of segments free of `…` carries the time it was given and
      is well formed. */
  lemma {:induction false} SegmentsWellFormed(heure: string, parts: seq<string>)
    requires forall k :: 0 <= k < |parts| ==> '…' !in parts[k]
    ensures forall k :: 0 <= k < |SegmentsInvites(heure, parts)| ==>
              SegmentsInvites(heure, parts)[k].heure == heure && WellFormedInvite(SegmentsInvites(heure, parts)[k])
    decreases |parts|
  {
    if |parts| > 0 {
      var init := parts[..|parts| - 1];
      SegmentsWellFormed(heure, init);
      SegmentWellFormed(heure, parts[|parts| - 1]);
      var r, a, b := SegmentsInvites(heure, parts), SegmentsInvites(heure, init), SegmentInvites(heure, parts[|parts| - 1]);
      assert r == a + b;
      forall k | 0 <= k < |r|
        ensures r[k].heure == heure && WellFormedInvite(r[k])
      {
        if k < |a| {
          assert r[k] == a[k];
        } else {
          assert r[k] == b[k - |a|];
        }
      }
    }
  }

  /** A line with a time token is the records of its segments. */
  lemma LineIsSegments(text: string)
    requires text != "" && Strip(text) != "" && TimeToken(text).Some?
    ensures var heure := TimeToken(text).value;
            LineInvites(text) == SegmentsInvites(heure, ReSplit(Ellipsis, Reste(text, heure)))
  {
  }

  /** Every record of a line carries the time token the line starts with, and
      is well formed. */
  lemma LineWellFormed(text: string)
    ensures forall k :: 0 <= k < |LineInvites(text)| ==>
              TimeToken(text) == Some(LineInvites(text)[k].heure) && WellFormedInvite(LineInvites(text)[k])
  {
    if text != "" && Strip(text) != "" && TimeToken(text).Some? {
      var heure := TimeToken(text).value;
      var parts := ReSplit(Ellipsis, Reste(text, heure));
      LineIsSegments(text);
      EllipsisFree(Reste(text, heure));
      RecordsOfSegments(text, heure, parts);
    }
  }

  /** The records of a line, once they are known to be those of its
      segments. */
  lemma RecordsOfSegments(text: string, heure: string, parts: seq<string>)
    requires LineInvites(text) == SegmentsInvites(heure, parts) && TimeToken(text) == Some(heure)
    requires forall k :: 0 <= k < |parts| ==> '…' !in parts[k]
    ensures forall k :: 0 <= k < |LineInvites(text)| ==>
              TimeToken(text) == Some(LineInvites(text)[k].heure) && WellFormedInvite(LineInvites(text)[k])
  {
    SegmentsWellFormed(heure, parts);
  }

  /** A blank line, or one that does not start with a time token, gives no
      record. */
  lemma LineDropped(text: string)
    requires Strip(text) == "" || forall n :: 0 <= n <= |text| ==> !IsTimeToken(text[..n])
    ensures LineInvites(text) == []
  {
  }

  /** A segment without a colon, with nothing before its first colon or with
      nothing after it gives no record. */
  lemma SegmentWithoutInfo(heure: string, part: string)
    requires var p := Strip(part); IndexOf(p, ':') == 0 || IndexOf(p, ':') >= |p| - 1
    ensures SegmentInvites(heure, part) == []
  {
    var p := Strip(part);
    if p != "" {
      StrippedChannelMatch(p);
    }
  }

  /** A segment the regular expression matches gives one record per guest
      found in its stripped guest text, in order, all with its stripped
      channel. */
  lemma SegmentGuests(heure: string, part: string)
    requires Strip(part) != "" && ChannelMatch(Strip(part)).Some?
    ensures var g := ChannelMatch(Strip(part)).value;
            var guests := ParseInvites(Strip(g.info));
            && |SegmentInvites(heure, part)| == |guests|
            && forall k :: 0 <= k < |guests| ==>
                 SegmentInvites(heure, part)[k] == Invite(heure, Strip(g.channel), guests[k].nom, guests[k].intitule)
  {
    var g := ChannelMatch(Strip(part)).value;
    SegmentIsTagged(heure, part);
    TaggedAt(heure, Strip(g.channel), ParseInvites(Strip(g.info)));
  }

  /** A stripped channel followed by one space keeps only the channel once
      stripped. */
  lemma StripTrailingSpace(chaine: string)
    requires chaine != [] && IsStripped(chaine)
    ensures Strip(chaine + " ") == chaine
  {
    var c := chaine + " ";
    assert c[0] == chaine[0] && c[|c| - 1] == ' ';
    assert LStrip(c, Whitespace) == c;
    assert c[..|c| - 1] == chaine;
    assert RStrip(c, Whitespace) == RStrip(chaine, Whitespace);
    StripUnfold(c);
  }

  /** "channel : guests": the regular expression takes the channel with the
      space before the colon, and the guest text whole. */
  lemma ChannelOfSegment(chaine: string, info: string)
    requires chaine != [] && ':' !in chaine
    requires info != [] && !IsSpace(info[0]) && '\n' !in info
    ensures ChannelMatch(chaine + " : " + info) == Some(ChannelGroups(chaine + " ", info))
  {
    var p := chaine + " : " + info;
    var c := |chaine| + 1;
    assert p[c] == ':' && p[c + 1] == ' ' && p[c + 2] == info[0];
    assert p[..c] == chaine + " ";
    IndexOfFirst(p, ':', c);
    SpaceRunEndAt(p, c + 1, c + 2);
    forall k | c + 2 <= k < |p| ensures p[k] != '\n' {
      assert p[k] == info[k - c - 2];
    }
    assert p[c + 2..] == info;
    ChannelMatchToEnd(p, c, c + 2);
  }

  /** When the guest text runs to the end of the segment, the groups are the
      text before the colon and the text after the whitespace run. */
  lemma ChannelMatchToEnd(p: string, c: nat, w: nat)
    requires 0 < c < |p| && IndexOf(p, ':') == c
    requires c + 1 <= w < |p| && SpaceRunEnd(p, c + 1) == w
    requires forall k :: w <= k < |p| ==> p[k] != '\n'
    ensures ChannelMatch(p) == Some(ChannelGroups(p[..c], p[w..]))
  {
    assert LineEnd(p, w) == |p|;
    assert p[w..LineEnd(p, w)] == p[w..];
  }

  /** One segment "channel : guests" gives one record per guest, all with
      that channel. */
  lemma SegmentOfOneChannel(heure: string, chaine: string, info: string)
    requires chaine != [] && IsStripped(chaine) && ':' !in chaine
    requires info != [] && IsStripped(info) && '\n' !in info
    ensures SegmentInvites(heure, chaine + " : " + info) == Tagged(heure, chaine, ParseInvites(info))
  {
    var p := chaine + " : " + info;
    assert p[0] == chaine[0] && p[|p| - 1] == info[|info| - 1];
    assert Strip(p) == p;
    ChannelOfSegment(chaine, info);
    StripTrailingSpace(chaine);
  }

  /** The records of two segments are those of the first followed by those
      of the second. */
  lemma SegmentsOfTwo(heure: string, a: string, b: string)
    ensures SegmentsInvites(heure, [a, b]) == SegmentInvites(heure, a) + SegmentInvites(heure, b)
  {
    assert SegmentsInvites(heure, [a]) == SegmentInvites(heure, a) by {
      assert [a][..0] == [];
      assert [] + SegmentInvites(heure, a) == SegmentInvites(heure, a);
    }
    assert [a, b][..1] == [a];
  }

  /** A blank segment gives no record. */
  lemma BlankSegment(heure: string)
    ensures SegmentInvites(heure, "") == []
  {
    StripEmpty("");
  }

  /** What follows the time token in a one-channel line. */
  lemma OneChannelText(chaine: string, info: string)
    requires chaine != [] && IsStripped(chaine) && '…' !in chaine
    requires info != [] && IsStripped(info) && '…' !in info
    ensures var p := chaine + " : " + info;
            var r := "…" + p;
            && p != [] && !IsSpace(p[0]) && '…' !in p
            && r != [] && IsStripped(r) && r[0] != '.'
  {
    var p := chaine + " : " + info;
    var r := "…" + p;
    assert r[0] == '…' && r[|r| - 1] == info[|info| - 1] && p[0] == chaine[0];
  }

  /** A line that starts with a time token is kept, with that token. */
  lemma LineStartsWithTime(heure: string, r: string)
    requires IsTimeToken(heure)
    ensures var text := heure + r;
            text != "" && Strip(text) != "" && TimeToken(text) == Some(heure)
  {
    var text := heure + r;
    assert text[..|heure|] == heure;
    TimeTokenFindsEveryToken(text, |heure|);
    ClassesAreSeparate(text[0]);
    StripEmpty(text);
  }

  /** A stripped rest that does not start with a period is what follows the
      time token. */
  lemma ResteAfterTime(heure: string, r: string)
    requires r != [] && IsStripped(r) && r[0] != '.'
    ensures Reste(heure + r, heure) == r
  {
    assert (heure + r)[|heure|..] == r;
    assert Strip(r) == r;
    assert LStrip(r, Only('.')) == r;
  }

  /** A line "time…channel : guests" with a single channel: the ellipsis right
      after the time token leaves an empty first segment, and the records are
      those of the guests, each with the time and the channel. */
  lemma LineOfOneChannel(heure: string, chaine: string, info: string)
    requires IsTimeToken(heure)
    requires chaine != [] && IsStripped(chaine) && ':' !in chaine && '…' !in chaine
    requires info != [] && IsStripped(info) && '…' !in info && '\n' !in info
    ensures LineInvites(heure + "…" + chaine + " : " + info) == Tagged(heure, chaine, ParseInvites(info))
  {
    var p := chaine + " : " + info;
    var r := "…" + p;
    var text := heure + r;
    OneChannelText(chaine, info);
    AppendAssoc(heure, "…", p);
    AppendAssoc(heure + "…", chaine + " : ", info);
    AppendAssoc(heure + "…", chaine, " : ");
    LineStartsWithTime(heure, r);
    ResteAfterTime(heure, r);
    LineIsSegments(text);
    EllipsisLead(p);
    SegmentsOfTwo(heure, "", p);
    BlankSegment(heure);
    SegmentOfOneChannel(heure, chaine, info);
  }

  /** The parts of the one-channel example line. */
  lemma LineExampleChannelFacts()
    ensures IsTimeToken("7h20")
    ensures var c := "France Inter"; c != [] && IsStripped(c) && ':' !in c && '…' !in c
  {
  }

  lemma LineExampleNameFacts()
    ensures IsCapitalisedWord("Jean") && IsCapitalisedWord("Dupont")
    ensures var nom := "Jean" + " " + "Dupont"; '…' !in nom && '\n' !in nom
  {
  }

  lemma LineExampleTitleFacts()
    ensures var t := "ministre";
            && t != [] && IsStripped(t) && ',' !in t && NoSpaceEt(t) && '…' !in t && '\n' !in t
            && !IsCap(t[0]) && !StartsWithEt(t) && t[|t| - 1] != '.' && t[|t| - 1] != '…'
  {
  }

  /** The guest text of the example line is one guest. */
  lemma LineExampleGuest()
    ensures var info := ("Jean" + " " + "Dupont") + ", " + "ministre";
            && info != [] && IsStripped(info) && '…' !in info && '\n' !in info
            && ParseInvites(info) == [Guest("Jean" + " " + "Dupont", "ministre")]
  {
    var nom := "Jean" + " " + "Dupont";
    LineExampleNameFacts();
    LineExampleTitleFacts();
    FirstAndLastName("Jean", "Dupont");
    CommaJoin(nom, "ministre");
    OneGuestWithTitle(nom, "ministre");
  }

  /** The example line "7h20…France Inter : Jean Dupont, ministre" gives one
      record: the time, the channel, the name and the title. */
  lemma LineExample()
    ensures LineInvites("7h20" + "…" + "France Inter" + " : " + (("Jean" + " " + "Dupont") + ", " + "ministre"))
            == [Invite("7h20", "France Inter", "Jean" + " " + "Dupont", "ministre")]
  {
    var nom := "Jean" + " " + "Dupont";
    LineExampleChannelFacts();
    LineExampleGuest();
    LineOfOneChannel("7h20", "France Inter", nom + ", " + "ministre");
    TaggedAt("7h20", "France Inter", [Guest(nom, "ministre")]);
  }
}
