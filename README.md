# Matinales parser, modelled in Dafny

`parse_matinales.py` turns a newsletter's listing of morning radio and TV
interviews into one record per guest. It has three parts.

1. A text cell such as `7h20… France Inter : Jean Dupont, ministre… RTL : …`
   starts with a time token (`7h20`).
2. What follows is cut into channel segments at the ellipsis character `…`.
   Each segment is `channel : guest text`.
3. The guest text is split into several guests at an "et" or a comma that
   comes before a capitalised first name and surname. Each piece is then cut
   at its first comma into a name (`nom`) and a title (`intitule`).

The program's `main` applies this to every CSV row that has both a `Date` and
a `Texte` cell. Each record gets the row's date, rewritten from `D/M/YY` to
`YYYY-MM-DD` by `parse_date`.

The model is one module per concern:

- `Chars`: the character classes `\s`, `\d`, `\w` and the capital class.
- `Strings`: the Python `str` methods the program uses.
- `Patterns`: the three regular expressions given to `re.split`, and
  `re.split` itself.
- `Dates`: `parse_date`.
- `Guests`: `parse_invites_multiples`.
- `Lines`: `parse_matinale_line`.
- `Rows`: the row loop of `main`.

`parse_invites_multiples`, `parse_matinale_line` and the row loop of `main`
each have loops, and each is written twice:

- a recursive specification function (`ParseInvites`, `LineInvites`,
  `FlattenRows`) that says what the result is;
- a method with the program's own loops, proved equal to that function.

Each loop body is its own method (`AppendPartieGuests`, `AppendSegment`,
`AppendRow`), proved against the function for one step. `parse_date` has no
loop and is only a function.

The regular expressions are written as matchers over maximal runs of
characters, and `re.split` as the leftmost, non-overlapping scan that Python
performs. Taking the maximal run is exact wherever the next element of the
pattern cannot accept a character the run would give back:

- in the "et" and comma patterns, `\s` and `\w` share no character, and the
  letters `e`, `t`, `,` and the capitals of the lookahead are not whitespace;
- in `\s*…\s*`, the character `…` is not whitespace.

The one place where Python's matcher does give a character back is the end of
`([^:]+):\s*(.+)`. When the whitespace after the colon runs to the end of the
segment, `.+` takes the last character of that run that is not a newline.
The model does this step explicitly (`Lines.LastNonNewline`).

Two behaviours of the code are easy to misread, and lemmas pin them down:

- A two-character year always gets `20` in front, as the comment at line 13
  says. So `5/3/99` becomes `2099-03-05` (`Dates.ParseDateCentury`).
- After the time token, the text is stripped at both ends and then EVERY
  leading `.` is removed, not only one (`Lines.ResteDropsDots`).

## Model

| member | source | states |
|---|---|---|
| Chars.IsSpace | parse_matinales.py:33-43 | the class `\s` and the whitespace `strip()` removes: space, the controls `\t` to `\r` and `\x1c` to `\x1f`, and the Unicode spaces Python counts (a predicate) |
| Chars.IsCap | parse_matinales.py:33-43 | the class `[A-ZÉÈÀÊÂÔÛÇÏÜ]` that opens a capitalised word (a predicate) |
| Chars.ClassesAreSeparate | parse_matinales.py:33-43 | a capital is a word character, a digit is a word character, and no word character is whitespace |
| Dates.Century | parse_matinales.py:13-15 | the year as written in the output (a definition; `ParseDateThreeFields` and `ParseDateCentury` state what it does to a date) |
| Dates.ParseDate | parse_matinales.py:8-17 | the result is either the input unchanged or a rewritten date that contains no `/` |
| Dates.ParseDateThreeFields | parse_matinales.py:10-16 | `day/month/year` with slash-free fields becomes `year-MM-DD`; a two-character year gets `20` in front; month and day are zero-filled to at least two characters |
| Dates.ParseDateFallback | parse_matinales.py:10-17 | a string with other than exactly two slashes (so other than three fields) comes back unchanged |
| Dates.ParseDateNoSlash | parse_matinales.py:10-17 | a string without a slash, such as a text that is not a date, comes back unchanged |
| Dates.ParseDateIdempotent | parse_matinales.py:8-17 | normalising a normalised date changes nothing, for every input |
| Dates.ParseDateZeroFills | parse_matinales.py:14-16 | `05/3/24` becomes `2024-03-05` |
| Dates.ParseDateCentury | parse_matinales.py:13-16 | `5/3/99` becomes `2099-03-05`: the century is always 20 |
| Dates.ParseDateNoCalendarCheck | parse_matinales.py:10-16 | `32/13/99` becomes `2099-13-32`: no calendar check |
| Strings.ZFill | parse_matinales.py:16 | `zfill`: a text shorter than the width gets exactly `width - len` zeros in front, placed after a leading sign, and the text follows whole; a text as long as the width or longer is unchanged |
| Strings.ZFillIdempotent | parse_matinales.py:16 | zero-filling twice is zero-filling once |
| Strings.ZFillExamples | parse_matinales.py:16 | `3`→`03`, `12` and `2024` unchanged, empty→`00`, `-`→`-0` |
| Strings.Split | parse_matinales.py:10 | `split('/')` gives at least one piece, no piece holds the separator, and joining the pieces gives the input back |
| Strings.SplitJoin | parse_matinales.py:10 | splitting undoes joining for separator-free pieces |
| Strings.SplitCount | parse_matinales.py:10-11 | the number of pieces is the number of separators plus one |
| Strings.IndexOf | parse_matinales.py:51 | the position of the FIRST comma: none before it (the cut of `split(',', 1)`) |
| Strings.LStrip | parse_matinales.py:89 | `lstrip(c)`: no longer than its input, and does not start with a removed character (`LStripSuffix` and `LStripRemoved` complete it) |
| Strings.RStrip | parse_matinales.py:24 | `rstrip(c)`: no longer than its input, and does not end with a removed character (`RStripPrefix` and `RStripRemoved` complete it) |
| Strings.Strip | parse_matinales.py:36 | `strip()` leaves neither end whitespace and keeps a stripped text as it is |
| Strings.StripSlice | parse_matinales.py:36 | `strip()` gives a slice of its input, and only whitespace lies before and after that slice |
| Strings.StripEmpty | parse_matinales.py:78 | `strip()` is empty exactly when the text is all whitespace (both directions) |
| Strings.StripIdempotent | parse_matinales.py:36 | stripping twice is stripping once |
| Strings.StripKeepsOut | parse_matinales.py:104 | `strip()` adds no character: one absent from the input is absent from the result |
| Strings.LStripRemoved | parse_matinales.py:89 | `lstrip` removes only characters of the set it was given |
| Strings.RStripRemoved | parse_matinales.py:24 | `rstrip` removes only characters of the set it was given |
| Strings.LStripSuffix | parse_matinales.py:89 | `lstrip` gives a suffix of its input |
| Strings.RStripPrefix | parse_matinales.py:24 | `rstrip` gives a prefix of its input |
| Patterns.NextMatchLeftmost | parse_matinales.py:33 | the search finds the leftmost match: no match starts between the search start and the position found |
| Patterns.NameAt | parse_matinales.py:33-43 | the lookahead `[A-ZÉÈÀÊÂÔÛÇÏÜ]\w+\s+[A-ZÉÈÀÊÂÔÛÇÏÜ]`, with `\w+` after the second capital for the comma pattern (a predicate; its properties are stated by the lemmas below) |
| Patterns.MatchAt | parse_matinales.py:33-95 | a match of one of the three patterns at `i` ends after `i` and within the text |
| Patterns.EtMatchIsSeparator | parse_matinales.py:33 | what the "et" matcher takes is whitespace, the letters `et`, whitespace, and at its end the first name and surname capital of the lookahead |
| Patterns.EtSeparatorIsMatch | parse_matinales.py:33 | every such "et" separator is matched, and the match ends where it ends |
| Patterns.CommaMatchIsSeparator | parse_matinales.py:43 | what the comma matcher takes is a comma and whitespace, and at its end a first name and a whole surname |
| Patterns.CommaSeparatorIsMatch | parse_matinales.py:43 | every such comma separator is matched, and the match ends where it ends |
| Patterns.EllipsisMatchIsSeparator | parse_matinales.py:95 | what the ellipsis matcher takes is one `…` with whitespace on both sides, the trailing whitespace taken whole |
| Patterns.EllipsisSeparatorIsMatch | parse_matinales.py:95 | every such ellipsis separator is matched, and the match ends where it ends |
| Patterns.MatchCutsOnly | parse_matinales.py:33-95 | a match holds only whitespace and the pattern's literal (`et`, `,` or `…`) |
| Patterns.NextMatch | parse_matinales.py:33 | `re.search` from `i`: a position between `i` and the end where a match starts, or the end when there is none |
| Patterns.SplitFrom | parse_matinales.py:33 | `re.split` of the text from `i` on (a definition; `SplitFromCount` and `SplitRejoin` state its properties) |
| Patterns.ReSplit | parse_matinales.py:33-95 | `re.split` of a whole text (a definition; the lemmas below state its properties) |
| Patterns.SplitFromCount | parse_matinales.py:33 | there is one more piece than separators, and a single piece exactly when no match starts from `i` |
| Patterns.NextMatchIs | parse_matinales.py:33 | the match found is at `j` when none starts earlier and one starts at `j` |
| Patterns.SplitRejoin | parse_matinales.py:33 | `re.split` loses nothing: the pieces interleaved with the cut separators give the input back, and there is one more piece than separators |
| Patterns.SeparatorsCutOnly | parse_matinales.py:33-95 | `re.split` removes only whitespace and the pattern's literal: every separator it cuts out is made of those |
| Patterns.SplitSingle | parse_matinales.py:45 | a split with one piece returned the whole input |
| Patterns.NoMatchNoSplit | parse_matinales.py:43 | a text the pattern matches nowhere is one piece |
| Patterns.NoCommaNoSplit | parse_matinales.py:43 | a text without a comma is not split on the comma pattern |
| Patterns.CommaBeforeLowerCase | parse_matinales.py:43 | `x, t` with comma-free `x` and `t` is not split when `t` starts with a character that is neither whitespace nor a capital |
| Patterns.MatchEndsAtName | parse_matinales.py:33 | an "et" or comma separator ends where its name-shaped lookahead holds |
| Patterns.NoMatchInsideName | parse_matinales.py:43 | no separator starts inside the name that a lookahead inspected |
| Patterns.LaterPiecesStartWithName | parse_matinales.py:33-43 | for the "et" and comma patterns, every piece after the first begins with a capitalised word, whitespace and a capital; for the comma pattern the surname is at least two characters |
| Patterns.EllipsisFree | parse_matinales.py:95 | no segment cut by the ellipsis pattern contains `…` |
| Patterns.EtMatchBetween | parse_matinales.py:33 | in `a et b`, the written ` et ` is a separator when `b` starts with a first name and a surname's capital |
| Patterns.EtSplitsBeforeName | parse_matinales.py:33 | `a et b` splits into exactly `[a, b]` when `a` is non-empty and does not end with whitespace, neither part holds whitespace followed by `et`, and `b` starts with a first name and a surname's capital |
| Patterns.NoSpaceEtNoSplit | parse_matinales.py:33 | a text with no whitespace followed by `et` is not split by the "et" pattern |
| Patterns.SplitInTwo | parse_matinales.py:33-43 | a text in which the pattern matches exactly once, from the end of `a` to the start of `b`, splits into exactly `[a, b]` |
| Patterns.CommaSplitsBeforeName | parse_matinales.py:43 | `a, b` splits into exactly `[a, b]` when `b` starts with a first name and a surname of at least two characters, and every comma of `a` and of `b` is followed by one space and then a character that is neither whitespace nor a capital |
| Patterns.EllipsisLead | parse_matinales.py:95 | `…p` splits into `["", p]` when `p` holds no `…` and does not start with whitespace: an empty first segment, then `p` |
| Patterns.EllipsisSplitsBetween | parse_matinales.py:95 | `a…b` splits into exactly `[a, b]` when neither holds `…`, `a` does not end with whitespace and `b` does not start with it |
| Guests.CleanInfo | parse_matinales.py:24 | the cleaned guest text is stripped; `Guests.CleanInfoCuts` states what is removed |
| Guests.CleanInfoCuts | parse_matinales.py:24 | the cleaning removes the whole trailing run of `…`, then the whole trailing run of `.` before it, then strips what is left |
| Guests.CleanInfoKeeps | parse_matinales.py:24 | a non-empty stripped text that ends with neither `…` nor `.` is not changed by the cleaning |
| Guests.NameAndTitle | parse_matinales.py:63-69 | the name holds no comma and is stripped when the piece is; the title is stripped; a comma-free piece is all name with an empty title |
| Guests.NameAndTitleCut | parse_matinales.py:51-53 | the name is what comes before the FIRST comma and the title is all that follows it, both stripped |
| Guests.KeepNamed | parse_matinales.py:59-60 | the entry a piece contributes, or nothing when its name is empty (a definition; `DropsNameless` and `GuestsOfSubsAppend` state what it does to the loop) |
| Guests.SubGuest | parse_matinales.py:48-57 | one piece of a multi-guest split: stripped, then cut at its first comma (a definition; `GuestsOfSubsWellFormed` and `DropsNameless` state its properties) |
| Guests.GuestsOfSubs | parse_matinales.py:47-60 | the loop over comma pieces: each piece's entry, in order, and never more entries than pieces |
| Guests.GuestsOfPartie | parse_matinales.py:35-72 | the guests of one "et" piece (a definition; the lemmas below state its properties) |
| Guests.GuestsOfParties | parse_matinales.py:35-72 | the loop over "et" pieces: the pieces' guests, in order (a definition; `GuestsOfTwoParties` and `GuestsOfOneParty` state its properties) |
| Guests.ParseInvites | parse_matinales.py:19-74 | `parse_invites_multiples` as a function (a definition; the method and the lemmas below state its properties) |
| Guests.ParseInvitesMultiples | parse_matinales.py:19-74 | the method's loops compute `ParseInvites`: clean, split on "et", split each piece on a comma, cut each piece |
| Guests.AppendPartieGuests | parse_matinales.py:35-72 | one step of the loop over "et" pieces appends that piece's guests and keeps what was there |
| Guests.AppendSubGuests | parse_matinales.py:47-60 | the loop over comma pieces appends the guests of those pieces, in order |
| Guests.ParseInvitesWellFormed | parse_matinales.py:19-74 | every guest returned has a non-empty, stripped, comma-free name and a stripped title |
| Guests.GuestsOfSubsWellFormed | parse_matinales.py:47-60 | every guest found by the multi-guest loop is well formed |
| Guests.GuestsOfSubsAppend | parse_matinales.py:47-60 | comma pieces contribute independently and in order |
| Guests.DropsNameless | parse_matinales.py:59-60 | a piece with an empty name is dropped and the pieces around it keep their guests |
| Guests.SingleBranchIsLoopBody | parse_matinales.py:61-72 | on a stripped piece, the one-guest branch gives what the multi-guest loop gives for that piece alone |
| Guests.ParseInvitesBlank | parse_matinales.py:36-38 | a text that cleans to nothing has no guest |
| Guests.GuestsOfTwoParties | parse_matinales.py:35 | the guests of two "et" pieces are those of the first followed by those of the second |
| Guests.PartieUnsplit | parse_matinales.py:61-72 | a non-empty stripped piece that the comma split leaves whole goes through the one-guest branch |
| Guests.PartieWithoutComma | parse_matinales.py:67-69 | a non-empty, stripped, comma-free piece is one guest with that name and no title |
| Guests.CutAtCommaSpace | parse_matinales.py:63-66 | `name, title` is cut back into exactly that name and that title, when `name` is stripped and comma-free and `title` is stripped |
| Guests.PartieWithLowerCaseTitle | parse_matinales.py:43-72 | `name, title` is one guest with that name and title, when both are non-empty, stripped and comma-free and `title` does not start with a capital |
| Guests.ParseInvitesEtSplit | parse_matinales.py:33-38 | `a et b` has the guests of `a`, then those of `b`, when both are stripped, `a` is non-empty, neither holds whitespace followed by `et`, `b` starts with a first name and a surname's capital, and `b` does not end with `…` or `.` |
| Guests.TitleEtNameWithTitle | parse_matinales.py:19-74 | `a et x, t` gives exactly `[a with no title, x with title t]` when `a`, `x` and `t` are stripped, comma-free and hold no whitespace followed by `et`; `a` and `t` are non-empty; `x` starts with a first name and a surname's capital; and `t` starts with neither a capital nor the letters `et` and ends with neither `.` nor `…` |
| Guests.FirstAndLastName | parse_matinales.py:33-43 | two capitalised words joined by a space form a stripped name without comma or `et` on which both lookaheads hold |
| Guests.NameCommaTitle | parse_matinales.py:33-43 | `x, t` still starts with the name the lookaheads look for, is stripped and holds no whitespace followed by `et`, when `x` is stripped, starts with that name and holds no whitespace followed by `et`, and `t` is non-empty, stripped, holds none either and does not start with the letters `et` |
| Guests.ParseInvitesExample | parse_matinales.py:19-74 | `cheffe cuisinière et Loïc Bienassis, historien spécialiste de l'alimentation` gives exactly those two guests |
| Guests.GuestsOfOneParty | parse_matinales.py:35-72 | a text the "et" split leaves whole gives the guests of that one piece |
| Guests.GuestsOfTwoSubs | parse_matinales.py:47-60 | a two-piece comma split gives the entry of each piece, in order |
| Guests.OneGuestWithTitle | parse_matinales.py:19-74 | `nom, t` gives exactly one guest, `nom` with title `t`, when both are non-empty, stripped, comma-free and hold no whitespace followed by `et`, and `t` starts with neither a capital nor the letters `et` and ends with neither `.` nor `…` |
| Guests.PartieTwoGuests | parse_matinales.py:43-60 | the piece `x, t, y, u` is cut by the comma before `y` into exactly `[x with title t, y with title u]` when all four are stripped, comma-free and hold no whitespace followed by `et`; `x`, `t` and `u` are non-empty; `y` starts with a first name and a surname of at least two characters; and `t` and `u` start with neither a capital nor the letters `et` |
| Guests.ParseInvitesTwoGuests | parse_matinales.py:19-74 | the text `x, t, y, u` gives exactly `[x with title t, y with title u]` under the conditions of `PartieTwoGuests`, when also `u` ends with neither `.` nor `…` |
| Guests.ParseInvitesTwoGuestsExample | parse_matinales.py:19-74 | `Jean Martin, économiste, Sophie Durand, sociologue` gives exactly two guests, `Jean Martin` (économiste) and `Sophie Durand` (sociologue) |
| Lines.IsTimeToken | parse_matinales.py:82 | the shape `\d{1,2}h\d{2}`: one or two digits, `h`, two digits (a predicate; `TimeToken` and `TimeTokenFindsEveryToken` use it) |
| Lines.TimeToken | parse_matinales.py:82-86 | a token found is a prefix of the text of the form `\d{1,2}h\d{2}` |
| Lines.TimeTokenFindsEveryToken | parse_matinales.py:82-86 | whenever a prefix of the text is a time token, the match returns exactly that prefix (greedy two digits first) |
| Lines.ResteDropsDots | parse_matinales.py:89 | the rest is the stripped text after the token minus its whole leading run of periods, and does not start with a period |
| Lines.Reste | parse_matinales.py:89 | the text after the time token, stripped, without its leading periods (a definition; `ResteDropsDots` states its properties) |
| Lines.LineEnd | parse_matinales.py:102 | `.+` runs up to the first newline or the end |
| Lines.LastNonNewline | parse_matinales.py:102 | the last position in the range that is not a newline: every position after it is a newline; none when all are newlines |
| Lines.ChannelMatch | parse_matinales.py:102 | a match takes as channel the non-empty text before the first colon; the guest text is the rest of the line after the whitespace that follows the colon, or, when that whitespace runs to the end, its last non-newline character |
| Lines.ChannelMatchExactly | parse_matinales.py:102-103 | the expression matches exactly when a colon follows a non-empty channel and some non-newline character follows the colon |
| Lines.StrippedChannelMatch | parse_matinales.py:102-103 | on a non-empty stripped segment, the match fails exactly when there is no colon, it comes first or it comes last |
| Lines.ChannelOfSegment | parse_matinales.py:102-105 | `channel : guests` matches with `channel ` (its trailing space included) as first group and `guests` whole as second group, when `channel` is non-empty without `:` and `guests` is non-empty, newline-free and does not start with whitespace |
| Lines.Tagged | parse_matinales.py:111-117 | one record per guest, in order (`TaggedAt` gives each record) |
| Lines.TaggedAt | parse_matinales.py:111-117 | record `k` of a segment carries guest `k`'s name and title with the segment's time and channel |
| Lines.SegmentInvites | parse_matinales.py:98-117 | the records of one segment (a definition; the lemmas below state its properties) |
| Lines.SegmentsInvites | parse_matinales.py:97-117 | the loop over segments: the segments' records, in order (a definition; `SegmentsInvitesAppend` and `SegmentsOfTwo` state its properties) |
| Lines.LineInvites | parse_matinales.py:76-119 | `parse_matinale_line` as a function (a definition; the method and the lemmas below state its properties) |
| Lines.AppendTagged | parse_matinales.py:111-117 | the loop appends one record per guest, in order |
| Lines.AppendSegment | parse_matinales.py:97-117 | one step of the segment loop appends that segment's records |
| Lines.ParseMatinaleLine | parse_matinales.py:76-119 | the method's loop computes `LineInvites` |
| Lines.SegmentsInvitesAppend | parse_matinales.py:97-117 | segments contribute independently and in order |
| Lines.SegmentGuests | parse_matinales.py:102-117 | a matched segment gives one record per guest of its stripped guest text, in order, each with the stripped channel |
| Lines.SegmentWithoutInfo | parse_matinales.py:98-103 | a segment with no colon, or with nothing before or after it, gives no record |
| Lines.BlankSegment | parse_matinales.py:98-99 | a blank segment gives no record |
| Lines.SegmentOfOneChannel | parse_matinales.py:98-117 | `channel : guests` gives one record per guest of `guests`, in order, each with that channel and the time, when `channel` is non-empty, stripped and without `:`, and `guests` is non-empty, stripped and newline-free |
| Lines.SegmentsOfTwo | parse_matinales.py:97-117 | two segments give the records of the first, then those of the second |
| Lines.LineOfOneChannel | parse_matinales.py:76-119 | `time…channel : guests` gives the records of the guests of `guests`, each with that time and that channel, when `time` is a time token, `channel` is non-empty, stripped and holds no `:` or `…`, and `guests` is non-empty, stripped and holds no `…` or newline |
| Lines.LineExample | parse_matinales.py:76-119 | `7h20…France Inter : Jean Dupont, ministre` gives exactly one record: `7h20`, `France Inter`, `Jean Dupont`, `ministre` |
| Lines.LineDropped | parse_matinales.py:78-84 | a blank line, or one with no prefix that is a time token, gives no record |
| Lines.ChannelWellFormed | parse_matinales.py:102-104 | the channel of a matched, non-blank segment without `…` is non-empty and stripped, with no colon and no `…` |
| Lines.SegmentWellFormed | parse_matinales.py:97-117 | every record of a segment without `…` has the given time and is well formed |
| Lines.LineWellFormed | parse_matinales.py:76-119 | every record of a line carries the time token the line starts with, a non-empty stripped channel without `:` or `…`, and a well-formed guest |
| Rows.CollectRecords | parse_matinales.py:131-152 | the row loop computes `FlattenRows` |
| Rows.Cell | parse_matinales.py:132-133 | `row.get(column, '')`: the cell, or the empty text when the column is missing (a definition; `RowRecordsExactly` uses it) |
| Rows.RowRecords | parse_matinales.py:132-152 | the records of one row (a definition; `RowRecordsExactly` states its properties) |
| Rows.FlattenRows | parse_matinales.py:131-152 | the records of all rows, in order (a definition; the method and the lemmas below state its properties) |
| Rows.AppendRow | parse_matinales.py:132-152 | one step of the row loop appends that row's records |
| Rows.AppendDated | parse_matinales.py:145-152 | the loop appends one dated record per line record, in order |
| Rows.Dated | parse_matinales.py:145-152 | one dated record per line record (`DatedAt` gives each record) |
| Rows.DatedAt | parse_matinales.py:145-152 | output record `k` is line record `k` with the date added |
| Rows.RowRecordsExactly | parse_matinales.py:132-152 | a row missing its date or text gives nothing; otherwise one record per record of its line, in order, with the normalised date |
| Rows.FlattenRowsAppend | parse_matinales.py:131-152 | rows contribute independently and in order |
| Rows.RowWellFormed | parse_matinales.py:132-152 | every record of one row is well formed |
| Rows.FlattenRowsWellFormed | parse_matinales.py:131-152 | every output record has a time token, a well-formed channel, a non-empty comma-free name and a stripped title |

## Left out

- Reading and writing the CSV files, the file paths and the two messages (parse_matinales.py:122-130, 154-166) are not modelled. The rows come in as a sequence of column-to-cell maps, and the records go out as a sequence.
- A cell that `csv.DictReader` fills with `None` for a short row is modelled as an absent cell. `row.get` then gives `None` instead of `''`, but both are skipped by the same test.
- The `datetime` import (line 6) is unused.
- Chars.IsDigit: `\d` is limited to the ASCII digits. Python also accepts every other Unicode decimal digit in a time token.
- Chars.IsWordChar: `\w` is limited to ASCII, Latin-1 and Latin Extended-A. Python accepts every Unicode letter and digit. Names in other scripts are not recognised by the model's lookaheads.
- Regular expressions in general are not modelled. Only the five patterns the program uses are, as hand-written matchers.
- Strings are sequences of Unicode scalar values. No normalisation is done, as in the program.
- `test_regex.py` is a script that prints one split. Its example text is proved as `Guests.ParseInvitesExample`.
