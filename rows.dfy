/** The row loop of `main`: every CSV row that has both a date and a text
    gives one output record per guest of its text, dated with the normalised
    date; the reading and writing of the files are not part of it. */
module Rows {
  import opened Dates
  import opened Guests
  import opened Lines

  /** One CSV row as `csv.DictReader` gives it: column name to cell. */
  type Row = map<string, string>

  /** `row.get(column, '')`. */
  function Cell(row: Row, column: string): string {
    if column in row then row[column] else ""
  }

  /** One output row, with the columns `date_newsletter`, `heure`, `chaine`,
      `nom_invite` and `intitule_invite`. */
  datatype Record = Record(dateNewsletter: string, heure: string, chaine: string,
                           nomInvite: string, intituleInvite: string)

  /** The records of a line's guests, each given the normalised date. */
  function Dated(date: string, invites: seq<Invite>): (r: seq<Record>)
    ensures |r| == |invites|
  {
    if |invites| == 0 then []
    else
      var i := invites[|invites| - 1];
      Dated(date, invites[..|invites| - 1]) + [Record(date, i.heure, i.chaine, i.nom, i.intitule)]
  }

  /** Record `k` carries line record `k`: one output record per guest, in
      order. */
  lemma {:induction false} DatedAt(date: string, invites: seq<Invite>)
    ensures forall k :: 0 <= k < |invites| ==>
              Dated(date, invites)[k]
              == Record(date, invites[k].heure, invites[k].chaine, invites[k].nom, invites[k].intitule)
    decreases |invites|
  {
    if |invites| > 0 {
      var init := invites[..|invites| - 1];
      DatedAt(date, init);
      forall k | 0 <= k < |invites|
        ensures Dated(date, invites)[k]
                == Record(date, invites[k].heure, invites[k].chaine, invites[k].nom, invites[k].intitule)
      {
        if k < |init| {
          assert invites[k] == init[k];
        }
      }
    }
  }

  /** The records of one row: none when its date or its text is missing or
      empty. */
  function RowRecords(row: Row): seq<Record> {
    var date, texte := Cell(row, "Date"), Cell(row, "Texte");
    if date == "" || texte == "" then []
    else Dated(ParseDate(date), LineInvites(texte))
  }

  /** The records of all rows, in order: the content of `resultats`. */
  function FlattenRows(rows: seq<Row>): seq<Record> {
    if |rows| == 0 then []
    else FlattenRows(rows[..|rows| - 1]) + RowRecords(rows[|rows| - 1])
  }

  lemma FlattenRowsStep(rows: seq<Row>, i: nat)
    requires i < |rows|
    ensures FlattenRows(rows[..i + 1]) == FlattenRows(rows[..i]) + RowRecords(rows[i])
  {
    assert rows[..i + 1][..i] == rows[..i];
  }

  lemma DatedStep(date: string, invites: seq<Invite>, i: nat)
    requires i < |invites|
    ensures Dated(date, invites[..i + 1])
            == Dated(date, invites[..i])
               + [Record(date, invites[i].heure, invites[i].chaine, invites[i].nom, invites[i].intitule)]
  {
    assert invites[..i + 1][..i] == invites[..i];
  }

  /** A row with both cells is its line's records, dated. */
  lemma RowIsDated(row: Row)
    requires Cell(row, "Date") != "" && Cell(row, "Texte") != ""
    ensures RowRecords(row) == Dated(ParseDate(Cell(row, "Date")), LineInvites(Cell(row, "Texte")))
  {
  }

  /** A row gives nothing when its date or its text is missing or empty, and
      otherwise exactly one record per record of its line, in order, each
      dated with the normalised date of the row. */
  lemma RowRecordsExactly(row: Row)
    ensures var date, texte := Cell(row, "Date"), Cell(row, "Texte");
            && (date == "" || texte == "" ==> RowRecords(row) == [])
            && (date != "" && texte != "" ==>
                  && |RowRecords(row)| == |LineInvites(texte)|
                  && forall k :: 0 <= k < |LineInvites(texte)| ==>
                       var i := LineInvites(texte)[k];
                       RowRecords(row)[k] == Record(ParseDate(date), i.heure, i.chaine, i.nom, i.intitule))
  {
    var date, texte := Cell(row, "Date"), Cell(row, "Texte");
    if date != "" && texte != "" {
      RowIsDated(row);
      DatedAt(ParseDate(date), LineInvites(texte));
    }
  }

  /** The records of a concatenation of rows are those of each part, in
      order: rows are handled one at a time and independently. */
  lemma {:induction false} FlattenRowsAppend(a: seq<Row>, b: seq<Row>)
    ensures FlattenRows(a + b) == FlattenRows(a) + FlattenRows(b)
    decreases |b|
  {
    if |b| > 0 {
      var b0 := b[..|b| - 1];
      assert (a + b)[..|a + b| - 1] == a + b0;
      FlattenRowsAppend(a, b0);
      AppendAssoc(FlattenRows(a), FlattenRows(b0), RowRecords(b[|b| - 1]));
    } else {
      assert a + b == a;
    }
  }

  /** What every output record looks like: a time token, and a well-formed
      channel, name and title. */
  predicate WellFormedRecord(r: Record) {
    && IsTimeToken(r.heure)
    && WellFormedInvite(Invite(r.heure, r.chaine, r.nomInvite, r.intituleInvite))
  }

  /** Every record of one row is well formed. */
  lemma RowWellFormed(row: Row)
    ensures forall k :: 0 <= k < |RowRecords(row)| ==> WellFormedRecord(RowRecords(row)[k])
  {
    var date, texte := Cell(row, "Date"), Cell(row, "Texte");
    if date != "" && texte != "" {
      RowIsDated(row);
      LineWellFormed(texte);
      DatedAt(ParseDate(date), LineInvites(texte));
    }
  }

  lemma ConcatWellFormed(a: seq<Record>, b: seq<Record>)
    requires forall k :: 0 <= k < |a| ==> WellFormedRecord(a[k])
    requires forall k :: 0 <= k < |b| ==> WellFormedRecord(b[k])
    ensures forall k :: 0 <= k < |a + b| ==> WellFormedRecord((a + b)[k])
  {
    forall k | 0 <= k < |a + b|
      ensures WellFormedRecord((a + b)[k])
    {
      if k < |a| {
        assert (a + b)[k] == a[k];
      } else {
        assert (a + b)[k] == b[k - |a|];
      }
    }
  }

  lemma FlattenRowsLast(rows: seq<Row>)
    requires |rows| > 0
    ensures FlattenRows(rows) == FlattenRows(rows[..|rows| - 1]) + RowRecords(rows[|rows| - 1])
  {
  }

  /** Every output record is well formed. */
  lemma {:induction false} FlattenRowsWellFormed(rows: seq<Row>)
    ensures forall k :: 0 <= k < |FlattenRows(rows)| ==> WellFormedRecord(FlattenRows(rows)[k])
    decreases |rows|
  {
    if |rows| > 0 {
      var init := rows[..|rows| - 1];
      FlattenRowsWellFormed(init);
      RowWellFormed(rows[|rows| - 1]);
      FlattenRowsLast(rows);
      ConcatWellFormed(FlattenRows(init), RowRecords(rows[|rows| - 1]));
    }
  }

  /** The records `for invite in invites` appends. */
  method AppendDated(resultats0: seq<Record>, dateFormatee: string, invites: seq<Invite>)
    returns (resultats: seq<Record>)
    ensures resultats == resultats0 + Dated(dateFormatee, invites)
  {
    resultats := resultats0;
    for i := 0 to |invites|
      invariant resultats == resultats0 + Dated(dateFormatee, invites[..i])
    {
      var invite := invites[i];
      var record := Record(dateFormatee, invite.heure, invite.chaine, invite.nom, invite.intitule);
      DatedStep(dateFormatee, invites, i);
      AppendAssoc(resultats0, Dated(dateFormatee, invites[..i]), [record]);
      resultats := resultats + [record];
    }
    assert invites[..|invites|] == invites;
  }

  /** The body of the loop over the rows. */
  method AppendRow(resultats0: seq<Record>, row: Row) returns (resultats: seq<Record>)
    ensures resultats == resultats0 + RowRecords(row)
  {
    resultats := resultats0;
    var date := Cell(row, "Date");
    var texte := Cell(row, "Texte");
    if date != "" && texte != "" {
      var dateFormatee := ParseDate(date);
      var invites := ParseMatinaleLine(texte);
      resultats := AppendDated(resultats, dateFormatee, invites);
    }
  }

  /** The loop of `main` over the rows of the input, without the files. */
  method CollectRecords(rows: seq<Row>) returns (resultats: seq<Record>)
    ensures resultats == FlattenRows(rows)
  {
    resultats := [];
    for i := 0 to |rows|
      invariant resultats == FlattenRows(rows[..i])
    {
      resultats := AppendRow(resultats, rows[i]);
      FlattenRowsStep(rows, i);
    }
    assert rows[..|rows|] == rows;
  }
}
