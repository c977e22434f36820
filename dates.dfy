/** Date normalisation: `parse_date`, from `D/M/YY` to `YYYY-MM-DD`. */
module Dates {
  import opened Strings

  /** The year field as written in the output: a two-character year gets the
      century `20` in front (so `99` is 2099); any other length is kept. */
  function Century(year: string): string {
    if |year| == 2 then "20" + year else year
  }

  /** `parse_date`: a string that splits on `/` into exactly day, month and
      year becomes `year-MM-DD`, month and day zero-filled to two characters;
      any other string comes back unchanged. No calendar check is made. */
  function ParseDate(dateStr: string): (r: string)
    ensures r == dateStr || '/' !in r
  {
    var parts := Split(dateStr, '/');
    if |parts| == 3 then
      var day, month, year := parts[0], parts[1], parts[2];
      Century(year) + "-" + ZFill(month, 2) + "-" + ZFill(day, 2)
    else dateStr
  }

  /** A date made of three slash-free fields is rewritten field by field, and
      the month and day it writes are at least two characters long. */
  lemma ParseDateThreeFields(day: string, month: string, year: string)
    requires '/' !in day && '/' !in month && '/' !in year
    ensures ParseDate(day + "/" + month + "/" + year)
            == Century(year) + "-" + ZFill(month, 2) + "-" + ZFill(day, 2)
    ensures |ZFill(month, 2)| >= 2 && |ZFill(day, 2)| >= 2
  {
    var parts := [day, month, year];
    assert Join(parts, '/') == day + "/" + month + "/" + year by {
      assert parts[1..] == [month, year];
      assert [month, year][1..] == [year];
      assert Join([month, year], '/') == month + "/" + year;
      assert Join(parts, '/') == day + "/" + Join([month, year], '/');
    }
    SplitJoin(parts, '/');
  }

  /** A string without exactly two slashes is returned unchanged. */
  lemma ParseDateFallback(dateStr: string)
    requires Count(dateStr, '/') != 2
    ensures ParseDate(dateStr) == dateStr
  {
    SplitCount(dateStr, '/');
  }

  /** A string without any slash is returned unchanged. */
  lemma ParseDateNoSlash(dateStr: string)
    requires '/' !in dateStr
    ensures ParseDate(dateStr) == dateStr
  {
    assert Split(dateStr, '/') == [dateStr];
  }

  /** Normalising a normalised date changes nothing: the rewritten form has
      no slash left, so a second pass falls back to the identity. */
  lemma ParseDateIdempotent(dateStr: string)
    ensures ParseDate(ParseDate(dateStr)) == ParseDate(dateStr)
  {
    var r := ParseDate(dateStr);
    if r != dateStr {
      assert '/' !in multiset(r);
      ParseDateFallback(r);
    }
  }

  /** A one-character field is padded to two with a leading zero. */
  lemma PadOne(c: char)
    requires c != '+' && c != '-'
    ensures ZFill([c], 2) == ['0', c]
  {
  }

  /** Worked values: zero-filling, the two-digit year `99` that becomes
      2099 and the missing calendar check. */
  lemma ParseDateZeroFills()
    ensures ParseDate("05" + "/" + "3" + "/" + "24") == "2024" + "-" + "03" + "-" + "05"
  {
    ParseDateThreeFields("05", "3", "24");
    PadOne('3');
    assert Century("24") == "2024";
  }

  lemma ParseDateCentury()
    ensures ParseDate("5" + "/" + "3" + "/" + "99") == "2099" + "-" + "03" + "-" + "05"
  {
    ParseDateThreeFields("5", "3", "99");
    PadOne('3');
    PadOne('5');
    assert Century("99") == "2099";
  }

  lemma ParseDateNoCalendarCheck()
    ensures ParseDate("32" + "/" + "13" + "/" + "99") == "2099" + "-" + "13" + "-" + "32"
  {
    ParseDateThreeFields("32", "13", "99");
    assert Century("99") == "2099";
  }
}
