/**
 * Reading a leaderboard file's date and part from its name,
 * `YYYY-MM-DD-(P)....csv`, and the loop that does this for every file of
 * the sorted file list, stopping at the first name it cannot read.
 */
module FileNames {
  import opened Wrappers
  import opened Calendar
  import opened PyText

  /** Which step of the parse raised. */
  datatype ParseError =
    | MissingField   // `parts[1]`, `parts[2]` or `parts[3]` past the end: IndexError
    | MissingParen   // no `(` in the fourth field: IndexError
    | BadDate        // `strptime(..., '%Y-%m-%d')` refused the date: ValueError
    | BadPart        // `int(part)` refused the text: ValueError

  datatype FileInfo = FileInfo(date: Date, part: int, path: string)

  /** `%Y`: exactly four digits. */
  predicate YearField(s: string) {
    |s| == 4 && AllDigits(s)
  }

  /** `%m`: one or two digits denoting 1 to 12 (`1[0-2]|0[1-9]|[1-9]`). */
  predicate MonthField(s: string) {
    1 <= |s| <= 2 && AllDigits(s) && 1 <= DigitsValue(s) <= 12
  }

  /** `%d`: one or two digits denoting 1 to 31, or a space and a digit 1 to 9. */
  function DayField(s: string): (r: Option<nat>)
    ensures r.Some? ==> 1 <= r.value <= 31
    ensures r.Some? ==> s == Pad(r.value, 2) || s == Decimal(r.value)
                        || (r.value < 10 && s == " " + Decimal(r.value))
  {
    if 1 <= |s| <= 2 && AllDigits(s) && 1 <= DigitsValue(s) <= 31 then
      PadOfDigits(s);
      if |s| == 1 then
        OneDigit(s);
        Some(DigitsValue(s))
      else Some(DigitsValue(s))
    else if |s| == 2 && s[0] == ' ' && '1' <= s[1] <= '9' then
      SpaceDigit(s);
      Some(DigitValue(s[1]))
    else None
  }

  /** A space and a digit: the decimal form of the digit after a space. */
  lemma SpaceDigit(s: string)
    requires |s| == 2 && s[0] == ' ' && IsDigit(s[1])
    ensures s == " " + Decimal(DigitValue(s[1]))
  {
  }

  /** `%m`: the month as two digits or, below ten, as one. */
  predicate MonthText(m: string, month: nat) {
    month < 100 && (m == Pad(month, 2) || m == Decimal(month))
  }

  /** `%d`: the day as two digits or, below ten, as one digit or a space and a digit. */
  predicate DayText(d: string, day: nat) {
    day < 100 && (d == Pad(day, 2) || d == Decimal(day) || (day < 10 && d == " " + Decimal(day)))
  }

  /**
   * `datetime.strptime(f"{y}-{m}-{d}", '%Y-%m-%d')`. None of the three
   * fields contains `-`, so the pattern matches the whole string exactly
   * when each directive matches its own field; the date must then exist.
   */
  function ParseYmd(y: string, m: string, d: string): (r: Option<Date>)
    ensures r.Some? ==> IsValid(r.value)
    ensures r.Some? ==> y == Pad(r.value.year, 4) && MonthText(m, r.value.month) && DayText(d, r.value.day)
  {
    if !YearField(y) || !MonthField(m) then None
    else match DayField(d)
      case None => None
      case Some(day) =>
        var date := Date(DigitsValue(y), DigitsValue(m), day);
        PadOfDigits(y);
        PadOfDigits(m);
        assert Pow10(2) == 100;
        if |m| == 1 then
          OneDigit(m);
          if IsValid(date) then Some(date) else None
        else if IsValid(date) then Some(date) else None
  }

  /** Whatever a month field denotes, it is the month the text was formatted from. */
  lemma MonthTextValue(m: string, month: nat)
    requires MonthText(m, month)
    ensures AllDigits(m) && DigitsValue(m) == month
  {
    assert Pow10(2) == 100;
    if m == Pad(month, 2) {
      PadValue(month, 2);
    } else {
      DecimalValue(month);
    }
  }

  /** Every form of a day that `%d` reads is read as that day. */
  lemma DayTextValue(d: string, day: nat)
    requires DayText(d, day) && 1 <= day <= 31
    ensures DayField(d) == Some(day)
  {
    assert Pow10(2) == 100;
    if d == Pad(day, 2) {
      PadValue(day, 2);
    } else if d == Decimal(day) {
      DecimalValue(day);
      assert |Decimal(day)| <= 2 by {
        if day >= 10 { assert Decimal(day) == Decimal(day / 10) + [DigitChar(day % 10)]; }
      }
    } else {
      assert d[1] == DigitChar(day);
    }
  }

  /**
   * `strptime` accepts every valid date written with a four-digit year and
   * any month and day form its directives allow.
   */
  lemma ParseYmdAccepts(date: Date, m: string, d: string)
    requires IsValid(date) && MonthText(m, date.month) && DayText(d, date.day)
    ensures ParseYmd(Pad(date.year, 4), m, d) == Some(date)
  {
    assert Pow10(4) == 10000;
    PadValue(date.year, 4);
    MonthTextValue(m, date.month);
    assert |m| <= 2 by {
      if m == Decimal(date.month) && date.month >= 10 {
        assert m == Decimal(date.month / 10) + [DigitChar(date.month % 10)];
      }
    }
    DayTextValue(d, date.day);
  }

  /**
   * `strptime` refuses fields that do not form a calendar date, such as
   * month 13, day 0 or February 30: the bad-date error.
   */
  lemma ParseYmdRejects(y: nat, m: nat, d: nat)
    requires y < 10000 && m < 100 && d < 100 && !IsValid(Date(y, m, d))
    ensures ParseYmd(Pad(y, 4), Pad(m, 2), Pad(d, 2)) == None
  {
    assert Pow10(4) == 10000 && Pow10(2) == 100;
    var r := ParseYmd(Pad(y, 4), Pad(m, 2), Pad(d, 2));
    if r.Some? {
      var v := r.value;
      PadValue(y, 4);
      PadValue(v.year, 4);
      PadValue(m, 2);
      MonthTextValue(Pad(m, 2), v.month);
      PadValue(d, 2);
      if Pad(d, 2) == Decimal(v.day) {
        DecimalValue(v.day);
      } else if Pad(d, 2) == Pad(v.day, 2) {
        PadValue(v.day, 2);
      } else {
        assert false;
      }
      assert false;
    }
  }

  /** `field.split('(')[1].split(')')[0]`; None where the index raises. */
  function PartText(field: string): (r: Option<string>)
    ensures r.None? <==> '(' !in field
  {
    var pieces := Split(field, '(');
    if |pieces| < 2 then None
    else Some(Split(pieces[1], ')')[0])
  }

  /** Lines 21-30: the fields of a base name, taken apart and converted. */
  function ParseFields(fields: seq<string>, path: string): (r: Result<FileInfo, ParseError>)
    ensures r == Err(MissingField) <==> |fields| < 4
    ensures r == Err(MissingParen) <==> |fields| >= 4 && '(' !in fields[3]
    ensures r == Err(BadDate) <==> |fields| >= 4 && '(' in fields[3] && ParseYmd(fields[0], fields[1], fields[2]).None?
    ensures r == Err(BadPart) <==> |fields| >= 4 && '(' in fields[3] && ParseYmd(fields[0], fields[1], fields[2]).Some?
                                   && !IntLiteral(PartText(fields[3]).value)
    ensures r.Ok? ==> IsValid(r.value.date) && r.value.path == path
                      && Some(r.value.date) == ParseYmd(fields[0], fields[1], fields[2])
                      && Some(r.value.part) == ParseInt(PartText(fields[3]).value)
  {
    if |fields| < 4 then Err(MissingField)
    else match PartText(fields[3])
      case None => Err(MissingParen)
      case Some(text) =>
        match ParseYmd(fields[0], fields[1], fields[2])
        case None => Err(BadDate)
        case Some(date) =>
          ParseIntAccepts(text);
          match ParseInt(text)
          case None => Err(BadPart)
          case Some(part) => Ok(FileInfo(date, part, path))
  }

  /** The body of the loop at lines 18-33 for one file name. */
  function ParseFileName(path: string): (r: Result<FileInfo, ParseError>)
    ensures '-' !in Basename(path) ==> r == Err(MissingField)
    ensures r.Ok? ==> IsValid(r.value.date) && r.value.path == path
  {
    ParseFields(Split(Basename(path), '-'), path)
  }

  /** A parsed name begins with the four-digit year of its date and a `-`. */
  lemma ParsedNameYear(path: string)
    requires ParseFileName(path).Ok?
    ensures |Basename(path)| > 4
    ensures Basename(path)[..5] == Pad(ParseFileName(path).value.date.year, 4) + "-"
  {
    FirstFieldPrefix(Basename(path), '-');
  }

  /** A name with more than one field starts with its first field and the separator. */
  lemma FirstFieldPrefix(name: string, c: char)
    requires |Split(name, c)| > 1
    ensures |Split(name, c)[0]| < |name| && name[..|Split(name, c)[0]| + 1] == Split(name, c)[0] + [c]
  {
  }

  /**
   * Every name parsed by `parse`, in order, or the error of the first name
   * that fails: the loop at lines 17-33 with `parse` for its body.
   */
  function ParseAll(parse: string -> Result<FileInfo, ParseError>, files: seq<string>): (r: Result<seq<FileInfo>, ParseError>)
    ensures r.Ok? <==> forall i :: 0 <= i < |files| ==> parse(files[i]).Ok?
    ensures r.Ok? ==> |r.value| == |files|
    ensures r.Ok? ==> forall i :: 0 <= i < |files| ==> parse(files[i]) == Ok(r.value[i])
    ensures r.Err? ==> exists i :: 0 <= i < |files| && parse(files[i]) == Err(r.error)
                                   && forall j :: 0 <= j < i ==> parse(files[j]).Ok?
  {
    if files == [] then Ok([])
    else
      var init := files[..|files| - 1];
      assert forall i :: 0 <= i < |init| ==> init[i] == files[i];
      match ParseAll(parse, init)
      case Err(e) => Err(e)
      case Ok(v) =>
        match parse(files[|files| - 1])
        case Err(e) => Err(e)
        case Ok(x) =>
          assert forall i :: 0 <= i < |init| ==> (v + [x])[i] == v[i];
          Ok(v + [x])
  }

  /** Once a prefix of the list fails, the whole list fails with the same error. */
  lemma {:induction false} ParseAllFailsEarly(parse: string -> Result<FileInfo, ParseError>, files: seq<string>, n: nat)
    requires n <= |files| && ParseAll(parse, files[..n]).Err?
    ensures ParseAll(parse, files) == ParseAll(parse, files[..n])
    decreases |files| - n
  {
    if n < |files| {
      assert files[..n + 1][..n] == files[..n];
      ParseAllFailsEarly(parse, files, n + 1);
    } else {
      assert files[..n] == files;
    }
  }

  /** The loop at lines 17-33. */
  method ParseFiles(files: seq<string>) returns (r: Result<seq<FileInfo>, ParseError>)
    ensures r == ParseAll(ParseFileName, files)
  {
    var info: seq<FileInfo> := [];
    for i := 0 to |files|
      invariant ParseAll(ParseFileName, files[..i]) == Ok(info)
    {
      assert files[..i + 1][..i] == files[..i];
      var parsed := ParseFileName(files[i]);
      if parsed.Err? {
        ParseAllFailsEarly(ParseFileName, files, i + 1);
        return Err(parsed.error);
      }
      info := info + [parsed.value];
    }
    assert files[..|files|] == files;
    return Ok(info);
  }

  // ---- Properties of the parser ----

  lemma {:induction false} SplitHead(s: string, c: char, j: nat)
    requires j <= |s| && c !in s[..j]
    ensures j <= |Split(s, c)[0]|
  {
    var h := Split(s, c)[0];
    assert forall k :: 0 <= k < j ==> s[k] == s[..j][k] && s[k] != c;
  }

  /** The second piece at `(` is what follows the first `(`, up to the next one. */
  lemma SecondPiece(field: string, i: nat)
    requires i < |field| && field[i] == '(' && '(' !in field[..i]
    ensures |Split(field, '(')| >= 2 && Split(field, '(')[1] == Split(field[i + 1..], '(')[0]
  {
    assert field == field[..i] + ['('] + field[i + 1..];
    SplitAfterPrefix(field[..i], '(', field[i + 1..]);
  }

  /** The first piece at `c` ends at the first `c`, or at the end of `s`. */
  lemma FirstPiece(s: string, c: char, j: nat)
    requires j <= |s| && c !in s[..j] && (j == |s| || s[j] == c)
    ensures Split(s, c)[0] == s[..j]
  {
    SplitHead(s, c, j);
  }

  /** The first piece at `(` runs past position `j` when no `(` comes up to there. */
  lemma HeadReaches(t: string, j: nat)
    requires j < |t| && t[j] != '(' && '(' !in t[..j]
    ensures j < |Split(t, '(')[0]|
    ensures Split(t, '(')[0][..j] == t[..j] && Split(t, '(')[0][j] == t[j]
  {
    var head := Split(t, '(')[0];
    SplitHead(t, '(', j);
    assert head == t[..|head|];
    assert head[..j] == t[..|head|][..j];
  }

  /** Text that runs into a `)` before any `(` ends at that `)`. */
  lemma HeadBeforeClose(t: string, j: nat)
    requires j < |t| && t[j] == ')' && '(' !in t[..j] && ')' !in t[..j]
    ensures Split(Split(t, '(')[0], ')')[0] == t[..j]
  {
    HeadReaches(t, j);
    FirstPiece(Split(t, '(')[0], ')', j);
  }

  /** Text that reaches a `(` or its end with no bracket before is kept whole. */
  lemma HeadBeforeOpen(t: string, j: nat)
    requires j <= |t| && '(' !in t[..j] && ')' !in t[..j]
    requires j == |t| || t[j] == '('
    ensures Split(Split(t, '(')[0], ')')[0] == t[..j]
  {
    SplitHead(t, '(', j);
    assert Split(t, '(')[0] == t[..j];
    SplitNoSeparator(t[..j], ')');
  }

  /**
   * The part text is what lies between the first `(` of the field and the
   * next bracket, `(` or `)`, or the end of the field.
   */
  lemma PartTextBetweenBrackets(field: string, i: nat, j: nat)
    requires i < j <= |field|
    requires field[i] == '(' && '(' !in field[..i]
    requires '(' !in field[i + 1..j] && ')' !in field[i + 1..j]
    requires j == |field| || field[j] == '(' || field[j] == ')'
    ensures PartText(field) == Some(field[i + 1..j])
  {
    SecondPiece(field, i);
    var t := field[i + 1..];
    var jt := j - (i + 1);
    assert t[..jt] == field[i + 1..j];
    if jt < |t| && t[jt] == ')' {
      HeadBeforeClose(t, jt);
    } else {
      HeadBeforeOpen(t, jt);
    }
  }

  /** The text between a leading `(` and a `)` is the part text. */
  lemma BracketedText(text: string, rest: string)
    requires '(' !in text && ')' !in text
    ensures PartText("(" + text + ")" + rest) == Some(text)
  {
    var last := "(" + text + ")" + rest;
    assert last[|text| + 1] == ')' && last[..0] == [];
    assert last[1..|text| + 1] == text;
    PartTextBetweenBrackets(last, 0, |text| + 1);
  }

  /** The name the files follow: `YYYY-MM-DD-(P).csv` with zero-padded fields. */
  function FormatName(date: Date, part: int): string
    requires IsValid(date)
  {
    Pad(date.year, 4) + "-" + Pad(date.month, 2) + "-" + Pad(date.day, 2)
      + "-(" + IntToString(part) + ").csv"
  }

  lemma {:induction false} BasenameAfterSlash(dir: string, name: string)
    requires '/' !in name
    ensures Basename(dir + "/" + name) == name
  {
    var p := dir + "/" + name;
    assert p[|dir|] == '/';
    if dir == [] {
      assert p[1..] == name;
    } else {
      assert p[1..] == dir[1..] + "/" + name;
      BasenameAfterSlash(dir[1..], name);
    }
  }

  lemma PadDigitFields(date: Date)
    requires IsValid(date)
    ensures YearField(Pad(date.year, 4)) && DigitsValue(Pad(date.year, 4)) == date.year
    ensures MonthField(Pad(date.month, 2)) && DigitsValue(Pad(date.month, 2)) == date.month
    ensures DayField(Pad(date.day, 2)) == Some(date.day)
  {
    assert Pow10(2) == 100 && Pow10(4) == 10000;
    PadValue(date.year, 4);
    PadValue(date.month, 2);
    PadValue(date.day, 2);
  }

  lemma JoinFour(a: string, b: string, c: string, d: string)
    ensures Join([a, b, c, d], '-') == a + "-" + b + "-" + c + "-" + d
  {
    assert [a, b, c, d][1..] == [b, c, d];
    assert [b, c, d][1..] == [c, d];
    assert [c, d][1..] == [d];
    assert Join([c, d], '-') == c + "-" + d;
    assert Join([b, c, d], '-') == b + "-" + (c + "-" + d);
    assert Join([a, b, c, d], '-') == a + "-" + (b + "-" + (c + "-" + d));
  }

  lemma JoinFive(a: string, b: string, c: string, d: string, e: string)
    ensures Join([a, b, c, d, e], '-') == a + "-" + b + "-" + c + "-" + d + "-" + e
  {
    assert [a, b, c, d, e][1..] == [b, c, d, e];
    JoinFour(b, c, d, e);
    assert Join([a, b, c, d, e], '-') == a + "-" + (b + "-" + c + "-" + d + "-" + e);
  }

  lemma NoDashInDigits(s: string)
    requires AllDigits(s)
    ensures '-' !in s && '/' !in s && '(' !in s && ')' !in s
  {
  }

  /** The fields the name splits into at `-`. */
  function NameFields(date: Date, part: int): seq<string>
    requires IsValid(date)
  {
    var head := [Pad(date.year, 4), Pad(date.month, 2), Pad(date.day, 2)];
    if part >= 0 then head + ["(" + Decimal(part) + ").csv"]
    else head + ["(", Decimal(-part) + ").csv"]
  }

  lemma JoinNonNegative(y: string, m: string, d: string, digits: string)
    ensures y + "-" + m + "-" + d + "-(" + digits + ").csv" == Join([y, m, d, "(" + digits + ").csv"], '-')
  {
    JoinFour(y, m, d, "(" + digits + ").csv");
  }

  lemma JoinNegative(y: string, m: string, d: string, digits: string)
    ensures y + "-" + m + "-" + d + "-(" + "-" + digits + ").csv" == Join([y, m, d, "(", digits + ").csv"], '-')
  {
    JoinFive(y, m, d, "(", digits + ").csv");
  }

  lemma FormatNameJoin(date: Date, part: int)
    requires IsValid(date)
    ensures FormatName(date, part) == Join(NameFields(date, part), '-')
  {
    var y, m, d := Pad(date.year, 4), Pad(date.month, 2), Pad(date.day, 2);
    if part >= 0 {
      assert IntToString(part) == Decimal(part);
      assert NameFields(date, part) == [y, m, d, "(" + Decimal(part) + ").csv"];
      JoinNonNegative(y, m, d, Decimal(part));
    } else {
      assert IntToString(part) == "-" + Decimal(-part);
      assert NameFields(date, part) == [y, m, d, "(", Decimal(-part) + ").csv"];
      JoinNegative(y, m, d, Decimal(-part));
    }
  }

  lemma NameFieldsPlain(date: Date, part: int)
    requires IsValid(date)
    ensures forall i :: 0 <= i < |NameFields(date, part)| ==> '-' !in NameFields(date, part)[i]
    ensures '/' !in FormatName(date, part)
  {
    NoDashInDigits(Pad(date.year, 4));
    NoDashInDigits(Pad(date.month, 2));
    NoDashInDigits(Pad(date.day, 2));
    NoDashInDigits(Decimal(if part >= 0 then part else -part));
  }

  lemma SplitFormattedName(dir: string, date: Date, part: int)
    requires IsValid(date)
    ensures Split(Basename(dir + "/" + FormatName(date, part)), '-') == NameFields(date, part)
  {
    FormatNameJoin(date, part);
    NameFieldsPlain(date, part);
    BasenameAfterSlash(dir, FormatName(date, part));
    SplitJoin(NameFields(date, part), '-');
  }

  lemma ParseYmdPadded(date: Date)
    requires IsValid(date)
    ensures ParseYmd(Pad(date.year, 4), Pad(date.month, 2), Pad(date.day, 2)) == Some(date)
  {
    PadDigitFields(date);
  }

  /** The fields of a name with a part that is not negative convert back to its date and part. */
  lemma ParseNameFields(date: Date, part: int, path: string)
    requires IsValid(date) && part >= 0
    ensures ParseFields(NameFields(date, part), path) == Ok(FileInfo(date, part, path))
  {
    var p := Decimal(part);
    var last := "(" + p + ").csv";
    var fields := NameFields(date, part);
    assert fields[3] == last;
    NoDashInDigits(p);
    PartTextBetweenBrackets(last, 0, |p| + 1);
    assert last[1..|p| + 1] == p;
    ParseYmdPadded(date);
    ParseIntRoundTrip(part);
    assert IntToString(part) == p;
  }

  /** The fields of a name with a negative part fail at the part. */
  lemma NegativeNameFields(date: Date, part: int, path: string)
    requires IsValid(date) && part < 0
    ensures ParseFields(NameFields(date, part), path) == Err(BadPart)
  {
    PartTextBetweenBrackets("(", 0, 1);
    ParseYmdPadded(date);
    assert TrimSpace("") == "";
  }

  /**
   * Zero-padded fields that do not form a calendar date fail with the
   * bad-date error, whatever the part.
   */
  lemma NonCalendarFieldsRejected(y: nat, m: nat, d: nat, part: nat, path: string)
    requires y < 10000 && m < 100 && d < 100 && !IsValid(Date(y, m, d))
    ensures ParseFields([Pad(y, 4), Pad(m, 2), Pad(d, 2), "(" + Decimal(part) + ").csv"], path) == Err(BadDate)
  {
    var fields := [Pad(y, 4), Pad(m, 2), Pad(d, 2), "(" + Decimal(part) + ").csv"];
    assert fields[3][0] == '(';
    ParseYmdRejects(y, m, d);
  }

  /**
   * Fields of a valid date whose bracketed text is not an integer literal
   * fail with the bad-part error.
   */
  lemma NonLiteralPartRejected(date: Date, text: string, rest: string, path: string)
    requires IsValid(date) && '(' !in text && ')' !in text && !IntLiteral(text)
    ensures ParseFields([Pad(date.year, 4), Pad(date.month, 2), Pad(date.day, 2), "(" + text + ")" + rest], path)
            == Err(BadPart)
  {
    BracketedText(text, rest);
    ParseYmdPadded(date);
  }

  /**
   * Every name the convention produces, in any directory, is read back as its
   * own date and part, provided the part is not negative.
   */
  lemma ParseFormattedName(dir: string, date: Date, part: int)
    requires IsValid(date) && part >= 0
    ensures ParseFileName(dir + "/" + FormatName(date, part)) == Ok(FileInfo(date, part, dir + "/" + FormatName(date, part)))
  {
    SplitFormattedName(dir, date, part);
    ParseNameFields(date, part, dir + "/" + FormatName(date, part));
  }

  /**
   * A negative part breaks the name: its `-` sign is taken as a field
   * separator, the fourth field is just `(`, and `int('')` raises.
   */
  lemma NegativePartRejected(dir: string, date: Date, part: int)
    requires IsValid(date) && part < 0
    ensures ParseFileName(dir + "/" + FormatName(date, part)) == Err(BadPart)
  {
    SplitFormattedName(dir, date, part);
    NegativeNameFields(date, part, dir + "/" + FormatName(date, part));
  }
}
