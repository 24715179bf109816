/**
 * The Python string built-ins the filename parser relies on: `str.split`
 * with a one-character separator, `os.path.basename`, decimal digit strings
 * and `int()` on a string. Characters are code points; text is read as
 * `int()` reads an ASCII string: ASCII digits only, and only the ASCII
 * whitespace listed in IsIntSpace is stripped.
 */
module PyText {
  import opened Wrappers

  /** `s.split(c)`: the pieces of `s` between occurrences of `c`, empty pieces kept. */
  function Split(s: string, c: char): (r: seq<string>)
    ensures |r| >= 1
    ensures forall i :: 0 <= i < |r| ==> c !in r[i]
    ensures |r[0]| <= |s| && r[0] == s[..|r[0]|]
    ensures |r[0]| < |s| ==> s[|r[0]|] == c
    ensures |r| == 1 <==> c !in s
  {
    if s == [] then [""]
    else
      var rest := Split(s[1..], c);
      if s[0] == c then [""] + rest
      else [[s[0]] + rest[0]] + rest[1..]
  }

  /** `c.join(fields)`. */
  function Join(fields: seq<string>, c: char): string
    requires |fields| >= 1
  {
    if |fields| == 1 then fields[0] else fields[0] + [c] + Join(fields[1..], c)
  }

  lemma JoinExtendFirst(x: char, fields: seq<string>, c: char)
    requires |fields| >= 1
    ensures Join([[x] + fields[0]] + fields[1..], c) == [x] + Join(fields, c)
  {
    var g := [[x] + fields[0]] + fields[1..];
    if |fields| > 1 {
      assert g[1..] == fields[1..];
    }
  }

  /** Joining the pieces with the separator gives back the string. */
  lemma {:induction false} JoinSplit(s: string, c: char)
    ensures Join(Split(s, c), c) == s
  {
    if s != [] {
      var rest := Split(s[1..], c);
      JoinSplit(s[1..], c);
      if s[0] == c {
        assert Split(s, c) == [""] + rest;
        assert ([""] + rest)[1..] == rest;
      } else {
        assert Split(s, c) == [[s[0]] + rest[0]] + rest[1..];
        JoinExtendFirst(s[0], rest, c);
      }
      assert s == [s[0]] + s[1..];
    }
  }

  lemma {:induction false} SplitNoSeparator(s: string, c: char)
    requires c !in s
    ensures Split(s, c) == [s]
  {
    if s != [] {
      SplitNoSeparator(s[1..], c);
      assert [s[0]] + s[1..] == s;
    }
  }

  lemma {:induction false} SplitAfterPrefix(a: string, c: char, t: string)
    requires c !in a
    ensures Split(a + [c] + t, c) == [a] + Split(t, c)
  {
    if a == [] {
      assert a + [c] + t == [c] + t;
      assert (a + [c] + t)[1..] == t;
    } else {
      assert (a + [c] + t)[1..] == a[1..] + [c] + t;
      SplitAfterPrefix(a[1..], c, t);
      assert [a[0]] + a[1..] == a;
    }
  }

  /** Splitting a join of separator-free pieces gives back the pieces. */
  lemma {:induction false} SplitJoin(fields: seq<string>, c: char)
    requires |fields| >= 1
    requires forall i :: 0 <= i < |fields| ==> c !in fields[i]
    ensures Split(Join(fields, c), c) == fields
  {
    if |fields| == 1 {
      SplitNoSeparator(fields[0], c);
    } else {
      SplitJoin(fields[1..], c);
      SplitAfterPrefix(fields[0], c, Join(fields[1..], c));
      assert [fields[0]] + fields[1..] == fields;
    }
  }

  /** `os.path.basename` on POSIX: the part after the last `/`. */
  function Basename(p: string): (r: string)
    ensures '/' !in r
    ensures |r| <= |p| && r == p[|p| - |r|..]
    ensures |r| < |p| ==> p[|p| - |r| - 1] == '/'
  {
    if '/' !in p then p
    else
      var r := Basename(p[1..]);
      assert p[1..][|p| - 1 - |r|..] == p[|p| - |r|..];
      assert p == [p[0]] + p[1..];
      r
  }

  predicate IsDigit(ch: char) {
    '0' <= ch <= '9'
  }

  predicate AllDigits(s: string) {
    forall i :: 0 <= i < |s| ==> IsDigit(s[i])
  }

  function DigitValue(ch: char): nat
    requires IsDigit(ch)
  {
    (ch as int - '0' as int) as nat
  }

  function DigitChar(n: nat): (ch: char)
    requires n < 10
    ensures IsDigit(ch) && DigitValue(ch) == n
  {
    ('0' as int + n) as char
  }

  /** The number a string of decimal digits denotes; leading zeros allowed. */
  function DigitsValue(s: string): nat
    requires AllDigits(s)
  {
    if s == [] then 0 else DigitsValue(s[..|s| - 1]) * 10 + DigitValue(s[|s| - 1])
  }

  function Pow10(w: nat): nat {
    if w == 0 then 1 else 10 * Pow10(w - 1)
  }

  /** `str(n)` for a natural number: its shortest decimal digit string. */
  function Decimal(n: nat): (s: string)
    ensures |s| >= 1 && AllDigits(s)
  {
    if n < 10 then [DigitChar(n)] else Decimal(n / 10) + [DigitChar(n % 10)]
  }

  /** `f"{n:0{w}d}"`: `n` in exactly `w` digits, zero-padded. */
  function Pad(n: nat, w: nat): (s: string)
    requires n < Pow10(w)
    ensures |s| == w && AllDigits(s)
  {
    if w == 0 then "" else Pad(n / 10, w - 1) + [DigitChar(n % 10)]
  }

  lemma {:induction false} DecimalValue(n: nat)
    ensures DigitsValue(Decimal(n)) == n
  {
    var s := Decimal(n);
    if n >= 10 {
      DecimalValue(n / 10);
      assert s[..|s| - 1] == Decimal(n / 10);
    }
  }

  /** A string of `w` digits is the zero-padded form of the number it denotes. */
  lemma {:induction false} PadOfDigits(s: string)
    requires AllDigits(s)
    ensures DigitsValue(s) < Pow10(|s|) && Pad(DigitsValue(s), |s|) == s
  {
    if s != [] {
      var p := s[..|s| - 1];
      PadOfDigits(p);
      var v := DigitsValue(s);
      assert v / 10 == DigitsValue(p) && v % 10 == DigitValue(s[|s| - 1]);
      assert s == p + [s[|s| - 1]];
    }
  }

  /** A single digit is the decimal form of its value. */
  lemma OneDigit(s: string)
    requires |s| == 1 && AllDigits(s)
    ensures DigitsValue(s) < 10 && s == Decimal(DigitsValue(s))
  {
    assert s[..0] == [];
  }

  lemma {:induction false} PadValue(n: nat, w: nat)
    requires n < Pow10(w)
    ensures DigitsValue(Pad(n, w)) == n
  {
    if w > 0 {
      var s := Pad(n, w);
      PadValue(n / 10, w - 1);
      assert s[..|s| - 1] == Pad(n / 10, w - 1);
    }
  }

  /** Whitespace that `int()` skips around the digits of an ASCII string: tab to carriage return, and space. */
  predicate IsIntSpace(ch: char) {
    ch == ' ' || '\t' <= ch <= '\r'
  }

  predicate AllIntSpace(s: string) {
    forall k :: 0 <= k < |s| ==> IsIntSpace(s[k])
  }

  /** What `int()` keeps of `s` once the surrounding whitespace is stripped. */
  function TrimSpace(s: string): (r: string)
    ensures |r| <= |s|
    ensures r != [] ==> !IsIntSpace(r[0]) && !IsIntSpace(r[|r| - 1])
    decreases |s|
  {
    if s == [] then s
    else if IsIntSpace(s[0]) then TrimSpace(s[1..])
    else if IsIntSpace(s[|s| - 1]) then TrimSpace(s[..|s| - 1])
    else s
  }

  lemma SpacesCons(c: char, t: string)
    requires IsIntSpace(c) && AllIntSpace(t)
    ensures AllIntSpace([c] + t)
  {
    assert forall k :: 0 < k <= |t| ==> ([c] + t)[k] == t[k - 1];
  }

  lemma SpacesSnoc(t: string, c: char)
    requires AllIntSpace(t) && IsIntSpace(c)
    ensures AllIntSpace(t + [c])
  {
    assert forall k :: 0 <= k < |t| ==> (t + [c])[k] == t[k];
  }

  /** Trimming a string that starts with a space trims the rest of it. */
  lemma TrimFront(s: string, i: nat, j: nat)
    requires |s| > 0 && IsIntSpace(s[0])
    requires i <= j <= |s| - 1 && TrimSpace(s[1..]) == s[1..][i..j]
    requires AllIntSpace(s[1..][..i]) && AllIntSpace(s[1..][j..])
    ensures TrimSpace(s) == s[i + 1..j + 1]
    ensures AllIntSpace(s[..i + 1]) && AllIntSpace(s[j + 1..])
  {
    var t := s[1..];
    TrimSpaceFront(s);
    assert t[i..j] == s[i + 1..j + 1];
    FrontSpaces(s, t, i);
    assert s[j + 1..] == t[j..];
  }

  lemma TrimSpaceFront(s: string)
    requires |s| > 0 && IsIntSpace(s[0])
    ensures TrimSpace(s) == TrimSpace(s[1..])
  {
  }

  lemma FrontSpaces(s: string, t: string, i: nat)
    requires |s| > 0 && t == s[1..] && i <= |t| && AllIntSpace(t[..i]) && IsIntSpace(s[0])
    ensures AllIntSpace(s[..i + 1])
  {
    assert s[..i + 1] == [s[0]] + t[..i];
    SpacesCons(s[0], t[..i]);
  }

  /** Trimming a string that ends with a space trims the rest of it. */
  lemma TrimBack(s: string, i: nat, j: nat)
    requires |s| > 0 && !IsIntSpace(s[0]) && IsIntSpace(s[|s| - 1])
    requires i <= j <= |s| - 1 && TrimSpace(s[..|s| - 1]) == s[..|s| - 1][i..j]
    requires AllIntSpace(s[..|s| - 1][..i]) && AllIntSpace(s[..|s| - 1][j..])
    ensures TrimSpace(s) == s[i..j]
    ensures AllIntSpace(s[..i]) && AllIntSpace(s[j..])
  {
    var t := s[..|s| - 1];
    TrimSpaceBack(s);
    assert t[i..j] == s[i..j];
    BackSpaces(s, t, j);
    assert s[..i] == t[..i];
  }

  lemma TrimSpaceBack(s: string)
    requires |s| > 0 && !IsIntSpace(s[0]) && IsIntSpace(s[|s| - 1])
    ensures TrimSpace(s) == TrimSpace(s[..|s| - 1])
  {
  }

  lemma BackSpaces(s: string, t: string, j: nat)
    requires |s| > 0 && t == s[..|s| - 1] && j <= |t| && AllIntSpace(t[j..]) && IsIntSpace(s[|s| - 1])
    ensures AllIntSpace(s[j..])
  {
    assert s[j..] == t[j..] + [s[|s| - 1]];
    SpacesSnoc(t[j..], s[|s| - 1]);
  }

  /** The bounds of the slice of `s` that `TrimSpace` keeps. */
  lemma {:induction false} TrimSpaceSlice(s: string) returns (i: nat, j: nat)
    ensures i <= j <= |s| && TrimSpace(s) == s[i..j]
    ensures AllIntSpace(s[..i]) && AllIntSpace(s[j..])
    decreases |s|
  {
    if s == [] {
      i, j := 0, 0;
    } else if IsIntSpace(s[0]) {
      var i', j' := TrimSpaceSlice(s[1..]);
      TrimFront(s, i', j');
      i, j := i' + 1, j' + 1;
    } else if IsIntSpace(s[|s| - 1]) {
      i, j := TrimSpaceSlice(s[..|s| - 1]);
      TrimBack(s, i, j);
    } else {
      i, j := 0, |s|;
      assert s[0..|s|] == s;
    }
  }

  /** `TrimSpace` keeps a slice of `s` and drops only whitespace around it. */
  lemma TrimSpaceStrips(s: string)
    ensures exists i, j :: 0 <= i <= j <= |s| && TrimSpace(s) == s[i..j]
                           && AllIntSpace(s[..i]) && AllIntSpace(s[j..])
  {
    var i, j := TrimSpaceSlice(s);
  }

  /**
   * Whitespace around a core that begins and ends with a non-space is
   * exactly what `TrimSpace` removes.
   */
  lemma {:induction false} TrimSpaceExactly(s: string, i: nat, j: nat)
    requires i < j <= |s| && AllIntSpace(s[..i]) && AllIntSpace(s[j..])
    requires !IsIntSpace(s[i]) && !IsIntSpace(s[j - 1])
    ensures TrimSpace(s) == s[i..j]
    decreases |s|
  {
    if i > 0 {
      var t := s[1..];
      assert s[..i][0] == s[0];
      TrimSpaceFront(s);
      TailSlices(s, i, j);
      SpacesTail(s[..i], 1);
      TrimSpaceExactly(t, i - 1, j - 1);
    } else if j < |s| {
      var t := s[..|s| - 1];
      assert s[j..][|s| - 1 - j] == s[|s| - 1];
      TrimSpaceBack(s);
      assert t[..i] == s[..i];
      assert t[j..] == s[j..][..|s| - 1 - j];
      SpacesInit(s[j..], |s| - 1 - j);
      assert t[i..j] == s[i..j];
      TrimSpaceExactly(t, i, j);
    } else {
      assert s[0..|s|] == s;
    }
  }

  /** Slices of `s[1..]` are the slices of `s` one place further on. */
  lemma TailSlices(s: string, i: nat, j: nat)
    requires 1 <= i <= j <= |s|
    ensures s[1..][..i - 1] == s[..i][1..]
    ensures s[1..][j - 1..] == s[j..]
    ensures s[1..][i - 1..j - 1] == s[i..j]
  {
    var t := s[1..];
    assert forall n :: 0 <= n < i - 1 ==> t[..i - 1][n] == s[..i][1..][n];
    assert forall n :: 0 <= n < |s| - j ==> t[j - 1..][n] == s[j..][n];
    assert forall n :: 0 <= n < j - i ==> t[i - 1..j - 1][n] == s[i..j][n];
  }

  lemma SpacesTail(u: string, k: nat)
    requires AllIntSpace(u) && k <= |u|
    ensures AllIntSpace(u[k..])
  {
    assert forall n :: 0 <= n < |u| - k ==> u[k..][n] == u[n + k];
  }

  lemma SpacesInit(u: string, k: nat)
    requires AllIntSpace(u) && k <= |u|
    ensures AllIntSpace(u[..k])
  {
    assert forall n :: 0 <= n < k ==> u[..k][n] == u[n];
  }

  /** Digits, with single underscores allowed between two digits. */
  predicate IsDigitGroups(s: string) {
    && |s| >= 1
    && IsDigit(s[0]) && IsDigit(s[|s| - 1])
    && (forall i :: 0 <= i < |s| ==> IsDigit(s[i]) || s[i] == '_')
    && (forall i :: 0 <= i < |s| - 1 ==> s[i] == '_' ==> s[i + 1] != '_')
  }

  function DropUnderscores(s: string): (r: string)
    requires forall i :: 0 <= i < |s| ==> IsDigit(s[i]) || s[i] == '_'
    ensures AllDigits(r)
  {
    if s == [] then ""
    else (if s[0] == '_' then "" else [s[0]]) + DropUnderscores(s[1..])
  }

  /** Digit groups, with or without a sign in front. */
  predicate SignedGroups(t: string) {
    || IsDigitGroups(t)
    || (|t| >= 1 && (t[0] == '+' || t[0] == '-') && IsDigitGroups(t[1..]))
  }

  /**
   * The text `int()` accepts in base 10: optional whitespace, an optional
   * sign, digit groups, optional whitespace.
   */
  predicate IntLiteral(s: string) {
    exists i, j :: 0 <= i <= j <= |s| && AllIntSpace(s[..i]) && SignedGroups(s[i..j]) && AllIntSpace(s[j..])
  }

  /** Signed digit groups begin and end with a character that is not whitespace. */
  lemma SignedGroupsEnds(t: string)
    requires SignedGroups(t)
    ensures |t| >= 1 && !IsIntSpace(t[0]) && !IsIntSpace(t[|t| - 1])
  {
    if !IsDigitGroups(t) {
      assert t[1..][|t| - 2] == t[|t| - 1];
    }
  }

  /** A literal's whitespace is exactly what trimming removes. */
  lemma LiteralTrims(s: string, i: nat, j: nat)
    requires i <= j <= |s| && AllIntSpace(s[..i]) && SignedGroups(s[i..j]) && AllIntSpace(s[j..])
    ensures TrimSpace(s) == s[i..j] && TrimSpace(s[i..j]) == s[i..j]
  {
    var t := s[i..j];
    SignedGroupsEnds(t);
    assert t[0] == s[i] && t[|t| - 1] == s[j - 1];
    TrimSpaceExactly(s, i, j);
    TrimSpaceOfDigitForm(t);
  }

  /** A string whose trimmed core is signed digit groups is a literal. */
  lemma TrimmedIsLiteral(s: string)
    requires SignedGroups(TrimSpace(s))
    ensures IntLiteral(s)
  {
    var i, j := TrimSpaceSlice(s);
    assert SignedGroups(s[i..j]);
  }

  /** A string is a literal exactly when what is left after trimming is signed digit groups. */
  lemma LiteralIsTrimmed(s: string)
    ensures IntLiteral(s) <==> SignedGroups(TrimSpace(s))
  {
    if IntLiteral(s) {
      var i, j :| 0 <= i <= j <= |s| && AllIntSpace(s[..i]) && SignedGroups(s[i..j]) && AllIntSpace(s[j..]);
      LiteralTrims(s, i, j);
    }
    if SignedGroups(TrimSpace(s)) {
      TrimmedIsLiteral(s);
    }
  }

  /**
   * `int(s)` in base 10: surrounding whitespace, an optional sign, then
   * digit groups; `None` stands for the `ValueError` raised otherwise.
   */
  function ParseInt(s: string): Option<int> {
    var t := TrimSpace(s);
    if |t| > 0 && (t[0] == '+' || t[0] == '-') then
      if IsDigitGroups(t[1..]) then
        var v: int := DigitsValue(DropUnderscores(t[1..]));
        Some(if t[0] == '-' then -v else v)
      else None
    else if IsDigitGroups(t) then
      Some(DigitsValue(DropUnderscores(t)))
    else None
  }

  /** `int()` accepts exactly the literals: it raises on every other text. */
  lemma ParseIntAccepts(s: string)
    ensures ParseInt(s).Some? <==> IntLiteral(s)
  {
    LiteralIsTrimmed(s);
  }

  /**
   * A character that is not a digit, whitespace, a sign or `_` anywhere in
   * the text makes `int()` raise.
   */
  lemma ForeignCharRejected(s: string, k: nat)
    requires k < |s| && !IsDigit(s[k]) && !IsIntSpace(s[k]) && s[k] != '+' && s[k] != '-' && s[k] != '_'
    ensures ParseInt(s) == None
  {
    ParseIntAccepts(s);
  }

  /** `int()` reads a literal's core: the whitespace around it changes nothing. */
  lemma ParseIntTrimmed(s: string, i: nat, j: nat)
    requires i <= j <= |s| && AllIntSpace(s[..i]) && SignedGroups(s[i..j]) && AllIntSpace(s[j..])
    ensures ParseInt(s) == ParseInt(s[i..j])
  {
    LiteralTrims(s, i, j);
  }

  /** A `+` sign in front of digit groups leaves their value unchanged. */
  lemma ParsePlus(t: string)
    requires IsDigitGroups(t)
    ensures ParseInt("+" + t) == ParseInt(t)
  {
    var s := "+" + t;
    assert s[1..] == t && s[|s| - 1] == t[|t| - 1];
    TrimSpaceOfDigitForm(s);
    TrimSpaceOfDigitForm(t);
  }

  /** A `-` sign in front of digit groups negates their value. */
  lemma ParseMinusGroups(t: string)
    requires IsDigitGroups(t)
    ensures ParseInt(t).Some? && ParseInt("-" + t) == Some(-ParseInt(t).value)
  {
    var s := "-" + t;
    assert s[1..] == t && s[|s| - 1] == t[|t| - 1];
    TrimSpaceOfDigitForm(s);
    TrimSpaceOfDigitForm(t);
  }

  lemma {:induction false} DropUnderscoresAppend(x: string, y: string)
    requires forall i :: 0 <= i < |x| ==> IsDigit(x[i]) || x[i] == '_'
    requires forall i :: 0 <= i < |y| ==> IsDigit(y[i]) || y[i] == '_'
    ensures DropUnderscores(x + y) == DropUnderscores(x) + DropUnderscores(y)
  {
    if x != [] {
      assert (x + y)[1..] == x[1..] + y;
      DropUnderscoresAppend(x[1..], y);
    } else {
      assert x + y == y;
    }
  }

  /** Two digit groups side by side, or joined by one underscore, are digit groups. */
  lemma GroupsJoin(a: string, b: string)
    requires IsDigitGroups(a) && IsDigitGroups(b)
    ensures IsDigitGroups(a + b) && IsDigitGroups(a + "_" + b)
  {
    var s, u := a + b, a + "_" + b;
    assert forall k :: 0 <= k < |a| ==> s[k] == a[k] && u[k] == a[k];
    assert forall k :: |a| <= k < |s| ==> s[k] == b[k - |a|];
    assert forall k :: |a| < k < |u| ==> u[k] == b[k - |a| - 1];
  }

  /** An underscore between two digit groups leaves the value unchanged. */
  lemma ParseUnderscore(a: string, b: string)
    requires IsDigitGroups(a) && IsDigitGroups(b)
    ensures IsDigitGroups(a + "_" + b)
    ensures ParseInt(a + "_" + b) == ParseInt(a + b)
  {
    GroupsJoin(a, b);
    var s, u := a + b, a + "_" + b;
    var a' := a + "_";
    assert forall i :: 0 <= i < |a'| ==> IsDigit(a'[i]) || a'[i] == '_';
    DropUnderscoresAppend(a, "_");
    assert DropUnderscores("_") == "";
    assert DropUnderscores(a') == DropUnderscores(a);
    DropUnderscoresAppend(a', b);
    DropUnderscoresAppend(a, b);
    assert DropUnderscores(u) == DropUnderscores(s);
    assert s[|s| - 1] == b[|b| - 1] && u[|u| - 1] == b[|b| - 1];
    TrimSpaceOfDigitForm(s);
    TrimSpaceOfDigitForm(u);
    ParseUnsigned(s);
    ParseUnsigned(u);
  }

  /**
   * The information separators `\x1c` to `\x1f` are not whitespace to
   * `int()` on an ASCII string: a part text that starts with one raises.
   */
  lemma SeparatorNotStripped(c: char, t: string)
    requires '\U{1c}' <= c <= '\U{1f}'
    ensures ParseInt([c] + t) == None
  {
    ForeignCharRejected([c] + t, 0);
  }

  /** `str(i)` for an integer. */
  function IntToString(i: int): string {
    if i < 0 then "-" + Decimal(-i) else Decimal(i)
  }

  lemma {:induction false} DropUnderscoresOfDigits(s: string)
    requires AllDigits(s)
    ensures DropUnderscores(s) == s
  {
    if s != [] {
      DropUnderscoresOfDigits(s[1..]);
      assert [s[0]] + s[1..] == s;
    }
  }

  lemma TrimSpaceOfDigitForm(s: string)
    requires |s| >= 1 && !IsIntSpace(s[0]) && !IsIntSpace(s[|s| - 1])
    ensures TrimSpace(s) == s
  {
  }

  lemma DigitsAreGroups(d: string)
    requires |d| >= 1 && AllDigits(d)
    ensures IsDigitGroups(d)
  {
  }

  /** Unsigned digit groups with nothing to trim parse to their digits' value. */
  lemma ParseUnsigned(t: string)
    requires TrimSpace(t) == t && IsDigitGroups(t)
    ensures ParseInt(t) == Some(DigitsValue(DropUnderscores(t)) as int)
  {
    assert t[0] != '+' && t[0] != '-';
  }

  /** A plain run of digits parses to its value. */
  lemma ParseDigits(d: string)
    requires |d| >= 1 && AllDigits(d)
    ensures ParseInt(d) == Some(DigitsValue(d) as int)
  {
    DropUnderscoresOfDigits(d);
    DigitsAreGroups(d);
    TrimSpaceOfDigitForm(d);
    ParseUnsigned(d);
  }

  /** A minus sign and digit groups with nothing to trim parse to the negated value. */
  lemma ParseMinus(t: string)
    requires TrimSpace(t) == t && |t| >= 2 && t[0] == '-' && IsDigitGroups(t[1..])
    ensures ParseInt(t) == Some(-(DigitsValue(DropUnderscores(t[1..])) as int))
  {
  }

  /** A minus sign followed by digits parses to the negated value. */
  lemma ParseNegatedDigits(s: string)
    requires |s| >= 2 && s[0] == '-' && AllDigits(s[1..])
    ensures ParseInt(s) == Some(-(DigitsValue(s[1..]) as int))
  {
    var d := s[1..];
    DropUnderscoresOfDigits(d);
    DigitsAreGroups(d);
    assert s[|s| - 1] == d[|d| - 1];
    TrimSpaceOfDigitForm(s);
    ParseMinus(s);
  }

  /** `int(str(i)) == i`: every integer's decimal form parses back to it. */
  lemma ParseIntRoundTrip(i: int)
    ensures ParseInt(IntToString(i)) == Some(i)
  {
    var n: nat := if i < 0 then -i else i;
    DecimalValue(n);
    if i < 0 {
      var s := IntToString(i);
      assert s[1..] == Decimal(n);
      ParseNegatedDigits(s);
    } else {
      ParseDigits(Decimal(n));
    }
  }
}
