/**
 * Month extraction from a date string: `get_month` splits on '-' and hands the
 * second field to Python's `int()`. The year and any day field are ignored, and
 * the month is not checked against 1..12.
 */
module DateMonth {
  import opened Outcomes

  /** The exceptions `get_month` can raise: an `IndexError` when there is no second
      field, and a `ValueError` when `int()` rejects the second field, either because
      it is not an integer or because it has more digits than `int()` converts. */
  datatype DateError = MissingMonthField | MonthNotInteger | DigitLimitExceeded

  /** The default of `sys.get_int_max_str_digits()`: `int()` refuses a decimal string
      with more digits than this (leading zeros count, underscores do not). */
  const MaxStrDigits: nat := 4300

  const Separator: char := '-'

  // ---------------------------------------------------------------------------
  // str.split('-')
  // ---------------------------------------------------------------------------

  /** `s.split('-')`: the pieces between separators, in order; never empty,
      and an empty string yields one empty piece. */
  function Split(s: string): (fields: seq<string>)
    ensures |fields| >= 1
    decreases |s|
  {
    if |s| == 0 then [""]
    else
      var rest := Split(s[1..]);
      if s[0] == Separator then [""] + rest
      else [[s[0]] + rest[0]] + rest[1..]
  }

  /** `'-'.join(fields)`, the inverse of `Split`. */
  function Join(fields: seq<string>): string
    requires |fields| >= 1
  {
    if |fields| == 1 then fields[0]
    else fields[0] + [Separator] + Join(fields[1..])
  }

  predicate NoSeparator(s: string) {
    forall i :: 0 <= i < |s| ==> s[i] != Separator
  }

  /** Splitting and re-joining gives back the string, and no piece holds a separator. */
  lemma {:induction false} JoinSplit(s: string)
    ensures Join(Split(s)) == s
    ensures forall j :: 0 <= j < |Split(s)| ==> NoSeparator(Split(s)[j])
    decreases |s|
  {
    if |s| > 0 {
      var rest := Split(s[1..]);
      JoinSplit(s[1..]);
      if s[0] == Separator {
        assert Split(s) == [""] + rest;
        assert Join(Split(s)) == "" + [Separator] + Join(rest);
        assert s == [s[0]] + s[1..];
      } else {
        var head := [s[0]] + rest[0];
        assert Split(s) == [head] + rest[1..];
        assert NoSeparator(head) by {
          assert NoSeparator(rest[0]);
          forall i | 0 <= i < |head| ensures head[i] != Separator {
            if i > 0 { assert head[i] == rest[0][i - 1]; }
          }
        }
        forall j | 0 <= j < |Split(s)| ensures NoSeparator(Split(s)[j]) {
          if j > 0 { assert Split(s)[j] == rest[j]; }
        }
        if |rest| == 1 {
          assert Join(Split(s)) == head;
          assert Join(rest) == rest[0];
        } else {
          assert Join(Split(s)) == head + [Separator] + Join(rest[1..]);
          assert Join(rest) == rest[0] + [Separator] + Join(rest[1..]);
        }
        assert s == [s[0]] + s[1..];
      }
    }
  }

  /** A string without separators is a single piece. */
  lemma {:induction false} SplitWithoutSeparator(s: string)
    requires NoSeparator(s)
    ensures Split(s) == [s]
    decreases |s|
  {
    if |s| > 0 {
      SplitWithoutSeparator(s[1..]);
      assert [s[0]] + s[1..] == s;
    }
  }

  /** Splitting distributes over a separator: the pieces of `a-b` are those of `a` then those of `b`. */
  lemma {:induction false} SplitAtSeparator(a: string, b: string)
    ensures Split(a + [Separator] + b) == Split(a) + Split(b)
    decreases |a|
  {
    var s := a + [Separator] + b;
    if |a| == 0 {
      assert s == [Separator] + b;
      SplitCons(Separator, b);
      assert Split(a) == [""];
    } else {
      var tail := a[1..] + [Separator] + b;
      assert s == [a[0]] + tail && a == [a[0]] + a[1..];
      SplitAtSeparator(a[1..], b);
      SplitCons(a[0], tail);
      SplitCons(a[0], a[1..]);
      PrependAppend(a[0], Split(a[1..]), Split(b));
    }
  }

  /** The pieces of `c` followed by text whose pieces are `fields`. */
  function Prepend(c: char, fields: seq<string>): seq<string>
    requires |fields| >= 1
  {
    if c == Separator then [""] + fields else [[c] + fields[0]] + fields[1..]
  }

  /** One unfolding of `Split`. */
  lemma SplitCons(c: char, x: string)
    ensures Split([c] + x) == Prepend(c, Split(x))
  {
    assert ([c] + x)[1..] == x;
  }

  /** Prepending a character only touches the first piece. */
  lemma PrependAppend(c: char, ra: seq<string>, rb: seq<string>)
    requires |ra| >= 1
    ensures Prepend(c, ra + rb) == Prepend(c, ra) + rb
  {
    if c != Separator {
      assert (ra + rb)[1..] == ra[1..] + rb;
    }
  }

  /** `Join` is also a right inverse: separator-free pieces come back from splitting their join. */
  lemma {:induction false} SplitJoin(fields: seq<string>)
    requires |fields| >= 1
    requires forall j :: 0 <= j < |fields| ==> NoSeparator(fields[j])
    ensures Split(Join(fields)) == fields
    decreases |fields|
  {
    if |fields| == 1 {
      SplitWithoutSeparator(fields[0]);
    } else {
      SplitJoin(fields[1..]);
      SplitAtSeparator(fields[0], Join(fields[1..]));
      SplitWithoutSeparator(fields[0]);
      assert [fields[0]] + fields[1..] == fields;
    }
  }

  /** There is a second field exactly when the string holds a separator. */
  lemma SplitHasSecondField(s: string)
    ensures |Split(s)| >= 2 <==> !NoSeparator(s)
  {
    if NoSeparator(s) {
      SplitWithoutSeparator(s);
    } else {
      var i :| 0 <= i < |s| && s[i] == Separator;
      assert s == s[..i] + [Separator] + s[i + 1..];
      SplitAtSeparator(s[..i], s[i + 1..]);
    }
  }

  // ---------------------------------------------------------------------------
  // int() on a str, base 10
  // ---------------------------------------------------------------------------

  /** The characters `int()` strips from both ends: the ASCII space and the control
      characters tab to carriage return (the ASCII separators 0x1C-0x1F are NOT among
      them, unlike for `str.isspace`), and the non-ASCII Unicode whitespace. */
  predicate IsSpace(c: char) {
    var n := c as int;
    (9 <= n <= 13) || n == 32 || n == 0x85 || n == 0xA0 || n == 0x1680
    || (0x2000 <= n <= 0x200A) || n == 0x2028 || n == 0x2029 || n == 0x202F
    || n == 0x205F || n == 0x3000
  }

  predicate AllSpace(s: string) {
    forall i :: 0 <= i < |s| ==> IsSpace(s[i])
  }

  predicate IsDigit(c: char) {
    '0' <= c <= '9'
  }

  function DigitValue(c: char): nat
    requires IsDigit(c)
  {
    (c as int) - ('0' as int)
  }

  function DigitChar(d: nat): (c: char)
    requires d < 10
    ensures IsDigit(c) && DigitValue(c) == d
  {
    (('0' as int) + d) as char
  }

  /** Drops leading whitespace and only that: the result is the suffix that remains once the
      whitespace in front is removed, and it does not start with whitespace. */
  function TrimStart(s: string): (r: string)
    ensures |r| <= |s| && r == s[|s| - |r|..]
    ensures AllSpace(s[..|s| - |r|])
    ensures |r| > 0 ==> !IsSpace(r[0])
    decreases |s|
  {
    if |s| > 0 && IsSpace(s[0]) then TrimStart(s[1..]) else s
  }

  /** Drops trailing whitespace and only that: the result is the prefix that remains once the
      whitespace at the end is removed, and it does not end in whitespace. */
  function TrimEnd(s: string): (r: string)
    ensures |r| <= |s| && r == s[..|r|]
    ensures AllSpace(s[|r|..])
    ensures |r| > 0 ==> !IsSpace(r[|r| - 1])
    decreases |s|
  {
    if |s| > 0 && IsSpace(s[|s| - 1]) then TrimEnd(s[..|s| - 1]) else s
  }

  function Strip(s: string): string {
    TrimEnd(TrimStart(s))
  }

  /** The digit part `int()` accepts: ASCII digits and underscores, starting and ending
      with a digit, with no two underscores side by side (so each underscore stands
      between two digits). */
  predicate WellFormedDigits(s: string) {
    && |s| > 0
    && IsDigit(s[0])
    && IsDigit(s[|s| - 1])
    && DigitsOrUnderscores(s)
    && forall i, j :: 0 <= i < |s| && 0 <= j < |s| && j == i + 1 ==> IsDigit(s[i]) || IsDigit(s[j])
  }

  predicate DigitsOrUnderscores(s: string) {
    forall i :: 0 <= i < |s| ==> IsDigit(s[i]) || s[i] == '_'
  }

  function WithoutUnderscores(s: string): (r: string)
    ensures forall i :: 0 <= i < |r| ==> r[i] != '_'
  {
    if |s| == 0 then []
    else (if s[0] == '_' then [] else [s[0]]) + WithoutUnderscores(s[1..])
  }

  /** Only underscores are removed: every other character keeps its count, and the length
      shrinks by the number of underscores. */
  lemma {:induction false} WithoutUnderscoresCounts(s: string)
    ensures |WithoutUnderscores(s)| == |s| - multiset(s)['_']
    ensures forall c :: c != '_' ==> multiset(WithoutUnderscores(s))[c] == multiset(s)[c]
    decreases |s|
  {
    if |s| > 0 {
      WithoutUnderscoresCounts(s[1..]);
      assert s == [s[0]] + s[1..];
    }
  }

  predicate AllDigits(s: string) {
    forall i :: 0 <= i < |s| ==> IsDigit(s[i])
  }

  /** The base-10 value of a digit string, most significant digit first. */
  function DigitsValue(s: string): nat
    requires AllDigits(s)
  {
    if |s| == 0 then 0
    else DigitsValue(s[..|s| - 1]) * 10 + DigitValue(s[|s| - 1])
  }

  lemma {:induction false} WithoutUnderscoresKeepsDigits(s: string)
    requires DigitsOrUnderscores(s)
    ensures AllDigits(WithoutUnderscores(s))
    decreases |s|
  {
    if |s| > 0 {
      WithoutUnderscoresKeepsDigits(s[1..]);
    }
  }

  /** `int(s)` for base 10: surrounding whitespace is stripped, then an optional sign. */
  function ParseInt(s: string): Result<int, DateError> {
    ParseSigned(Strip(s))
  }

  function ParseSigned(t: string): Result<int, DateError> {
    if |t| > 0 && (t[0] == '+' || t[0] == '-') then
      match ParseDigits(t[1..])
      case Ok(v) => Ok(if t[0] == '-' then -(v as int) else v as int)
      case Err(e) => Err(e)
    else
      match ParseDigits(t)
      case Ok(v) => Ok(v)
      case Err(e) => Err(e)
  }

  function ParseDigits(body: string): Result<nat, DateError> {
    if WellFormedDigits(body) then
      var digits := WithoutUnderscores(body);
      WithoutUnderscoresKeepsDigits(body);
      if |digits| > MaxStrDigits then Err(DigitLimitExceeded) else Ok(DigitsValue(digits))
    else
      Err(MonthNotInteger)
  }

  /** The decimal rendering of a natural number, without leading zeros. */
  function DecimalString(n: nat): (s: string)
    ensures |s| >= 1 && AllDigits(s)
  {
    if n < 10 then [DigitChar(n)] else DecimalString(n / 10) + [DigitChar(n % 10)]
  }

  function Zeros(k: nat): (s: string)
    ensures |s| == k && forall i :: 0 <= i < k ==> s[i] == '0'
  {
    if k == 0 then [] else Zeros(k - 1) + ['0']
  }

  lemma {:induction false} DigitsValueOfDecimal(n: nat)
    ensures DigitsValue(DecimalString(n)) == n
  {
    if n >= 10 {
      var s := DecimalString(n);
      DigitsValueOfDecimal(n / 10);
      assert s[..|s| - 1] == DecimalString(n / 10);
    }
  }

  /** Leading zeros do not change the value of a digit string. */
  lemma {:induction false} LeadingZerosValue(k: nat, d: string)
    requires AllDigits(d)
    ensures AllDigits(Zeros(k) + d)
    ensures DigitsValue(Zeros(k) + d) == DigitsValue(d)
    decreases |d|
  {
    var s := Zeros(k) + d;
    if |d| == 0 {
      assert s == Zeros(k);
      ZerosValue(k);
    } else {
      assert s[..|s| - 1] == Zeros(k) + d[..|d| - 1];
      LeadingZerosValue(k, d[..|d| - 1]);
    }
  }

  lemma {:induction false} ZerosValue(k: nat)
    ensures AllDigits(Zeros(k)) && DigitsValue(Zeros(k)) == 0
  {
    if k > 0 {
      assert Zeros(k)[..k - 1] == Zeros(k - 1);
      ZerosValue(k - 1);
    }
  }

  lemma {:induction false} WithoutUnderscoresOfDigits(s: string)
    requires AllDigits(s)
    ensures WithoutUnderscores(s) == s
    decreases |s|
  {
    if |s| > 0 {
      WithoutUnderscoresOfDigits(s[1..]);
      assert [s[0]] + s[1..] == s;
    }
  }

  /** Digit strings carry no whitespace to strip. */
  lemma StripDigits(s: string)
    requires |s| > 0 && AllDigits(s)
    ensures Strip(s) == s
  {
    assert !IsSpace(s[0]);
    assert TrimStart(s) == s;
    assert !IsSpace(s[|s| - 1]);
  }

  /** A plain run of ASCII digits is read as its base-10 value, unless it has more digits than
      `int()` converts. */
  lemma ParseIntOfDigits(s: string)
    requires |s| > 0 && AllDigits(s)
    ensures ParseInt(s) == if |s| <= MaxStrDigits then Ok(DigitsValue(s) as int) else Err(DigitLimitExceeded)
  {
    assert ParseSigned(s) == if |s| <= MaxStrDigits then Ok(DigitsValue(s) as int) else Err(DigitLimitExceeded) by {
      ParseDigitsOfDigits(s);
      assert s[0] != '+' && s[0] != '-';
    }
    assert ParseInt(s) == ParseSigned(s) by {
      StripDigits(s);
    }
  }

  lemma ParseDigitsOfDigits(s: string)
    requires |s| > 0 && AllDigits(s)
    ensures ParseDigits(s) == if |s| <= MaxStrDigits then Ok(DigitsValue(s)) else Err(DigitLimitExceeded)
  {
    assert WellFormedDigits(s);
    WithoutUnderscoresOfDigits(s);
  }

  /** `int()` reads back a decimal rendering, zero-padded or not (`int("03") == 3`), as long as
      the padded rendering stays within the digit limit; beyond it, `int()` refuses. */
  lemma ParseIntOfDecimal(k: nat, n: nat)
    ensures ParseInt(Zeros(k) + DecimalString(n))
            == if k + |DecimalString(n)| <= MaxStrDigits then Ok(n) else Err(DigitLimitExceeded)
  {
    LeadingZerosValue(k, DecimalString(n));
    DigitsValueOfDecimal(n);
    ParseIntOfDigits(Zeros(k) + DecimalString(n));
  }

  /** Without a '-' in the text, `int()` never produces a negative number. */
  lemma ParseIntNonNegative(s: string)
    requires NoSeparator(s)
    ensures ParseInt(s).Ok? ==> ParseInt(s).value >= 0
  {
    var t := Strip(s);
    var u := TrimStart(s);
    assert t == u[..|t|];
    if |t| > 0 {
      assert t[0] == u[0] == s[|s| - |u|];
    }
  }

  /** `int()` rejects text with no digits at all, such as a month name. */
  lemma ParseIntRejectsNonDigits(s: string)
    requires forall i :: 0 <= i < |s| ==> !IsDigit(s[i])
    ensures ParseInt(s) == Err(MonthNotInteger)
  {
    var u := TrimStart(s);
    var t := Strip(s);
    assert t == u[..|t|];
    var body := if |t| > 0 && (t[0] == '+' || t[0] == '-') then t[1..] else t;
    if |body| > 0 {
      if |t| > 0 && (t[0] == '+' || t[0] == '-') {
        assert body[0] == t[1] == u[1] == s[|s| - |u| + 1];
      } else {
        assert body[0] == u[0] == s[|s| - |u|];
      }
    }
  }

  /** Removing underscores distributes over concatenation. */
  lemma {:induction false} WithoutUnderscoresAppend(a: string, b: string)
    ensures WithoutUnderscores(a + b) == WithoutUnderscores(a) + WithoutUnderscores(b)
    decreases |a|
  {
    if |a| > 0 {
      assert (a + b)[1..] == a[1..] + b;
      WithoutUnderscoresAppend(a[1..], b);
    } else {
      assert a + b == b;
    }
  }

  /** Text that neither starts nor ends with whitespace is not changed by stripping. */
  lemma StripUnpadded(s: string)
    requires |s| > 0 && !IsSpace(s[0]) && !IsSpace(s[|s| - 1])
    ensures Strip(s) == s
  {
    assert TrimStart(s) == s;
  }

  /** An underscore between two digit groups is ignored: `int("1_000") == int("1000")`. */
  lemma ParseIntIgnoresUnderscore(a: string, b: string)
    requires |a| > 0 && |b| > 0 && AllDigits(a) && AllDigits(b)
    ensures ParseInt(a + ['_'] + b) == ParseInt(a + b)
  {
    var g := a + ['_'] + b;
    var d := a + b;
    StripUnpadded(g);
    StripUnpadded(d);
    assert WellFormedDigits(g) by {
      forall i, j | 0 <= i < |g| && 0 <= j < |g| && j == i + 1 ensures IsDigit(g[i]) || IsDigit(g[j]) {
        if i == |a| {
          assert g[j] == b[0];
        } else if i < |a| {
          assert g[i] == a[i];
        } else {
          assert g[i] == b[i - |a| - 1];
        }
      }
    }
    assert WellFormedDigits(d);
    WithoutUnderscoresAppend(a + ['_'], b);
    WithoutUnderscoresAppend(a, ['_']);
    WithoutUnderscoresAppend(a, b);
    assert WithoutUnderscores(['_']) == [];
    assert WithoutUnderscores(g) == WithoutUnderscores(d);
  }

  /** The characters that can occur in text `int()` accepts. */
  predicate IntChar(c: char) {
    IsDigit(c) || c == '_' || c == '+' || c == '-' || IsSpace(c)
  }

  /** Cutting a run of whitespace from the front and then from the back keeps a middle slice
      of the text, with whitespace alone on either side of it. */
  lemma StripSlice(s: string, u: string, t: string)
    requires |u| <= |s| && u == s[|s| - |u|..] && AllSpace(s[..|s| - |u|])
    requires |t| <= |u| && t == u[..|t|] && AllSpace(u[|t|..])
    ensures var off := |s| - |u|;
            && off + |t| <= |s|
            && t == s[off..off + |t|]
            && AllSpace(s[..off]) && AllSpace(s[off + |t|..])
  {
    var off := |s| - |u|;
    forall i | 0 <= i < |t| ensures t[i] == s[off + i] {
      assert t[i] == u[i];
    }
    forall i | 0 <= i < |s| - off - |t| ensures s[off + |t| + i] == u[|t|..][i] {
    }
  }

  lemma ParseSignedAcceptsOnly(t: string)
    ensures ParseSigned(t).Ok? ==> forall i :: 0 <= i < |t| ==> IntChar(t[i])
  {
    if ParseSigned(t).Ok? {
      var signed := |t| > 0 && (t[0] == '+' || t[0] == '-');
      var body := if signed then t[1..] else t;
      assert WellFormedDigits(body);
      forall i | 0 <= i < |t| ensures IntChar(t[i]) {
        if signed && i > 0 {
          assert t[i] == body[i - 1];
        } else if !signed {
          assert t[i] == body[i];
        }
      }
    }
  }

  /** `int()` accepts only whitespace, signs, ASCII digits and underscores: a field holding any
      other character, such as "3a", "03.0", "1e2" or "0x3", is rejected. */
  lemma ParseIntAcceptsOnly(s: string)
    ensures ParseInt(s).Ok? ==> forall i :: 0 <= i < |s| ==> IntChar(s[i])
  {
    if ParseInt(s).Ok? {
      var u := TrimStart(s);
      var t := TrimEnd(u);
      var off := |s| - |u|;
      StripSlice(s, u, t);
      ParseSignedAcceptsOnly(t);
      forall i | 0 <= i < |s| ensures IntChar(s[i]) {
        if i < off {
          assert s[i] == s[..off][i];
        } else if i < off + |t| {
          assert s[i] == t[i - off];
        } else {
          assert s[i] == s[off + |t|..][i - off - |t|];
        }
      }
    }
  }

  // ---------------------------------------------------------------------------
  // get_month
  // ---------------------------------------------------------------------------

  /** `get_month(date_str)`: `int(date_str.split('-')[1])`. */
  function GetMonth(date: string): Result<int, DateError> {
    var fields := Split(date);
    if |fields| < 2 then Err(MissingMonthField) else ParseInt(fields[1])
  }

  /** `get_month` raises `IndexError` exactly when the date holds no '-'. */
  lemma GetMonthMissingField(date: string)
    ensures GetMonth(date) == Err(MissingMonthField) <==> NoSeparator(date)
  {
    SplitHasSecondField(date);
  }

  /** A month read from a date is never negative: the field cannot carry a '-' sign. */
  lemma GetMonthNonNegative(date: string)
    ensures GetMonth(date).Ok? ==> GetMonth(date).value >= 0
  {
    var fields := Split(date);
    if |fields| >= 2 {
      JoinSplit(date);
      ParseIntNonNegative(fields[1]);
    }
  }

  /** The month depends only on what follows the first '-': the year is thrown away. */
  lemma GetMonthIgnoresYear(year1: string, year2: string, tail: string)
    requires NoSeparator(year1) && NoSeparator(year2)
    ensures GetMonth(year1 + [Separator] + tail) == GetMonth(year2 + [Separator] + tail)
  {
    SplitAtSeparator(year1, tail);
    SplitAtSeparator(year2, tail);
    SplitWithoutSeparator(year1);
    SplitWithoutSeparator(year2);
  }

  /** A `YYYY-MM` or `YYYY-MM-...` date gives back its month number, whatever the zero padding
      and whether or not it lies in 1..12, unless the padded month exceeds the digit limit. */
  lemma GetMonthOfDate(year: string, pad: nat, month: nat, rest: string)
    requires NoSeparator(year)
    requires rest == [] || rest[0] == Separator
    ensures GetMonth(year + [Separator] + (Zeros(pad) + DecimalString(month)) + rest)
            == if pad + |DecimalString(month)| <= MaxStrDigits then Ok(month) else Err(DigitLimitExceeded)
  {
    LeadingZerosValue(pad, DecimalString(month));
    SecondField(year, Zeros(pad) + DecimalString(month), rest);
    ParseIntOfDecimal(pad, month);
  }

  /** In `year-field` or `year-field-...`, the second piece is `field`. */
  lemma SecondField(year: string, field: string, rest: string)
    requires NoSeparator(year)
    requires AllDigits(field)
    requires rest == [] || rest[0] == Separator
    ensures |Split(year + [Separator] + field + rest)| >= 2
    ensures Split(year + [Separator] + field + rest)[1] == field
  {
    var date := year + [Separator] + field + rest;
    assert date == year + [Separator] + (field + rest);
    SplitAtSeparator(year, field + rest);
    SplitWithoutSeparator(year);
    assert Split(date) == [year] + Split(field + rest);
    assert NoSeparator(field);
    SplitWithoutSeparator(field);
    if rest != [] {
      assert field + rest == field + [Separator] + rest[1..];
      SplitAtSeparator(field, rest[1..]);
      assert Split(field + rest) == [field] + Split(rest[1..]);
    } else {
      assert field + rest == field;
    }
  }

  /** "2020-03-15" is month 3. */
  lemma GetMonthOfFullDate()
    ensures GetMonth("2020-03-15") == Ok(3)
  {
    assert Zeros(1) == "0";
    assert DecimalString(3) == "3";
    assert "2020-03-15" == "2020" + [Separator] + (Zeros(1) + DecimalString(3)) + "-15";
    GetMonthOfDate("2020", 1, 3, "-15");
  }

  /** Month 13 is not rejected: the range 1..12 is never checked. */
  lemma GetMonthOutOfRange()
    ensures GetMonth("2020-13") == Ok(13)
  {
    assert DecimalString(1) == "1";
    assert DecimalString(13) == "13";
    assert "2020-13" == "2020" + [Separator] + (Zeros(0) + DecimalString(13)) + "";
    GetMonthOfDate("2020", 0, 13, "");
  }

  /** "202003" has no month field. */
  lemma GetMonthWithoutSeparator()
    ensures GetMonth("202003") == Err(MissingMonthField)
  {
    assert NoSeparator("202003");
    GetMonthMissingField("202003");
  }

  /** A second field without any digit, such as a month name, is not an integer. */
  lemma GetMonthOfWord(year: string, word: string)
    requires NoSeparator(year) && NoSeparator(word)
    requires forall i :: 0 <= i < |word| ==> !IsDigit(word[i])
    ensures GetMonth(year + [Separator] + word) == Err(MonthNotInteger)
  {
    SplitAtSeparator(year, word);
    SplitWithoutSeparator(year);
    SplitWithoutSeparator(word);
    ParseIntRejectsNonDigits(word);
  }

  /** "2020-Mar" has a month field that is not an integer. */
  lemma GetMonthOfMonthName()
    ensures GetMonth("2020-Mar") == Err(MonthNotInteger)
  {
    var year, word := "2020", "Mar";
    assert "2020-Mar" == year + [Separator] + word;
    assert NoSeparator(year) && NoSeparator(word);
    GetMonthOfWord(year, word);
  }
}
