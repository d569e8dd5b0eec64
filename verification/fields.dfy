/** The checks run on each holder field the user supplies before a license
    is filled: `validateYears`, `validateEmail` and `validateField`. The two
    regular expressions are written out as scans; each is proved equal to
    the language its expression denotes. */
module Fields {
  import opened Wrappers
  import opened Text
  import opened Normalizer

  // ---------------------------------------------------------------------
  // Years: /^\d{4}(-\d{4})?$/

  /** `\d` without the `u` flag: the ASCII digits only. */
  predicate IsDigit(c: char) {
    '0' <= c <= '9'
  }

  /** `\d{4}`: exactly four digits. */
  predicate IsYear(y: string) {
    |y| == 4 && forall i :: 0 <= i < 4 ==> IsDigit(y[i])
  }

  /** `\d{4}-\d{4}`: two years joined by a hyphen. */
  ghost predicate IsYearRange(v: string) {
    exists a, b | IsYear(a) && IsYear(b) :: v == a + "-" + b
  }

  /** `validateYears`: a four-digit year, or two joined by `-`. */
  function ValidateYears(value: string): bool {
    if |value| == 4 then IsYear(value)
    else |value| == 9 && IsYear(value[..4]) && value[4] == '-' && IsYear(value[5..])
  }

  /** The scan accepts exactly the language of the expression. */
  lemma ValidateYearsIff(value: string)
    ensures ValidateYears(value) <==> IsYear(value) || IsYearRange(value)
  {
    if |value| == 9 && IsYear(value[..4]) && value[4] == '-' && IsYear(value[5..]) {
      assert value == value[..4] + "-" + value[5..];
    }
    if IsYearRange(value) {
      var a, b :| IsYear(a) && IsYear(b) && value == a + "-" + b;
      assert value[..4] == a && value[5..] == b;
    }
  }

  // ---------------------------------------------------------------------
  // Email: /^[^@\s]+@[^@\s]+\.[^@\s]+$/

  /** `[^@\s]`. */
  predicate EmailChar(c: char) {
    c != '@' && !IsWs(c)
  }

  /** `[^@\s]+`. */
  predicate EmailRun(s: string) {
    |s| >= 1 && forall i :: 0 <= i < |s| ==> EmailChar(s[i])
  }

  /** The address splits at `at` (the `@`) and `dot` (the `\.`) into three
      non-empty runs of `[^@\s]`. */
  predicate EmailSplit(v: string, at: int, dot: int) {
    && 0 <= at < dot < |v|
    && v[at] == '@' && v[dot] == '.'
    && EmailRun(v[..at]) && EmailRun(v[at + 1..dot]) && EmailRun(v[dot + 1..])
  }

  /** The language of the email expression: some split exists. */
  predicate EmailShape(v: string) {
    exists at, dot | 0 <= at < dot < |v| :: EmailSplit(v, at, dot)
  }

  /** No character of `s` is `@` or white space. */
  predicate NoAtNoWs(s: string) {
    forall i :: 0 <= i < |s| ==> EmailChar(s[i])
  }

  /** `validateEmail`: no white space anywhere; the first `@` is not the
      first character; no second `@`; and a `.` in the domain with at least
      one character on each side of it. */
  function ValidateEmail(value: string): bool {
    FindFromFirst(value, 0, '@');
    match FindFrom(value, 0, '@')
    case None => false
    case Some(at) =>
      && at >= 1
      && NoAtNoWs(value[..at]) && NoAtNoWs(value[at + 1..])
      && at + 2 < |value|
      && FindFrom(value[..|value| - 1], at + 2, '.').Some?
  }

  /** A run on both sides of a dot inside the domain gives a split. */
  lemma EmailSplitOfDot(v: string, at: int, dot: int)
    requires 1 <= at && at + 2 <= dot < |v| - 1
    requires v[at] == '@' && v[dot] == '.'
    requires NoAtNoWs(v[..at]) && NoAtNoWs(v[at + 1..])
    ensures EmailSplit(v, at, dot)
  {
    var domain, user, host := v[at + 1..], v[at + 1..dot], v[dot + 1..];
    assert forall i :: 0 <= i < |user| ==> user[i] == domain[i];
    assert forall i :: 0 <= i < |host| ==> host[i] == v[dot + 1 + i] == domain[i + dot - at];
  }

  /** A split leaves one `@`, and a dot where the scan looks for it. */
  lemma EmailSplitScanned(v: string, at: int, dot: int)
    requires EmailSplit(v, at, dot)
    ensures 1 <= at && at + 2 <= dot < |v| - 1
    ensures NoAtNoWs(v[..at]) && NoAtNoWs(v[at + 1..])
    ensures FindFrom(v, 0, '@') == Some(at)
  {
    assert forall k :: 0 <= k < at ==> v[k] == v[..at][k];
    FindFromAt(v, 0, '@', at);
    var domain, user, host := v[at + 1..], v[at + 1..dot], v[dot + 1..];
    forall i | 0 <= i < |domain|
      ensures EmailChar(domain[i])
    {
      if i < |user| {
        assert domain[i] == user[i];
      } else if i > |user| {
        assert domain[i] == host[i - (dot - at)];
      }
    }
  }

  /** The scan accepts exactly the language of the expression. */
  lemma ValidateEmailIff(value: string)
    ensures ValidateEmail(value) <==> EmailShape(value)
  {
    FindFromFirst(value, 0, '@');
    if ValidateEmail(value) {
      var at := FindFrom(value, 0, '@').value;
      var front := value[..|value| - 1];
      FindFromFirst(front, at + 2, '.');
      var dot := FindFrom(front, at + 2, '.').value;
      assert value[dot] == front[dot];
      EmailSplitOfDot(value, at, dot);
    }
    if EmailShape(value) {
      var at, dot :| 0 <= at < dot < |value| && EmailSplit(value, at, dot);
      EmailSplitScanned(value, at, dot);
      var front := value[..|value| - 1];
      assert front[dot] == '.';
      FindFromFirst(front, at + 2, '.');
    }
  }

  // ---------------------------------------------------------------------
  // One field

  /** `validateField(field, value)`: the message to show, or `None` when the
      value is acceptable. Blankness is `value.trim().length === 0`. */
  function ValidateField(field: string, value: string): (r: Option<string>)
    ensures r == Some(field + " is required.") <==> AllWs(value)
  {
    TrimEmptyIff(value);
    if |Trim(value)| == 0 then Some(field + " is required.")
    else if field == "years" && !ValidateYears(value) then Some("Years must be YYYY or YYYY-YYYY.")
    else if field == "email" && !ValidateEmail(value) then Some("Email must be valid.")
    else None
  }

  /** Trimming leaves nothing exactly when the value is all white space. */
  lemma TrimEmptyIff(s: string)
    ensures |Trim(s)| == 0 <==> AllWs(s)
  {
    var t := TrimStart(s);
    if |t| > 0 {
      assert !IsWs(s[|s| - |t|]);
    } else {
      assert s[..|s|] == s;
    }
  }

  /** A field's value passes exactly when it is not blank and, for the two
      checked fields, has the required shape; every other field takes any
      non-blank text. */
  lemma ValidateFieldAccepts(field: string, value: string)
    ensures ValidateField(field, value).None? <==>
      && !AllWs(value)
      && (field == "years" ==> IsYear(value) || IsYearRange(value))
      && (field == "email" ==> EmailShape(value))
  {
    ValidateYearsIff(value);
    ValidateEmailIff(value);
  }
}
