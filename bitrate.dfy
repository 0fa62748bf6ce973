/**
 * Resolution of the optional bitrate argument of c2demo into a Codec 2 mode: the
 * token is read with `strtol(token, &endptr, 10)`, must be consumed up to its
 * terminating NUL, and must name one of the four supported bitrates.
 */
module Bitrate {
  import opened Wrappers

  /** A command-line argument: a C string, so it holds no NUL character. */
  type CString = s: string | '\0' !in s

  /** The modes c2demo can select, CODEC2_MODE_3200 to CODEC2_MODE_1200. */
  datatype Mode = Mode3200 | Mode2400 | Mode1400 | Mode1200

  /** The bitrate token that selects each mode. */
  function BitsPerSecond(m: Mode): nat {
    match m
    case Mode3200 => 3200
    case Mode2400 => 2400
    case Mode1400 => 1400
    case Mode1200 => 1200
  }

  /** The mode used when no bitrate token is given. */
  const DefaultMode: Mode := Mode1400

  datatype BitrateError =
    | ParseError(invalid: string)  // the part of the token strtol did not consume
    | RangeError(value: int)       // a completely consumed number that names no mode

  /** `isspace` in the "C" locale. */
  predicate IsSpace(ch: char) {
    ch == ' ' || ch == '\t' || ch == '\n' || ch == '\U{B}' || ch == '\U{C}' || ch == '\r'
  }

  predicate IsDigit(ch: char) {
    '0' <= ch <= '9'
  }

  predicate AllDigits(s: string) {
    forall k :: 0 <= k < |s| ==> IsDigit(s[k])
  }

  predicate AllSpaces(s: string) {
    forall k :: 0 <= k < |s| ==> IsSpace(s[k])
  }

  /** The first index at or after `i` that does not hold white space. */
  function SkipSpaces(s: string, i: nat): (j: nat)
    requires i <= |s|
    ensures i <= j <= |s| && AllSpaces(s[i..j])
    ensures j == |s| || !IsSpace(s[j])
    decreases |s| - i
  {
    if i < |s| && IsSpace(s[i]) then SkipSpaces(s, i + 1) else i
  }

  /** The first index at or after `i` that does not hold a decimal digit. */
  function SkipDigits(s: string, i: nat): (j: nat)
    requires i <= |s|
    ensures i <= j <= |s| && AllDigits(s[i..j])
    ensures j == |s| || !IsDigit(s[j])
    decreases |s| - i
  {
    if i < |s| && IsDigit(s[i]) then SkipDigits(s, i + 1) else i
  }

  /** The value of a string of decimal digits, most significant first. */
  function DigitsValue(ds: string): nat
    requires AllDigits(ds)
  {
    if ds == [] then 0
    else 10 * DigitsValue(ds[..|ds| - 1]) + (ds[|ds| - 1] as int - '0' as int)
  }

  /** The value of a sign (empty, "+" or "-") followed by digits. */
  function SignedValue(sign: string, ds: string): int
    requires AllDigits(ds)
  {
    if sign == "-" then -(DigitsValue(ds) as int) else DigitsValue(ds)
  }

  /**
   * A numeral as strtol reads one: white space, an optional sign, then at least one
   * decimal digit, and nothing else.
   */
  ghost predicate WellFormed(s: string) {
    exists i, j :: 0 <= i <= j < |s| && AllSpaces(s[..i]) &&
      (j == i || (j == i + 1 && (s[i] == '+' || s[i] == '-'))) && AllDigits(s[j..])
  }

  /** White space, an optional sign and a non-empty run of digits make a well-formed prefix. */
  lemma NumeralPrefix(s: string, i: nat, j: nat, k: nat)
    requires i <= j < k <= |s| && AllSpaces(s[0..i]) && AllDigits(s[j..k])
    requires j == i || (j == i + 1 && (s[i] == '+' || s[i] == '-'))
    ensures WellFormed(s[..k])
  {
    var t := s[..k];
    assert t[..i] == s[0..i];
    assert t[j..] == s[j..k];
    assert AllSpaces(t[..i]) && AllDigits(t[j..]);
  }

  /** What `strtol` returns together with the offset `endptr` points to. */
  datatype Parsed = Parsed(value: int, end: nat)

  /**
   * `strtol(s, &endptr, 10)`: optional white space, an optional sign, then the
   * longest run of decimal digits. When there are no digits, the value is 0 and
   * `endptr` is the start of the string. Overflow clamping is not modelled.
   */
  function Strtol(s: string): (p: Parsed)
    ensures p.end <= |s|
    ensures p.end == 0 ==> p.value == 0
    ensures p.end > 0 ==> WellFormed(s[..p.end]) && (p.end == |s| || !IsDigit(s[p.end]))
  {
    var i := SkipSpaces(s, 0);
    var negative := i < |s| && s[i] == '-';
    var j := if i < |s| && (s[i] == '+' || s[i] == '-') then i + 1 else i;
    var k := SkipDigits(s, j);
    if k == j then Parsed(0, 0)
    else
      NumeralPrefix(s, i, j, k);
      var magnitude: int := DigitsValue(s[j..k]);
      Parsed(if negative then -magnitude else magnitude, k)
  }

  /**
   * The mode for the optional bitrate token (argv[3]): the default mode without a
   * token; a parse error when strtol stops before the terminating NUL, whatever the
   * number read so far; otherwise the mode whose bitrate is the number read, or a
   * range error.
   */
  function ResolveMode(token: Option<CString>): (r: Result<Mode, BitrateError>)
    ensures token.None? ==> r == Ok(DefaultMode)
    ensures token.Some? && Strtol(token.value).end < |token.value| ==>
              r == Err(ParseError(token.value[Strtol(token.value).end..]))
    ensures token.Some? ==>
              forall m :: r == Ok(m) <==> Strtol(token.value) == Parsed(BitsPerSecond(m), |token.value|)
    ensures token.Some? ==>
              (r.Err? && r.error.RangeError? <==>
                 Strtol(token.value).end == |token.value| &&
                 forall m :: Strtol(token.value).value != BitsPerSecond(m))
  {
    match token
    case None => Ok(DefaultMode)
    case Some(s) =>
      var p := Strtol(s);
      if p.end < |s| then Err(ParseError(s[p.end..]))
      else if p.value == 3200 then Ok(Mode3200)
      else if p.value == 2400 then Ok(Mode2400)
      else if p.value == 1400 then Ok(Mode1400)
      else if p.value == 1200 then Ok(Mode1200)
      else Err(RangeError(p.value))
  }

  /** The decimal rendering of a natural number, without leading zeros. */
  function Decimal(n: nat): (s: string)
    ensures |s| > 0 && AllDigits(s)
  {
    if n < 10 then [('0' as int + n) as char]
    else Decimal(n / 10) + [('0' as int + n % 10) as char]
  }

  lemma {:induction false} DecimalValue(n: nat)
    ensures DigitsValue(Decimal(n)) == n
  {
    var s := Decimal(n);
    if n >= 10 {
      DecimalValue(n / 10);
      assert s[..|s| - 1] == Decimal(n / 10);
    }
  }

  /** Skipping white space over a run of spaces stops at its end when a non-space follows. */
  lemma {:induction false} SkipSpacesOver(s: string, i: nat, j: nat)
    requires i <= j <= |s| && AllSpaces(s[i..j]) && (j == |s| || !IsSpace(s[j]))
    ensures SkipSpaces(s, i) == j
    decreases j - i
  {
    if i < j {
      assert IsSpace(s[i..j][0]);
      assert s[i + 1..j] == s[i..j][1..];
      SkipSpacesOver(s, i + 1, j);
    }
  }

  /** Skipping digits over a run of digits stops at its end when a non-digit follows. */
  lemma {:induction false} SkipDigitsOver(s: string, i: nat, j: nat)
    requires i <= j <= |s| && AllDigits(s[i..j]) && (j == |s| || !IsDigit(s[j]))
    ensures SkipDigits(s, i) == j
    decreases j - i
  {
    if i < j {
      assert IsDigit(s[i..j][0]);
      assert s[i + 1..j] == s[i..j][1..];
      SkipDigitsOver(s, i + 1, j);
    }
  }

  /** Skipping digits goes at least past a run of digits. */
  lemma {:induction false} SkipDigitsPast(s: string, i: nat, j: nat)
    requires i <= j <= |s| && AllDigits(s[i..j])
    ensures j <= SkipDigits(s, i)
    decreases j - i
  {
    if i < j {
      assert IsDigit(s[i..j][0]);
      assert s[i + 1..j] == s[i..j][1..];
      SkipDigitsPast(s, i + 1, j);
    }
  }

  /**
   * strtol on white space, an optional sign and at least one digit, followed by
   * anything that does not start with a digit, consumes exactly the numeral and
   * yields the signed value of its digits.
   */
  lemma StrtolWellFormed(ws: string, sign: string, ds: string, rest: string)
    requires AllSpaces(ws) && (sign == "" || sign == "+" || sign == "-")
    requires |ds| > 0 && AllDigits(ds)
    requires rest == [] || !IsDigit(rest[0])
    ensures Strtol(ws + sign + ds + rest) == Parsed(SignedValue(sign, ds), |ws + sign + ds|)
  {
    var s := ws + sign + ds + rest;
    var i, j, k := |ws|, |ws| + |sign|, |ws| + |sign| + |ds|;
    assert s[0..i] == ws;
    assert s[j..k] == ds;
    assert s[i] == if sign == "" then ds[0] else sign[0];
    assert k < |s| ==> s[k] == rest[0];
    SkipSpacesOver(s, 0, i);
    assert j == if s[i] == '+' || s[i] == '-' then i + 1 else i;
    SkipDigitsOver(s, j, k);
  }

  /**
   * strtol consumes at least every well-formed prefix of its input, so `endptr`
   * is 0 only when no prefix is a numeral.
   */
  lemma StrtolLongest(s: string, n: nat)
    requires 0 < n <= |s| && WellFormed(s[..n])
    ensures n <= Strtol(s).end
  {
    var t := s[..n];
    var i, j :| 0 <= i <= j < |t| && AllSpaces(t[..i]) &&
      (j == i || (j == i + 1 && (t[i] == '+' || t[i] == '-'))) && AllDigits(t[j..]);
    assert t[j..][0] == s[j];
    assert s[0..i] == t[..i];
    SkipSpacesOver(s, 0, i);
    assert t[j..] == s[j..n];
    SkipDigitsPast(s, j, n);
  }

  /**
   * A well-formed token resolves to the mode whose bitrate is its value and to no
   * other; when its value names no mode it is a range error, never a parse error.
   */
  lemma ResolveWellFormed(ws: string, sign: string, ds: string, m: Mode)
    requires AllSpaces(ws) && (sign == "" || sign == "+" || sign == "-")
    requires |ds| > 0 && AllDigits(ds)
    ensures '\0' !in ws + sign + ds
    ensures ResolveMode(Some(ws + sign + ds)) == Ok(m) <==> SignedValue(sign, ds) == BitsPerSecond(m)
    ensures ResolveMode(Some(ws + sign + ds)).Ok? ||
            ResolveMode(Some(ws + sign + ds)) == Err(RangeError(SignedValue(sign, ds)))
  {
    var s := ws + sign + ds;
    assert forall k :: 0 <= k < |s| ==> s[k] != '\0' by {
      forall k | 0 <= k < |s| ensures s[k] != '\0' {
        if k < |ws| { assert s[k] == ws[k]; }
        else if k < |ws| + |sign| { assert s[k] == sign[k - |ws|]; }
        else { assert s[k] == ds[k - |ws| - |sign|]; }
      }
    }
    assert ws + sign + ds + "" == s;
    StrtolWellFormed(ws, sign, ds, "");
  }

  /**
   * A token is a parse error exactly when it is not empty and not a well-formed
   * numeral; the empty token passes the `endptr` check (see `ResolveEmptyToken`).
   */
  lemma ParseErrorIffMalformed(s: CString)
    ensures ResolveMode(Some(s)).Err? && ResolveMode(Some(s)).error.ParseError? <==>
            s != "" && !WellFormed(s)
  {
    var p := Strtol(s);
    if s != "" && WellFormed(s) {
      assert s[..|s|] == s;
      StrtolLongest(s, |s|);
    }
    if p.end > 0 && p.end == |s| {
      assert s[..p.end] == s;
    }
  }

  /** strtol reads the decimal rendering of a number back completely, as that number. */
  lemma StrtolDecimal(n: nat)
    ensures '\0' !in Decimal(n)
    ensures Strtol(Decimal(n)) == Parsed(n, |Decimal(n)|)
  {
    var s := Decimal(n);
    DecimalValue(n);
    assert "" + "" + s + "" == s;
    StrtolWellFormed("", "", s, "");
    assert forall k :: 0 <= k < |s| ==> s[k] != '\0';
  }

  /** Rendering a mode's bitrate in decimal gives back a token that resolves to that mode. */
  lemma ResolveRendered(m: Mode)
    ensures '\0' !in Decimal(BitsPerSecond(m))
    ensures ResolveMode(Some(Decimal(BitsPerSecond(m)))) == Ok(m)
  {
    StrtolDecimal(BitsPerSecond(m));
  }

  /** The bitrate tokens the usage message lists, one per mode. */
  function UsageToken(m: Mode): CString {
    match m
    case Mode3200 => "3200"
    case Mode2400 => "2400"
    case Mode1400 => "1400"
    case Mode1200 => "1200"
  }

  /** Each token the usage message lists selects its own mode. */
  lemma ResolveUsageToken(m: Mode)
    ensures ResolveMode(Some(UsageToken(m))) == Ok(m)
  {
    match m
    case Mode3200 => assert Decimal(3200) == "3200"; ResolveRendered(m);
    case Mode2400 => assert Decimal(2400) == "2400"; ResolveRendered(m);
    case Mode1400 => assert Decimal(1400) == "1400"; ResolveRendered(m);
    case Mode1200 => assert Decimal(1200) == "1200"; ResolveRendered(m);
  }

  /** A number that names no mode is a range error, not a parse error. */
  lemma ResolveUnsupportedNumber()
    ensures ResolveMode(Some("9999")) == Err(RangeError(9999))
  {
    assert Strtol("9999") == Parsed(9999, 4) by {
      assert Decimal(9999) == "9999";
      StrtolDecimal(9999);
    }
  }

  /** 1000 bit/s is not a Codec 2 mode that c2demo offers. */
  lemma ResolveUnsupportedRate()
    ensures ResolveMode(Some("1000")) == Err(RangeError(1000))
  {
    assert Strtol("1000") == Parsed(1000, 4) by {
      assert Decimal(1000) == "1000";
      StrtolDecimal(1000);
    }
  }

  /** strtol reads "" as 0 with `endptr` at the terminator, so "" is a range error. */
  lemma ResolveEmptyToken()
    ensures Strtol("") == Parsed(0, 0)
    ensures ResolveMode(Some("")) == Err(RangeError(0))
  {
  }

  /** strtol stops at the 'x' of "12x": a parse error naming "x". */
  lemma ResolveTrailingGarbage()
    ensures ResolveMode(Some("12x")) == Err(ParseError("x"))
  {
    SkipDigitsOver("12x", 0, 2);
  }

  /** Without digits `endptr` stays at the start, so "abc" is a parse error naming all of it. */
  lemma ResolveNoDigits()
    ensures ResolveMode(Some("abc")) == Err(ParseError("abc"))
  {
    assert Strtol("abc").end == 0;
  }

  /** White space alone has no digits either: " " is a parse error, not the value 0. */
  lemma ResolveOnlySpace()
    ensures ResolveMode(Some(" ")) == Err(ParseError(" "))
  {
    assert Strtol(" ").end == 0;
  }
}
