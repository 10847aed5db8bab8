/** Go's `strconv` number and boolean parsing for base 10, as the call engine
    uses it: `ParseInt(s, 10, bits)`, `ParseUint(s, 10, bits)` and
    `ParseBool(s)`, with the formatting functions that invert them. */
module Strconv {
  import opened Wrappers
  import opened Errors

  /** The two bit sizes the engine passes to the parsers. */
  datatype Width = W32 | W64

  function Bits(w: Width): nat {
    match w
    case W32 => 32
    case W64 => 64
  }

  /** 2^n. */
  function Pow2(n: nat): (r: nat)
    ensures r >= 1
  {
    if n == 0 then 1 else 2 * Pow2(n - 1)
  }

  /** The largest unsigned value of the width: `1<<bits - 1`. */
  function MaxUint(w: Width): nat {
    match w
    case W32 => 0xFFFF_FFFF
    case W64 => 0xFFFF_FFFF_FFFF_FFFF
  }

  /** `1 << (bits-1)`: the magnitude of the most negative signed value. */
  function SignedCutoff(w: Width): nat {
    match w
    case W32 => 0x8000_0000
    case W64 => 0x8000_0000_0000_0000
  }

  /** The signed range of the width: [MinInt, MaxInt]. */
  function MinInt(w: Width): int {
    0 - SignedCutoff(w)
  }

  function MaxInt(w: Width): int {
    SignedCutoff(w) - 1
  }

  lemma {:induction false} PowAdd(a: nat, b: nat)
    ensures Pow2(a + b) == Pow2(a) * Pow2(b)
  {
    if a > 0 {
      PowAdd(a - 1, b);
    }
  }

  /** The constants are the shifts the parsers compute from the bit size. */
  lemma WidthPowers(w: Width)
    ensures MaxUint(w) == Pow2(Bits(w)) - 1
    ensures SignedCutoff(w) == Pow2(Bits(w) - 1)
    ensures SignedCutoff(w) <= MaxUint(w)
  {
    assert Pow2(8) == 256;
    assert Pow2(16) == 65536 by { PowAdd(8, 8); }
    assert Pow2(31) == 0x8000_0000 by { PowAdd(16, 15); PowAdd(8, 7); }
    assert Pow2(32) == 0x1_0000_0000;
    assert Pow2(63) == 0x8000_0000_0000_0000 by { PowAdd(32, 31); }
    assert Pow2(64) == 0x1_0000_0000_0000_0000;
  }

  predicate IsDigit(c: char) {
    '0' <= c <= '9'
  }

  function DigitValue(c: char): nat
    requires IsDigit(c)
  {
    (c as int) - ('0' as int)
  }

  predicate AllDigits(s: string) {
    forall i :: 0 <= i < |s| ==> IsDigit(s[i])
  }

  /** The value of a string of decimal digits, most significant first. */
  function DecimalValue(s: string): nat
    requires AllDigits(s)
  {
    if |s| == 0 then 0 else 10 * DecimalValue(s[..|s| - 1]) + DigitValue(s[|s| - 1])
  }

  /** Appending a digit never makes the value smaller. */
  lemma {:induction false} DecimalValuePrefix(s: string, k: nat)
    requires AllDigits(s) && k <= |s|
    ensures DecimalValue(s[..k]) <= DecimalValue(s)
    decreases |s|
  {
    if k < |s| {
      assert s[..|s| - 1][..k] == s[..k];
      DecimalValuePrefix(s[..|s| - 1], k);
    } else {
      assert s[..k] == s;
    }
  }

  /** Scans the digits of `s` from position `i` on, where `n` is the value
      of `s[..i]`, exactly as ParseUint's loop does: a non-digit is a syntax
      error, and an accumulated value above `max` is a range error at the
      digit where it first happens. */
  function Scan(s: string, i: nat, n: nat, max: nat): (r: Result<nat, NumCause>)
    requires i <= |s|
    decreases |s| - i
  {
    if i == |s| then Success(n)
    else if !IsDigit(s[i]) then Failure(ErrSyntax)
    else
      var n1 := 10 * n + DigitValue(s[i]);
      if n1 > max then Failure(ErrRange) else Scan(s, i + 1, n1, max)
  }

  /** The scan succeeds exactly on all-digit text whose value fits. */
  lemma {:induction false} ScanCorrect(s: string, i: nat, n: nat, max: nat)
    requires i <= |s| && AllDigits(s[..i]) && DecimalValue(s[..i]) == n && n <= max
    ensures Scan(s, i, n, max).Success? <==> AllDigits(s) && DecimalValue(s) <= max
    ensures Scan(s, i, n, max).Success? ==> Scan(s, i, n, max).value == DecimalValue(s)
    decreases |s| - i
  {
    if i == |s| {
      assert s[..i] == s;
    } else if !IsDigit(s[i]) {
      assert !AllDigits(s);
    } else {
      var n1 := 10 * n + DigitValue(s[i]);
      assert s[..i + 1][..i] == s[..i];
      assert AllDigits(s[..i + 1]);
      assert DecimalValue(s[..i + 1]) == n1;
      if n1 > max {
        if AllDigits(s) {
          DecimalValuePrefix(s, i + 1);
        }
      } else {
        ScanCorrect(s, i + 1, n1, max);
      }
    }
  }

  /** `strconv.ParseUint(s, 10, bits)`. */
  function ParseUint(s: string, w: Width): (r: Result<nat, Error>)
    ensures r.Success? ==> r.value <= MaxUint(w)
    ensures r.Failure? ==> r.error.NumError? && r.error.num == s
  {
    if |s| == 0 then Failure(NumError("ParseUint", s, ErrSyntax))
    else
      match Scan(s, 0, 0, MaxUint(w))
      case Success(n) => ScanBound(s, 0, 0, MaxUint(w)); Success(n)
      case Failure(c) => Failure(NumError("ParseUint", s, c))
  }

  lemma {:induction false} ScanBound(s: string, i: nat, n: nat, max: nat)
    requires i <= |s| && n <= max
    ensures Scan(s, i, n, max).Success? ==> Scan(s, i, n, max).value <= max
    decreases |s| - i
  {
    if i < |s| && IsDigit(s[i]) && 10 * n + DigitValue(s[i]) <= max {
      ScanBound(s, i + 1, 10 * n + DigitValue(s[i]), max);
    }
  }

  /** `strconv.ParseInt(s, 10, bits)`: an optional sign, then ParseUint of
      the rest at the same width, then the signed range check. */
  function ParseInt(s: string, w: Width): (r: Result<int, Error>)
    ensures r.Success? ==> MinInt(w) <= r.value <= MaxInt(w)
    ensures r.Failure? ==> r.error.NumError? && r.error.num == s && r.error.func == "ParseInt"
  {
    if |s| == 0 then Failure(NumError("ParseInt", s, ErrSyntax))
    else
      var neg := s[0] == '-';
      var digits := if s[0] == '+' || s[0] == '-' then s[1..] else s;
      var un := ParseUint(digits, w);
      if un.Failure? && un.error.cause != ErrRange then Failure(NumError("ParseInt", s, un.error.cause))
      else
        var u := if un.Success? then un.value else MaxUint(w);
        if !neg && u >= SignedCutoff(w) then Failure(NumError("ParseInt", s, ErrRange))
        else if neg && u > SignedCutoff(w) then Failure(NumError("ParseInt", s, ErrRange))
        else Success(if neg then 0 - u else u)
  }

  /** `strconv.ParseBool(s)`. */
  function ParseBool(s: string): (r: Result<bool, Error>)
    ensures r.Success? && r.value <==> s in {"1", "t", "T", "true", "TRUE", "True"}
    ensures r.Success? && !r.value <==> s in {"0", "f", "F", "false", "FALSE", "False"}
  {
    if s in {"1", "t", "T", "true", "TRUE", "True"} then Success(true)
    else if s in {"0", "f", "F", "false", "FALSE", "False"} then Success(false)
    else Failure(NumError("ParseBool", s, ErrSyntax))
  }

  // ---------------------------------------------------------------------
  // Reference definitions: the text each parser is meant to accept.

  /** A non-empty run of decimal digits. */
  predicate IsUnsignedDecimal(s: string) {
    |s| > 0 && AllDigits(s)
  }

  /** An optional `+` or `-` followed by a non-empty run of digits. */
  predicate IsSignedDecimal(s: string) {
    |s| > 0 && (IsUnsignedDecimal(s) || ((s[0] == '+' || s[0] == '-') && IsUnsignedDecimal(s[1..])))
  }

  /** The value an optionally signed decimal denotes. */
  function SignedValue(s: string): int
    requires IsSignedDecimal(s)
  {
    if IsUnsignedDecimal(s) then DecimalValue(s)
    else if s[0] == '-' then 0 - DecimalValue(s[1..])
    else DecimalValue(s[1..])
  }

  /** ParseUint accepts exactly the unsigned decimals in [0, 2^bits - 1]. */
  lemma ParseUintAccepts(s: string, w: Width)
    ensures ParseUint(s, w).Success? <==> IsUnsignedDecimal(s) && DecimalValue(s) <= MaxUint(w)
    ensures ParseUint(s, w).Success? ==> ParseUint(s, w).value == DecimalValue(s)
  {
    if |s| > 0 {
      assert s[..0] == [];
      ScanCorrect(s, 0, 0, MaxUint(w));
    }
  }

  /** A digit string that does not fit the width is a range error, never a
      syntax error. */
  lemma ParseUintRangeError(s: string, w: Width)
    requires IsUnsignedDecimal(s) && DecimalValue(s) > MaxUint(w)
    ensures ParseUint(s, w) == Failure(NumError("ParseUint", s, ErrRange))
  {
    assert s[..0] == [];
    ScanNoSyntaxError(s, 0, 0, MaxUint(w));
    ScanCorrect(s, 0, 0, MaxUint(w));
    var sc := Scan(s, 0, 0, MaxUint(w));
    assert !sc.Success?;
    assert sc.error != ErrSyntax;
    assert sc == Failure(ErrRange);
  }

  lemma {:induction false} ScanNoSyntaxError(s: string, i: nat, n: nat, max: nat)
    requires i <= |s| && AllDigits(s)
    ensures Scan(s, i, n, max) != Failure(ErrSyntax)
    decreases |s| - i
  {
    if i < |s| && 10 * n + DigitValue(s[i]) <= max {
      ScanNoSyntaxError(s, i + 1, 10 * n + DigitValue(s[i]), max);
    }
  }

  /** ParseInt accepts exactly the optionally signed decimals in
      [-2^(bits-1), 2^(bits-1) - 1], with their value. */
  lemma ParseIntAccepts(s: string, w: Width)
    ensures ParseInt(s, w).Success? <==>
      IsSignedDecimal(s) && MinInt(w) <= SignedValue(s) <= MaxInt(w)
    ensures ParseInt(s, w).Success? ==> ParseInt(s, w).value == SignedValue(s)
  {
    if |s| > 0 {
      if s[0] == '+' || s[0] == '-' {
        assert !IsUnsignedDecimal(s) by { assert !IsDigit(s[0]); }
        SignedBranch(s, w);
      } else {
        UnsignedBranch(s, w);
      }
    }
  }

  lemma UnsignedBranch(s: string, w: Width)
    requires |s| > 0 && s[0] != '+' && s[0] != '-'
    ensures ParseInt(s, w).Success? <==> IsUnsignedDecimal(s) && DecimalValue(s) < SignedCutoff(w)
    ensures ParseInt(s, w).Success? ==> ParseInt(s, w).value == DecimalValue(s)
  {
    ParseUintAccepts(s, w);
    var un := ParseUint(s, w);
    if !IsUnsignedDecimal(s) {
      assert un.Failure?;
      assert ParseInt(s, w).Failure?;
    } else if DecimalValue(s) > MaxUint(w) {
      ParseUintRangeError(s, w);
      assert ParseInt(s, w) == Failure(NumError("ParseInt", s, ErrRange));
    } else {
      assert un == Success(DecimalValue(s));
    }
  }

  lemma SignedBranch(s: string, w: Width)
    requires |s| > 0 && (s[0] == '+' || s[0] == '-')
    ensures ParseInt(s, w).Success? <==>
      IsUnsignedDecimal(s[1..]) && (if s[0] == '-' then DecimalValue(s[1..]) <= SignedCutoff(w)
                                    else DecimalValue(s[1..]) < SignedCutoff(w))
    ensures ParseInt(s, w).Success? ==>
      ParseInt(s, w).value == (if s[0] == '-' then 0 - DecimalValue(s[1..]) else DecimalValue(s[1..]))
  {
    ParseUintAccepts(s[1..], w);
    if IsUnsignedDecimal(s[1..]) && DecimalValue(s[1..]) > MaxUint(w) {
      ParseUintRangeError(s[1..], w);
    }
  }

  /** ParseBool rejects everything outside its twelve literals. */
  lemma ParseBoolRejects(s: string)
    requires s !in {"1", "t", "T", "true", "TRUE", "True", "0", "f", "F", "false", "FALSE", "False"}
    ensures ParseBool(s) == Failure(NumError("ParseBool", s, ErrSyntax))
  {
  }

  // ---------------------------------------------------------------------
  // Formatting, and the round trip through the parsers.

  function DigitChar(d: nat): (c: char)
    requires d < 10
    ensures IsDigit(c) && DigitValue(c) == d
  {
    ('0' as int + d) as char
  }

  /** `strconv.FormatUint(n, 10)`: decimal digits without leading zeros. */
  function FormatUint(n: nat): (r: string)
    ensures IsUnsignedDecimal(r)
    decreases n
  {
    if n < 10 then [DigitChar(n)] else FormatUint(n / 10) + [DigitChar(n % 10)]
  }

  /** `strconv.FormatInt(v, 10)`. */
  function FormatInt(v: int): (r: string)
    ensures IsSignedDecimal(r)
  {
    if v < 0 then "-" + FormatUint(0 - v) else FormatUint(v)
  }

  /** `strconv.FormatBool(b)`. */
  function FormatBool(b: bool): string {
    if b then "true" else "false"
  }

  lemma {:induction false} FormatUintValue(n: nat)
    ensures DecimalValue(FormatUint(n)) == n
    decreases n
  {
    if n >= 10 {
      var s := FormatUint(n);
      assert s[..|s| - 1] == FormatUint(n / 10);
      FormatUintValue(n / 10);
    }
  }

  /** Round trip: every value of the width survives formatting and parsing. */
  lemma UintRoundTrip(n: nat, w: Width)
    requires n <= MaxUint(w)
    ensures ParseUint(FormatUint(n), w) == Success(n)
  {
    FormatUintValue(n);
    ParseUintAccepts(FormatUint(n), w);
  }

  /** Round trip for signed values. */
  lemma IntRoundTrip(v: int, w: Width)
    requires MinInt(w) <= v <= MaxInt(w)
    ensures ParseInt(FormatInt(v), w) == Success(v)
  {
    if v < 0 {
      NegativeRoundTrip(v, w);
    } else {
      FormatUintValue(v);
      ParseIntAccepts(FormatUint(v), w);
    }
  }

  lemma NegativeRoundTrip(v: int, w: Width)
    requires MinInt(w) <= v < 0
    ensures ParseInt(FormatInt(v), w) == Success(v)
  {
    var s := FormatInt(v);
    var digits := FormatUint(0 - v);
    assert s == "-" + digits && s[0] == '-' && s[1..] == digits;
    UintRoundTrip(0 - v, w);
    assert ParseUint(s[1..], w) == Success(0 - v);
  }

  lemma BoolRoundTrip(b: bool)
    ensures ParseBool(FormatBool(b)) == Success(b)
  {
  }
}
