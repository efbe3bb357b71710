/** Human-readable sizes: `format_size` renders a byte count with a binary
    unit and one decimal, and `parse_size` reads the sizes a user types
    ("100MB", "1.5gb", "2048"). */
module Utils {
  import opened Results

  /** The largest value of Rust's `u64`. */
  const U64Max: nat := 0xFFFF_FFFF_FFFF_FFFF

  function Min(a: nat, b: nat): (r: nat)
    ensures r <= a && r <= b && (r == a || r == b)
  {
    if a <= b then a else b
  }

  function Pow1024(k: nat): (r: nat)
    ensures r >= 1
  {
    if k == 0 then 1 else 1024 * Pow1024(k - 1)
  }

  function Pow10(k: nat): (r: nat)
    ensures r >= 1
  {
    if k == 0 then 1 else 10 * Pow10(k - 1)
  }

  // ---------------------------------------------------------------- digits

  predicate IsDigit(c: char)
  {
    '0' <= c <= '9'
  }

  predicate AllDigits(s: string)
  {
    forall i :: 0 <= i < |s| ==> IsDigit(s[i])
  }

  function DigitChar(d: nat): (c: char)
    requires d < 10
    ensures IsDigit(c) && c as int - '0' as int == d
  {
    ('0' as int + d) as char
  }

  /** The value of a run of decimal digits, most significant first. */
  function DigitsValue(s: string): nat
    requires AllDigits(s)
  {
    if s == [] then 0 else 10 * DigitsValue(s[..|s| - 1]) + (s[|s| - 1] as int - '0' as int)
  }

  /** The `Display` rendering of an unsigned integer. */
  function Decimal(n: nat): (s: string)
    ensures |s| >= 1 && AllDigits(s)
  {
    if n < 10 then [DigitChar(n)] else Decimal(n / 10) + [DigitChar(n % 10)]
  }

  /** Reading back what `Decimal` writes gives the number. */
  lemma {:induction false} DecimalReadsBack(n: nat)
    ensures DigitsValue(Decimal(n)) == n
  {
    if n >= 10 {
      DecimalReadsBack(n / 10);
      var s := Decimal(n);
      assert s[..|s| - 1] == Decimal(n / 10);
    } else {
      assert Decimal(n)[..0] == [];
    }
  }

  lemma DecimalExamples()
    ensures Decimal(1) == "1" && Decimal(2) == "2" && Decimal(512) == "512" && Decimal(1024) == "1024"
  {
    assert Decimal(10) == "10";
    assert Decimal(102) == "102";
    assert Decimal(51) == "51";
  }

  predicate EndsWith(s: string, suffix: string)
  {
    |suffix| <= |s| && s[|s| - |suffix|..] == suffix
  }

  // ----------------------------------------------------------- format_size

  const Units: seq<string> := ["B", "KB", "MB", "GB", "TB"]

  /** The unit `format_size` settles on: the largest of B, KB, MB, GB and TB
      that the byte count reaches. */
  function UnitIndex(bytes: nat): (k: nat)
    ensures k < |Units|
    ensures k == 0 || Pow1024(k) <= bytes
    ensures k == |Units| - 1 || bytes < Pow1024(k + 1)
  {
    if bytes < Pow1024(1) then 0
    else if bytes < Pow1024(2) then 1
    else if bytes < Pow1024(3) then 2
    else if bytes < Pow1024(4) then 3
    else 4
  }

  lemma {:induction false} Pow1024Grows(i: nat, j: nat)
    requires i <= j
    ensures Pow1024(i) <= Pow1024(j)
    decreases j
  {
    if i < j {
      Pow1024Grows(i, j - 1);
    }
  }

  /** Only one unit satisfies the bounds `UnitIndex` promises. */
  lemma UnitIndexUnique(bytes: nat, k: nat)
    requires k < |Units|
    requires k == 0 || Pow1024(k) <= bytes
    requires k == |Units| - 1 || bytes < Pow1024(k + 1)
    ensures k == UnitIndex(bytes)
  {
    var u := UnitIndex(bytes);
    if k < u {
      Pow1024Grows(k + 1, u);
    } else if u < k {
      Pow1024Grows(u + 1, k);
    }
  }

  /** `a / b` rounded to the nearest integer, a tie going to the even one:
      how `{:.1}` rounds the exact value of an `f64`. */
  function RoundHalfEven(a: nat, b: nat): (q: nat)
    requires b > 0
    ensures b * (2 * q) <= 2 * a + b && 2 * a <= b * (2 * q) + b
    ensures (b * (2 * q) == 2 * a + b || 2 * a == b * (2 * q) + b) ==> q % 2 == 0
  {
    var q0 := a / b;
    var r := a % b;
    assert a == b * q0 + r;
    assert b * (2 * q0) == 2 * a - 2 * r;
    assert b * (2 * (q0 + 1)) == 2 * a - 2 * r + 2 * b;
    if 2 * r > b || (2 * r == b && q0 % 2 == 1) then q0 + 1 else q0
  }

  /** The text `format_size` produces for `bytes`, once the unit `k` is
      chosen: whole bytes as an integer, any other unit with the tenths of
      `bytes / 1024^k` rounded to nearest. */
  function Rendered(bytes: nat, k: nat): (r: string)
    requires k < |Units|
    ensures EndsWith(r, " " + Units[k]) && |r| > |Units[k]| + 1 && IsDigit(r[0])
    ensures k > 0 ==> |r| >= |Units[k]| + 4 && r[|r| - |Units[k]| - 3] == '.'
    ensures k == 0 ==> '.' !in r
  {
    if k == 0 then
      var d := Decimal(bytes);
      assert forall i :: 0 <= i < |d| ==> d[i] != '.';
      d + " " + Units[0]
    else
      var tenths := RoundHalfEven(10 * bytes, Pow1024(k));
      var d := Decimal(tenths / 10);
      var r := d + "." + [DigitChar(tenths % 10)] + " " + Units[k];
      assert r[|d|] == '.' && |r| == |d| + 3 + |Units[k]|;
      r
  }

  /** `format_size`: divide by 1024 while the size reaches 1024 and a larger
      unit is left, then render. `size` in the source is `bytes / scale`,
      which an `f64` holds exactly while `bytes` is below 2^53. */
  method FormatSize(bytes: nat) returns (s: string)
    ensures s == Rendered(bytes, UnitIndex(bytes))
  {
    var scale: nat := 1;
    var unit: nat := 0;
    while bytes >= 1024 * scale && unit < |Units| - 1
      invariant unit < |Units| && scale == Pow1024(unit)
      invariant unit == 0 || Pow1024(unit) <= bytes
      decreases |Units| - unit
    {
      scale := 1024 * scale;
      unit := unit + 1;
    }
    UnitIndexUnique(bytes, unit);
    if unit == 0 {
      s := Decimal(bytes) + " " + Units[unit];
    } else {
      var tenths := RoundHalfEven(10 * bytes, scale);
      s := Decimal(tenths / 10) + "." + [DigitChar(tenths % 10)] + " " + Units[unit];
    }
  }

  /** Below TB the displayed number lies between 1.0 and 1024.0: the unit
      is chosen before rounding, so a count just short of the next unit
      shows as 1024.0 of the smaller one. */
  lemma DisplayedRange(bytes: nat)
    requires 0 < UnitIndex(bytes) < |Units| - 1
    ensures var t := RoundHalfEven(10 * bytes, Pow1024(UnitIndex(bytes)));
      10 <= t <= 10240
  {
    var k := UnitIndex(bytes);
    var b := Pow1024(k);
    var t := RoundHalfEven(10 * bytes, b);
    assert Pow1024(k + 1) == 1024 * b;
    assert b * (2 * t) <= 20 * bytes + b && 20 * bytes <= b * (2 * t) + b;
  }

  /** The cases of the source's own test. */
  lemma FormatByteExample()
    ensures Rendered(512, UnitIndex(512)) == "512 B"
  {
    assert Decimal(512) == "512" by {
      assert Decimal(51) == "51";
    }
  }

  lemma FormatKiloExamples()
    ensures Rendered(1024, UnitIndex(1024)) == "1.0 KB"
    ensures Rendered(1536, UnitIndex(1536)) == "1.5 KB"
  {
    assert RoundHalfEven(10240, 1024) == 10;
    assert Decimal(1) == "1" && DigitChar(0) == '0' && DigitChar(5) == '5';
    assert RoundHalfEven(15360, 1024) == 15;
  }

  lemma FormatMegaExample()
    ensures Rendered(1048576, UnitIndex(1048576)) == "1.0 MB"
  {
    assert Pow1024(2) == 1048576;
    assert RoundHalfEven(10485760, 1048576) == 10;
    assert Decimal(1) == "1" && DigitChar(0) == '0';
  }

  /** Rounding happens after the unit is chosen: a count just short of a
      megabyte shows as 1024.0 KB. */
  lemma FormatRoundsUpExample()
    ensures Rendered(1048575, UnitIndex(1048575)) == "1024.0 KB"
  {
    assert Pow1024(2) == 1048576;
    assert RoundHalfEven(10485750, 1024) == 10240;
    assert Decimal(1024) == "1024" by {
      assert Decimal(102) == "102" by {
        assert Decimal(10) == "10";
      }
    }
    assert DigitChar(0) == '0';
  }

  /** A tie goes to the even tenth, and a single byte has no decimal. */
  lemma FormatTieExamples()
    ensures Rendered(1280, UnitIndex(1280)) == "1.2 KB"
    ensures Rendered(1, UnitIndex(1)) == "1 B"
  {
    assert RoundHalfEven(12800, 1024) == 12;
    assert Decimal(1) == "1" && DigitChar(2) == '2';
  }

  // ------------------------------------------------------------ parse_size

  /** Unicode `White_Space`, what `str::trim` removes. */
  predicate IsWhiteSpace(c: char)
  {
    ('\t' <= c <= '\r') || c == ' ' || c == '\U{0085}' || c == '\U{00A0}' || c == '\U{1680}'
    || ('\U{2000}' <= c <= '\U{200A}') || c == '\U{2028}' || c == '\U{2029}' || c == '\U{202F}'
    || c == '\U{205F}' || c == '\U{3000}'
  }

  predicate AllWhiteSpace(s: string)
  {
    forall i :: 0 <= i < |s| ==> IsWhiteSpace(s[i])
  }

  function TrimStart(s: string): (r: string)
    ensures r == [] || !IsWhiteSpace(r[0])
    ensures |r| <= |s| && r == s[|s| - |r|..]
  {
    if |s| > 0 && IsWhiteSpace(s[0]) then TrimStart(s[1..]) else s
  }

  function TrimEnd(s: string): (r: string)
    ensures r == [] || !IsWhiteSpace(r[|r| - 1])
    ensures |r| <= |s| && r == s[..|r|]
  {
    if |s| > 0 && IsWhiteSpace(s[|s| - 1]) then TrimEnd(s[..|s| - 1]) else s
  }

  /** `str::trim`. */
  function Trim(s: string): (r: string)
    ensures r == [] || (!IsWhiteSpace(r[0]) && !IsWhiteSpace(r[|r| - 1]))
  {
    TrimEnd(TrimStart(s))
  }

  function UpperChar(c: char): char
  {
    if 'a' <= c <= 'z' then (c as int - 32) as char else c
  }

  function LowerChar(c: char): char
  {
    if 'A' <= c <= 'Z' then (c as int + 32) as char else c
  }

  /** `to_uppercase` on the ASCII letters; other characters are kept. */
  function AsciiUpper(s: string): (r: string)
    ensures |r| == |s| && forall i :: 0 <= i < |s| ==> r[i] == UpperChar(s[i])
  {
    seq(|s|, i requires 0 <= i < |s| => UpperChar(s[i]))
  }

  function AsciiLower(s: string): (r: string)
    ensures |r| == |s| && forall i :: 0 <= i < |s| ==> r[i] == LowerChar(s[i])
  {
    seq(|s|, i requires 0 <= i < |s| => LowerChar(s[i]))
  }

  /** `u64::from_str`: an optional `+` and at least one digit, with a value
      that fits in 64 bits. */
  function U64FromStr(t: string): (r: Option<nat>)
    ensures r.Some? ==> r.value <= U64Max
    ensures r.Some? ==> t != [] && t != "+" && forall i :: 0 <= i < |t| ==> IsDigit(t[i]) || (i == 0 && t[i] == '+')
  {
    var digits := if |t| > 0 && t[0] == '+' then t[1..] else t;
    if |digits| > 0 && AllDigits(digits) && DigitsValue(digits) <= U64Max then Some(DigitsValue(digits)) else None
  }

  /** The units `parse_size` accepts, and the suffix that names each. */
  datatype SizeUnit = Bytes | Kilo | Mega | Giga | Tera

  function UnitSuffix(u: SizeUnit): string
  {
    match u
    case Bytes => "B"
    case Kilo => "KB"
    case Mega => "MB"
    case Giga => "GB"
    case Tera => "TB"
  }

  function Multiplier(u: SizeUnit): (m: nat)
    ensures m == Pow1024(match u case Bytes => 0 case Kilo => 1 case Mega => 2 case Giga => 3 case Tera => 4)
  {
    match u
    case Bytes => 1
    case Kilo => 1024
    case Mega => 1024 * 1024
    case Giga => 1024 * 1024 * 1024
    case Tera => 1024 * 1024 * 1024 * 1024
  }

  /** The suffix tests in the source's order, TB, GB, MB, KB and then B, and
      the split into number part and unit. */
  function SplitUnit(t: string): (r: Option<(string, SizeUnit)>)
    ensures r.Some? ==> t == r.value.0 + UnitSuffix(r.value.1)
  {
    if EndsWith(t, "TB") then Some((t[..|t| - 2], Tera))
    else if EndsWith(t, "GB") then Some((t[..|t| - 2], Giga))
    else if EndsWith(t, "MB") then Some((t[..|t| - 2], Mega))
    else if EndsWith(t, "KB") then Some((t[..|t| - 2], Kilo))
    else if EndsWith(t, "B") then Some((t[..|t| - 1], Bytes))
    else None
  }

  /** A split exists exactly when the text ends in `B`, and the longest
      matching suffix wins: a plain `B` is taken only when no `T`, `G`, `M`
      or `K` precedes it. */
  lemma SplitUnitTakesLongestSuffix(t: string)
    ensures SplitUnit(t).Some? <==> |t| > 0 && t[|t| - 1] == 'B'
    ensures SplitUnit(t).Some? && SplitUnit(t).value.1 == Bytes ==>
      var p := SplitUnit(t).value.0;
      p == [] || p[|p| - 1] !in {'T', 'G', 'M', 'K'}
  {
    if |t| > 0 && t[|t| - 1] == 'B' {
      assert EndsWith(t, "B") by {
        assert t[|t| - 1..] == [t[|t| - 1]];
      }
      if |t| >= 2 {
        var tail := t[|t| - 2..];
        assert tail == [t[|t| - 2], 'B'];
        if t[|t| - 2] == 'T' {
          assert EndsWith(t, "TB");
        } else if t[|t| - 2] == 'G' {
          assert EndsWith(t, "GB");
        } else if t[|t| - 2] == 'M' {
          assert EndsWith(t, "MB");
        } else if t[|t| - 2] == 'K' {
          assert EndsWith(t, "KB");
        }
      }
    }
  }

  /** The value of an `f64` literal: `mant * 10^exp`, an infinity, or NaN. */
  datatype FloatValue = Finite(negative: bool, mant: nat, exp: int) | Infinity(negative: bool) | NotANumber

  /** The index of the first character of `s` in `cs`, or `|s|`. */
  function FirstOf(s: string, cs: set<char>): (i: nat)
    ensures i <= |s| && (i < |s| ==> s[i] in cs)
    ensures forall j :: 0 <= j < i ==> s[j] !in cs
  {
    if s == [] then 0 else if s[0] in cs then 0 else 1 + FirstOf(s[1..], cs)
  }

  /** The exponent of a literal: an optional sign and at least one digit. */
  function ParseExponent(x: string): Option<int>
  {
    var negative := |x| > 0 && x[0] == '-';
    var digits := if |x| > 0 && (x[0] == '+' || x[0] == '-') then x[1..] else x;
    if |digits| > 0 && AllDigits(digits) then
      Some(if negative then -(DigitsValue(digits) as int) else DigitsValue(digits))
    else None
  }

  /** An unsigned decimal literal: `Digit+`, `Digit+ '.' Digit*` or
      `Digit* '.' Digit+`, then an optional exponent; its value is
      `mant * 10^exp`. */
  function ParseDecimal(body: string): Option<(nat, int)>
  {
    var e := FirstOf(body, {'e', 'E'});
    match ParseMantissa(body[..e])
    case None => None
    case Some((m, shift)) =>
      if e == |body| then Some((m, -(shift as int)))
      else
        match ParseExponent(body[e + 1..])
        case None => None
        case Some(x) => Some((m, x - shift))
  }

  /** The digits of a mantissa around an optional point, at least one in
      all: their value read as one integer, and how many follow the point. */
  function ParseMantissa(s: string): Option<(nat, nat)>
  {
    var dot := FirstOf(s, {'.'});
    var intPart := s[..dot];
    var fracPart := if dot < |s| then s[dot + 1..] else "";
    if AllDigits(intPart) && AllDigits(fracPart) && |intPart| + |fracPart| > 0 then
      DigitsConcat(intPart, fracPart);
      Some((DigitsValue(intPart + fracPart), |fracPart|))
    else None
  }

  lemma DigitsConcat(a: string, b: string)
    requires AllDigits(a) && AllDigits(b)
    ensures AllDigits(a + b)
  {
    assert forall i :: 0 <= i < |a + b| ==> (a + b)[i] == if i < |a| then a[i] else b[i - |a|];
  }

  /** `str::parse::<f64>`: an optional sign, then `inf`, `infinity` or `nan`
      in any case, or a decimal literal. No white space is allowed. */
  function ParseFloat(s: string): Option<FloatValue>
  {
    var negative := |s| > 0 && s[0] == '-';
    var body := if |s| > 0 && (s[0] == '+' || s[0] == '-') then s[1..] else s;
    if AsciiUpper(body) == "INF" || AsciiUpper(body) == "INFINITY" then Some(Infinity(negative))
    else if AsciiUpper(body) == "NAN" then Some(NotANumber)
    else
      match ParseDecimal(body)
      case None => None
      case Some((m, x)) => Some(Finite(negative, m, x))
  }

  /** `(number * multiplier as f64) as u64` with the product taken exactly:
      NaN and negative values give 0, the cast saturates at `U64Max`, and
      the fraction is cut off. */
  function ScaledToU64(v: FloatValue, multiplier: nat): (n: nat)
    ensures n <= U64Max
  {
    match v
    case NotANumber => 0
    case Infinity(negative) => if negative then 0 else U64Max
    case Finite(negative, m, x) =>
      if negative then 0 else Min(FloorScaled(m, x, multiplier), U64Max)
  }

  /** `floor(mant * 10^exp * multiplier)`. */
  function FloorScaled(mant: nat, exp: int, multiplier: nat): nat
  {
    if exp >= 0 then mant * multiplier * Pow10(exp) else DropDigits(mant * multiplier, -exp)
  }

  /** `floor(p / 10^k)`: the last `k` decimal digits of `p` cut off. */
  function DropDigits(p: nat, k: nat): nat
  {
    if k == 0 then p else DropDigits(p / 10, k - 1)
  }

  /** Why `parse_size` refused its input: no known suffix (with the trimmed,
      upper-cased text), or a number part that is not an `f64` literal. */
  datatype SizeError = InvalidFormat(input: string) | InvalidNumber(part: string)

  /** `parse_size`: trim and upper-case; a plain `u64` is a byte count;
      otherwise split off the unit, read the number as an `f64` and scale. */
  function ParseSize(s: string): (r: Result<nat, SizeError>)
    ensures r.Ok? ==> r.value <= U64Max
  {
    ParseNormalized(AsciiUpper(Trim(s)))
  }

  /** `parse_size` once the text is trimmed and upper-cased. */
  function ParseNormalized(t: string): (r: Result<nat, SizeError>)
    ensures r.Ok? ==> r.value <= U64Max
  {
    match U64FromStr(t)
    case Some(n) => Ok(n)
    case None =>
      match SplitUnit(t)
      case None => Err(InvalidFormat(t))
      case Some((part, unit)) => ParseScaled(part, unit)
  }

  /** The number part read as an `f64` and scaled by the unit. */
  function ParseScaled(part: string, unit: SizeUnit): (r: Result<nat, SizeError>)
    ensures r.Ok? ==> r.value <= U64Max
  {
    match ParseFloat(part)
    case None => Err(InvalidNumber(part))
    case Some(v) => Ok(ScaledToU64(v, Multiplier(unit)))
  }

  // ------------------------------------------------------ parse_size facts

  /** Text that starts and ends with a character other than white space and
      holds no lower-case letter is what `parse_size` works on. */
  lemma NormalFormIsKept(s: string)
    requires |s| > 0 && !IsWhiteSpace(s[0]) && !IsWhiteSpace(s[|s| - 1])
    requires forall i :: 0 <= i < |s| ==> !('a' <= s[i] <= 'z')
    ensures AsciiUpper(Trim(s)) == s
  {
    assert AsciiUpper(s) == s;
  }

  lemma DigitsAreNotUnits(n: nat)
    ensures !EndsWith(Decimal(n), "B")
  {
    var s := Decimal(n);
    assert IsDigit(s[|s| - 1]);
  }

  /** A plain byte count is read back exactly: `parse_size` inverts the
      `Display` of every `u64`. */
  lemma ParsePlainCount(n: nat)
    requires n <= U64Max
    ensures ParseSize(Decimal(n)) == Ok(n)
  {
    var s := Decimal(n);
    DigitsAreNormal(s);
    DecimalReadsBack(n);
    assert s[0] != '+';
    assert U64FromStr(s) == Some(n);
  }

  /** Digits are left alone by trimming and upper-casing. */
  lemma DigitsAreNormal(s: string)
    requires |s| > 0 && AllDigits(s)
    ensures AsciiUpper(Trim(s)) == s
  {
    assert IsDigit(s[0]) && IsDigit(s[|s| - 1]);
    assert forall i :: 0 <= i < |s| ==> !('a' <= s[i] <= 'z') by {
      assert forall i :: 0 <= i < |s| ==> IsDigit(s[i]);
    }
    NormalFormIsKept(s);
  }

  /** A count followed by a unit suffix parses to the count times the unit,
      saturated at the largest `u64`. */
  lemma ParseCountWithUnit(n: nat, u: SizeUnit)
    ensures ParseSize(Decimal(n) + UnitSuffix(u)) == Ok(Min(n * Multiplier(u), U64Max))
  {
    var d := Decimal(n);
    var t := d + UnitSuffix(u);
    assert ParseSize(t) == ParseScaled(d, u) by {
      DigitsAreNumberText(d);
      SuffixedNumberScales(d, u);
    }
    assert ParseScaled(d, u) == Ok(ScaledToU64(Finite(false, n, 0), Multiplier(u))) by {
      DigitsAreFloat(d);
      DecimalReadsBack(n);
    }
    assert ScaledToU64(Finite(false, n, 0), Multiplier(u)) == Min(n * Multiplier(u), U64Max) by {
      assert FloorScaled(n, 0, Multiplier(u)) == n * Multiplier(u) * 1;
    }
  }

  /** Digits with points among them, starting and ending with a digit: the
      number parts the examples below use. */
  predicate NumberText(d: string)
  {
    |d| > 0 && IsDigit(d[0]) && IsDigit(d[|d| - 1])
    && forall i :: 0 <= i < |d| ==> IsDigit(d[i]) || d[i] == '.'
  }

  lemma DigitsAreNumberText(d: string)
    requires |d| > 0 && AllDigits(d)
    ensures NumberText(d)
  {
  }

  /** A number followed by a unit suffix reaches the `f64` step with the
      number part and that unit. */
  lemma SuffixedNumberScales(d: string, u: SizeUnit)
    requires NumberText(d)
    ensures ParseSize(d + UnitSuffix(u)) == ParseScaled(d, u)
  {
    SuffixedIsNormal(d, u);
    SuffixedIsNoCount(d, u);
    SuffixedSplits(d, u);
  }

  lemma SuffixedIsNormal(d: string, u: SizeUnit)
    requires NumberText(d)
    ensures AsciiUpper(Trim(d + UnitSuffix(u))) == d + UnitSuffix(u)
  {
    var t := d + UnitSuffix(u);
    assert t[0] == d[0] && IsDigit(t[0]);
    assert t[|t| - 1] == 'B';
    assert forall i :: 0 <= i < |t| ==> !('a' <= t[i] <= 'z') by {
      forall i | 0 <= i < |t|
        ensures !('a' <= t[i] <= 'z')
      {
        if i < |d| {
          assert t[i] == d[i];
        } else {
          assert t[i] == UnitSuffix(u)[i - |d|];
        }
      }
    }
    NormalFormIsKept(t);
  }

  lemma SuffixedIsNoCount(d: string, u: SizeUnit)
    requires |d| > 0 && IsDigit(d[0])
    ensures U64FromStr(d + UnitSuffix(u)) == None
  {
    var t := d + UnitSuffix(u);
    assert t[0] == d[0] && IsDigit(t[0]) && t[0] != '+';
    assert t[|t| - 1] == 'B' && !IsDigit(t[|t| - 1]);
  }

  lemma SuffixedSplits(d: string, u: SizeUnit)
    requires |d| > 0 && IsDigit(d[|d| - 1])
    ensures SplitUnit(d + UnitSuffix(u)) == Some((d, u))
  {
    var t := d + UnitSuffix(u);
    var c := d[|d| - 1];
    if u == Bytes {
      assert t[|t| - 2..] == [c, 'B'];
      assert !EndsWith(t, "TB") && !EndsWith(t, "GB") && !EndsWith(t, "MB") && !EndsWith(t, "KB");
      assert t[|t| - 1..] == "B";
      assert t[..|t| - 1] == d;
    } else {
      assert t[|t| - 2..] == UnitSuffix(u);
      assert t[..|t| - 2] == d;
    }
  }

  /** A run of digits is an `f64` literal with that integer value. */
  lemma DigitsAreFloat(d: string)
    requires |d| > 0 && AllDigits(d)
    ensures ParseFloat(d) == Some(Finite(false, DigitsValue(d), 0))
  {
    assert IsDigit(d[0]) && d[0] != '-' && d[0] != '+';
    NotSpecialFloat(d);
    DigitsAreDecimal(d);
  }

  /** Text not starting with `I` or `N` (in either case) is none of the
      special `f64` spellings. */
  lemma NotSpecialFloat(body: string)
    requires |body| > 0 && body[0] !in {'i', 'I', 'n', 'N'}
    ensures AsciiUpper(body) != "INF" && AsciiUpper(body) != "INFINITY" && AsciiUpper(body) != "NAN"
  {
    assert AsciiUpper(body)[0] == UpperChar(body[0]);
  }

  lemma DigitsAreDecimal(d: string)
    requires |d| > 0 && AllDigits(d)
    ensures ParseDecimal(d) == Some((DigitsValue(d), 0))
  {
    var e := FirstOf(d, {'e', 'E'});
    assert forall j :: 0 <= j < |d| ==> IsDigit(d[j]);
    assert e == |d|;
    assert d[..e] == d;
    DigitsAreMantissa(d);
  }

  lemma DigitsAreMantissa(d: string)
    requires |d| > 0 && AllDigits(d)
    ensures ParseMantissa(d) == Some((DigitsValue(d), 0))
  {
    var dot := FirstOf(d, {'.'});
    assert forall j :: 0 <= j < |d| ==> IsDigit(d[j]);
    assert dot == |d|;
    assert d[..dot] == d;
    assert d + "" == d;
  }

  /** ASCII case mapping never turns white space into anything else, or back. */
  lemma CaseKeepsWhiteSpace(c: char)
    ensures IsWhiteSpace(UpperChar(c)) == IsWhiteSpace(c)
    ensures IsWhiteSpace(LowerChar(c)) == IsWhiteSpace(c)
  {
  }

  lemma TrimStartCommutes(s: string)
    ensures TrimStart(AsciiUpper(s)) == AsciiUpper(TrimStart(s))
    ensures TrimStart(AsciiLower(s)) == AsciiLower(TrimStart(s))
    decreases |s|
  {
    if |s| > 0 {
      CaseKeepsWhiteSpace(s[0]);
      assert AsciiUpper(s)[1..] == AsciiUpper(s[1..]);
      assert AsciiLower(s)[1..] == AsciiLower(s[1..]);
      TrimStartCommutes(s[1..]);
    }
  }

  lemma TrimEndCommutes(s: string)
    ensures TrimEnd(AsciiUpper(s)) == AsciiUpper(TrimEnd(s))
    ensures TrimEnd(AsciiLower(s)) == AsciiLower(TrimEnd(s))
    decreases |s|
  {
    if |s| > 0 {
      CaseKeepsWhiteSpace(s[|s| - 1]);
      assert AsciiUpper(s)[..|s| - 1] == AsciiUpper(s[..|s| - 1]);
      assert AsciiLower(s)[..|s| - 1] == AsciiLower(s[..|s| - 1]);
      TrimEndCommutes(s[..|s| - 1]);
    }
  }

  /** Sizes are case-insensitive: `1kb`, `1Kb` and `1KB` mean the same. */
  lemma ParseSizeIgnoresCase(s: string)
    ensures ParseSize(AsciiUpper(s)) == ParseSize(s)
    ensures ParseSize(AsciiLower(s)) == ParseSize(s)
  {
    var t := Trim(s);
    assert Trim(AsciiUpper(s)) == AsciiUpper(t) && Trim(AsciiLower(s)) == AsciiLower(t) by {
      TrimStartCommutes(s);
      TrimEndCommutes(TrimStart(s));
    }
    UpperAbsorbsCase(t);
  }

  lemma UpperAbsorbsCase(t: string)
    ensures AsciiUpper(AsciiUpper(t)) == AsciiUpper(t)
    ensures AsciiUpper(AsciiLower(t)) == AsciiUpper(t)
  {
    forall i | 0 <= i < |t|
      ensures UpperChar(UpperChar(t[i])) == UpperChar(t[i]) && UpperChar(LowerChar(t[i])) == UpperChar(t[i])
    {
    }
  }

  lemma {:induction false} TrimStartSkips(w: string, s: string)
    requires AllWhiteSpace(w)
    ensures TrimStart(w + s) == TrimStart(s)
    decreases |w|
  {
    if |w| > 0 {
      assert (w + s)[1..] == w[1..] + s;
      TrimStartSkips(w[1..], s);
    } else {
      assert w + s == s;
    }
  }

  lemma {:induction false} TrimEndSkips(s: string, w: string)
    requires AllWhiteSpace(w)
    ensures TrimEnd(s + w) == TrimEnd(s)
    decreases |w|
  {
    if |w| > 0 {
      assert (s + w)[..|s + w| - 1] == s + w[..|w| - 1];
      TrimEndSkips(s, w[..|w| - 1]);
    } else {
      assert s + w == s;
    }
  }

  /** Trimming the start does not reach into white space added at the end,
      unless the text was all white space. */
  lemma {:induction false} TrimStartThenEnd(s: string, w: string)
    requires AllWhiteSpace(w)
    ensures TrimEnd(TrimStart(s + w)) == TrimEnd(TrimStart(s))
    decreases |s|
  {
    if |s| > 0 && IsWhiteSpace(s[0]) {
      assert (s + w)[1..] == s[1..] + w;
      TrimStartThenEnd(s[1..], w);
    } else if |s| > 0 {
      assert TrimStart(s + w) == s + w;
      TrimEndSkips(s, w);
    } else {
      assert s + w == w;
      TrimStartSkips(w, []);
      assert w + [] == w;
    }
  }

  /** White space around a size is ignored. */
  lemma ParseSizeIgnoresSurroundingSpace(before: string, s: string, after: string)
    requires AllWhiteSpace(before) && AllWhiteSpace(after)
    ensures ParseSize(before + s + after) == ParseSize(s)
  {
    assert before + s + after == before + (s + after);
    TrimStartSkips(before, s + after);
    TrimStartThenEnd(s, after);
  }

  /** `InvalidFormat` is reported exactly for text that is neither a plain
      `u64` nor ends in `B`; every other failure names the number part. */
  lemma FormatErrorExactly(s: string)
    ensures var t := AsciiUpper(Trim(s));
      (ParseSize(s).Err? && ParseSize(s).error.InvalidFormat?) <==>
        U64FromStr(t).None? && !(|t| > 0 && t[|t| - 1] == 'B')
  {
    var t := AsciiUpper(Trim(s));
    assert ParseSize(s) == ParseNormalized(t);
    NormalizedFormatError(t);
  }

  lemma NormalizedFormatError(t: string)
    ensures (ParseNormalized(t).Err? && ParseNormalized(t).error.InvalidFormat?) <==>
      U64FromStr(t).None? && !(|t| > 0 && t[|t| - 1] == 'B')
  {
    SplitUnitTakesLongestSuffix(t);
  }

  /** The plain-count case of the source's own test. */
  lemma ParsePlainExample()
    ensures ParseSize("1024") == Ok(1024)
  {
    ParsePlainCount(1024);
    DecimalExamples();
  }

  /** The kilobyte case of the source's own test. */
  lemma ParseKiloExample()
    ensures ParseSize("1KB") == Ok(1024)
  {
    ParseCountWithUnit(1, Kilo);
    KiloExampleText();
    KiloExampleValue();
  }

  lemma KiloExampleText()
    ensures Decimal(1) + UnitSuffix(Kilo) == "1KB"
  {
    assert Decimal(1) == "1";
  }

  lemma KiloExampleValue()
    ensures Min(1 * Multiplier(Kilo), U64Max) == 1024
  {
  }

  /** The gigabyte case of the source's own test. */
  lemma ParseGigaExample()
    ensures ParseSize("2GB") == Ok(2147483648)
  {
    ParseCountWithUnit(2, Giga);
    GigaExampleText();
    GigaExampleValue();
  }

  lemma GigaExampleText()
    ensures Decimal(2) + UnitSuffix(Giga) == "2GB"
  {
    assert Decimal(2) == "2";
  }

  lemma GigaExampleValue()
    ensures Min(2 * Multiplier(Giga), U64Max) == 2147483648
  {
    assert Multiplier(Giga) == 1073741824;
  }

  /** A count with one decimal and a unit suffix is read as the literal
      `(10 * n + f) * 10^-1` and scaled by the unit; `TenthsCutOff` says
      what that scaling gives. */
  lemma ParseTenthsWithUnit(n: nat, f: nat, u: SizeUnit)
    requires f < 10
    ensures ParseSize(Decimal(n) + "." + [DigitChar(f)] + UnitSuffix(u))
      == Ok(ScaledToU64(Finite(false, 10 * n + f, -1), Multiplier(u)))
  {
    TenthsReachScaling(n, f, u);
    TenthsScale(n, f, u);
  }

  lemma TenthsReachScaling(n: nat, f: nat, u: SizeUnit)
    requires f < 10
    ensures ParseSize(Decimal(n) + "." + [DigitChar(f)] + UnitSuffix(u))
      == ParseScaled(Decimal(n) + "." + [DigitChar(f)], u)
  {
    TenthsAreNumberText(n, f);
    SuffixedNumberScales(Decimal(n) + "." + [DigitChar(f)], u);
  }

  lemma TenthsScale(n: nat, f: nat, u: SizeUnit)
    requires f < 10
    ensures ParseScaled(Decimal(n) + "." + [DigitChar(f)], u)
      == Ok(ScaledToU64(Finite(false, 10 * n + f, -1), Multiplier(u)))
  {
    TenthsAreFloat(n, f);
  }

  /** Tenths are scaled first and the fraction cut off afterwards. */
  lemma TenthsCutOff(m: nat, multiplier: nat)
    ensures ScaledToU64(Finite(false, m, -1), multiplier) == Min(m * multiplier / 10, U64Max)
  {
    var k := m * multiplier;
    assert DropDigits(k, 1) == DropDigits(k / 10, 0);
  }

  lemma TenthsAreNumberText(n: nat, f: nat)
    requires f < 10
    ensures NumberText(Decimal(n) + "." + [DigitChar(f)])
  {
    var d := Decimal(n);
    var p := d + "." + [DigitChar(f)];
    assert p[0] == d[0] && IsDigit(p[0]);
    assert forall i :: 0 <= i < |d| ==> p[i] == d[i];
  }

  lemma FloatIsScaled(part: string, u: SizeUnit, v: FloatValue)
    requires ParseFloat(part) == Some(v)
    ensures ParseScaled(part, u) == Ok(ScaledToU64(v, Multiplier(u)))
  {
  }

  lemma TenthsAreFloat(n: nat, f: nat)
    requires f < 10
    ensures ParseFloat(Decimal(n) + "." + [DigitChar(f)]) == Some(Finite(false, 10 * n + f, -1))
  {
    var d := Decimal(n);
    var p := d + "." + [DigitChar(f)];
    assert p[0] == d[0] && IsDigit(p[0]);
    TenthsAreDecimal(n, f);
    DecimalIsFloat(p, 10 * n + f, -1);
  }

  /** A literal that starts with a digit has no sign and is no special
      spelling: it is read as a decimal. */
  lemma DecimalIsFloat(body: string, m: nat, x: int)
    requires |body| > 0 && IsDigit(body[0])
    requires ParseDecimal(body) == Some((m, x))
    ensures ParseFloat(body) == Some(Finite(false, m, x))
  {
    NotSpecialFloat(body);
  }

  lemma TenthsAreDecimal(n: nat, f: nat)
    requires f < 10
    ensures ParseDecimal(Decimal(n) + "." + [DigitChar(f)]) == Some((10 * n + f, -1))
  {
    var d := Decimal(n);
    var p := d + "." + [DigitChar(f)];
    assert forall i :: 0 <= i < |d| ==> p[i] == d[i] && IsDigit(d[i]);
    assert p[|d|] == '.' && p[|d| + 1] == DigitChar(f);
    assert FirstOf(p, {'e', 'E'}) == |p|;
    assert p[..|p|] == p;
    assert FirstOf(p, {'.'}) == |d|;
    assert p[..|d|] == d && p[|d| + 1..] == [DigitChar(f)];
    assert (d + [DigitChar(f)])[..|d|] == d;
    DecimalReadsBack(n);
  }

  /** A fraction is scaled before the fraction is cut off. */
  lemma ParseFractionExample()
    ensures ParseSize("1.5MB") == Ok(1572864)
  {
    ParseTenthsWithUnit(1, 5, Mega);
    FractionExampleText();
    FractionExampleValue();
  }

  lemma FractionExampleText()
    ensures Decimal(1) + "." + [DigitChar(5)] + UnitSuffix(Mega) == "1.5MB"
  {
    assert Decimal(1) == "1" && DigitChar(5) == '5';
  }

  lemma FractionExampleValue()
    ensures ScaledToU64(Finite(false, 15, -1), Multiplier(Mega)) == 1572864
  {
    assert Multiplier(Mega) == 1048576;
    TenthsCutOff(15, 1048576);
  }

  /** Text already in normal form goes straight to the parsing proper. */
  lemma NormalTextParses(t: string)
    requires |t| > 0 && !IsWhiteSpace(t[0]) && !IsWhiteSpace(t[|t| - 1])
    requires forall i :: 0 <= i < |t| ==> !('a' <= t[i] <= 'z')
    ensures ParseSize(t) == ParseNormalized(t)
  {
    NormalFormIsKept(t);
  }

  /** Text that is no `u64` but has a unit goes to the `f64` step. */
  lemma SplitTextScales(t: string, part: string, u: SizeUnit)
    requires U64FromStr(t) == None && SplitUnit(t) == Some((part, u))
    ensures ParseNormalized(t) == ParseScaled(part, u)
  {
  }

  /** A number part that is no `f64` literal is reported by name. */
  lemma NoFloatIsInvalid(part: string, u: SizeUnit)
    requires ParseFloat(part) == None
    ensures ParseScaled(part, u) == Err(InvalidNumber(part))
  {
  }

  lemma EmptyIsNoFloat()
    ensures ParseFloat([]) == None
  {
    var s: string := [];
    assert AsciiUpper(s) == [];
    assert FirstOf(s, {'e', 'E'}) == 0;
    assert s[..0] == [];
    assert FirstOf(s, {'.'}) == 0;
    assert ParseMantissa(s) == None;
  }

  /** A count beyond 64 bits is no byte count at all, and the error names
      the text; with a `B` after it the same count saturates. */
  lemma OverflowingCount(n: nat)
    requires n > U64Max
    ensures ParseSize(Decimal(n)) == Err(InvalidFormat(Decimal(n)))
    ensures ParseSize(Decimal(n) + UnitSuffix(Bytes)) == Ok(U64Max)
  {
    var d := Decimal(n);
    DigitsAreNormal(d);
    assert U64FromStr(d) == None by {
      DecimalReadsBack(n);
      assert d[0] != '+' by { assert IsDigit(d[0]); }
    }
    assert SplitUnit(d) == None by {
      DigitsAreNotUnits(n);
      SplitUnitTakesLongestSuffix(d);
      assert IsDigit(d[|d| - 1]);
    }
    SaturatedBytes(n);
  }

  lemma MinSaturates(k: nat)
    requires k > U64Max
    ensures Min(k, U64Max) == U64Max
  {
  }

  lemma SaturatedBytes(n: nat)
    requires n > U64Max
    ensures ParseSize(Decimal(n) + UnitSuffix(Bytes)) == Ok(U64Max)
  {
    var m := Multiplier(Bytes);
    assert m == 1;
    ParseCountWithUnit(n, Bytes);
    MinSaturates(n * m);
  }

  /** A unit with no number before it names the empty number part. */
  lemma UnitWithoutNumber(u: SizeUnit)
    ensures ParseSize(UnitSuffix(u)) == Err(InvalidNumber(""))
  {
    var t := UnitSuffix(u);
    NormalTextParses(t);
    UnitIsNoCount(u);
    UnitSplitsOffNothing(u);
    SplitTextScales(t, "", u);
    EmptyIsNoFloat();
    NoFloatIsInvalid("", u);
  }

  lemma UnitIsNoCount(u: SizeUnit)
    ensures U64FromStr(UnitSuffix(u)) == None
  {
    var t := UnitSuffix(u);
    assert !IsDigit(t[0]) && t[0] != '+';
  }

  lemma UnitSplitsOffNothing(u: SizeUnit)
    ensures SplitUnit(UnitSuffix(u)) == Some(("", u))
  {
    var t := UnitSuffix(u);
    assert t[..|t| - |t|] == "";
    match u
    case Bytes =>
      assert t == "B" && !EndsWith(t, "TB") && !EndsWith(t, "GB") && !EndsWith(t, "MB") && !EndsWith(t, "KB");
    case Kilo =>
      assert t == "KB" && !EndsWith(t, "TB") && !EndsWith(t, "GB") && !EndsWith(t, "MB");
    case Mega =>
      assert t == "MB" && !EndsWith(t, "TB") && !EndsWith(t, "GB");
    case Giga =>
      assert t == "GB" && !EndsWith(t, "TB");
    case Tera =>
      assert t == "TB";
  }

  /** A space between the number and the unit stays in the number part,
      which is then no `f64` literal. */
  lemma SpaceBeforeUnit(p: string, u: SizeUnit)
    requires NumberText(p)
    ensures ParseSize(p + " " + UnitSuffix(u)) == Err(InvalidNumber(p + " "))
  {
    var q := p + " ";
    assert ParseSize(q + UnitSuffix(u)) == ParseScaled(q, u) by {
      SpacedReachesScaling(p, u);
    }
    SpacedIsNoFloat(p);
  }

  lemma SpacedReachesScaling(p: string, u: SizeUnit)
    requires NumberText(p)
    ensures ParseSize(p + " " + UnitSuffix(u)) == ParseScaled(p + " ", u)
  {
    var q := p + " ";
    var t := q + UnitSuffix(u);
    SpacedIsNormal(p, u);
    NormalTextParses(t);
    assert U64FromStr(t) == None by {
      assert t[0] == p[0] && IsDigit(t[0]) && t[0] != '+';
      assert !IsDigit(t[|t| - 1]);
    }
    SpacedSplits(q, u);
    SplitTextScales(t, q, u);
  }

  lemma SpacedIsNormal(p: string, u: SizeUnit)
    requires NumberText(p)
    ensures var t := p + " " + UnitSuffix(u);
      |t| > 0 && !IsWhiteSpace(t[0]) && !IsWhiteSpace(t[|t| - 1])
      && forall i :: 0 <= i < |t| ==> !('a' <= t[i] <= 'z')
  {
    var q := p + " ";
    var t := q + UnitSuffix(u);
    assert t[0] == p[0] && IsDigit(t[0]);
    assert t[|t| - 1] == 'B';
    forall i | 0 <= i < |t|
      ensures !('a' <= t[i] <= 'z')
    {
      if i < |p| {
        assert t[i] == p[i];
      } else if i == |p| {
        assert t[i] == ' ';
      } else {
        assert t[i] == UnitSuffix(u)[i - |q|];
      }
    }
  }

  /** The split keeps the space: a space is not part of any suffix. */
  lemma SpacedSplits(q: string, u: SizeUnit)
    requires |q| > 0 && q[|q| - 1] == ' '
    ensures SplitUnit(q + UnitSuffix(u)) == Some((q, u))
  {
    var t := q + UnitSuffix(u);
    if u == Bytes {
      assert t[|t| - 2..] == " B";
      assert !EndsWith(t, "TB") && !EndsWith(t, "GB") && !EndsWith(t, "MB") && !EndsWith(t, "KB");
      assert t[|t| - 1..] == "B";
      assert t[..|t| - 1] == q;
    } else {
      assert t[|t| - 2..] == UnitSuffix(u);
      assert t[..|t| - 2] == q;
    }
  }

  lemma SpacedIsNoFloat(p: string)
    requires NumberText(p)
    ensures ParseFloat(p + " ") == None
  {
    var q := p + " ";
    assert q[0] == p[0] && IsDigit(q[0]);
    NotSpecialFloat(q);
    assert forall i :: 0 <= i < |p| ==> q[i] == p[i];
    assert q[|p|] == ' ';
    var e := FirstOf(q, {'e', 'E'});
    assert e == |q|;
    assert q[..e] == q;
    var dot := FirstOf(q, {'.'});
    if dot == |q| {
      assert !IsDigit(q[..dot][|p|]);
    } else {
      assert dot < |p|;
      assert !IsDigit(q[dot + 1..][|p| - dot - 1]);
    }
  }

  /** A minus sign is accepted by the `f64` step and the cast then gives 0. */
  lemma NegativeIsZero(n: nat, u: SizeUnit)
    ensures ParseSize("-" + Decimal(n) + UnitSuffix(u)) == Ok(0)
  {
    var d := Decimal(n);
    NegativeReachesScaling(n, u);
    NegativeIsFloat(d);
    FloatIsScaled("-" + d, u, Finite(true, DigitsValue(d), 0));
  }

  lemma NegativeReachesScaling(n: nat, u: SizeUnit)
    ensures ParseSize("-" + Decimal(n) + UnitSuffix(u)) == ParseScaled("-" + Decimal(n), u)
  {
    var p := "-" + Decimal(n);
    var t := p + UnitSuffix(u);
    NegativeIsNormal(n, u);
    NormalTextParses(t);
    NegativeSplits(n, u);
    SplitTextScales(t, p, u);
  }

  lemma NegativeSplits(n: nat, u: SizeUnit)
    ensures U64FromStr("-" + Decimal(n) + UnitSuffix(u)) == None
    ensures SplitUnit("-" + Decimal(n) + UnitSuffix(u)) == Some(("-" + Decimal(n), u))
  {
    var d := Decimal(n);
    var p := "-" + d;
    var t := p + UnitSuffix(u);
    assert !IsDigit(t[0]);
    assert p[|p| - 1] == d[|d| - 1] && IsDigit(d[|d| - 1]);
    SuffixedSplits(p, u);
  }

  lemma NegativeIsNormal(n: nat, u: SizeUnit)
    ensures var t := "-" + Decimal(n) + UnitSuffix(u);
      |t| > 0 && !IsWhiteSpace(t[0]) && !IsWhiteSpace(t[|t| - 1])
      && forall i :: 0 <= i < |t| ==> !('a' <= t[i] <= 'z')
  {
    var d := Decimal(n);
    var p := "-" + d;
    var t := p + UnitSuffix(u);
    assert t[0] == '-' && t[|t| - 1] == 'B';
    forall i | 0 <= i < |t|
      ensures !('a' <= t[i] <= 'z')
    {
      if i == 0 {
      } else if i < |p| {
        assert t[i] == d[i - 1] && IsDigit(d[i - 1]);
      } else {
        assert t[i] == UnitSuffix(u)[i - |p|];
      }
    }
  }

  lemma NegativeIsFloat(d: string)
    requires |d| > 0 && AllDigits(d)
    ensures ParseFloat("-" + d) == Some(Finite(true, DigitsValue(d), 0))
  {
    var p := "-" + d;
    assert p[1..] == d && p[0] == '-';
    assert IsDigit(d[0]);
    NotSpecialFloat(d);
    DigitsAreDecimal(d);
  }

  /** `format_size` and `parse_size` are not inverse: the space that
      `format_size` puts before the unit is left in the number part, so no
      rendered size parses. */
  lemma FormattedSizeNeverParses(bytes: nat)
    ensures var s := Rendered(bytes, UnitIndex(bytes));
      ParseSize(s).Err? && ParseSize(s).error.InvalidNumber?
  {
    var k := UnitIndex(bytes);
    var u := UnitAt(k);
    if k == 0 {
      var p := Decimal(bytes);
      DigitsAreNumberText(p);
      SpaceBeforeUnit(p, u);
    } else {
      var tenths := RoundHalfEven(10 * bytes, Pow1024(k));
      var p := Decimal(tenths / 10) + "." + [DigitChar(tenths % 10)];
      TenthsAreNumberText(tenths / 10, tenths % 10);
      SpaceBeforeUnit(p, u);
    }
  }

  /** The parse unit that `Units[k]` names. */
  function UnitAt(k: nat): (u: SizeUnit)
    requires k < |Units|
    ensures UnitSuffix(u) == Units[k]
  {
    [Bytes, Kilo, Mega, Giga, Tera][k]
  }

  /** The edge cases of the error paths on concrete text. */
  lemma ParseEdgeExamples()
    ensures ParseSize("KB") == Err(InvalidNumber(""))
    ensures ParseSize("1 KB") == Err(InvalidNumber("1 "))
    ensures ParseSize("-5MB") == Ok(0)
  {
    UnitWithoutNumber(Kilo);
    SpacedExample();
    NegativeExample();
  }

  lemma SpacedExample()
    ensures ParseSize("1 KB") == Err(InvalidNumber("1 "))
  {
    SpacedExampleText();
    SpaceBeforeUnit("1", Kilo);
  }

  lemma SpacedExampleText()
    ensures NumberText("1") && "1" + " " + UnitSuffix(Kilo) == "1 KB" && "1" + " " == "1 "
  {
  }

  lemma NegativeExample()
    ensures ParseSize("-5MB") == Ok(0)
  {
    NegativeIsZero(5, Mega);
    NegativeExampleText();
  }

  lemma NegativeExampleText()
    ensures "-" + Decimal(5) + UnitSuffix(Mega) == "-5MB"
  {
    assert Decimal(5) == "5";
  }
}
