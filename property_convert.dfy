// The conversions property_get_bool, property_get_int32 and
// property_get_int64 (libcutils/properties_nonandroid.c) apply to the text
// property_get leaves in their buffer, with strtoimax at base 0 as the C
// library defines it.
module PropertyConvert {
  import opened PropertyLine

  type int8 = x: int | -0x80 <= x < 0x80

  const Int32Min: int := -0x8000_0000
  const Int32Max: int := 0x7fff_ffff
  const Int64Min: int := -0x8000_0000_0000_0000
  const Int64Max: int := 0x7fff_ffff_ffff_ffff
  /** intmax_t is 64 bits wide. */
  const IntMaxMin: int := Int64Min
  const IntMaxMax: int := Int64Max

  /** The words read as false and as true. */
  const FalseWords: set<string> := {"0", "n", "no", "false", "off"}
  const TrueWords: set<string> := {"1", "y", "yes", "true", "on"}

  /** Lines 99-115 after the lookup: len is what property_get returned and buf
      the text in the zero-initialised buffer (its length when len >= 0). The
      one-character and the longer spellings together are exactly the two
      word lists; anything else, or a failed lookup, gives the default. */
  function BoolFromValue(len: int, buf: string, default: int8): (r: int8)
    requires len >= 0 ==> len == |buf|
    ensures len >= 0 && buf in FalseWords ==> r == 0
    ensures len >= 0 && buf in TrueWords ==> r == 1
    ensures len < 0 || (buf !in FalseWords && buf !in TrueWords) ==> r == default
  {
    if len == 1 then
      assert buf == [buf[0]];
      if buf[0] == '0' || buf[0] == 'n' then 0
      else if buf[0] == '1' || buf[0] == 'y' then 1
      else default
    else if len > 1 then
      if buf == "no" || buf == "false" || buf == "off" then 0
      else if buf == "yes" || buf == "true" || buf == "on" then 1
      else default
    else default
  }

  /** The value of c as a digit in bases up to 36, or 36 when it is none. */
  function DigitValue(c: char): (d: nat)
    ensures d <= 36
  {
    if '0' <= c <= '9' then c as int - '0' as int
    else if 'a' <= c <= 'z' then c as int - 'a' as int + 10
    else if 'A' <= c <= 'Z' then c as int - 'A' as int + 10
    else 36
  }

  predicate IsDigitIn(c: char, base: nat) {
    DigitValue(c) < base
  }

  /** Where the run of base digits that starts at i in s ends (what the
      run holds is stated by DigitRunEndStops). */
  function DigitRunEnd(s: string, i: nat, base: nat): (n: nat)
    requires i <= |s|
    ensures i <= n <= |s|
    decreases |s| - i
  {
    if i < |s| && IsDigitIn(s[i], base) then DigitRunEnd(s, i + 1, base) else i
  }

  /** Where the run of white space (isspace) that starts at i in s ends. */
  function SpaceEnd(s: string, i: nat): (n: nat)
    requires i <= |s|
    ensures i <= n <= |s|
    decreases |s| - i
  {
    if i < |s| && IsSpace(s[i]) then SpaceEnd(s, i + 1) else i
  }

  /** The number the digits ds spell in base, most significant first. */
  function DigitsValue(ds: string, base: nat): nat {
    if ds == [] then 0 else base * DigitsValue(ds[..|ds| - 1], base) + DigitValue(ds[|ds| - 1])
  }

  /** strtoimax's result, where end is how many characters it consumed and
      outOfRange is errno == ERANGE. */
  datatype Conversion = Conversion(value: int, end: nat, outOfRange: bool)

  /** Where the numeral in a text lies: its sign, its base, where its digits
      start and how many there are. */
  datatype Numeral = Numeral(negative: bool, base: nat, start: nat, count: nat)

  /** Where the sign of a numeral in s ends: after the leading white space
      and at most one '+' or '-'. */
  function SignEnd(s: string): (p: nat)
    ensures p <= |s|
  {
    var ws := SpaceEnd(s, 0);
    if ws < |s| && (s[ws] == '+' || s[ws] == '-') then ws + 1 else ws
  }

  /** Whether "0x" or "0X" and a hexadecimal digit start at p. */
  predicate HexPrefixAt(s: string, p: nat) {
    p + 2 < |s| && s[p] == '0' && (s[p + 1] == 'x' || s[p + 1] == 'X') && IsDigitIn(s[p + 2], 16)
  }

  /** How strtoimax at base 0 scans s: white space, an optional sign, then a
      "0x" prefixed hexadecimal, a '0' prefixed octal or a decimal numeral. */
  function ScanNumeral(s: string): (m: Numeral)
    ensures m.base == 8 || m.base == 10 || m.base == 16
    ensures m.start <= |s| && m.start + m.count == DigitRunEnd(s, m.start, m.base)
  {
    var ws := SpaceEnd(s, 0);
    var p := SignEnd(s);
    var base := if HexPrefixAt(s, p) then 16 else if p < |s| && s[p] == '0' then 8 else 10;
    var start := p + (if base == 16 then 2 else 0);
    Numeral(ws < |s| && s[ws] == '-', base, start, DigitRunEnd(s, start, base) - start)
  }

  /** The choices the scan makes: it skips all the leading white space and
      no more, reads the sign after it, takes base 16 for "0x" or "0X" and a
      hexadecimal digit, base 8 for another leading '0', base 10 otherwise,
      and starts the digits after the sign and any "0x". */
  lemma ScanNumeralChooses(s: string)
    ensures var m := ScanNumeral(s);
      var ws := SpaceEnd(s, 0);
      var signed := ws < |s| && (s[ws] == '+' || s[ws] == '-');
      var p := ws + (if signed then 1 else 0);
      && (forall k :: 0 <= k < ws ==> IsSpace(s[k]))
      && (ws < |s| ==> !IsSpace(s[ws]))
      && (m.negative <==> signed && s[ws] == '-')
      && (m.base == 16 <==> p + 2 < |s| && s[p] == '0' && (s[p + 1] == 'x' || s[p + 1] == 'X') && IsDigitIn(s[p + 2], 16))
      && (m.base == 8 <==> m.base != 16 && p < |s| && s[p] == '0')
      && m.start == p + (if m.base == 16 then 2 else 0)
  {
    SpaceEndStops(s, 0);
  }

  /** The conversion of the value v read up to end, clamped to intmax_t. */
  function Clamped(v: int, end: nat): (c: Conversion)
    ensures IntMaxMin <= c.value <= IntMaxMax && c.end == end
    ensures c.outOfRange <==> !(IntMaxMin <= v <= IntMaxMax)
    ensures c.outOfRange ==> c.value == IntMaxMin || c.value == IntMaxMax
    ensures !c.outOfRange ==> c.value == v
  {
    if v > IntMaxMax then Conversion(IntMaxMax, end, true)
    else if v < IntMaxMin then Conversion(IntMaxMin, end, true)
    else Conversion(v, end, false)
  }

  /** strtoimax(s, &end, 0): the scanned numeral's value, clamped and flagged
      when it is beyond intmax_t; nothing consumed when there are no digits. */
  function StrToIMax(s: string): (c: Conversion)
    ensures c.end <= |s|
    ensures IntMaxMin <= c.value <= IntMaxMax
    ensures c.end == 0 <==> ScanNumeral(s).count == 0
    ensures c.end > 0 ==> c.end == ScanNumeral(s).start + ScanNumeral(s).count
    ensures c.end == 0 ==> c.value == 0 && !c.outOfRange
    ensures c.outOfRange ==> c.value == IntMaxMin || c.value == IntMaxMax
  {
    var m := ScanNumeral(s);
    if m.count == 0 then Conversion(0, 0, false)
    else
      var magnitude: int := DigitsValue(s[m.start..m.start + m.count], m.base);
      Clamped(if m.negative then -magnitude else magnitude, m.start + m.count)
  }

  /** Lines 129-154 after the lookup: the parsed number when the lookup found
      text, the conversion consumed some of it without overflow, and the
      number lies within [lower, upper]; the default otherwise. */
  function ImaxFromValue(len: int, buf: string, lower: int, upper: int, default: int): (r: int)
    ensures r == default || (lower <= r <= upper && IntMaxMin <= r <= IntMaxMax)
    ensures var c := StrToIMax(buf);
      len > 0 && c.end > 0 && !c.outOfRange && lower <= c.value <= upper ==> r == c.value
    ensures var c := StrToIMax(buf);
      len <= 0 || c.end == 0 || c.outOfRange || c.value < lower || c.value > upper ==> r == default
  {
    if len <= 0 then default
    else
      var c := StrToIMax(buf);
      if (c.value == IntMaxMin || c.value == IntMaxMax) && c.outOfRange then default
      else if c.value < lower || c.value > upper then default
      else if c.end == 0 then default
      else c.value
  }

  /** property_get_int64's conversion: the cast to int64_t loses nothing. */
  function Int64FromValue(len: int, buf: string, default: int): (r: int)
    requires Int64Min <= default <= Int64Max
    ensures Int64Min <= r <= Int64Max
    ensures r == default || r == StrToIMax(buf).value
  {
    ImaxFromValue(len, buf, Int64Min, Int64Max, default)
  }

  /** property_get_int32's conversion: the bounds make the cast to int32_t lossless. */
  function Int32FromValue(len: int, buf: string, default: int): (r: int)
    requires Int32Min <= default <= Int32Max
    ensures Int32Min <= r <= Int32Max
    ensures r == default || r == StrToIMax(buf).value
  {
    ImaxFromValue(len, buf, Int32Min, Int32Max, default)
  }

  function DigitChar(d: nat): (c: char)
    requires d < 10
    ensures DigitValue(c) == d
  {
    ('0' as int + d) as char
  }

  /** The decimal digits of m, most significant first, with no leading zero. */
  function Digits(m: nat): (r: string)
    ensures |r| >= 1 && (m > 0 ==> r[0] != '0')
    ensures forall i :: 0 <= i < |r| ==> IsDigitIn(r[i], 10)
    ensures DigitsValue(r, 10) == m
  {
    if m < 10 then [DigitChar(m)]
    else
      var r := Digits(m / 10) + [DigitChar(m % 10)];
      assert r[..|r| - 1] == Digits(m / 10);
      r
  }

  /** n in decimal, with a minus sign when negative. */
  function Decimal(n: int): string {
    if n < 0 then "-" + Digits(-n) else Digits(n)
  }

  /** A digit run holds digits of its base and stops before one that is not. */
  lemma {:induction false} DigitRunEndStops(s: string, i: nat, base: nat)
    requires i <= |s|
    ensures var n := DigitRunEnd(s, i, base);
      && (forall k :: i <= k < n ==> IsDigitIn(s[k], base))
      && (n < |s| ==> !IsDigitIn(s[n], base))
    decreases |s| - i
  {
    if i < |s| && IsDigitIn(s[i], base) {
      DigitRunEndStops(s, i + 1, base);
    }
  }

  /** A run of white space holds only white space and stops before a
      character that is not. */
  lemma {:induction false} SpaceEndStops(s: string, i: nat)
    requires i <= |s|
    ensures var n := SpaceEnd(s, i);
      && (forall k :: i <= k < n ==> IsSpace(s[k]))
      && (n < |s| ==> !IsSpace(s[n]))
    decreases |s| - i
  {
    if i < |s| && IsSpace(s[i]) {
      SpaceEndStops(s, i + 1);
    }
  }

  /** A run of white space is pinned down by where it stops. */
  lemma {:induction false} SpaceEndIs(s: string, i: nat, n: nat)
    requires i <= n <= |s|
    requires forall k :: i <= k < n ==> IsSpace(s[k])
    requires n == |s| || !IsSpace(s[n])
    ensures SpaceEnd(s, i) == n
    decreases n - i
  {
    if i < n {
      SpaceEndIs(s, i + 1, n);
    }
  }

  /** The digits ScanNumeral finds are digits of its base, and the character
      after them, if any, is not: the run is the longest one. */
  lemma ScanNumeralRun(s: string)
    ensures var m := ScanNumeral(s);
      && (forall k :: m.start <= k < m.start + m.count ==> IsDigitIn(s[k], m.base))
      && (m.start + m.count < |s| ==> !IsDigitIn(s[m.start + m.count], m.base))
  {
    var m := ScanNumeral(s);
    DigitRunEndStops(s, m.start, m.base);
  }

  /** A digit run is pinned down by where it stops. */
  lemma {:induction false} DigitRunEndIs(s: string, i: nat, base: nat, n: nat)
    requires i <= n <= |s|
    requires forall k :: i <= k < n ==> IsDigitIn(s[k], base)
    requires n == |s| || !IsDigitIn(s[n], base)
    ensures DigitRunEnd(s, i, base) == n
    decreases n - i
  {
    if i < n {
      DigitRunEndIs(s, i + 1, base, n);
    }
  }

  /** What may follow a decimal numeral without extending it: the end of
      the text, or a character that is neither a digit nor the 'x' of a
      hexadecimal prefix. */
  predicate EndsNumeral(rest: string) {
    rest == [] || (!IsDigitIn(rest[0], 10) && rest[0] != 'x' && rest[0] != 'X')
  }

  /** The text of a numeral strtoimax accepts at base 0, after its white
      space and sign: "0x" or "0X" and hexadecimal digits, or octal digits
      starting with '0', or decimal digits not starting with '0'. */
  predicate IsNumeralBody(prefix: string, digits: string, base: nat) {
    && |digits| >= 1
    && (forall i :: 0 <= i < |digits| ==> IsDigitIn(digits[i], base))
    && ((base == 16 && (prefix == "0x" || prefix == "0X"))
        || (base == 8 && prefix == "" && digits[0] == '0')
        || (base == 10 && prefix == "" && digits[0] != '0'))
  }

  /** What may follow such a numeral without extending it: no digit of its
      base, and after a lone "0" no 'x' that would start a hexadecimal one. */
  predicate StopsNumeral(digits: string, base: nat, rest: string) {
    && (rest == [] || !IsDigitIn(rest[0], base))
    && (base == 8 && |digits| == 1 && |rest| >= 2 && (rest[0] == 'x' || rest[0] == 'X') ==> !IsDigitIn(rest[1], 16))
  }

  /** strtoimax reads s as the numeral whose digits start at start: it
      consumes them and gives their value in base, negated when negative,
      clamped and flagged when beyond intmax_t. */
  predicate ReadsNumeral(s: string, negative: bool, base: nat, start: nat, digits: string) {
    var v: int := DigitsValue(digits, base);
    StrToIMax(s) == Clamped(if negative then -v else v, start + |digits|)
  }

  /** strtoimax at base 0 reads every numeral back: after white space, an
      optional sign and a numeral in any of the three bases, it consumes
      exactly the numeral and gives its value, negated after '-', clamped
      and flagged when it does not fit intmax_t. */
  lemma StrToIMaxOfNumeral(blanks: string, sign: string, prefix: string, digits: string, base: nat, rest: string)
    requires IsBlankRun(blanks) && (sign == "" || sign == "+" || sign == "-")
    requires IsNumeralBody(prefix, digits, base) && StopsNumeral(digits, base, rest)
    ensures ReadsNumeral(blanks + sign + (prefix + digits + rest), sign == "-", base, |blanks| + |sign| + |prefix|, digits)
  {
    ReadNumeralAt(blanks + sign + (prefix + digits + rest), blanks, sign, prefix, digits, base, rest);
  }

  /** StrToIMaxOfNumeral for a text t that is the concatenation. */
  lemma ReadNumeralAt(t: string, blanks: string, sign: string, prefix: string, digits: string, base: nat, rest: string)
    requires t == blanks + sign + (prefix + digits + rest)
    requires IsBlankRun(blanks) && (sign == "" || sign == "+" || sign == "-")
    requires IsNumeralBody(prefix, digits, base) && StopsNumeral(digits, base, rest)
    ensures ReadsNumeral(t, sign == "-", base, |blanks| + |sign| + |prefix|, digits)
  {
    ScanOfNumeral(blanks, sign, prefix, digits, base, rest);
    DigitsAt(blanks, sign, prefix, digits, rest);
    ConvertAt(t, sign == "-", base, |blanks| + |sign| + |prefix|, digits);
  }

  /** Where the digits sit in blanks + sign + (prefix + digits + rest). */
  lemma DigitsAt(blanks: string, sign: string, prefix: string, digits: string, rest: string)
    ensures var t := blanks + sign + (prefix + digits + rest);
      var start := |blanks| + |sign| + |prefix|;
      start + |digits| <= |t| && t[start..start + |digits|] == digits
  {
    var t := blanks + sign + (prefix + digits + rest);
    assert t == (blanks + sign + prefix) + digits + rest;
  }

  /** strtoimax's result once the scan has found digits at start. */
  lemma ConvertAt(s: string, negative: bool, base: nat, start: nat, digits: string)
    requires start + |digits| <= |s| && s[start..start + |digits|] == digits && |digits| > 0
    requires ScanNumeral(s) == Numeral(negative, base, start, |digits|)
    ensures ReadsNumeral(s, negative, base, start, digits)
  {
  }

  /** Scanning white space, a sign and a numeral finds the numeral's sign,
      base, first digit and number of digits. */
  lemma ScanOfNumeral(blanks: string, sign: string, prefix: string, digits: string, base: nat, rest: string)
    requires IsBlankRun(blanks) && (sign == "" || sign == "+" || sign == "-")
    requires IsNumeralBody(prefix, digits, base) && StopsNumeral(digits, base, rest)
    ensures ScanNumeral(blanks + sign + (prefix + digits + rest))
      == Numeral(sign == "-", base, |blanks| + |sign| + |prefix|, |digits|)
  {
    var u := prefix + digits + rest;
    BodyOfNumeral(prefix, digits, base, rest);
    SignOfNumeral(blanks, sign, u);
    ScanAt(blanks + sign + u, |blanks|, sign != "", u, |prefix|, base, |digits|);
  }

  /** ScanNumeral's result from the white space at the start of s and the
      text u that follows it and its sign. */
  lemma ScanAt(s: string, ws: nat, signed: bool, u: string, plen: nat, base: nat, k: nat)
    requires SpaceEnd(s, 0) == ws && ws < |s|
    requires signed <==> s[ws] == '+' || s[ws] == '-'
    requires ws + (if signed then 1 else 0) <= |s| && s[ws + (if signed then 1 else 0)..] == u
    requires base == 16 <==> |u| > 2 && u[0] == '0' && (u[1] == 'x' || u[1] == 'X') && IsDigitIn(u[2], 16)
    requires base == 8 <==> base != 16 && |u| > 0 && u[0] == '0'
    requires base == 8 || base == 10 || base == 16
    requires plen == (if base == 16 then 2 else 0) && plen <= |u|
    requires plen + k == DigitRunEnd(u, plen, base)
    ensures ScanNumeral(s) == Numeral(signed && s[ws] == '-', base, ws + (if signed then 1 else 0) + plen, k)
  {
    var p := ws + (if signed then 1 else 0);
    assert |u| == |s| - p;
    assert |u| > 0 ==> s[p] == u[0];
    assert |u| > 1 ==> s[p + 1] == u[1];
    assert |u| > 2 ==> s[p + 2] == u[2];
    RunAfter(s, p, u, plen, base);
    assert SignEnd(s) == p;
    assert HexPrefixAt(s, p) <==> base == 16;
    assert (p < |s| && s[p] == '0') <==> |u| > 0 && u[0] == '0';
  }

  /** A digit run in the text u that s holds from p on ends p further on in s. */
  lemma RunAfter(s: string, p: nat, u: string, i: nat, base: nat)
    requires p <= |s| && s[p..] == u && i <= |u|
    ensures DigitRunEnd(s, p + i, base) == p + DigitRunEnd(u, i, base)
  {
    var n := DigitRunEnd(u, i, base);
    DigitRunEndStops(u, i, base);
    forall q | p + i <= q < p + n
      ensures IsDigitIn(s[q], base)
    {
      assert s[q] == u[q - p];
    }
    assert p + n < |s| ==> s[p + n] == u[n];
    DigitRunEndIs(s, p + i, base, p + n);
  }

  /** The white space and the sign in front of u, which starts with neither. */
  lemma SignOfNumeral(blanks: string, sign: string, u: string)
    requires IsBlankRun(blanks) && (sign == "" || sign == "+" || sign == "-")
    requires |u| > 0 && !IsSpace(u[0]) && u[0] != '+' && u[0] != '-'
    ensures var s := blanks + sign + u;
      && SpaceEnd(s, 0) == |blanks|
      && |blanks| < |s|
      && ((s[|blanks|] == '+' || s[|blanks|] == '-') <==> sign != "")
      && (s[|blanks|] == '-' <==> sign == "-")
      && s[|blanks| + |sign|..] == u
  {
    var s := blanks + sign + u;
    assert s[|blanks|] == if sign == "" then u[0] else sign[0];
    SpaceEndIs(s, 0, |blanks|) by {
      forall i | 0 <= i < |blanks| ensures IsSpace(s[i]) {
        assert s[i] == blanks[i];
      }
    }
    assert s[|blanks| + |sign|..] == u;
  }

  /** A numeral's prefix and digits, followed by a rest that stops them, fix
      the base strtoimax infers and the length of the digit run. */
  lemma BodyOfNumeral(prefix: string, digits: string, base: nat, rest: string)
    requires IsNumeralBody(prefix, digits, base) && StopsNumeral(digits, base, rest)
    ensures var u := prefix + digits + rest;
      && |u| > 0 && !IsSpace(u[0]) && u[0] != '+' && u[0] != '-'
      && (base == 16 <==> |u| > 2 && u[0] == '0' && (u[1] == 'x' || u[1] == 'X') && IsDigitIn(u[2], 16))
      && (base == 8 <==> base != 16 && u[0] == '0')
      && |prefix| == (if base == 16 then 2 else 0)
      && DigitRunEnd(u, |prefix|, base) == |prefix| + |digits|
  {
    var u := prefix + digits + rest;
    assert u[|prefix|..] == digits + rest;
    assert IsDigitIn(digits[0], base);
    if base == 16 {
      assert u[0] == '0' && u[1] == prefix[1] && u[2] == digits[0];
    } else {
      assert u[0] == digits[0];
      assert |digits| > 1 ==> u[1] == digits[1] && IsDigitIn(digits[1], base);
      assert |digits| == 1 && |u| > 2 ==> u[1] == rest[0] && u[2] == rest[1];
    }
    DigitRunEndIs(u, |prefix|, base, |prefix| + |digits|) by {
      forall q | |prefix| <= q < |prefix| + |digits| ensures IsDigitIn(u[q], base) {
        assert u[q] == digits[q - |prefix|];
      }
      if |prefix| + |digits| < |u| {
        assert u[|prefix| + |digits|] == rest[0];
      }
    }
  }

  /** strtoimax reads a decimal numeral back: it consumes exactly the numeral
      and gives n, clamped and flagged when n does not fit intmax_t. */
  lemma StrToIMaxOfDecimal(n: int, rest: string)
    requires EndsNumeral(rest)
    ensures StrToIMax(Decimal(n) + rest) == Clamped(n, |Decimal(n)|)
  {
    var m: nat := if n < 0 then -n else n;
    var d := Digits(m);
    var sign := if n < 0 then "-" else "";
    var base := if m == 0 then 8 else 10;
    var t := "" + sign + ("" + d + rest);
    assert ReadsNumeral(t, sign == "-", base, |""| + |sign| + |""|, d) by {
      DigitsAreNumeral(m);
      EndsStopsNumeral(d, base, rest);
      StrToIMaxOfNumeral("", sign, "", d, base, rest);
    }
    assert DigitsValue(d, base) == m by {
      DigitsAreNumeral(m);
    }
    ReadsValue(t, sign == "-", base, |""| + |sign| + |""|, d, n);
    DecimalText(n, rest);
  }

  /** The decimal text of n is its sign followed by its digits. */
  lemma DecimalText(n: int, rest: string)
    ensures var sign := if n < 0 then "-" else "";
      var d := Digits(if n < 0 then -n else n);
      "" + sign + ("" + d + rest) == Decimal(n) + rest && |Decimal(n)| == |sign| + |d|
  {
  }

  /** What ReadsNumeral gives once the signed value of the digits is known. */
  lemma ReadsValue(s: string, negative: bool, base: nat, start: nat, digits: string, n: int)
    requires ReadsNumeral(s, negative, base, start, digits)
    requires var v: int := DigitsValue(digits, base); n == if negative then -v else v
    ensures StrToIMax(s) == Clamped(n, start + |digits|)
  {
  }

  /** The decimal digits of m are a numeral of base 10 (base 8 for the lone
      digit of zero) worth m. */
  lemma DigitsAreNumeral(m: nat)
    ensures var base := if m == 0 then 8 else 10;
      IsNumeralBody("", Digits(m), base) && DigitsValue(Digits(m), base) == m
  {
    if m == 0 {
      ZeroDigits();
    } else {
      assert Digits(m)[0] != '0';
    }
  }

  /** What ends a decimal numeral also stops an octal or decimal one. */
  lemma EndsStopsNumeral(digits: string, base: nat, rest: string)
    requires EndsNumeral(rest) && (base == 8 || base == 10)
    ensures StopsNumeral(digits, base, rest)
  {
  }

  /** Zero is written as the lone digit '0', worth zero in base 8. */
  lemma ZeroDigits()
    ensures Digits(0) == "0" && DigitsValue("0", 8) == 0
  {
    assert "0"[..0] == [];
  }

  /** property_get_int32 and property_get_int64 round trip: the text of a
      decimal number, whatever follows it, converts back to the number when
      it lies within the bounds, and to the default otherwise. */
  lemma ImaxOfDecimal(n: int, rest: string, lower: int, upper: int, default: int)
    requires EndsNumeral(rest)
    ensures ImaxFromValue(|Decimal(n) + rest|, Decimal(n) + rest, lower, upper, default)
      == if IntMaxMin <= n <= IntMaxMax && lower <= n <= upper then n else default
  {
    StrToIMaxOfDecimal(n, rest);
  }

  /** property_get_int32 and property_get_int64 on any numeral strtoimax
      accepts at base 0 (hexadecimal after "0x", octal after '0', decimal):
      its signed value when that lies within intmax_t and the bounds, the
      default otherwise. */
  lemma ImaxOfNumeral(blanks: string, sign: string, prefix: string, digits: string, base: nat, rest: string,
                      lower: int, upper: int, default: int)
    requires IsBlankRun(blanks) && (sign == "" || sign == "+" || sign == "-")
    requires IsNumeralBody(prefix, digits, base) && StopsNumeral(digits, base, rest)
    ensures var buf := blanks + sign + (prefix + digits + rest);
      var v: int := DigitsValue(digits, base);
      var n := if sign == "-" then -v else v;
      ImaxFromValue(|buf|, buf, lower, upper, default)
        == if IntMaxMin <= n <= IntMaxMax && lower <= n <= upper then n else default
  {
    StrToIMaxOfNumeral(blanks, sign, prefix, digits, base, rest);
  }
}
