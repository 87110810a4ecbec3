/**
 * The parts of the Arduino core that the session engine leans on, as functions:
 * C integer conversions on a 32-bit target, `String::endsWith`, `trim`, `toInt`,
 * `lastIndexOf`, `indexOf`, `substring`, the decimal and hexadecimal text that
 * `Print::print` and `String(n, HEX)` produce, `strtol` on a two-character buffer and
 * the dotted-quad text of an `IPAddress`.
 */
module Arduino {
  import opened Wrappers

  // ---------------------------------------------------------------------------
  // C integer widths (32-bit target: int, long and size_t are 32 bits wide)

  type Byte = x: int | 0 <= x < 0x100
  type UInt16 = x: int | 0 <= x < 0x1_0000

  const SIZE_T_LIMIT: int := 0x1_0000_0000

  /** Conversion to `uint8_t` / `char` bits: keeps the low eight bits. */
  function ToByte(x: int): Byte { x % 0x100 }

  /** Conversion to `uint16_t`: keeps the low sixteen bits. */
  function ToUInt16(x: int): UInt16 { x % 0x1_0000 }

  /** Conversion to `int16_t`: two's complement wrap-around. */
  function ToInt16(x: int): (r: int)
    ensures -0x8000 <= r < 0x8000
    ensures (r - x) % 0x1_0000 == 0
    ensures -0x8000 <= x < 0x8000 ==> r == x
  {
    (x + 0x8000) % 0x1_0000 - 0x8000
  }

  /** Conversion to a 32-bit `size_t`. */
  function ToSizeT(x: int): (r: nat)
    ensures r < SIZE_T_LIMIT
    ensures 0 <= x < SIZE_T_LIMIT ==> r == x
  {
    x % SIZE_T_LIMIT
  }

  // ---------------------------------------------------------------------------
  // Characters

  predicate IsDigit(c: char) { '0' <= c <= '9' }

  /** `isspace`: blank, tab, newline, vertical tab, form feed, carriage return. */
  predicate IsSpace(c: char) { c == ' ' || '\t' <= c <= '\r' }

  predicate IsHexDigit(c: char) { IsDigit(c) || 'a' <= c <= 'f' || 'A' <= c <= 'F' }

  predicate AllDigits(s: string) { forall i :: 0 <= i < |s| ==> IsDigit(s[i]) }

  predicate AllHexDigits(s: string) { forall i :: 0 <= i < |s| ==> IsHexDigit(s[i]) }

  function DigitValue(c: char): (d: nat)
    requires IsDigit(c)
    ensures d < 10
  {
    c as int - '0' as int
  }

  function HexDigitValue(c: char): (d: nat)
    requires IsHexDigit(c)
    ensures d < 16
  {
    if IsDigit(c) then DigitValue(c)
    else if 'a' <= c <= 'f' then c as int - 'a' as int + 10
    else c as int - 'A' as int + 10
  }

  function DigitChar(d: nat): (c: char)
    requires d < 10
    ensures IsDigit(c) && DigitValue(c) == d
  {
    ('0' as int + d) as char
  }

  /** Hexadecimal digit: lower case as `utoa` writes it, or upper case. */
  function HexChar(d: nat, upper: bool := false): (c: char)
    requires d < 16
    ensures IsHexDigit(c) && HexDigitValue(c) == d
  {
    if d < 10 then DigitChar(d) else ((if upper then 'A' else 'a') as int + d - 10) as char
  }

  // ---------------------------------------------------------------------------
  // String::endsWith and String::trim

  /** `String::endsWith`: `t` is a suffix of `s`. */
  predicate EndsWith(s: string, t: string) {
    |t| <= |s| && s[|s| - |t|..] == t
  }

  /** Two tails that differ `k` characters from the end cannot both end the same text. */
  lemma EndsApart(s: string, a: string, b: string, k: nat)
    requires 0 < k <= |a| && k <= |b| && a[|a| - k] != b[|b| - k]
    requires EndsWith(s, a)
    ensures !EndsWith(s, b)
  {
    assert s[|s| - k] == a[|a| - k];
    assert |b| <= |s| ==> s[|s| - |b|..][|b| - k] == s[|s| - k];
  }

  function TrimStart(s: string): (r: string)
    ensures |r| <= |s|
    ensures r == [] || !IsSpace(r[0])
    decreases |s|
  {
    if s != [] && IsSpace(s[0]) then TrimStart(s[1..]) else s
  }

  function TrimEnd(s: string): (r: string)
    ensures |r| <= |s| && (r != [] ==> r[0] == s[0])
    ensures r == [] || !IsSpace(r[|r| - 1])
    decreases |s|
  {
    if s != [] && IsSpace(s[|s| - 1]) then TrimEnd(s[..|s| - 1]) else s
  }

  /** `String::trim`: drops leading and trailing white space. */
  function Trim(s: string): (r: string)
    ensures r == [] || (!IsSpace(r[0]) && !IsSpace(r[|r| - 1]))
  {
    TrimEnd(TrimStart(s))
  }

  // ---------------------------------------------------------------------------
  // String::toInt (atol): leading white space, an optional sign, then decimal digits

  /** The longest prefix of `s` made of decimal digits. */
  function LeadingDigits(s: string): (r: string)
    ensures |r| <= |s| && AllDigits(r) && r == s[..|r|]
    ensures |r| == |s| || !IsDigit(s[|r|])
    decreases |s|
  {
    if s != [] && IsDigit(s[0]) then [s[0]] + LeadingDigits(s[1..]) else []
  }

  /** The value of a string of decimal digits, most significant first. */
  function DigitsValue(ds: string): nat
    requires AllDigits(ds)
    decreases |ds|
  {
    if ds == [] then 0 else DigitsValue(ds[..|ds| - 1]) * 10 + DigitValue(ds[|ds| - 1])
  }

  /** `String::toInt`, which is `atol` on the text; a text without digits reads as 0. */
  function ToInt(s: string): int {
    var t := TrimStart(s);
    if t != [] && t[0] == '-' then -(DigitsValue(LeadingDigits(t[1..])) as int)
    else if t != [] && t[0] == '+' then DigitsValue(LeadingDigits(t[1..]))
    else DigitsValue(LeadingDigits(t))
  }

  // ---------------------------------------------------------------------------
  // Print::print of an integer, and String(n, HEX)

  /** The decimal digits of `n`, without leading zeros. */
  function Digits(n: nat): (r: string)
    ensures |r| > 0
    decreases n
  {
    if n < 10 then [DigitChar(n)] else Digits(n / 10) + [DigitChar(n % 10)]
  }

  /** The text `Print::print` writes for an integer. */
  function DecimalText(n: int): string {
    if n < 0 then "-" + Digits(-n) else Digits(n)
  }

  /** `String(n, HEX)`: lower-case hexadecimal digits without leading zeros. */
  function HexText(n: nat): (r: string)
    ensures |r| > 0
    decreases n
  {
    if n < 16 then [HexChar(n)] else HexText(n / 16) + [HexChar(n % 16)]
  }

  /** The value of a string of hexadecimal digits, most significant first. */
  function HexValue(s: string): nat
    requires AllHexDigits(s)
    decreases |s|
  {
    if s == [] then 0 else HexValue(s[..|s| - 1]) * 16 + HexDigitValue(s[|s| - 1])
  }

  lemma {:induction false} DigitsRoundTrip(n: nat)
    ensures AllDigits(Digits(n)) && DigitsValue(Digits(n)) == n
    decreases n
  {
    if n >= 10 {
      DigitsRoundTrip(n / 10);
      var ds := Digits(n / 10) + [DigitChar(n % 10)];
      assert ds[..|ds| - 1] == Digits(n / 10);
    }
  }

  lemma {:induction false} LeadingDigitsOfDigits(ds: string)
    requires AllDigits(ds)
    ensures LeadingDigits(ds) == ds
    decreases |ds|
  {
    if ds != [] {
      LeadingDigitsOfDigits(ds[1..]);
    }
  }

  /** What `print` writes for an integer, `toInt` reads back. */
  lemma DecimalRoundTrip(n: int)
    ensures ToInt(DecimalText(n)) == n
  {
    var m := if n < 0 then -n else n;
    DigitsRoundTrip(m);
    LeadingDigitsOfDigits(Digits(m));
    assert !IsSpace(Digits(m)[0]);
    if n < 0 {
      var t := "-" + Digits(m);
      assert TrimStart(t) == t;
      assert t[1..] == Digits(m);
    } else {
      assert TrimStart(Digits(m)) == Digits(m);
    }
  }

  /** The decimal text of a count reads back as that count. */
  lemma DigitsReadBack(m: nat)
    ensures ToInt(Digits(m)) == m
  {
    assert DecimalText(m) == Digits(m);
    DecimalRoundTrip(m);
  }

  /** The digits of a count followed by "\r", as a reply line ends, read back as that count. */
  lemma DigitsLineReadBack(m: nat)
    ensures ToInt(Digits(m) + "\r") == m
  {
    var ds := Digits(m);
    DigitsRoundTrip(m);
    LeadingDigitsOfDigits(ds);
    LeadingDigitsBeforeOther(ds, "\r");
    assert !IsSpace((ds + "\r")[0]);
    assert TrimStart(ds + "\r") == ds + "\r";
  }

  /** Digits followed by a text that does not start with one lead it as they are. */
  lemma {:induction false} LeadingDigitsBeforeOther(ds: string, tail: string)
    requires AllDigits(ds)
    requires tail == [] || !IsDigit(tail[0])
    ensures LeadingDigits(ds + tail) == ds
    decreases |ds|
  {
    if ds != [] {
      assert (ds + tail)[1..] == ds[1..] + tail;
      LeadingDigitsBeforeOther(ds[1..], tail);
    }
  }

  /** The hexadecimal text of a number reads back as that number. */
  lemma {:induction false} HexRoundTrip(n: nat)
    ensures AllHexDigits(HexText(n)) && HexValue(HexText(n)) == n
    decreases n
  {
    if n >= 16 {
      HexRoundTrip(n / 16);
      var s := HexText(n / 16) + [HexChar(n % 16)];
      assert s[..|s| - 1] == HexText(n / 16);
    }
  }

  // ---------------------------------------------------------------------------
  // strtol(buf, NULL, 16) on a two-character buffer, as the hex transfer mode uses it

  /** `strtol` with base 16 on the two characters `c1 c2`: an optional blank or sign,
      then as many hexadecimal digits as there are; no digit at all reads as 0. */
  function StrtolPair(c1: char, c2: char): int {
    if IsHexDigit(c1) then
      (if IsHexDigit(c2) then HexDigitValue(c1) * 16 + HexDigitValue(c2) else HexDigitValue(c1))
    else if (IsSpace(c1) || c1 == '+') && IsHexDigit(c2) then HexDigitValue(c2)
    else if c1 == '-' && IsHexDigit(c2) then -(HexDigitValue(c2) as int)
    else 0
  }

  /** Every byte the modem encodes as two hexadecimal digits (either case) decodes to itself. */
  lemma HexPairDecodes(b: Byte, upper: bool)
    ensures ToByte(StrtolPair(HexChar(b / 16, upper), HexChar(b % 16, upper))) == b
  {
    var hi, lo := b / 16, b % 16;
    assert hi * 16 + lo == b as int;
    assert StrtolPair(HexChar(hi, upper), HexChar(lo, upper)) == b as int;
  }

  // ---------------------------------------------------------------------------
  // String::lastIndexOf, String::indexOf and String::substring

  predicate OccursAt(s: string, pat: string, i: nat) {
    i + |pat| <= |s| && s[i..i + |pat|] == pat
  }

  /** `lastIndexOf(pat, from)`: the last place at or before `from` where `pat` starts, or -1. */
  function LastIndexOf(s: string, pat: string, from: nat): (r: int)
    ensures -1 <= r
    ensures r >= 0 ==> r <= from && OccursAt(s, pat, r)
    ensures pat != [] ==> forall i :: r < i <= from ==> !OccursAt(s, pat, i)
    decreases from
  {
    if pat == [] || s == [] || |pat| > |s| then -1
    else if from >= |s| then LastIndexOf(s, pat, |s| - 1)
    else if OccursAt(s, pat, from) then from
    else if from == 0 then -1
    else LastIndexOf(s, pat, from - 1)
  }

  /** `indexOf(c, from)`: the first place at or after `from` holding `c`, or -1. */
  function IndexOfChar(s: string, c: char, from: nat): (r: int)
    ensures r == -1 || (from <= r < |s| && s[r] == c)
    ensures forall i :: from <= i < |s| && (r == -1 || i < r) ==> s[i] != c
    decreases |s| - from
  {
    if from >= |s| then -1
    else if s[from] == c then from
    else IndexOfChar(s, c, from + 1)
  }

  /** `substring(left, right)` with its arguments converted to `unsigned int`: the
      bounds are swapped when out of order and the right one is clipped to the length. */
  function Substring(s: string, left: int, right: int): string {
    var l := ToSizeT(left);
    var r := ToSizeT(right);
    var (lo, hi) := if l > r then (r, l) else (l, r);
    if lo >= |s| then "" else s[lo..if hi > |s| then |s| else hi]
  }

  // ---------------------------------------------------------------------------
  // IPAddress as dotted-quad text

  datatype IPv4 = IPv4(a: Byte, b: Byte, c: Byte, d: Byte)

  /** The text built by `host += ip[0]; host += "."; ...`. */
  function DottedQuad(ip: IPv4): string {
    Digits(ip.a) + "." + Digits(ip.b) + "." + Digits(ip.c) + "." + Digits(ip.d)
  }

  /** The pieces of `s` between the separators `sep`. */
  function Split(s: string, sep: char): (r: seq<string>)
    ensures |r| > 0
    decreases |s|
  {
    if s == [] then [""]
    else if s[0] == sep then [""] + Split(s[1..], sep)
    else var rest := Split(s[1..], sep); [[s[0]] + rest[0]] + rest[1..]
  }

  predicate IsOctetText(t: string) {
    AllDigits(t) && DigitsValue(t) <= 255
  }

  /** Reads dotted-quad text: four groups of decimal digits, each at most 255, separated
      by dots (an empty group reads as 0, as `IPAddress::fromString` accepts it). */
  function ParseDottedQuad(s: string): Option<IPv4> {
    var parts := Split(s, '.');
    if |parts| == 4 && IsOctetText(parts[0]) && IsOctetText(parts[1])
       && IsOctetText(parts[2]) && IsOctetText(parts[3])
    then Some(IPv4(DigitsValue(parts[0]), DigitsValue(parts[1]),
                   DigitsValue(parts[2]), DigitsValue(parts[3])))
    else None
  }

  lemma {:induction false} SplitNoSeparator(x: string, sep: char)
    requires sep !in x
    ensures Split(x, sep) == [x]
    decreases |x|
  {
    if x != [] {
      SplitNoSeparator(x[1..], sep);
      assert [x[0]] + x[1..] == x;
    }
  }

  lemma {:induction false} SplitAtSeparator(x: string, sep: char, y: string)
    requires sep !in x
    ensures Split(x + [sep] + y, sep) == [x] + Split(y, sep)
    decreases |x|
  {
    var s := x + [sep] + y;
    if x == [] {
      assert s[1..] == y;
    } else {
      assert s[1..] == x[1..] + [sep] + y;
      SplitAtSeparator(x[1..], sep, y);
      assert [x[0]] + x[1..] == x;
    }
  }

  lemma DigitsHaveNoDot(n: nat)
    ensures '.' !in Digits(n)
  {
    DigitsRoundTrip(n);
  }

  lemma SplitFour(a: string, b: string, c: string, d: string)
    requires '.' !in a && '.' !in b && '.' !in c && '.' !in d
    ensures Split(a + "." + b + "." + c + "." + d, '.') == [a, b, c, d]
  {
    var cd := c + ['.'] + d;
    var bcd := b + ['.'] + cd;
    SplitNoSeparator(d, '.');
    SplitAtSeparator(c, '.', d);
    SplitAtSeparator(b, '.', cd);
    SplitAtSeparator(a, '.', bcd);
    var ab := a + "." + b;
    var abc := ab + "." + c;
    Regroup(abc, ".", d);
    Regroup(ab + ".", c, "." + d);
    Regroup(ab, ".", c + ("." + d));
    Regroup(a + ".", b, "." + (c + ("." + d)));
    Regroup(a, ".", b + ("." + (c + ("." + d))));
    Regroup(c, ".", d);
    Regroup(b, ".", cd);
    Regroup(a, ".", bcd);
  }

  lemma Regroup(x: string, y: string, z: string)
    ensures x + y + z == x + (y + z)
  {
  }

  /** The text built from an address reads back as the same address. */
  lemma DottedQuadRoundTrip(ip: IPv4)
    ensures ParseDottedQuad(DottedQuad(ip)) == Some(ip)
  {
    DigitsHaveNoDot(ip.a);
    DigitsHaveNoDot(ip.b);
    DigitsHaveNoDot(ip.c);
    DigitsHaveNoDot(ip.d);
    DigitsRoundTrip(ip.a);
    DigitsRoundTrip(ip.b);
    DigitsRoundTrip(ip.c);
    DigitsRoundTrip(ip.d);
    SplitFour(Digits(ip.a), Digits(ip.b), Digits(ip.c), Digits(ip.d));
    var parts := Split(DottedQuad(ip), '.');
    assert parts == [Digits(ip.a), Digits(ip.b), Digits(ip.c), Digits(ip.d)];
  }
}
