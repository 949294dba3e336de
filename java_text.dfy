/** The few fragments of the Java runtime that the core leans on: decimal
    rendering of integers (string concatenation with `+`), 32-bit `int`
    wrap-around and `String.hashCode`. */
module JavaText {
  import opened Wrappers

  predicate IsDigit(c: char) {
    '0' <= c <= '9'
  }

  /** A string of decimal digits only (`[0-9]*`). */
  predicate AllDigits(s: string) {
    forall i | 0 <= i < |s| :: IsDigit(s[i])
  }

  function DigitChar(d: nat): (c: char)
    requires d < 10
    ensures IsDigit(c) && c as int - '0' as int == d
  {
    ['0', '1', '2', '3', '4', '5', '6', '7', '8', '9'][d]
  }

  /** The value of a string of decimal digits. */
  function DigitsValue(s: string): nat
    requires AllDigits(s)
  {
    if s == [] then 0
    else
      assert IsDigit(s[|s| - 1]);
      DigitsValue(s[..|s| - 1]) * 10 + (s[|s| - 1] as int - '0' as int)
  }

  /** Decimal rendering of a non-negative number, as `Long.toString` writes it. */
  function NatToString(n: nat): (s: string)
    ensures 0 < |s|
    ensures AllDigits(s)
    ensures DigitsValue(s) == n
    ensures |s| > 1 ==> s[0] != '0'
    decreases n
  {
    if n < 10 then [DigitChar(n)]
    else
      var s := NatToString(n / 10) + [DigitChar(n % 10)];
      assert s[..|s| - 1] == NatToString(n / 10);
      s
  }

  /** Decimal rendering of any integer, as `Integer.toString` and
      `Long.toString` write it: a leading `-` for negative values. */
  function IntToString(n: int): (s: string)
    ensures 0 < |s|
    ensures (s[0] == '-') <==> n < 0
    ensures var d := if n < 0 then s[1..] else s;
      && 0 < |d|
      && AllDigits(d)
      && DigitsValue(d) == (if n < 0 then -n else n)
      && (|d| > 1 ==> d[0] != '0')
  {
    if n < 0 then "-" + NatToString(-n) else NatToString(n)
  }

  /** The rendering names its number: different integers are written
      differently. */
  lemma IntToStringInjective(a: int, b: int)
    requires IntToString(a) == IntToString(b)
    ensures a == b
  {
    var s := IntToString(a);
    assert (s[0] == '-') <==> a < 0;
    assert (s[0] == '-') <==> b < 0;
  }

  /** String concatenation renders `null` as the four letters "null". */
  function ShowString(s: Option<string>): string {
    match s
    case None => "null"
    case Some(v) => v
  }

  const TwoTo32: int := 0x1_0000_0000
  const TwoTo31: int := 0x8000_0000

  predicate InIntRange(x: int) {
    -TwoTo31 <= x < TwoTo31
  }

  /** Java `int` arithmetic: the two's-complement value of `x` modulo 2^32. */
  function Wrap32(x: int): (r: int)
    ensures InIntRange(r)
    ensures (r - x) % TwoTo32 == 0
  {
    var m := x % TwoTo32;
    if m < TwoTo31 then m else m - TwoTo32
  }

  /** The UTF-16 code units Java stores for one character: one unit inside
      the Basic Multilingual Plane, a surrogate pair outside it. */
  function Utf16Units(c: char): (u: seq<int>)
    ensures 1 <= |u| <= 2
    ensures forall i | 0 <= i < |u| :: 0 <= u[i] < 0x1_0000
  {
    var v := c as int;
    if v < 0x1_0000 then [v]
    else [0xD800 + (v - 0x1_0000) / 0x400, 0xDC00 + (v - 0x1_0000) % 0x400]
  }

  /** `String.hashCode` over the code units, from a running hash `h`:
      h := 31 * h + unit, in `int` arithmetic. */
  function HashUnits(h: int, units: seq<int>): (r: int)
    requires InIntRange(h)
    ensures InIntRange(r)
    ensures units == [] ==> r == h
    decreases |units|
  {
    if units == [] then h else HashUnits(Wrap32(31 * h + units[0]), units[1..])
  }

  function StringUnits(s: string): seq<int> {
    if s == [] then [] else Utf16Units(s[0]) + StringUnits(s[1..])
  }

  function StringHash(s: string): (r: int)
    ensures InIntRange(r)
    ensures s == [] ==> r == 0
  {
    HashUnits(0, StringUnits(s))
  }

  /** `Long.hashCode`: the low 32 bits of `v ^ (v >>> 32)`, read as an `int`. */
  function LongHash(v: int): (r: int)
    ensures InIntRange(r)
  {
    var b := (v % 0x1_0000_0000_0000_0000) as bv64;
    var x := b ^ (b >> 32);
    Wrap32((x & 0xFFFF_FFFF) as int)
  }
}
