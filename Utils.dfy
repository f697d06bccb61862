/**
 * The encoders of utils.kt: the application-scope letter codec of
 * `ApplicationScopeDeserializer`, `Int.toByteArray`, `Boolean.toByte` and
 * `ByteArray.toHexString`.
 */
module Utils {
  import opened Results
  import opened Bytes

  /** The five scope letters, in the order of their codes 0, 1, 2, 4, 7. */
  const ScopeLetters: seq<char> := ['N', 'G', 'D', 'C', 'A']
  const ScopeCodes: seq<int32> := [0, 1, 2, 4, 7]

  /** `ApplicationScopeDeserializer.deserialize`: a scope letter to its integer code. */
  function DeserializeScope(c: char): (r: Result<int32>)
    ensures r.Ok? <==> c in ScopeLetters
    ensures r.Ok? ==> exists i :: 0 <= i < 5 && ScopeLetters[i] == c && ScopeCodes[i] == r.value
    ensures r.Err? ==> r.error == IllegalArgument("")
    ensures r.Ok? ==> SerializeScope(r.value) == Ok(c)
  {
    match c
    case 'N' => Ok(0)
    case 'G' => Ok(1)
    case 'D' => Ok(2)
    case 'C' => Ok(4)
    case 'A' => Ok(7)
    case _ => Err(IllegalArgument(""))
  }

  /** `ApplicationScopeDeserializer.serialize`: an integer code to its scope letter. */
  function SerializeScope(v: int32): (r: Result<char>)
    ensures r.Ok? <==> v in ScopeCodes
    ensures r.Ok? ==> exists i :: 0 <= i < 5 && ScopeCodes[i] == v && ScopeLetters[i] == r.value
    ensures r.Err? ==> r.error == IllegalArgument("")
  {
    match v
    case 0 => Ok('N')
    case 1 => Ok('G')
    case 2 => Ok('D')
    case 4 => Ok('C')
    case 7 => Ok('A')
    case _ => Err(IllegalArgument(""))
  }

  /** Encoding a valid code and decoding the letter gives the code back. */
  lemma SerializeThenDeserialize(v: int32)
    requires v in ScopeCodes
    ensures SerializeScope(v).Ok? && DeserializeScope(SerializeScope(v).value) == Ok(v)
  {
  }

  /** The big-endian two's-complement value of four bytes: the inverse of `IntToByteArray`. */
  function FromBigEndian(b: seq<int8>): (x: int32)
    requires |b| == 4
  {
    (b[0] as int * 0x100_0000 + Unsigned(b[1]) * 0x1_0000 + Unsigned(b[2]) * 0x100 + Unsigned(b[3])) as int32
  }

  /**
   * `Int.toByteArray`: four bytes, most significant first. `shr` is an arithmetic
   * shift, i.e. floor division by a power of two, which is Dafny's `/` for a
   * positive divisor.
   */
  function IntToByteArray(x: int32): (r: seq<int8>)
    ensures |r| == 4
    ensures FromBigEndian(r) == x
  {
    var r := [ToByte(x as int / 0x100_0000), ToByte(x as int / 0x1_0000), ToByte(x as int / 0x100), ToByte(x as int)];
    BigEndianRoundTrip(x as int, r);
    r
  }

  lemma DivMod256(x: int)
    ensures x == (x / 0x100) * 0x100 + x % 0x100
    ensures 0 <= x % 0x100 < 0x100
  {
  }

  lemma DivDiv256(x: int, m: int)
    requires m > 0
    ensures x / (m * 0x100) == (x / m) / 0x100
  {
    var q := x / m;
    var q2 := q / 0x100;
    assert x == q * m + x % m;
    assert q == q2 * 0x100 + q % 0x100;
    assert x == q2 * (m * 0x100) + ((q % 0x100) * m + x % m);
    assert 0 <= (q % 0x100) * m + x % m < m * 0x100 by {
      assert (q % 0x100) * m <= 0xff * m;
    }
    DivUnique(x, m * 0x100, q2, (q % 0x100) * m + x % m);
  }

  lemma DivUnique(x: int, m: int, q: int, r: int)
    requires m > 0 && 0 <= r < m && x == q * m + r
    ensures x / m == q && x % m == r
  {
    var q', r' := x / m, x % m;
    assert (q - q') * m == r' - r;
    if q - q' >= 1 {
      MulAtLeast(q - q', m);
    } else if q' - q >= 1 {
      MulAtLeast(q' - q, m);
    }
  }

  lemma {:induction false} MulAtLeast(a: int, m: int)
    requires a >= 1 && m > 0
    ensures a * m >= m
    decreases a
  {
    if a > 1 {
      MulAtLeast(a - 1, m);
      assert a * m == (a - 1) * m + m;
    }
  }

  lemma BigEndianRoundTrip(x: int, r: seq<int8>)
    requires -0x8000_0000 <= x < 0x8000_0000
    requires r == [ToByte(x / 0x100_0000), ToByte(x / 0x1_0000), ToByte(x / 0x100), ToByte(x)]
    ensures (r[0] as int * 0x100_0000 + Unsigned(r[1]) * 0x1_0000 + Unsigned(r[2]) * 0x100 + Unsigned(r[3])) == x
  {
    var q1 := x / 0x100;
    DivMod256(x);
    DivDiv256(x, 0x100);
    var q2 := q1 / 0x100;
    DivMod256(q1);
    DivDiv256(x, 0x1_0000);
    var q3 := q2 / 0x100;
    DivMod256(q2);
    assert x / 0x1_0000 == q2;
    assert x / 0x100_0000 == q3;
    assert -0x80 <= q3 < 0x80 by {
      assert x == q3 * 0x100_0000 + (q2 % 0x100) * 0x1_0000 + (q1 % 0x100) * 0x100 + x % 0x100;
    }
    assert r[0] as int == q3;
    assert x == q3 * 0x100_0000 + (q2 % 0x100) * 0x1_0000 + (q1 % 0x100) * 0x100 + x % 0x100;
  }

  /** Every four-byte array is the encoding of exactly the integer it spells out. */
  lemma {:induction false} ByteArrayRoundTrip(b: seq<int8>)
    requires |b| == 4
    ensures IntToByteArray(FromBigEndian(b)) == b
  {
    var x := FromBigEndian(b) as int;
    var u1, u2, u3 := Unsigned(b[1]), Unsigned(b[2]), Unsigned(b[3]);
    assert x == b[0] as int * 0x100_0000 + u1 * 0x1_0000 + u2 * 0x100 + u3;
    DivUnique(x, 0x100, b[0] as int * 0x1_0000 + u1 * 0x100 + u2, u3);
    DivUnique(x, 0x1_0000, b[0] as int * 0x100 + u1, u2 * 0x100 + u3);
    DivUnique(x, 0x100_0000, b[0] as int, u1 * 0x1_0000 + u2 * 0x100 + u3);
    DivUnique(x / 0x100, 0x100, b[0] as int * 0x100 + u1, u2);
    DivUnique(x / 0x1_0000, 0x100, b[0] as int, u1);
    var r := IntToByteArray(FromBigEndian(b));
    ByteDeterminedByUnsigned(r[0], b[0]);
    ByteDeterminedByUnsigned(r[1], b[1]);
    ByteDeterminedByUnsigned(r[2], b[2]);
    ByteDeterminedByUnsigned(r[3], b[3]);
  }

  lemma ByteDeterminedByUnsigned(a: int8, b: int8)
    requires Unsigned(a) == Unsigned(b) || Unsigned(a) == b as int % 0x100
    ensures a == b
  {
  }

  /** `Boolean.toByte`. */
  function BoolToByte(b: bool): (r: int8)
    ensures r == 1 <==> b
    ensures r == 0 <==> !b
  {
    (if b then 1 else 0) as int8
  }

  /** The lower-case hex digit of a value below 16. */
  function HexDigit(d: nat): (c: char)
    requires d < 16
  {
    if d < 10 then ('0' as int + d) as char else ('a' as int + d - 10) as char
  }

  predicate IsHexDigit(c: char) {
    '0' <= c <= '9' || 'a' <= c <= 'f'
  }

  /** The two lower-case hex digits of a byte's unsigned value, high nibble first. */
  function HexByte(b: int8): (s: string)
    ensures |s| == 2 && IsHexDigit(s[0]) && IsHexDigit(s[1])
  {
    [HexDigit(Unsigned(b) / 16), HexDigit(Unsigned(b) % 16)]
  }

  /** `ByteArray.toHexString` via `HexFormat.of().formatHex`: no delimiter, no prefix, lower case. */
  function ToHexString(bs: seq<int8>): (s: string)
    ensures |s| == 2 * |bs|
  {
    if bs == [] then "" else HexByte(bs[0]) + ToHexString(bs[1..])
  }

  /** Byte `i` is written as characters `2i` and `2i + 1`, and only hex digits are written. */
  lemma {:induction false} ToHexStringAt(bs: seq<int8>, i: nat)
    requires i < |bs|
    ensures ToHexString(bs)[2 * i..2 * i + 2] == HexByte(bs[i])
    ensures IsHexDigit(ToHexString(bs)[2 * i]) && IsHexDigit(ToHexString(bs)[2 * i + 1])
  {
    if i > 0 {
      ToHexStringAt(bs[1..], i - 1);
      assert ToHexString(bs) == HexByte(bs[0]) + ToHexString(bs[1..]);
    }
  }

  /** The value of one lower-case hex digit. */
  function HexValue(c: char): (r: Option<nat>)
    ensures r.Some? <==> IsHexDigit(c)
    ensures r.Some? ==> r.value < 16 && HexDigit(r.value) == c
  {
    if '0' <= c <= '9' then Some(c as int - '0' as int)
    else if 'a' <= c <= 'f' then Some(c as int - 'a' as int + 10)
    else None
  }

  /** Reads back a string written by `ToHexString`; `None` when it is not one. */
  function FromHexString(s: string): (r: Option<seq<int8>>)
    decreases |s|
  {
    if s == [] then Some([])
    else if |s| == 1 then None
    else if !IsHexDigit(s[0]) || !IsHexDigit(s[1]) then None
    else match FromHexString(s[2..])
      case None => None
      case Some(rest) => Some([ToByte(HexValue(s[0]).value * 16 + HexValue(s[1]).value)] + rest)
  }

  /** The two digits of a byte read back as that byte. */
  lemma HexByteRoundTrip(b: int8)
    ensures var h := HexByte(b);
      HexValue(h[0]).Some? && HexValue(h[1]).Some? && ToByte(HexValue(h[0]).value * 16 + HexValue(h[1]).value) == b
  {
    var u := Unsigned(b);
    HexDigitReadsBack(u / 16);
    HexDigitReadsBack(u % 16);
    assert u / 16 * 16 + u % 16 == u;
    ByteDeterminedByUnsigned(ToByte(u), b);
  }

  lemma HexDigitReadsBack(d: nat)
    requires d < 16
    ensures HexValue(HexDigit(d)) == Some(d)
  {
  }

  /** Reading the hex string back gives the original bytes. */
  lemma {:induction false} HexRoundTrip(bs: seq<int8>)
    ensures FromHexString(ToHexString(bs)) == Some(bs)
  {
    if bs != [] {
      var s := ToHexString(bs);
      var h := HexByte(bs[0]);
      assert s == h + ToHexString(bs[1..]);
      assert s[0] == h[0] && s[1] == h[1];
      assert s[2..] == ToHexString(bs[1..]);
      HexRoundTrip(bs[1..]);
      HexByteRoundTrip(bs[0]);
      assert bs == [bs[0]] + bs[1..];
    }
  }

  /** Every string the reader accepts is exactly the hex string of what it read. */
  lemma {:induction false} HexStringIsCanonical(s: string)
    requires FromHexString(s).Some?
    ensures ToHexString(FromHexString(s).value) == s
    decreases |s|
  {
    if s != [] {
      assert IsHexDigit(s[0]) && IsHexDigit(s[1]);
      var hi, lo := HexValue(s[0]).value, HexValue(s[1]).value;
      var rest := FromHexString(s[2..]).value;
      var bs := FromHexString(s).value;
      assert bs == [ToByte(hi * 16 + lo)] + rest;
      HexStringIsCanonical(s[2..]);
      HexPairCanonical(s[0], s[1]);
      assert bs[1..] == rest;
      assert s == [s[0], s[1]] + s[2..];
    }
  }

  /** Two hex digits read as a byte are written back as the same two digits. */
  lemma HexPairCanonical(c0: char, c1: char)
    requires IsHexDigit(c0) && IsHexDigit(c1)
    ensures HexByte(ToByte(HexValue(c0).value * 16 + HexValue(c1).value)) == [c0, c1]
  {
    var hi, lo := HexValue(c0).value, HexValue(c1).value;
    var u := hi * 16 + lo;
    assert Unsigned(ToByte(u)) == u;
    assert u / 16 == hi && u % 16 == lo;
  }
}
