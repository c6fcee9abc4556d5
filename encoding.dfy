/**
 * Machine-level representations shared by the assembler and the virtual
 * machine: bytes, the 32-bit unsigned words used for operands and code
 * offsets, the 64-bit signed integers of the INT datatype, and the
 * little-endian byte order in which both are laid out in the code buffer.
 */
module Encoding {

  newtype byte = x: int | 0 <= x < 256

  const TWO32: nat := 0x1_0000_0000
  const TWO63: nat := 0x8000_0000_0000_0000
  const TWO64: nat := 0x1_0000_0000_0000_0000

  /** C++ `unsigned int`. */
  type u32 = x: nat | x < 0x1_0000_0000

  /** C++ `long long int`. */
  type i64 = x: int | -0x8000_0000_0000_0000 <= x < 0x8000_0000_0000_0000

  datatype Option<T> = None | Some(value: T)

  /** Conversion of a non-negative count or offset to `unsigned int`. */
  function U32(n: nat): (r: u32)
    ensures n < TWO32 ==> r == n
  {
    n % 0x1_0000_0000
  }

  /** Conversion of an `int` to `unsigned int`: the value modulo 2^32. */
  function ToU32(i: int): (r: u32)
    ensures 0 <= i < TWO32 ==> r == i
    ensures (r - i) % TWO32 == 0
    ensures 0 <= i ==> r <= i
  {
    i % 0x1_0000_0000
  }

  /** Two's-complement wrap-around of an exact integer result to 64 bits. */
  function Wrap64(x: int): (r: i64)
    ensures -(TWO63 as int) <= x < TWO63 ==> r == x
    ensures (r - x) % TWO64 == 0
  {
    ((x + 0x8000_0000_0000_0000) % 0x1_0000_0000_0000_0000) - 0x8000_0000_0000_0000
  }

  function Pow256(n: nat): (r: nat)
    ensures r > 0
  {
    if n == 0 then 1 else 256 * Pow256(n - 1)
  }

  /** The `n` low-order bytes of `v`, least significant first. */
  function LittleEndian(v: nat, n: nat): (r: seq<byte>)
    ensures |r| == n
  {
    if n == 0 then [] else [(v % 256) as byte] + LittleEndian(v / 256, n - 1)
  }

  /** The unsigned number whose little-endian bytes are `b`. */
  function FromLittleEndian(b: seq<byte>): (r: nat)
    ensures r < Pow256(|b|)
  {
    if |b| == 0 then 0 else b[0] as nat + 256 * FromLittleEndian(b[1..])
  }

  lemma {:induction false} LittleEndianRoundTrip(v: nat, n: nat)
    ensures FromLittleEndian(LittleEndian(v, n)) == v % Pow256(n)
  {
    if n > 0 {
      LittleEndianRoundTrip(v / 256, n - 1);
      var rest := LittleEndian(v / 256, n - 1);
      assert LittleEndian(v, n)[1..] == rest;
      ModOfProduct(v, Pow256(n - 1));
    }
  }

  lemma ModOfProduct(v: nat, p: nat)
    requires p > 0
    ensures v % (256 * p) == v % 256 + 256 * ((v / 256) % p)
  {
    var q := v / 256;
    var r := v % 256;
    var q2 := q / p;
    var r2 := q % p;
    assert q == p * q2 + r2;
    calc {
      v;
      256 * q + r;
      256 * (p * q2 + r2) + r;
      { MulAssoc(256, p, q2); }
      (256 * p) * q2 + (256 * r2 + r);
    }
    DivModUnique(v, 256 * p, q2, 256 * r2 + r);
  }

  lemma MulAssoc(a: int, b: int, c: int)
    ensures a * (b * c) == (a * b) * c
  {
  }

  lemma DivModUnique(v: int, d: int, q: int, r: int)
    requires d > 0 && 0 <= r < d && v == d * q + r
    ensures v % d == r
  {
    var q0, r0 := v / d, v % d;
    var k := q - q0;
    Distrib(d, q, q0);
    assert d * k == r0 - r;
    if k >= 1 {
      Distrib(d, k, 1);
      MulNonneg(d, k - 1);
    } else if k <= -1 {
      assert d * (-k) == -(d * k);
      Distrib(d, -k, 1);
      MulNonneg(d, -k - 1);
    }
  }

  lemma Distrib(a: int, b: int, c: int)
    ensures a * (b - c) == a * b - a * c
  {
  }

  lemma MulNonneg(a: int, b: int)
    requires a >= 0 && b >= 0
    ensures a * b >= 0
  {
  }

  lemma {:induction false} FromLittleEndianRoundTrip(b: seq<byte>)
    ensures LittleEndian(FromLittleEndian(b), |b|) == b
  {
    if |b| > 0 {
      var v := FromLittleEndian(b);
      var t := FromLittleEndian(b[1..]);
      assert v % 256 == b[0] as nat && v / 256 == t;
      FromLittleEndianRoundTrip(b[1..]);
    }
  }

  /** A 4-byte operand: an `unsigned int` in machine byte order. */
  function Word(v: u32): (r: seq<byte>)
    ensures |r| == 4
  {
    LittleEndian(v, 4)
  }

  function ReadWord(b: seq<byte>): (r: u32)
    requires |b| >= 4
  {
    FromLittleEndian(b[..4])
  }

  lemma WordRoundTrip(v: u32)
    ensures ReadWord(Word(v)) == v
  {
    LittleEndianRoundTrip(v, 4);
    assert Word(v)[..4] == Word(v);
  }

  lemma ReadWordRoundTrip(b: seq<byte>)
    requires |b| == 4
    ensures Word(ReadWord(b)) == b
  {
    assert b[..4] == b;
    FromLittleEndianRoundTrip(b);
  }

  /** An 8-byte operand: a `long long int` in two's complement, machine byte order. */
  function Int64Bytes(v: i64): (r: seq<byte>)
    ensures |r| == 8
  {
    LittleEndian((v % 0x1_0000_0000_0000_0000) as nat, 8)
  }

  function ReadInt64(b: seq<byte>): (r: i64)
    requires |b| >= 8
  {
    var u := FromLittleEndian(b[..8]);
    if u >= 0x8000_0000_0000_0000 then u - 0x1_0000_0000_0000_0000 else u
  }

  lemma Int64RoundTrip(v: i64)
    ensures ReadInt64(Int64Bytes(v)) == v
  {
    var u := (v % 0x1_0000_0000_0000_0000) as nat;
    if v >= 0 {
      DivModUnique(v, 0x1_0000_0000_0000_0000, 0, v);
    } else {
      DivModUnique(v, 0x1_0000_0000_0000_0000, -1, v + 0x1_0000_0000_0000_0000);
    }
    assert u == if v >= 0 then v else v + 0x1_0000_0000_0000_0000;
    LittleEndianRoundTrip(u, 8);
    Pow256Eight();
    DivModUnique(u, 0x1_0000_0000_0000_0000, 0, u);
    assert Int64Bytes(v)[..8] == Int64Bytes(v);
  }

  lemma Pow256Eight()
    ensures Pow256(8) == 0x1_0000_0000_0000_0000
  {
    assert Pow256(4) == 0x1_0000_0000;
  }

  /** `char` to `unsigned char`: the low eight bits of the code point. */
  function CharByte(c: char): byte
  {
    ((c as int) % 256) as byte
  }

  function ByteChar(b: byte): char
  {
    (b as int) as char
  }

  lemma ByteCharRoundTrip(b: byte)
    ensures CharByte(ByteChar(b)) == b
  {
  }
}
