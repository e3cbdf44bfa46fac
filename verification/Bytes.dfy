/** Little-endian integers as byte sequences. */
module Bytes {
  type Byte = b: int | 0 <= b < 0x100
  type U16 = x: int | 0 <= x < 0x1_0000
  type U32 = x: int | 0 <= x < 0x1_0000_0000
  type U64 = x: int | 0 <= x < 0x1_0000_0000_0000_0000
  type I64 = x: int | -0x8000_0000_0000_0000 <= x < 0x8000_0000_0000_0000
  type I32 = x: int | -0x8000_0000 <= x < 0x8000_0000

  function Le(x: nat, n: nat): (b: seq<Byte>)
    ensures |b| == n
  {
    if n == 0 then [] else [x % 0x100] + Le(x / 0x100, n - 1)
  }

  function FromLe(b: seq<Byte>): nat {
    if b == [] then 0 else b[0] + 0x100 * FromLe(b[1..])
  }

  function Pow256(n: nat): (p: nat)
    ensures p > 0
  {
    if n == 0 then 1 else 0x100 * Pow256(n - 1)
  }

  lemma Pow256Values()
    ensures Pow256(1) == 0x100 && Pow256(2) == 0x1_0000 && Pow256(4) == 0x1_0000_0000
    ensures Pow256(8) == 0x1_0000_0000_0000_0000
  {
    assert Pow256(3) == 0x100_0000 && Pow256(5) == 0x100_0000_0000 && Pow256(6) == 0x1_0000_0000_0000;
  }

  /** Writing and reading back loses exactly what does not fit. */
  lemma {:induction false} LeRound(x: nat, n: nat)
    ensures FromLe(Le(x, n)) == x % Pow256(n)
  {
    if n > 0 {
      LeRound(x / 0x100, n - 1);
      DivModSplit(x, Pow256(n - 1));
    }
  }

  lemma DivModSplit(x: nat, p: nat)
    requires p > 0
    ensures x % 0x100 + 0x100 * ((x / 0x100) % p) == x % (0x100 * p)
  {
    var q, r := (x / 0x100) / p, (x / 0x100) % p;
    var low := x % 0x100 + 0x100 * r;
    calc {
      x;
      x % 0x100 + 0x100 * (x / 0x100);
      { assert x / 0x100 == q * p + r; }
      x % 0x100 + 0x100 * (q * p + r);
      low + 0x100 * (q * p);
      { assert 0x100 * (q * p) == q * (0x100 * p); }
      low + q * (0x100 * p);
    }
    assert low < 0x100 * p by {
      assert 0x100 * r <= 0x100 * (p - 1);
    }
    Remainder(x, 0x100 * p, q, low);
  }

  lemma Remainder(x: nat, d: nat, q: nat, r: nat)
    requires x == r + q * d && r < d
    ensures x % d == r
  {
    var k := x / d - q;
    if k > 0 {
      Times(k, d);
    } else if k < 0 {
      Times(-k, d);
    }
    assert k * d == r - x % d;
  }

  lemma Times(k: nat, d: nat)
    requires k > 0
    ensures k * d >= d
  {
  }

  lemma {:induction false} FromLeBound(b: seq<Byte>)
    ensures FromLe(b) < Pow256(|b|)
  {
    if b != [] {
      FromLeBound(b[1..]);
    }
  }

  function GetU16(b: seq<Byte>): U16
    requires |b| == 2
  {
    FromLeBound(b);
    Pow256Values();
    FromLe(b)
  }

  function GetU32(b: seq<Byte>): U32
    requires |b| == 4
  {
    FromLeBound(b);
    Pow256Values();
    FromLe(b)
  }

  function GetU64(b: seq<Byte>): U64
    requires |b| == 8
  {
    FromLeBound(b);
    Pow256Values();
    FromLe(b)
  }

  /** Two's complement. */
  function PutI64(x: I64): seq<Byte> {
    Le(if x < 0 then x + 0x1_0000_0000_0000_0000 else x, 8)
  }

  function GetI64(b: seq<Byte>): I64
    requires |b| == 8
  {
    var x := GetU64(b);
    if x < 0x8000_0000_0000_0000 then x else x - 0x1_0000_0000_0000_0000
  }

  function PutI32(x: I32): seq<Byte> {
    Le(if x < 0 then x + 0x1_0000_0000 else x, 4)
  }

  function GetI32(b: seq<Byte>): I32
    requires |b| == 4
  {
    var x := GetU32(b);
    if x < 0x8000_0000 then x else x - 0x1_0000_0000
  }

  lemma U16Round(x: U16)
    ensures GetU16(Le(x, 2)) == x
  {
    Pow256Values();
    LeRound(x, 2);
  }

  lemma U32Round(x: U32)
    ensures GetU32(Le(x, 4)) == x
  {
    Pow256Values();
    LeRound(x, 4);
  }

  lemma U64Round(x: U64)
    ensures GetU64(Le(x, 8)) == x
  {
    Pow256Values();
    LeRound(x, 8);
  }

  lemma I64Round(x: I64)
    ensures GetI64(PutI64(x)) == x
  {
    U64Round(if x < 0 then x + 0x1_0000_0000_0000_0000 else x);
  }

  lemma I32Round(x: I32)
    ensures GetI32(PutI32(x)) == x
  {
    U32Round(if x < 0 then x + 0x1_0000_0000 else x);
  }
}
