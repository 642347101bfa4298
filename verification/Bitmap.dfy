/** Bitmaps kept in bytes: setting, clearing, testing and counting bits. */
module Bitmap {
  type Byte = bv8

  /** 1 << k */
  function Mask(k: nat): Byte
    requires k < 8
  {
    if k == 0 then 1 else if k == 1 then 2 else if k == 2 then 4 else if k == 3 then 8
    else if k == 4 then 16 else if k == 5 then 32 else if k == 6 then 64 else 128
  }

  predicate Test(b: Byte, k: nat)
    requires k < 8
  {
    b & Mask(k) != 0
  }

  function With(b: Byte, k: nat): Byte
    requires k < 8
  {
    b | Mask(k)
  }

  function Without(b: Byte, k: nat): Byte
    requires k < 8
  {
    b & !Mask(k)
  }

  /** The bit is set: bitmap_testbit. */
  predicate Bit(bits: seq<Byte>, i: nat)
    requires i < 8 * |bits|
  {
    Test(bits[i / 8], i % 8)
  }

  /** bitmap_setbit */
  function SetBit(bits: seq<Byte>, i: nat): (r: seq<Byte>)
    requires i < 8 * |bits|
    ensures |r| == |bits|
  {
    bits[i / 8 := With(bits[i / 8], i % 8)]
  }

  /** bitmap_clearbit */
  function ClearBit(bits: seq<Byte>, i: nat): (r: seq<Byte>)
    requires i < 8 * |bits|
    ensures |r| == |bits|
  {
    bits[i / 8 := Without(bits[i / 8], i % 8)]
  }

  lemma TestChanged(b: Byte, k: nat, j: nat)
    requires j < 8 && k < 8
    ensures Test(With(b, k), j) <==> j == k || Test(b, j)
    ensures Test(Without(b, k), j) <==> j != k && Test(b, j)
  {
  }

  lemma SameIndex(i: nat, j: nat)
    ensures i == j <==> i / 8 == j / 8 && i % 8 == j % 8
  {
  }

  lemma SetBitAt(bits: seq<Byte>, i: nat, j: nat)
    requires i < 8 * |bits| && j < 8 * |bits|
    ensures Bit(SetBit(bits, i), j) <==> j == i || Bit(bits, j)
    ensures Bit(ClearBit(bits, i), j) <==> j != i && Bit(bits, j)
  {
    hide Test, With, Without;
    TestChanged(bits[i / 8], i % 8, j % 8);
    SameIndex(i, j);
  }

  /** Number of set bits below `n`. */
  ghost function Ones(bits: seq<Byte>, n: nat): (r: nat)
    requires n <= 8 * |bits|
    ensures r <= n
  {
    if n == 0 then 0 else Ones(bits, n - 1) + if Bit(bits, n - 1) then 1 else 0
  }

  lemma {:induction false} OnesSet(bits: seq<Byte>, i: nat, n: nat)
    requires i < 8 * |bits| && n <= 8 * |bits| && !Bit(bits, i)
    ensures Ones(SetBit(bits, i), n) == Ones(bits, n) + if i < n then 1 else 0
  {
    hide Bit, SetBit;
    if n > 0 {
      OnesSet(bits, i, n - 1);
      SetBitAt(bits, i, n - 1);
    }
  }

  lemma {:induction false} OnesClear(bits: seq<Byte>, i: nat, n: nat)
    requires i < 8 * |bits| && n <= 8 * |bits| && Bit(bits, i)
    ensures Ones(ClearBit(bits, i), n) == Ones(bits, n) - if i < n then 1 else 0
  {
    hide Bit, ClearBit;
    if n > 0 {
      OnesClear(bits, i, n - 1);
      SetBitAt(bits, i, n - 1);
    }
  }

  lemma {:induction false} OnesAll(bits: seq<Byte>, n: nat)
    requires n <= 8 * |bits|
    ensures Ones(bits, n) == n <==> forall i :: 0 <= i < n ==> Bit(bits, i)
  {
    hide Bit;
    if n > 0 {
      OnesAll(bits, n - 1);
    }
  }

  lemma {:induction false} OnesNone(bits: seq<Byte>, n: nat)
    requires n <= 8 * |bits|
    ensures Ones(bits, n) == 0 <==> forall i :: 0 <= i < n ==> !Bit(bits, i)
  {
    hide Bit;
    if n > 0 {
      OnesNone(bits, n - 1);
    }
  }

  lemma BitIs(bits: seq<Byte>, i: nat, j: nat)
    requires i < |bits| && j < 8
    ensures Bit(bits, i * 8 + j) <==> Test(bits[i], j)
  {
    hide Test;
    assert (i * 8 + j) / 8 == i && (i * 8 + j) % 8 == j;
  }

  /** bitmap_firstzero: the first clear bit below `size`, or -1. */
  method FirstZero(bits: seq<Byte>, size: nat) returns (k: int)
    requires size <= 8 * |bits|
    ensures -1 <= k < size
    ensures k >= 0 ==> !Bit(bits, k) && forall i :: 0 <= i < k ==> Bit(bits, i)
    ensures k == -1 <==> Ones(bits, size) == size
  {
    hide Test, Bit;
    OnesAll(bits, size);
    for i := 0 to (size + 7) / 8
      invariant forall n :: 0 <= n < 8 * i && n < size ==> Bit(bits, n)
    {
      for j := 0 to 8
        invariant forall n :: 0 <= n < 8 * i + j && n < size ==> Bit(bits, n)
      {
        if i * 8 + j < size {
          BitIs(bits, i, j);
        }
        if !Test(bits[i], j) && i * 8 + j < size {
          return i * 8 + j;
        }
      }
    }
    return -1;
  }

  function NoBits(n: nat): (bits: seq<Byte>)
    ensures |bits| == n && forall i :: 0 <= i < 8 * n ==> !Bit(bits, i)
  {
    seq(n, _ => 0)
  }
}
