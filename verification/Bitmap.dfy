/** A bitmap packed into bytes refines a sequence of bits. */
module Bitmap {
  import opened MemTypes

  function Bit(b: bv8, k: nat): bool
    requires k < 8
  {
    (b >> k) & 1 != 0
  }

  method SetInByte(b: bv8, k: nat) returns (r: bv8)
    requires k < 8
    ensures forall j: nat :: j < 8 ==> Bit(r, j) == if j == k then true else Bit(b, j)
  {
    r := b | (1 << k);
    forall j: nat | j < 8
      ensures Bit(r, j) == if j == k then true else Bit(b, j)
    {
      if j == k {
        SetThis(b, k);
      } else {
        SetOther(b, k, j);
      }
    }
  }

  lemma {:induction false} SetThis(b: bv8, k: nat)
    requires k < 8
    ensures Bit(b | (1 << k), k) == true
  {
  }

  lemma {:induction false} SetOther(b: bv8, k: nat, j: nat)
    requires k < 8 && j < 8 && j != k
    ensures Bit(b | (1 << k), j) == Bit(b, j)
  {
  }

  method UnsetInByte(b: bv8, k: nat) returns (r: bv8)
    requires k < 8
    ensures forall j: nat :: j < 8 ==> Bit(r, j) == if j == k then false else Bit(b, j)
  {
    r := b & !(1 << k);
    forall j: nat | j < 8
      ensures Bit(r, j) == if j == k then false else Bit(b, j)
    {
      if j == k {
        UnsetThis(b, k);
      } else {
        UnsetOther(b, k, j);
      }
    }
  }

  lemma {:induction false} UnsetThis(b: bv8, k: nat)
    requires k < 8
    ensures Bit(b & !(1 << k), k) == false
  {
  }

  lemma {:induction false} UnsetOther(b: bv8, k: nat, j: nat)
    requires k < 8 && j < 8 && j != k
    ensures Bit(b & !(1 << k), j) == Bit(b, j)
  {
  }

  method ToggleInByte(b: bv8, k: nat) returns (r: bv8)
    requires k < 8
    ensures forall j: nat :: j < 8 ==> Bit(r, j) == if j == k then !Bit(b, k) else Bit(b, j)
  {
    r := b ^ (1 << k);
    forall j: nat | j < 8
      ensures Bit(r, j) == if j == k then !Bit(b, k) else Bit(b, j)
    {
      if j == k {
        ToggleThis(b, k);
      } else {
        ToggleOther(b, k, j);
      }
    }
  }

  lemma {:induction false} ToggleThis(b: bv8, k: nat)
    requires k < 8
    ensures Bit(b ^ (1 << k), k) == !Bit(b, k)
  {
  }

  lemma {:induction false} ToggleOther(b: bv8, k: nat, j: nat)
    requires k < 8 && j < 8 && j != k
    ensures Bit(b ^ (1 << k), j) == Bit(b, j)
  {
  }

  /** All bits of some bytes, lowest bit of the first byte first. */
  ghost function Unpack(bytes: seq<bv8>): (bits: seq<bool>)
    ensures |bits| == 8 * |bytes|
    ensures forall i :: 0 <= i < |bits| ==> bits[i] == Bit(bytes[i / 8], i % 8)
  {
    seq(8 * |bytes|, i requires 0 <= i < 8 * |bytes| => Bit(bytes[i / 8], i % 8))
  }

  /** Changing one bit of one byte changes one bit. */
  lemma {:induction false} UpdateByte(bytes: seq<bv8>, index: nat, b: bv8, on: bool)
    requires index < 8 * |bytes|
    requires forall j: nat :: j < 8 ==> Bit(b, j) == if j == index % 8 then on else Bit(bytes[index / 8], j)
    ensures Unpack(bytes[index / 8 := b]) == Unpack(bytes)[index := on]
  {
    var bytes' := bytes[index / 8 := b];
    forall i | 0 <= i < 8 * |bytes|
      ensures Unpack(bytes')[i] == Unpack(bytes)[index := on][i]
    {
      assert i / 8 == index / 8 && i % 8 == index % 8 ==> i == index;
    }
  }

  /** The first clear bit below `limit`. */
  ghost predicate IsFirstZero(bits: seq<bool>, limit: nat, r: Option<nat>)
    requires limit <= |bits|
  {
    match r
    case Some(i) => i < limit && !bits[i] && forall j :: 0 <= j < i ==> bits[j]
    case None => forall j :: 0 <= j < limit ==> bits[j]
  }

  class Bitmap {
    const bytes: array<bv8>

    constructor (bytes: array<bv8>)
      ensures this.bytes == bytes
    {
      this.bytes := bytes;
    }

    ghost function Bits(): (bits: seq<bool>)
      reads bytes
      ensures |bits| == 8 * bytes.Length
    {
      Unpack(bytes[..])
    }

    method Get(index: nat) returns (on: bool)
      requires index < 8 * bytes.Length
      ensures on == Bits()[index]
    {
      return (bytes[index / 8] >> (index % 8)) & 1 != 0;
    }

    method FirstZero(limit: nat) returns (r: Option<nat>)
      requires limit <= 8 * bytes.Length
      ensures IsFirstZero(Bits(), limit, r)
    {
      for index := 0 to limit
        invariant forall j :: 0 <= j < index ==> Bits()[j]
      {
        var on := Get(index);
        if !on {
          return Some(index);
        }
      }
      return None;
    }

    method Set(index: nat)
      requires index < 8 * bytes.Length
      modifies bytes
      ensures Bits() == old(Bits())[index := true]
    {
      var byte, bit := index / 8, index % 8;
      var r := SetInByte(bytes[byte], bit);
      UpdateByte(bytes[..], index, r, true);
      bytes[byte] := r;
      assert bytes[..] == old(bytes[..])[byte := bytes[byte]];
    }

    method Unset(index: nat)
      requires index < 8 * bytes.Length
      modifies bytes
      ensures Bits() == old(Bits())[index := false]
    {
      var byte, bit := index / 8, index % 8;
      var r := UnsetInByte(bytes[byte], bit);
      UpdateByte(bytes[..], index, r, false);
      bytes[byte] := r;
      assert bytes[..] == old(bytes[..])[byte := bytes[byte]];
    }

    method Toggle(index: nat)
      requires index < 8 * bytes.Length
      modifies bytes
      ensures Bits() == old(Bits())[index := !old(Bits())[index]]
    {
      var byte, bit := index / 8, index % 8;
      var r := ToggleInByte(bytes[byte], bit);
      UpdateByte(bytes[..], index, r, !Bit(bytes[byte], bit));
      bytes[byte] := r;
      assert bytes[..] == old(bytes[..])[byte := bytes[byte]];
    }
  }
}
