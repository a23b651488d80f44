/** The bit operations of `src/physmem/frame_database.rs` on a byte array. */
module Bitmap {

  function Mask(bit: nat): bv8
    requires bit < 8
  {
    match bit
    case 0 => 1 case 1 => 2 case 2 => 4 case 3 => 8
    case 4 => 16 case 5 => 32 case 6 => 64 case _ => 128
  }

  predicate ByteBit(byte: bv8, bit: nat)
    requires bit < 8
  {
    byte & Mask(bit) != 0
  }

  lemma OrSetsOneBit(byte: bv8, i: nat, j: nat)
    requires i < 8 && j < 8
    ensures ByteBit(byte | Mask(i), j) <==> i == j || ByteBit(byte, j)
  {
    assert Mask(i) & Mask(j) == if i == j then Mask(i) else 0;
    assert (byte | Mask(i)) & Mask(j) == (byte & Mask(j)) | (Mask(i) & Mask(j));
  }

  lemma AndNotClearsOneBit(byte: bv8, i: nat, j: nat)
    requires i < 8 && j < 8
    ensures ByteBit(byte & !Mask(i), j) <==> i != j && ByteBit(byte, j)
  {
    assert Mask(i) & Mask(j) == if i == j then Mask(i) else 0;
    assert (byte & !Mask(i)) & Mask(j) == (byte & Mask(j)) & !(Mask(i) & Mask(j));
  }

  lemma ZeroByte(byte: bv8)
    ensures byte == 0 <==> forall i :: 0 <= i < 8 ==> !ByteBit(byte, i)
  {
    if forall i :: 0 <= i < 8 ==> !ByteBit(byte, i) {
      assert !ByteBit(byte, 0) && !ByteBit(byte, 1) && !ByteBit(byte, 2) && !ByteBit(byte, 3);
      assert !ByteBit(byte, 4) && !ByteBit(byte, 5) && !ByteBit(byte, 6) && !ByteBit(byte, 7);
    }
  }

  predicate GetBit(bitmask: seq<bv8>, index: nat)
    requires index < 8 * |bitmask|
  {
    ByteBit(bitmask[index / 8], index % 8)
  }

  function Put(byte: bv8, bit: nat, value: bool): bv8
    requires bit < 8
  {
    if value then byte | Mask(bit) else byte & !Mask(bit)
  }

  lemma PutBit(byte: bv8, i: nat, value: bool, j: nat)
    requires i < 8 && j < 8
    ensures ByteBit(Put(byte, i, value), j) == if i == j then value else ByteBit(byte, j)
  {
    OrSetsOneBit(byte, i, j);
    AndNotClearsOneBit(byte, i, j);
  }

  lemma PutInMap(was: seq<bv8>, index: nat, value: bool, j: nat)
    requires index < 8 * |was| && j < 8 * |was|
    ensures GetBit(was[index / 8 := Put(was[index / 8], index % 8, value)], j) ==
      if j == index then value else GetBit(was, j)
  {
    PutBit(was[index / 8], index % 8, value, j % 8);
  }

  method SetBit(bitmask: array<bv8>, index: nat, value: bool)
    requires index < 8 * bitmask.Length
    modifies bitmask
    ensures GetBit(bitmask[..], index) == value
    ensures forall j: nat :: j < 8 * bitmask.Length && j != index ==>
      GetBit(bitmask[..], j) == GetBit(old(bitmask[..]), j)
  {
    ghost var was := bitmask[..];
    bitmask[index / 8] := Put(bitmask[index / 8], index % 8, value);
    assert bitmask[..] == was[index / 8 := Put(was[index / 8], index % 8, value)];
    forall j: nat | j < 8 * |was|
      ensures GetBit(bitmask[..], j) == if j == index then value else GetBit(was, j)
    {
      PutInMap(was, index, value, j);
    }
  }

  method ClearAll(bitmask: array<bv8>)
    modifies bitmask
    ensures forall i: nat :: i < 8 * bitmask.Length ==> !GetBit(bitmask[..], i)
  {
    var b := 0;
    while b < bitmask.Length
      invariant b <= bitmask.Length && forall k :: 0 <= k < b ==> bitmask[k] == 0
    {
      bitmask[b] := 0;
      b := b + 1;
    }
    forall i: nat | i < 8 * bitmask.Length
      ensures !GetBit(bitmask[..], i)
    {
      ZeroByte(bitmask[i / 8]);
    }
  }

  /** Position of the lowest set bit, or 8 for a zero byte. */
  method LowestOneBit(byte: bv8) returns (bit: nat)
    ensures bit <= 8 && (bit < 8 ==> ByteBit(byte, bit))
    ensures forall j :: 0 <= j < bit ==> !ByteBit(byte, j)
    ensures bit == 8 <==> byte == 0
  {
    bit := 0;
    while bit < 8 && !ByteBit(byte, bit)
      invariant bit <= 8
      invariant forall j :: 0 <= j < bit ==> !ByteBit(byte, j)
    {
      bit := bit + 1;
    }
    ZeroByte(byte);
  }

  /** The lowest set bit of the whole map, or its length when none is set. */
  method LowestSet(bitmask: array<bv8>) returns (index: nat)
    ensures index <= 8 * bitmask.Length
    ensures index < 8 * bitmask.Length ==> GetBit(bitmask[..], index)
    ensures forall j: nat :: j < index && j < 8 * bitmask.Length ==> !GetBit(bitmask[..], j)
  {
    var byte := 0;
    while byte < bitmask.Length && bitmask[byte] == 0
      invariant byte <= bitmask.Length
      invariant forall k :: 0 <= k < byte ==> bitmask[k] == 0
    {
      byte := byte + 1;
    }
    if byte == bitmask.Length {
      index := 8 * byte;
    } else {
      var bit := LowestOneBit(bitmask[byte]);
      index := 8 * byte + bit;
    }
    forall j: nat | j < index && j < 8 * bitmask.Length
      ensures !GetBit(bitmask[..], j)
    {
      if j / 8 < byte {
        ZeroByte(bitmask[j / 8]);
      }
    }
  }
}
