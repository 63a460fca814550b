/** The page bitmap, most significant bit first (src/bitmap.cpp). */
module Bitmaps {
  type Byte = bv8

  function Mask(k: nat): Byte
    requires k < 8
  {
    0x80 >> k
  }

  predicate Bit(b: Byte, k: nat)
    requires k < 8
  {
    b & Mask(k) > 0
  }

  lemma MaskValues(k: nat)
    requires k < 8
    ensures Mask(k) == if k == 0 then 0x80 else if k == 1 then 0x40 else if k == 2 then 0x20 else if k == 3 then 0x10
                       else if k == 4 then 0x08 else if k == 5 then 0x04 else if k == 6 then 0x02 else 0x01
  {
    if k == 0 { assert Mask(0) == 0x80; }
    else if k == 1 { assert Mask(1) == 0x40; }
    else if k == 2 { assert Mask(2) == 0x20; }
    else if k == 3 { assert Mask(3) == 0x10; }
    else if k == 4 { assert Mask(4) == 0x08; }
    else if k == 5 { assert Mask(5) == 0x04; }
    else if k == 6 { assert Mask(6) == 0x02; }
    else { assert Mask(7) == 0x01; }
  }

  function Cleared(b: Byte, m: Byte): Byte {
    b & !m
  }

  function Raised(b: Byte, m: Byte): Byte {
    b | m
  }

  /** What set stores for bit k: the bit cleared, and set again if asked. */
  function Stored(b: Byte, k: nat, value: bool): Byte
    requires k < 8
  {
    if value then Raised(Cleared(b, Mask(k)), Mask(k)) else Cleared(b, Mask(k))
  }

  lemma StoredBits(b: Byte, k: nat, value: bool, j: nat)
    requires k < 8 && j < 8
    ensures Bit(Stored(b, k, value), j) == if j == k then value else Bit(b, j)
  {
    hide Mask;
    hide Cleared;
    hide Raised;
    MaskPositive(j);
    MasksApart(b, Mask(k), Mask(j));
    if j != k { MasksDiffer(k, j); }
  }

  lemma MaskPositive(k: nat)
    requires k < 8
    ensures Mask(k) > 0
  {
    hide Mask;
    MaskValues(k);
  }

  lemma MasksDiffer(k: nat, j: nat)
    requires k < 8 && j < 8 && j != k
    ensures Mask(k) & Mask(j) == 0 && Mask(j) > 0
  {
    hide Mask;
    MaskValues(k);
    MaskValues(j);
  }

  lemma MasksApart(b: Byte, m: Byte, n: Byte)
    ensures m & n == 0 ==> Cleared(b, m) & n == b & n && Raised(Cleared(b, m), m) & n == b & n
    ensures Cleared(b, m) & m == 0 && Raised(Cleared(b, m), m) & m == m
  {
  }

  /** The indices up to last whose bit is set. */
  ghost function MarkedIn(bytes: seq<Byte>, last: nat): set<nat>
    requires |bytes| > last / 8
  {
    set i: nat | i <= last && Bit(bytes[i / 8], i % 8)
  }

  lemma MarkedAfter(bytes: seq<Byte>, last: nat, index: nat, value: bool)
    requires |bytes| > last / 8 && index <= last
    ensures var bytes' := bytes[index / 8 := Stored(bytes[index / 8], index % 8, value)];
      MarkedIn(bytes', last) == if value then MarkedIn(bytes, last) + {index} else MarkedIn(bytes, last) - {index}
  {
    hide Bit, Stored;
    var bytes' := bytes[index / 8 := Stored(bytes[index / 8], index % 8, value)];
    forall i: nat | i <= last ensures i in MarkedIn(bytes', last) <==> if i == index then value else i in MarkedIn(bytes, last) {
      StoredBits(bytes[index / 8], index % 8, value, i % 8);
    }
  }

  class Bitmap {
    const size: nat
    const buffer: array<Byte>

    /** The byte behind the bitmap is touched as well: index size * 8 passes the
        bounds check. */
    ghost predicate Valid() {
      buffer.Length > size
    }

    /** The indices whose bit is set; size * 8 is the last one reached. */
    ghost function Marked(): (m: set<nat>)
      requires Valid()
      reads buffer
    {
      MarkedIn(buffer[..], size * 8)
    }

    constructor (size: nat, buffer: array<Byte>)
      requires buffer.Length > size
      ensures this.size == size && this.buffer == buffer && Valid()
    {
      this.size := size;
      this.buffer := buffer;
    }

    /** An index past the end reads as free. */
    method Get(index: nat) returns (b: bool)
      requires Valid()
      ensures b <==> index in Marked()
    {
      if index > size * 8 { return false; }
      b := Bit(buffer[index / 8], index % 8);
    }

    method StoreBit(byteIndex: nat, bitIndex: nat, value: bool)
      requires byteIndex < buffer.Length && bitIndex < 8
      modifies buffer
      ensures buffer[..] == old(buffer[..])[byteIndex := Stored(old(buffer[byteIndex]), bitIndex, value)]
    {
      hide Mask, Cleared, Raised;
      var bitIndexer := Mask(bitIndex);
      buffer[byteIndex] := Cleared(buffer[byteIndex], bitIndexer);
      if value {
        buffer[byteIndex] := Raised(buffer[byteIndex], bitIndexer);
      }
    }

    method Set(index: nat, value: bool) returns (ok: bool)
      requires Valid()
      modifies buffer
      ensures ok <==> index <= size * 8
      ensures Marked() == if !ok then old(Marked()) else if value then old(Marked()) + {index} else old(Marked()) - {index}
    {
      hide MarkedIn, Stored, Mask;
      if index > size * 8 { return false; }
      ghost var was := buffer[..];
      MarkedAfter(was, size * 8, index, value);
      StoreBit(index / 8, index % 8, value);
      ok := true;
    }
  }
}
