/** The attribute vector: an array of value ids of one fixed byte width. */
module FixedWidth {

  datatype Width = Bytes1 | Bytes2 | Bytes4

  /** The number of distinct ids a width can hold. */
  function Capacity(w: Width): nat {
    match w
    case Bytes1 => 0x100
    case Bytes2 => 0x1_0000
    case Bytes4 => 0x1_0000_0000
  }

  /** The conversion of a value id to the element type of the array. */
  function Narrow(w: Width, id: nat): (r: nat)
    ensures r < Capacity(w) && (id < Capacity(w) ==> r == id)
  {
    match w
    case Bytes1 => id % 0x100
    case Bytes2 => id % 0x1_0000
    case Bytes4 => id % 0x1_0000_0000
  }

  /** Narrowing keeps the low-order one, two or four bytes. */
  lemma NarrowKeepsLowBytes(id: nat)
    ensures Narrow(Bytes1, id) == id % 256
    ensures Narrow(Bytes2, id) == id % 65536
    ensures Narrow(Bytes4, id) == id % 4294967296
  {
  }

  class FixedWidthIntegerVector {
    const width: Width
    const attributes: array<nat>

    constructor (width: Width, size: nat)
      ensures this.width == width && fresh(attributes)
      ensures attributes[..] == seq(size, i => 0)
    {
      this.width := width;
      attributes := new nat[size](i => 0);
    }

    function Get(index: nat): nat
      requires index < attributes.Length
      reads attributes
    {
      attributes[index]
    }

    method Set(index: nat, valueId: nat)
      requires index < attributes.Length
      modifies attributes
      ensures attributes[..] == old(attributes[..])[index := Narrow(width, valueId)]
    {
      attributes[index] := Narrow(width, valueId);
    }

    function Size(): nat {
      attributes.Length
    }
  }
}
