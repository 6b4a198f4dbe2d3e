/** The byte vectors that both directions of the codec append to. */
module ByteVectors {
  import opened Bits

  /** A growing byte vector. */
  class ByteVector {
    var data: seq<byte>

    constructor (d: seq<byte>)
      ensures data == d
    {
      data := d;
    }

    method Resize(size: nat)
      requires size >= |data|
      modifies this
      ensures |data| == size && data[..|old(data)|] == old(data)
    {
      data := data + seq(size - |data|, _ => 0);
    }
  }
}
