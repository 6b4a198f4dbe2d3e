/** Whole streams: blocks behind each other, stored blocks, and the compressor's
    entry point. */
module DeflateStream {
  import opened Bits
  import opened Outcomes
  import opened DeflateFormat
  import opened DeflateBits
  import opened BitWriter
  import opened ByteVectors
  import opened HashChain
  import opened StrictFormat
  import opened Deflate

  /** The compressor writes what the standard allows, and no empty stored block. */
  ghost predicate Proper(b: Block) {
    ValidBlock(b) && Strict(b) && (b.Stored? ==> b.data != [])
  }

  /** The stored block for the data. */
  function StoredBlock(d: seq<byte>): Block
    requires |d| <= 65535
  {
    Stored(d, 0, 65535 - |d|)
  }

  /** The blocks written so far, all to be followed by others, stand for data[..pos]. */
  ghost predicate OpenStream(bits: seq<bit>, bs: seq<Block>, data: seq<byte>, pos: nat) {
    && pos <= |data| && AllBlocksValid(bs) && bits == OpenBits(bs, 0)
    && StreamExpandable([], bs) && ExpandStream([], bs) == data[..pos]
    && forall i :: 0 <= i < |bs| ==> Proper(bs[i])
  }

  /** A complete stream that stands for the data. */
  ghost predicate ClosedStream(bits: seq<bit>, bs: seq<Block>, data: seq<byte>) {
    && ValidStream(bs) && bits == StreamBits(bs, 0)
    && StreamExpandable([], bs) && ExpandStream([], bs) == data
    && forall i :: 0 <= i < |bs| ==> Proper(bs[i])
  }

  /** The bytes are a complete stream for the data, with zeros in the last byte. */
  ghost predicate Compressed(body: seq<byte>, bs: seq<Block>, data: seq<byte>) {
    ValidStream(bs) && Encodes(body, StreamBits(bs, 0)) && ClosedStream(StreamBits(bs, 0), bs, data)
  }

  lemma StartStream(data: seq<byte>)
    ensures OpenStream([], [], data, 0)
  {
  }

  lemma AddBlock(bits: seq<bit>, bs: seq<Block>, data: seq<byte>, pos: nat, end: nat, b: Block)
    requires OpenStream(bits, bs, data, pos) && BlockFor(data, pos, end, b) && Proper(b)
    ensures OpenStream(bits + BlockBits(b, false, |bits|), bs + [b], data, end)
    ensures end == |data| ==> ClosedStream(bits + BlockBits(b, true, |bits|), bs + [b], data)
  {
    hide BlockBits, ValidBlock, BlockExpandable, ExpandBlock, Proper, OpenBits, StreamBits, StreamExpandable, ExpandStream, AllBlocksValid, ValidStream;
    OpenBitsAppend(bs, b, 0);
    CloseStream(bs, b, 0);
    ExpandStreamAppend([], bs, b);
    assert data[..|data|] == data;
  }

  // ----- Stored blocks

  lemma LowByte(v: nat)
    requires v < 65536
    ensures LsbBits(v, 16) == LsbBits(v % 256, 8) + LsbBits(v / 256, 8)
  {
    var b := LsbBits(v % 256, 8) + LsbBits(v / 256, 8);
    Pow2Values();
    ValConcat(LsbBits(v % 256, 8), LsbBits(v / 256, 8));
    ValOfSmall(v % 256, 8);
    ValOfSmall(v / 256, 8);
    ShlByEight(v / 256);
    LsbBitsOfVal(b);
  }

  lemma FlagByte(f: bit)
    ensures LsbBits(f, 8) == [f] + [0, 0] + Zeros(5)
  {
    var b := [f] + [0, 0] + Zeros(5);
    ValWithBit([], f, 7);
    assert [] + [f] + Zeros(7) == b;
    LsbBitsOfVal(b);
  }

  /** Five bytes and the data make a stored block on a byte boundary. */
  lemma StoredBytes(f: bit, len: nat, d: seq<byte>, pos: nat)
    requires len == |d| <= 65535 && pos % 8 == 0
    ensures
      var nlen := 65535 - len;
      BytesBits([f, len % 256, len / 256, nlen % 256, nlen / 256] + d) == BlockBits(StoredBlock(d), f == 1, pos)
  {
    hide BytesBits, LsbBits, Zeros;
    var nlen := 65535 - len;
    var x, y, z: seq<byte> := [f], [len % 256, len / 256], [nlen % 256, nlen / 256];
    assert [f, len % 256, len / 256, nlen % 256, nlen / 256] + d == x + (y + (z + d));
    BytesBitsConcat(x, y + (z + d));
    BytesBitsConcat(y, z + d);
    BytesBitsConcat(z, d);
    BytesBitsOne(f);
    WordBytes(len);
    WordBytes(nlen);
    FlagByte(f);
    assert PadTo8(pos + 3) == 5;
    LsbBitsOfZero(5);
    var p, q, r, s := Zeros(5), LsbBits(len, 16), LsbBits(nlen, 16), BytesBits(d);
    assert [f] + [0, 0] + p + (q + (r + s)) == [f] + [0, 0] + (p + q + r + s);
  }

  lemma WordBytes(v: nat)
    requires v < 65536
    ensures BytesBits([v % 256, v / 256]) == LsbBits(v, 16)
  {
    hide BytesBits, LsbBits;
    assert [v % 256, v / 256] == [v % 256] + [v / 256];
    BytesBitsConcat([v % 256], [v / 256]);
    BytesBitsOne(v % 256);
    BytesBitsOne(v / 256);
    LowByte(v);
  }

  lemma StoredFor(data: seq<byte>, pos: nat, end: nat)
    requires pos <= end <= |data| && end - pos <= 65535
    ensures BlockFor(data, pos, end, StoredBlock(data[pos..end]))
  {
    assert data[..pos] + data[pos..end] == data[..end];
  }

  lemma WholeBytes(body: seq<byte>)
    ensures Encodes(body, BytesBits(body))
  {
    assert PadTo8(8 * |body|) == 0;
    assert BytesBits(body) + Zeros(0) == BytesBits(body);
  }

  lemma AppendBytes(body: seq<byte>, more: seq<byte>)
    ensures BytesBits(body + more) == BytesBits(body) + BytesBits(more) && |BytesBits(body)| % 8 == 0
  {
    BytesBitsConcat(body, more);
  }

  /** Stored blocks of 65535 bytes, except that the last one takes what is left. */
  ghost predicate StoredBlocks(bs: seq<Block>, data: seq<byte>) {
    forall i :: 0 <= i < |bs| ==>
      bs[i] == Stored(data[StartOf(i, 65535, |data|)..StartOf(i + 1, 65535, |data|)], 0,
                      65535 - (StartOf(i + 1, 65535, |data|) - StartOf(i, 65535, |data|)))
  }

  /** Stores the data in blocks of up to 65535 bytes; no block for no data. */
  method DeflateNoCompression(out: ByteVector, data: seq<byte>) returns (ghost bs: seq<Block>)
    modifies out
    ensures old(out.data) <= out.data
    ensures data == [] ==> out.data == old(out.data)
    ensures data != [] ==> Compressed(out.data[|old(out.data)|..], bs, data)
    ensures |bs| == (|data| + 65534) / 65535 && StoredBlocks(bs, data)
  {
    hide OpenStream, ClosedStream, BytesBits, Encodes, BlockFor, BlockBits, StoredBlocks;
    var datasize := |data|;
    var numdeflateblocks := (datasize + 65534) / 65535;
    var datapos := 0;
    ghost var body: seq<byte> := [];
    bs := [];
    StartStream(data);
    NoStoredBlocks(data);
    assert BytesBits([]) == [];
    for i := 0 to numdeflateblocks
      invariant out.data == old(out.data) + body && (i == 0 ==> body == [])
      invariant datapos == StartOf(i, 65535, datasize) && |bs| == i && StoredBlocks(bs, data)
      invariant if i < numdeflateblocks then OpenStream(BytesBits(body), bs, data, datapos)
                else data != [] ==> ClosedStream(BytesBits(body), bs, data)
    {
      var bfinal: bit := if i == numdeflateblocks - 1 then 1 else 0;
      var len := if datasize - datapos < 65535 then datasize - datapos else 65535;
      var nlen := 65535 - len;
      var d := data[datapos..datapos + len];
      var block: seq<byte> := [bfinal, len % 256, len / 256, nlen % 256, nlen / 256] + d;
      AppendBytes(body, block);
      StoredBytes(bfinal, len, d, |BytesBits(body)|);
      StoredFor(data, datapos, datapos + len);
      AnotherStored(bs, data, datapos, datapos + len);
      AddBlock(BytesBits(body), bs, data, datapos, datapos + len, StoredBlock(d));
      out.data := out.data + block;
      datapos := datapos + len;
      body := body + block;
      bs := bs + [StoredBlock(d)];
    }
    if data != [] {
      ClosedIsCompressed(body, bs, data);
      assert out.data[|old(out.data)|..] == body;
    } else {
      assert numdeflateblocks == 0 && body == [];
    }
  }

  lemma NoStoredBlocks(data: seq<byte>)
    ensures StoredBlocks([], data)
  {
  }

  lemma AnotherStored(bs: seq<Block>, data: seq<byte>, start: nat, end: nat)
    requires StoredBlocks(bs, data) && start == StartOf(|bs|, 65535, |data|) && end == StartOf(|bs| + 1, 65535, |data|)
    ensures start <= end && end - start <= 65535 && StoredBlocks(bs + [StoredBlock(data[start..end])], data)
  {
  }

  lemma ClosedIsCompressed(body: seq<byte>, bs: seq<Block>, data: seq<byte>)
    requires ClosedStream(BytesBits(body), bs, data)
    ensures Compressed(body, bs, data)
  {
    hide BytesBits, Encodes;
    WholeBytes(body);
  }

  // ----- The compressor

  lemma BlockRange(insize: nat, blocksize: nat, num: nat, i: nat)
    requires blocksize > 0 && num == (insize + blocksize - 1) / blocksize && i <= num
    ensures i < num ==> i * blocksize < insize
    ensures i == num ==> i * blocksize >= insize
  {
    var r := (insize + blocksize - 1) % blocksize;
    assert insize + blocksize - 1 == num * blocksize + r;
    MulOrder(i, num, blocksize);
  }

  function BlockSize(btype: nat, insize: nat): (b: nat)
    ensures btype != 1 ==> b > 0
  {
    if btype == 1 then insize
    else
      var b := insize / 8 + 8;
      if b < 65536 then 65536 else if b > 262144 then 262144 else b
  }

  /** The state between two blocks. */
  ghost predicate Between(bits: seq<bit>, bs: seq<Block>, data: seq<byte>, i: nat, num: nat, pos: nat) {
    if i < num then OpenStream(bits, bs, data, pos) else ClosedStream(bits, bs, data)
  }

  /** Start of block i: blocks of the given size, cut off at the end of the data. */
  function StartOf(i: nat, blocksize: nat, insize: nat): (p: nat)
    ensures p <= insize
  {
    if i * blocksize > insize then insize else i * blocksize
  }

  /** The blocks have the type asked for, each stands for its part of the data, and trees
      that are made for it are the best. */
  ghost predicate BlocksFor(bs: seq<Block>, data: seq<byte>, blocksize: nat, btype: nat) {
    forall i :: 0 <= i < |bs| ==>
      && BlockType(bs[i]) == btype && BlockFor(data, StartOf(i, blocksize, |data|), StartOf(i + 1, blocksize, |data|), bs[i])
      && Optimal(bs[i])
  }

  lemma AnotherBlockFor(bs: seq<Block>, data: seq<byte>, blocksize: nat, btype: nat, b: Block)
    requires BlocksFor(bs, data, blocksize, btype) && BlockType(b) == btype
    requires BlockFor(data, StartOf(|bs|, blocksize, |data|), StartOf(|bs| + 1, blocksize, |data|), b) && Optimal(b)
    ensures BlocksFor(bs + [b], data, blocksize, btype)
  {
    hide BlockFor, StartOf, Optimal;
  }

  /** The number of blocks, at least one. */
  function NumBlocks(insize: nat, blocksize: nat): (n: nat)
    requires blocksize > 0
    ensures n > 0
  {
    var n := (insize + blocksize - 1) / blocksize;
    if n == 0 then 1 else n
  }

  lemma BlockBounds(insize: nat, blocksize: nat, i: nat)
    requires blocksize > 0 && i < NumBlocks(insize, blocksize)
    ensures StartOf(i, blocksize, insize) == i * blocksize
    ensures StartOf(i + 1, blocksize, insize) == if i * blocksize + blocksize > insize then insize else i * blocksize + blocksize
    ensures i == NumBlocks(insize, blocksize) - 1 ==> StartOf(i + 1, blocksize, insize) == insize
  {
    var num := (insize + blocksize - 1) / blocksize;
    assert (i + 1) * blocksize == i * blocksize + blocksize;
    if num == 0 {
      BlockRange(insize, blocksize, num, 0);
    } else {
      BlockRange(insize, blocksize, num, i);
      BlockRange(insize, blocksize, num, i + 1);
    }
  }

  lemma NextBlock(bits: seq<bit>, bs: seq<Block>, data: seq<byte>, i: nat, num: nat, pos: nat, end: nat, b: Block)
    requires i < num && Between(bits, bs, data, i, num, pos) && BlockFor(data, pos, end, b) && !b.Stored? && Strict(b)
    requires i == num - 1 ==> end == |data|
    ensures Between(bits + BlockBits(b, i == num - 1, |bits|), bs + [b], data, i + 1, num, end)
  {
    hide OpenStream, ClosedStream, BlockFor, BlockBits, ValidBlock;
    BlockForValid(data, pos, end, b);
    AddBlock(bits, bs, data, pos, end, b);
  }

  method WriteBlocks(writer: BitWriter, hash: Hash, input: seq<byte>, settings: CompressSettings, blocksize: nat, num: nat)
    returns (error: nat, ghost bs: seq<Block>)
    requires writer.Valid() && writer.bits == [] && HashAt(hash, input, settings, 0)
    requires (settings.btype == 1 || settings.btype == 2) && blocksize > 0 && num == NumBlocks(|input|, blocksize)
    modifies writer, hash, hash.Buffers()
    ensures writer.Valid() && writer.data[..writer.start] == old(writer.data[..writer.start])
    ensures error == WindowError(settings)
    ensures error == 0 ==> ClosedStream(writer.bits, bs, input) && |bs| == num && BlocksFor(bs, input, blocksize, settings.btype)
  {
    hide BlocksFor, OpenStream, ClosedStream, Encodes, BlockFor, BlockBits, WindowError, HashAt, StartOf, NumBlocks, Between;
    error, bs := 0, [];
    var i := 0;
    StartStream(input);
    StartBetween(input, num);
    NoBlocksFor(input, blocksize, settings.btype);
    assert StartOf(0, blocksize, |input|) == 0 by { BlockBounds(|input|, blocksize, 0); }
    while i < num && error == 0
      invariant i <= num && writer.Valid() && writer.data[..writer.start] == old(writer.data[..writer.start])
      invariant if i == 0 then error == 0 else error == WindowError(settings)
      invariant error == 0 ==> HashAt(hash, input, settings, StartOf(i, blocksize, |input|))
      invariant error == 0 ==> |bs| == i && BlocksFor(bs, input, blocksize, settings.btype)
      invariant error == 0 ==> Between(writer.bits, bs, input, i, num, StartOf(i, blocksize, |input|))
    {
      var final := i == num - 1;
      var start := i * blocksize;
      var end := start + blocksize;
      if end > |input| {
        end := |input|;
      }
      BlockBounds(|input|, blocksize, i);
      ghost var b, bits := Fixed([]), writer.bits;
      if settings.btype == 1 {
        error, b := DeflateFixed(writer, hash, input, start, end, settings, final);
      } else {
        error, b := DeflateDynamic(writer, hash, input, start, end, settings, final);
      }
      if error == 0 {
        NextBlock(bits, bs, input, i, num, start, end, b);
        AnotherBlockFor(bs, input, blocksize, settings.btype, b);
      }
      bs := bs + [b];
      i := i + 1;
    }
    if error == 0 {
      assert i == num;
      BetweenEnds(writer.bits, bs, input, num, StartOf(i, blocksize, |input|));
    }
  }

  lemma NoBlocksFor(data: seq<byte>, blocksize: nat, btype: nat)
    ensures BlocksFor([], data, blocksize, btype)
  {
  }

  lemma StartBetween(data: seq<byte>, num: nat)
    requires num > 0
    ensures Between([], [], data, 0, num, 0)
  {
    StartStream(data);
  }

  lemma BetweenEnds(bits: seq<bit>, bs: seq<Block>, data: seq<byte>, num: nat, pos: nat)
    requires Between(bits, bs, data, num, num, pos)
    ensures ClosedStream(bits, bs, data)
  {
  }

  /** The error code of the compressor, and whether its output is a stream: an empty input
      has no blocks of type 0, and for type 1 the block size 0 divides. */
  function CompressOutcome(input: seq<byte>, settings: CompressSettings): Outcome {
    if settings.btype > 2 then Returns(61)
    else if settings.btype == 0 then Returns(0)
    else if settings.btype == 1 && input == [] then Undefined
    else Returns(WindowError(settings))
  }

  predicate HasStream(input: seq<byte>, settings: CompressSettings) {
    CompressOutcome(input, settings) == Returns(0) && (settings.btype == 0 ==> input != [])
  }

  /** Compresses the input behind what the vector holds. */
  method Deflatev(out: ByteVector, input: seq<byte>, settings: CompressSettings) returns (outcome: Outcome, ghost bs: seq<Block>)
    modifies out
    ensures outcome == CompressOutcome(input, settings)
    ensures outcome == Returns(0) ==> old(out.data) <= out.data
    ensures HasStream(input, settings) ==> Compressed(out.data[|old(out.data)|..], bs, input)
    ensures HasStream(input, settings) ==>
      if settings.btype == 0 then |bs| == (|input| + 65534) / 65535 && StoredBlocks(bs, input)
      else
        var blocksize := BlockSize(settings.btype, |input|);
        blocksize > 0 && |bs| == NumBlocks(|input|, blocksize) && BlocksFor(bs, input, blocksize, settings.btype)
    ensures outcome == Returns(0) && !HasStream(input, settings) ==> out.data == old(out.data)
  {
    hide BlocksFor, StoredBlocks, ClosedStream, Compressed, Encodes, WindowError, HashAt, NumBlocks;
    if settings.btype > 2 {
      return Returns(61), [];
    }
    if settings.btype == 0 {
      outcome := Returns(0);
      bs := DeflateNoCompression(out, input);
      return;
    }
    var blocksize := BlockSize(settings.btype, |input|);
    if blocksize == 0 {
      return Undefined, [];
    }
    var num := NumBlocks(|input|, blocksize);
    var writer := new BitWriter(out.data);
    var hash := new Hash(settings.windowsize);
    FreshHash(hash, input, settings);
    var error;
    error, bs := WriteBlocks(writer, hash, input, settings, blocksize, num);
    out.data := writer.data;
    if error == 0 {
      StreamIsCompressed(writer.data[writer.start..], writer.bits, bs, input);
    }
    outcome := Returns(error);
  }

  lemma FreshHash(hash: Hash, data: seq<byte>, settings: CompressSettings)
    requires hash.Valid(data) && hash.w == settings.windowsize && hash.written == 0
    ensures HashAt(hash, data, settings, 0)
  {
  }

  lemma StreamIsCompressed(body: seq<byte>, bits: seq<bit>, bs: seq<Block>, data: seq<byte>)
    requires Encodes(body, bits) && ClosedStream(bits, bs, data)
    ensures Compressed(body, bs, data)
  {
    hide Encodes;
  }
}
