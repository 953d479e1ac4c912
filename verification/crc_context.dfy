/** The context object of hw01/crc.h and the read loop of hw01/get_crc.c. */
module CrcContext {
  import opened Crc
  import opened CrcRfc1952

  class Context {
    var hash: bv32

    constructor ()
    {
      hash := 0;
    }

    method Init()
      modifies this
      ensures hash == INITIAL
    {
      hash := 0xffffffff;
    }

    /** crc32_update: the first `size` bytes of the buffer, one bit at a time. */
    method Update(size: nat, buffer: array<bv8>)
      requires size <= buffer.Length
      modifies this
      ensures hash == Run(old(hash), StreamBits(buffer[..size]))
    {
      hide ByteBits;
      var crc := hash;
      for i := 0 to size
        invariant crc == Run(hash, StreamBits(buffer[..i]))
        invariant hash == old(hash)
      {
        RunStream(hash, buffer[..i], [buffer[i]]);
        StreamByte(buffer[i]);
        assert buffer[..i + 1] == buffer[..i] + [buffer[i]];
        crc := UpdateByte(crc, buffer[i]);
      }
      hash := crc;
    }

    method Finish()
      modifies this
      ensures hash == Finalize(old(hash))
    {
      hash := Reverse(!hash);
    }
  }

  /** The inner loop of crc32_update, lines 30-39. */
  method UpdateByte(start: bv32, mem: bv8) returns (crc: bv32)
    ensures crc == Run(start, ByteBits(mem))
  {
    hide Top, Reverse, LowBits, Run, Bits;
    crc := start;
    var byte := Reverse(mem as bv32);
    ReversedBits(mem as bv32, 8);
    for j := 0 to 8
      invariant Run(start, ByteBits(mem)) == Run(crc, Bits(byte, 8 - j))
    {
      FeedTop(crc, byte, 8 - j);
      if Top(crc ^ byte) {
        crc := (crc << 1) ^ 0x4c11db7;
      } else {
        crc := crc << 1;
      }
      byte := byte << 1;
    }
    NothingLeft(crc, byte);
  }

  lemma NothingLeft(crc: bv32, byte: bv32)
    ensures Run(crc, Bits(byte, 0)) == crc
  {
  }

  const BUFFER_SIZE: nat := 4096

  function Concat(chunks: seq<seq<bv8>>): (all: seq<bv8>)
  {
    if chunks == [] then [] else Concat(chunks[..|chunks| - 1]) + chunks[|chunks| - 1]
  }

  /** A successful read(): the chunk lands at the front of the reused buffer. */
  method Read(buffer: array<bv8>, chunk: seq<bv8>)
    requires |chunk| <= buffer.Length
    modifies buffer
    ensures buffer[..|chunk|] == chunk
    ensures buffer[|chunk|..] == old(buffer[|chunk|..])
  {
    forall i | 0 <= i < |chunk| {
      buffer[i] := chunk[i];
    }
  }

  /**
    get_crc32. The operating system is the oracle: `chunks` are the successive positive
    results of read(), of any sizes up to the buffer, and `failed` tells whether the last
    call reported an error instead of the end of the file.
   */
  method GetCrc32(fd: int, chunks: seq<seq<bv8>>, failed: bool, context: Context) returns (ok: bool)
    requires forall k :: 0 <= k < |chunks| ==> 0 < |chunks[k]| <= BUFFER_SIZE
    modifies context
    ensures ok <==> fd != -1 && !failed
    ensures ok ==> context.hash == Hash(Concat(chunks)) == CrcOf(Concat(chunks))
    ensures fd == -1 ==> context.hash == old(context.hash)
  {
    hide Run, StreamBits, Finalize, CrcOf;
    var buffer := new bv8[BUFFER_SIZE];
    if fd == -1 {
      return false;
    }
    context.Init();
    var n := 0;
    NothingFed(INITIAL);
    while n < |chunks|
      invariant n <= |chunks|
      invariant context.hash == Run(INITIAL, StreamBits(Concat(chunks[..n])))
    {
      var chunk := chunks[n];
      Read(buffer, chunk);
      context.Update(|chunk|, buffer);
      ConcatSnoc(chunks, n);
      RunStream(INITIAL, Concat(chunks[..n]), chunk);
      n := n + 1;
    }
    if failed {
      return false;
    }
    assert chunks[..n] == chunks;
    context.Finish();
    HashIsRfc1952(Concat(chunks));
    return true;
  }

  lemma ConcatSnoc(chunks: seq<seq<bv8>>, n: nat)
    requires n < |chunks|
    ensures Concat(chunks[..n + 1]) == Concat(chunks[..n]) + chunks[n]
  {
    assert chunks[..n + 1][..n] == chunks[..n];
  }
}
