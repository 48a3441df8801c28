/** The disk file of src/block.c: a sequence of bytes that grows when it is written past its
    end. Reads and writes never fail here. */
module Block {
  import opened Types

  /** The image after `pwrite`; a gap before the offset is filled with zero bytes. */
  function Written(image: seq<byte>, offset: nat, buf: seq<byte>): (r: seq<byte>)
    ensures |r| == if buf == [] || offset + |buf| <= |image| then |image| else offset + |buf|
  {
    if buf == [] then image
    else
      var end := offset + |buf|;
      var base := if |image| < end then image + seq(end - |image|, _ => 0) else image;
      base[..offset] + buf + base[end..]
  }

  /** What `pread` returns: fewer bytes at the end of the image, none beyond it. */
  function Read(image: seq<byte>, offset: nat, size: nat): (r: seq<byte>)
    ensures |r| <= size
    ensures offset + size <= |image| ==> r == image[offset..offset + size]
  {
    if offset >= |image| then []
    else if offset + size <= |image| then image[offset..offset + size]
    else image[offset..]
  }

  /** A write puts its bytes in place, a gap behind the old end reads as zeros, and every other
      byte stays. */
  lemma WrittenBytes(image: seq<byte>, offset: nat, buf: seq<byte>)
    requires buf != []
    ensures var r := Written(image, offset, buf);
            && |r| == (if offset + |buf| <= |image| then |image| else offset + |buf|)
            && forall k :: 0 <= k < |r| ==>
                 r[k] == if offset <= k < offset + |buf| then buf[k - offset] else if k < |image| then image[k] else 0
  {}

  /** A read takes the bytes from the offset on, as many as there are. */
  lemma ReadBytes(image: seq<byte>, offset: nat, size: nat)
    ensures var r := Read(image, offset, size);
            && |r| == (if offset >= |image| then 0 else if offset + size <= |image| then size else |image| - offset)
            && forall k :: 0 <= k < |r| ==> r[k] == image[offset + k]
  {}

  lemma WrittenIsRead(image: seq<byte>, offset: nat, buf: seq<byte>)
    ensures Read(Written(image, offset, buf), offset, |buf|) == buf
  {}

  /** A write leaves every range alone that it does not overlap. */
  lemma WrittenElsewhere(image: seq<byte>, offset: nat, buf: seq<byte>, lo: nat, hi: nat)
    requires lo <= hi <= |image| && (hi <= offset || offset + |buf| <= lo)
    ensures Written(image, offset, buf)[lo..hi] == image[lo..hi]
  {
    assert forall k :: lo <= k < hi ==> Written(image, offset, buf)[k] == image[k];
  }

  /** Filling a range with padding first makes no difference. */
  lemma PaddingIsOverwritten(image: seq<byte>, offset: nat, pad: seq<byte>, buf: seq<byte>)
    requires |pad| == |buf|
    ensures Written(Written(image, offset, pad), offset, buf) == Written(image, offset, buf)
  {
    var once, twice := Written(image, offset, buf), Written(Written(image, offset, pad), offset, buf);
    assert |once| == |twice|;
    assert forall k :: 0 <= k < |once| ==> once[k] == twice[k];
  }

  class Disk {
    var image: seq<byte>

    constructor (contents: seq<byte>)
      ensures image == contents
    {
      image := contents;
    }

    method Pwrite(buf: seq<byte>, offset: nat)
      modifies this
      ensures image == Written(old(image), offset, buf)
    {
      image := Written(image, offset, buf);
    }

    /** `block_write_padded`: one block of '0' characters serves as padding, so a record must
        not be larger than a block. */
    method BlockWritePadded(blockNum: int, buf: seq<byte>, offset: int)
      requires blockNum * BLOCK_SIZE + offset >= 0 && |buf| <= BLOCK_SIZE
      modifies this
      ensures image == Written(old(image), blockNum * BLOCK_SIZE + offset, buf)
    {
      var tmpBuffer := seq(BLOCK_SIZE, _ => '0' as byte);
      Pwrite(tmpBuffer[..|buf|], blockNum * BLOCK_SIZE + offset);
      PaddingIsOverwritten(old(image), blockNum * BLOCK_SIZE + offset, tmpBuffer[..|buf|], buf);
      Pwrite(buf, blockNum * BLOCK_SIZE + offset);
    }

    /** `sBlock_write_padded`: writes `size` bytes of memory from the superblock on. */
    method SBlockWritePadded(buf: seq<byte>, size: nat)
      requires size <= |buf|
      modifies this
      ensures image == Written(old(image), 0, buf[..size])
    {
      var tmpBuffer := seq(size, _ => '0' as byte);
      Pwrite(tmpBuffer, 0);
      PaddingIsOverwritten(old(image), 0, tmpBuffer, buf[..size]);
      Pwrite(buf[..size], 0);
    }

    /** `sBlock_read` into a buffer: bytes past the end of the image stay as they were, and an
        empty read clears the buffer. */
    method SBlockRead(buf: seq<byte>) returns (ret: nat, filled: seq<byte>)
      ensures ret == if |buf| <= |image| then |buf| else |image|
      ensures ret > 0 ==> filled == image[..ret] + buf[ret..]
      ensures ret == 0 ==> filled == seq(|buf|, _ => 0)
    {
      var got := Read(image, 0, |buf|);
      ret := |got|;
      filled := if ret == 0 then seq(|buf|, _ => 0) else got + buf[ret..];
    }

    /** `inode_read` to a pointer at which, and behind which, this memory lies. It reads one
        record, but what it clears on an empty read is a whole block. */
    method InodeRead(blockNum: int, memory: seq<byte>, offset: int) returns (ret: nat, filled: seq<byte>)
      requires blockNum * BLOCK_SIZE + offset >= 0 && |memory| >= FCB_SIZE
      ensures var at := blockNum * BLOCK_SIZE + offset;
              ret == if at >= |image| then 0 else if at + FCB_SIZE <= |image| then FCB_SIZE else |image| - at
      ensures var at := blockNum * BLOCK_SIZE + offset;
              ret > 0 ==> filled == image[at..at + ret] + memory[ret..]
      ensures ret == 0 ==> filled == ClearedFront(memory, BLOCK_SIZE)
    {
      var got := Read(image, blockNum * BLOCK_SIZE + offset, FCB_SIZE);
      ret := |got|;
      filled := if ret == 0 then ClearedFront(memory, BLOCK_SIZE) else got + memory[ret..];
    }
  }

  /** `memset(buf, 0, n)` on this memory; what lies behind it is not modelled. */
  function ClearedFront(memory: seq<byte>, n: nat): (r: seq<byte>)
    ensures |r| == |memory|
    ensures forall k :: 0 <= k < |memory| ==> r[k] == if k < n then 0 else memory[k]
  {
    var c := if n <= |memory| then n else |memory|;
    seq(c, _ => 0) + memory[c..]
  }

  /** Result and buffer of a read: bytes read go to the front, an empty read clears. */
  function ReadInto(image: seq<byte>, offset: nat, buf: seq<byte>): (r: (nat, seq<byte>))
    ensures r.0 <= |buf| == |r.1|
  {
    var got := Read(image, offset, |buf|);
    if got == [] then (0, seq(|buf|, _ => 0)) else (|got|, got + buf[|got|..])
  }

  /** What a write puts on disk, a read of the same place brings back. */
  lemma ReadBack(image: seq<byte>, offset: nat, bytes: seq<byte>, buf: seq<byte>)
    requires offset + |bytes| <= |image| && image[offset..offset + |bytes|] == bytes
    requires bytes != [] && |buf| == |bytes|
    ensures ReadInto(image, offset, buf) == (|bytes|, bytes)
  {
    assert Read(image, offset, |buf|) == bytes;
    assert bytes + buf[|bytes|..] == bytes;
  }

  /** The outcome of a read is determined by how much of the range lies in the image. */
  lemma ReadOutcome(image: seq<byte>, offset: nat, buf: seq<byte>, ret: nat, filled: seq<byte>)
    requires ret == if offset >= |image| then 0 else if offset + |buf| <= |image| then |buf| else |image| - offset
    requires ret > 0 ==> filled == image[offset..offset + ret] + buf[ret..]
    requires ret == 0 ==> filled == seq(|buf|, _ => 0)
    ensures (ret, filled) == ReadInto(image, offset, buf)
  {
    if ret > 0 {
      assert Read(image, offset, |buf|) == image[offset..offset + ret];
    }
  }
}
