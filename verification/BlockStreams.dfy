/**
  The block framing of a message body: `BlockOutputStream` cuts what is written
  into length-prefixed blocks, `BlockInputStream` puts them together again.
*/
module BlockStreams {
  import opened Sequences
  import opened Channels

  /** What a block may hold: it is never empty, and its length is a Java `int`. */
  type Block = s: seq<Byte> | 0 < |s| <= MAX_INT witness [0]

  /** One message body on the wire: the writer's buffer size and its blocks. */
  datatype Frame = Frame(size: Int32, blocks: seq<Block>) {
    predicate Valid() { size > 0 }

    /** The bytes the frame carries. */
    function Payload(): seq<Byte> { Flatten(blocks) }
  }

  function Flatten(blocks: seq<Block>): seq<Byte> {
    if blocks == [] then [] else blocks[0] + Flatten(blocks[1..])
  }

  function EncodeBlocks(blocks: seq<Block>): seq<Byte> {
    if blocks == [] then [] else EncodeInt(|blocks[0]|) + blocks[0] + EncodeBlocks(blocks[1..])
  }

  /** The blocks and the terminator, without the leading buffer size. */
  function EncodeBody(blocks: seq<Block>): seq<Byte> {
    EncodeBlocks(blocks) + EncodeInt(-1)
  }

  function EncodeFrame(f: Frame): seq<Byte> {
    EncodeInt(f.size) + EncodeBody(f.blocks)
  }

  /** On the wire: the size, each block behind its length, and the terminator. */
  lemma FrameBytes()
    ensures EncodeFrame(Frame(2, [[7, 8], [9]])) == [0, 0, 0, 2, 0, 0, 0, 2, 7, 8, 0, 0, 0, 1, 9, 0xFF, 0xFF, 0xFF, 0xFF]
  {
    var blocks: seq<Block> := [[7, 8], [9]];
    assert EncodeInt(1) == [0, 0, 0, 1] && EncodeInt(2) == [0, 0, 0, 2] && EncodeInt(-1) == [0xFF, 0xFF, 0xFF, 0xFF];
    hide EncodeInt;
    assert blocks[1..] == [[9]] && blocks[1..][1..] == [];
    assert EncodeBlocks([[9]]) == [0, 0, 0, 1] + [9] + EncodeBlocks([]);
    assert EncodeBlocks(blocks) == [0, 0, 0, 2] + [7, 8] + EncodeBlocks(blocks[1..]);
  }

  lemma {:induction false} FlattenAppend(blocks: seq<Block>, b: Block)
    ensures Flatten(blocks + [b]) == Flatten(blocks) + b
  {
    if blocks == [] {
      assert blocks + [b] == [b];
      assert Flatten([b]) == b + Flatten([]);
    } else {
      assert (blocks + [b])[1..] == blocks[1..] + [b];
      FlattenAppend(blocks[1..], b);
    }
  }

  lemma {:induction false} EncodeBlocksAppend(blocks: seq<Block>, b: Block)
    ensures EncodeBlocks(blocks + [b]) == EncodeBlocks(blocks) + EncodeInt(|b|) + b
  {
    if blocks == [] {
      assert blocks + [b] == [b];
      assert EncodeBlocks([b]) == EncodeInt(|b|) + b + EncodeBlocks([]);
    } else {
      assert (blocks + [b])[1..] == blocks[1..] + [b];
      EncodeBlocksAppend(blocks[1..], b);
    }
  }

  /** A body ends itself: what follows it on the wire cannot be mistaken for more of it. */
  lemma {:induction false} BodyPrefixFree(a: seq<Block>, b: seq<Block>, s: seq<Byte>, t: seq<Byte>)
    requires EncodeBody(a) + s == EncodeBody(b) + t
    ensures a == b && s == t
  {
    if a == [] || b == [] {
      assert EncodeBody([]) == EncodeInt(-1);
      if a == [] && b == [] {
        IntPrefixFree(-1, -1, s, t);
      } else if a == [] {
        EncodeBodyStep(b, t);
        IntPrefixFree(-1, |b[0]|, s, b[0] + (EncodeBody(b[1..]) + t));
      } else {
        EncodeBodyStep(a, s);
        IntPrefixFree(|a[0]|, -1, a[0] + (EncodeBody(a[1..]) + s), t);
      }
    } else {
      EncodeBodyStep(a, s);
      EncodeBodyStep(b, t);
      var s': seq<Byte>, t': seq<Byte> := EncodeBody(a[1..]) + s, EncodeBody(b[1..]) + t;
      IntPrefixFree(|a[0]|, |b[0]|, a[0] + s', b[0] + t');
      assert a[0] == (a[0] + s')[..|a[0]|] == (b[0] + t')[..|b[0]|] == b[0];
      assert s' == (a[0] + s')[|a[0]|..] == (b[0] + t')[|b[0]|..] == t';
      BodyPrefixFree(a[1..], b[1..], s, t);
      assert a == [a[0]] + a[1..] && b == [b[0]] + b[1..];
    }
  }

  lemma EncodeBodyStep(blocks: seq<Block>, s: seq<Byte>)
    requires blocks != []
    ensures EncodeBody(blocks) + s == EncodeInt(|blocks[0]|) + (blocks[0] + (EncodeBody(blocks[1..]) + s))
  {
  }

  /** A frame is self-delimiting: at most one frame starts at any point of a byte stream. */
  lemma FramePrefixFree(f: Frame, g: Frame, s: seq<Byte>, t: seq<Byte>)
    requires EncodeFrame(f) + s == EncodeFrame(g) + t
    ensures f == g && s == t
  {
    var s', t' := EncodeBody(f.blocks) + s, EncodeBody(g.blocks) + t;
    assert EncodeFrame(f) + s == EncodeInt(f.size) + s';
    assert EncodeFrame(g) + t == EncodeInt(g.size) + t';
    IntPrefixFree(f.size, g.size, s', t');
    BodyPrefixFree(f.blocks, g.blocks, s, t);
  }

  /** What is taken off the front of the channel is the block, once it is as long. */
  lemma BlockTaken(block: seq<Byte>, next: seq<Byte>, b: seq<Byte>, rest: seq<Byte>)
    requires Taken(block + next, |block|, b, rest)
    ensures b[..|block|] == block && rest == next
  {
    assert (block + next)[..|block|] == block && (block + next)[|block|..] == next;
  }

  class BlockOutputStream {
    const out: Sink
    const buf: array<Byte>
    var count: nat
    ghost const start: seq<Byte>        // what the channel carried before this stream
    ghost var blocks: seq<Block>        // the blocks flushed so far

    ghost predicate Valid()
      reads this, out, buf
    {
      && 0 < buf.Length <= MAX_INT
      && count <= buf.Length
      && out.sent == start + EncodeInt(buf.Length) + EncodeBlocks(blocks)
    }

    /** Everything written to this stream, flushed or not. */
    ghost function Written(): seq<Byte>
      reads this, buf
      requires count <= buf.Length
    {
      Flatten(blocks) + buf[..count]
    }

    constructor (out: Sink, blockSize: Int32)
      requires blockSize > 0
      modifies out
      ensures Valid() && Written() == []
      ensures this.out == out && start == old(out.sent)
      ensures fresh(buf) && buf.Length == blockSize
    {
      this.out := out;
      start := out.sent;
      buf := new Byte[blockSize];
      count := 0;
      blocks := [];
      new;
      out.WriteInt(blockSize);
    }

    /** The constructor as a caller sees it: no stream, and nothing written, when the size is not positive. */
    static method Open(out: Sink, blockSize: Int32) returns (stream: BlockOutputStream?)
      modifies out
      ensures stream == null <==> blockSize <= 0
      ensures stream == null ==> out.sent == old(out.sent)
      ensures stream != null ==> fresh(stream) && fresh(stream.buf) && stream.Valid() && stream.Written() == []
      ensures stream != null ==> stream.out == out && stream.start == old(out.sent) && stream.buf.Length == blockSize
    {
      if blockSize <= 0 {
        return null;
      }
      stream := new BlockOutputStream(out, blockSize);
    }

    method FlushBuffer()
      requires Valid()
      modifies this, out
      ensures Valid() && count == 0
      ensures Written() == old(Written())
    {
      if count > 0 {
        EncodeBlocksAppend(blocks, buf[..count]);
        FlattenAppend(blocks, buf[..count]);
        out.WriteInt(count);
        out.WriteArray(buf, 0, count);
        blocks := blocks + [buf[..count]];
        count := 0;
      }
    }

    /** `write(int)`: keeps the low eight bits. */
    method Write(b: Int32)
      requires Valid()
      modifies this, out, buf
      ensures Valid()
      ensures Written() == old(Written()) + [b % 0x100]
    {
      if count >= buf.Length {
        FlushBuffer();
      }
      buf[count] := b % 0x100;
      count := count + 1;
      assert buf[..count] == buf[..count - 1] + [b % 0x100];
    }

    /** `write(byte[], int, int)`: what does not fit the buffer goes out as a block of its own. */
    method WriteArray(b: array<Byte>, off: nat, len: nat)
      requires Valid()
      requires b != buf && off + len <= b.Length <= MAX_INT
      modifies this, out, buf
      ensures Valid()
      ensures Written() == old(Written()) + b[off..off + len]
    {
      if len >= buf.Length {
        FlushBuffer();
        WriteDirect(b, off, len);
        return;
      }
      if len > buf.Length - count {
        FlushBuffer();
      }
      CopyIn(b, off, len);
    }

    /** The bytes of one small write, kept in the buffer. */
    method CopyIn(b: array<Byte>, off: nat, len: nat)
      requires Valid()
      requires b != buf && off + len <= b.Length && count + len <= buf.Length
      modifies this`count, buf
      ensures Valid()
      ensures Written() == old(Written()) + b[off..off + len]
    {
      ghost var was := buf[..count];
      ArrayCopy(b, off, buf, count, len);
      count := count + len;
      assert buf[..count] == was + b[off..off + len];
    }

    /** The bytes of one oversized write, sent past the empty buffer as one block. */
    method WriteDirect(b: array<Byte>, off: nat, len: nat)
      requires Valid() && count == 0
      requires 0 < len && off + len <= b.Length <= MAX_INT
      modifies this`blocks, out
      ensures Valid()
      ensures Written() == old(Written()) + b[off..off + len]
    {
      ghost var block: Block := b[off..off + len];
      EncodeBlocksAppend(blocks, block);
      FlattenAppend(blocks, block);
      out.WriteInt(len);
      out.WriteArray(b, off, len);
      blocks := blocks + [block];
    }

    method Flush()
      requires Valid()
      modifies this, out
      ensures Valid() && Written() == old(Written())
      ensures count == 0
    {
      FlushBuffer();
    }

    /** The channel now carries one complete frame more, and the frame carries what was written. */
    method Close() returns (ghost frame: Frame)
      requires Valid()
      modifies this, out
      ensures frame.Valid() && frame.size == buf.Length
      ensures out.sent == start + EncodeFrame(frame)
      ensures frame.Payload() == old(Written())
    {
      FlushBuffer();
      assert Written() == Flatten(blocks);
      out.WriteInt(-1);
      frame := Frame(buf.Length, blocks);
    }
  }

  /** A copy loop in mid-run: the first `n` bytes of `all` are in the array, from `off` on, and `left` is not. */
  ghost predicate Copied(all: seq<Byte>, n: nat, left: seq<Byte>, was: seq<Byte>, off: nat, b: seq<Byte>) {
    n <= |all| && left == all[n..] && Overwritten(was, off, all[..n], b)
  }

  lemma CopiedMore(all: seq<Byte>, n: nat, left: seq<Byte>, was: seq<Byte>, off: nat, between: seq<Byte>,
                   part: nat, b: seq<Byte>)
    requires Copied(all, n, left, was, off, between) && part <= |left|
    requires Overwritten(between, off + n, left[..part], b)
    ensures Copied(all, n + part, left[part..], was, off, b)
  {
    OverwrittenTwice(was, off, all[..n], between, left[..part], b);
    assert all[..n] + all[n..][..part] == all[..n + part];
  }

  lemma CopiedAll(all: seq<Byte>, n: nat, left: seq<Byte>, was: seq<Byte>, off: nat, b: seq<Byte>)
    requires Copied(all, n, left, was, off, b)
    ensures n <= |all| && left == all[n..] && Overwritten(was, off, all[..n], b)
  {
  }

  class BlockInputStream {
    const source: Source
    var buf: array?<Byte>
    var blockSize: Int32
    var pos: nat
    ghost var size: Int32              // the buffer size the frame starts with
    ghost var todo: seq<Block>         // the blocks not fetched yet
    ghost var left: seq<Byte>          // the bytes this stream has still to deliver
    ghost const tail: seq<Byte>        // what follows the frame on the channel

    /** The stream is somewhere inside a frame, or just past its terminator. */
    ghost predicate Valid()
      reads this, source, buf
    {
      && (blockSize < 0 ==> buf != null && todo == [] && source.rest == tail)
      && (blockSize >= 0 && buf == null ==>
            blockSize == pos == 0 && size > 0 && source.rest == EncodeInt(size) + EncodeBody(todo) + tail)
      && (blockSize >= 0 && buf != null ==>
            pos <= blockSize <= buf.Length && source.rest == EncodeBody(todo) + tail)
      && left == (if blockSize < 0 || buf == null then [] else buf[pos..blockSize]) + Flatten(todo)
    }

    constructor (source: Source, ghost frame: Frame, ghost tail: seq<Byte>)
      requires frame.Valid() && source.rest == EncodeFrame(frame) + tail
      ensures Valid() && left == frame.Payload()
      ensures this.source == source && this.tail == tail
      ensures buf == null
    {
      this.source := source;
      this.tail := tail;
      buf := null;
      blockSize := 0;
      pos := 0;
      size := frame.size;
      todo := frame.blocks;
      left := frame.Payload();
      new;
      assert EncodeFrame(frame) + tail == EncodeInt(size) + EncodeBody(todo) + tail;
    }

    /** Makes the next byte available in the buffer, or finds the end of the frame. */
    method PrepareBlock() returns (more: bool)
      requires Valid()
      modifies this, source, buf
      ensures Valid() && left == old(left)
      ensures more <==> left != []
      ensures more ==> buf != null && pos < blockSize
      ensures !more ==> source.rest == tail
      ensures buf != old(buf) ==> buf != null && fresh(buf)
    {
      if blockSize < 0 {
        return false;
      }
      if buf != null && pos < blockSize {
        return true;
      }
      if buf == null {
        ReadSize();
      }
      more := NextBlock();
    }

    /** The buffer size that precedes the blocks, read once. */
    method ReadSize()
      requires Valid() && blockSize >= 0 && buf == null
      modifies this`buf, source
      ensures Valid() && buf != null && fresh(buf)
      ensures left == old(left)
    {
      var n := FetchInt(size, EncodeBody(todo) + tail);
      buf := new Byte[n];
    }

    /** The next block, or the terminator. */
    method NextBlock() returns (more: bool)
      requires Valid() && buf != null && pos == blockSize
      modifies this, source, buf
      ensures Valid() && left == old(left)
      ensures more <==> left != []
      ensures more ==> buf != null && pos < blockSize
      ensures !more ==> source.rest == tail
      ensures buf != old(buf) ==> buf != null && fresh(buf)
    {
      ghost var head := if todo == [] then -1 else |todo[0]|;
      ghost var next := if todo == [] then tail else todo[0] + (EncodeBody(todo[1..]) + tail);
      if todo != [] {
        EncodeBodyStep(todo, tail);
      }
      blockSize := FetchInt(head, next);
      if blockSize == 0 {
        assert false;  // IllegalStateException: a BlockOutputStream writes no empty block
      }
      if blockSize > buf.Length {
        buf := new Byte[blockSize];
      }
      if blockSize > 0 {
        ghost var block := todo[0];
        todo := todo[1..];
        FillBuffer(block, EncodeBody(todo) + tail);
        pos := 0;
      }
      return blockSize > 0;
    }

    /** `readInt` where the channel is known to start with `v`. */
    method FetchInt(ghost v: Int32, ghost next: seq<Byte>) returns (n: Int32)
      requires source.rest == EncodeInt(v) + next
      modifies source
      ensures n == v && source.rest == next
    {
      IntRoundTrip(v);
      assert forall i :: 0 <= i < 4 ==> source.rest[i] == EncodeInt(v)[i];
      n := source.ReadInt();
    }

    /** The refill loop: one read more than needed, which asks for nothing. */
    method FillBuffer(ghost block: Block, ghost next: seq<Byte>)
      requires buf != null && blockSize == |block| <= buf.Length
      requires source.rest == block + next
      modifies this`pos, source, buf
      ensures buf[..blockSize] == block && source.rest == next
    {
      pos := 0;
      ghost var bytes := block + next;
      var n := Refill(bytes);
      while pos < blockSize
        invariant 0 <= n <= blockSize - pos
        invariant pos < blockSize ==> n > 0
        invariant Taken(bytes, pos + n, buf[..], source.rest)
        decreases blockSize - pos
      {
        pos := pos + n;
        n := Refill(bytes);
      }
      BlockTaken(block, next, buf[..], source.rest);
    }

    /** One read of the loop; inside a block the channel always has something to give. */
    method Refill(ghost bytes: seq<Byte>) returns (n: nat)
      requires buf != null && pos <= blockSize <= buf.Length && blockSize <= |bytes|
      requires Taken(bytes, pos, buf[..], source.rest)
      modifies source, buf
      ensures n <= blockSize - pos && (pos < blockSize ==> n > 0)
      ensures Taken(bytes, pos + n, buf[..], source.rest)
    {
      ghost var was, rest := buf[..], source.rest;
      n := source.ReadInto(buf, pos, blockSize - pos);
      TakenMore(bytes, pos, was, rest, n, buf[..], source.rest);
    }

    /** `read()`. */
    method Read() returns (b: int)
      requires Valid()
      modifies this, source, buf
      ensures Valid()
      ensures old(left) == [] ==> b == -1 && left == [] && source.rest == tail
      ensures old(left) != [] ==> b == old(left)[0] && left == old(left)[1..]
      ensures buf != old(buf) ==> buf != null && fresh(buf)
    {
      var more := PrepareBlock();
      if !more {
        return -1;
      }
      b := buf[pos];
      pos := pos + 1;
      left := left[1..];
    }

    /**
      `read(byte[], int, int)`: fills the slice, short only at the end of the frame.
      Not `ok` is the exception for a slice that is none of the array's.
    */
    method ReadInto(b: array<Byte>, off: int, len: int) returns (ok: bool, n: int)
      requires Valid() && b != buf
      modifies this, source, buf, b
      ensures Valid()
      ensures ok <==> 0 <= off && 0 <= len && off + len <= b.Length
      ensures !ok ==> left == old(left) && source.rest == old(source.rest) && b[..] == old(b[..])
      ensures ok ==> (n == -1 <==> len > 0 && old(left) == [])
      ensures ok && n != -1 ==> n == Min(len, |old(left)|)
      ensures ok ==> left == old(left)[if n < 0 then 0 else n..]
      ensures ok ==> Overwritten(old(b[..]), off, if n < 0 then [] else old(left)[..n], b[..])
      ensures ok && n < len ==> source.rest == tail
      ensures buf != old(buf) ==> buf != null && fresh(buf)
    {
      if off < 0 || len < 0 || off + len > b.Length {
        return false, 0;
      }
      if len == 0 {
        return true, 0;
      }
      var more := PrepareBlock();
      if !more {
        return true, -1;
      }
      n := CopyBlocks(b, off, len);
      return true, n;
    }

    /** The copy loop. */
    method CopyBlocks(b: array<Byte>, off: nat, len: nat) returns (n: nat)
      requires Valid() && buf != null && pos < blockSize
      requires b != buf && 0 < len && off + len <= b.Length
      modifies this, source, buf, b
      ensures Valid() && (buf != old(buf) ==> buf != null && fresh(buf))
      ensures n == Min(len, |old(left)|)
      ensures left == old(left)[n..]
      ensures Overwritten(old(b[..]), off, old(left)[..n], b[..])
      ensures n < len ==> source.rest == tail
    {
      ghost var all, was := left, b[..];
      assert left != [] && Copied(all, 0, left, was, off, b[..]);
      hide Valid, Copied;
      var more := true;
      n := 0;
      while n < len && more
        invariant n <= len && Copied(all, n, left, was, off, b[..])
        invariant Valid() && b != buf && (buf != old(buf) ==> buf != null && fresh(buf))
        invariant n < len ==> (more <==> left != [])
        invariant n < len && more ==> buf != null && pos < blockSize
        invariant n < len && !more ==> source.rest == tail
        decreases len - n
      {
        var part;
        part, more := CopyAndPrepare(b, off, len, n, all, was);
        n := n + part;
      }
      CopiedAll(all, n, left, was, off, b[..]);
    }

    /** One turn of the copy loop: as much of the buffered block as the caller still wants. */
    method CopyPart(b: array<Byte>, at: nat, wanted: nat) returns (part: nat)
      requires Valid() && buf != null && pos < blockSize
      requires b != buf && 0 < wanted && at + wanted <= b.Length
      modifies this`pos, this`left, b
      ensures Valid()
      ensures 0 < part <= wanted && part <= |old(left)|
      ensures left == old(left)[part..]
      ensures Overwritten(old(b[..]), at, old(left)[..part], b[..])
    {
      part := Min(blockSize - pos, wanted);
      ghost var block := buf[pos..blockSize];
      PrefixOfAppend(block, Flatten(todo), part);
      assert buf[pos..pos + part] == block[..part] && buf[pos + part..blockSize] == block[part..];
      ArrayCopy(buf, pos, b, at, part);
      pos := pos + part;
      left := left[part..];
    }

    /** One turn of the copy loop with the loop test that follows it; `n` bytes are copied already. */
    method CopyAndPrepare(b: array<Byte>, off: nat, len: nat, n: nat, ghost all: seq<Byte>, ghost was: seq<Byte>)
      returns (part: nat, more: bool)
      requires Valid() && buf != null && pos < blockSize
      requires b != buf && n < len && off + len <= b.Length && Copied(all, n, left, was, off, b[..])
      modifies this, source, buf, b
      ensures Valid() && b != buf && (buf != old(buf) ==> buf != null && fresh(buf))
      ensures 0 < part <= len - n && Copied(all, n + part, left, was, off, b[..])
      ensures n + part < len ==> (more <==> left != [])
      ensures n + part < len && more ==> buf != null && pos < blockSize
      ensures n + part < len && !more ==> source.rest == tail
    {
      hide Copied;
      part := CopyPart(b, off + n, len - n);
      CopiedMore(all, n, old(left), was, off, old(b[..]), part, b[..]);
      more := true;
      if n + part < len {
        more := PrepareBlock();
      }
    }

    /** `close()`: wherever the reader stopped, the channel is left just past the terminator. */
    method Close()
      requires Valid()
      modifies this, source, buf
      ensures Valid() && left == []
      ensures source.rest == tail
      ensures buf != old(buf) ==> buf != null && fresh(buf)
    {
      var more := PrepareBlock();
      while more
        invariant Valid() && (more <==> left != [])
        invariant more ==> buf != null && pos < blockSize
        invariant !more ==> source.rest == tail
        invariant buf != old(buf) ==> buf != null && fresh(buf)
        decreases |left|
      {
        pos := blockSize;
        left := Flatten(todo);
        more := PrepareBlock();
      }
    }
  }
}
