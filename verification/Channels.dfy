/**
  Bytes, the 32-bit integers written before every block, and the reliable FIFO
  byte channel that both the tcp and the tcpx protocol run over.
*/
module Channels {
  import opened Sequences

  /** A byte as `InputStream.read` returns it. */
  type Byte = b: int | 0 <= b < 0x100

  /** A Java `int`. */
  type Int32 = v: int | -0x8000_0000 <= v < 0x8000_0000

  const MAX_INT: Int32 := 0x7FFF_FFFF

  /** The four bytes `(v >>> 24) & 0xFF` .. `(v >>> 0) & 0xFF`. */
  function EncodeInt(v: Int32): (s: seq<Byte>)
    ensures |s| == 4
  {
    var u := if v < 0 then v + 0x1_0000_0000 else v;
    [u / 0x100_0000, u / 0x1_0000 % 0x100, u / 0x100 % 0x100, u % 0x100]
  }

  /** `(ch1 << 24) + (ch2 << 16) + (ch3 << 8) + ch4` with its wrap-around at the sign bit. */
  function DecodeInt(ch1: Byte, ch2: Byte, ch3: Byte, ch4: Byte): Int32 {
    var u := ch1 * 0x100_0000 + ch2 * 0x1_0000 + ch3 * 0x100 + ch4;
    if u >= 0x8000_0000 then u - 0x1_0000_0000 else u
  }

  /** Reading an `int` back gives the `int` written, -1 included. */
  lemma IntRoundTrip(v: Int32)
    ensures var s := EncodeInt(v); DecodeInt(s[0], s[1], s[2], s[3]) == v
  {
    var u := if v < 0 then v + 0x1_0000_0000 else v;
    assert u == u / 0x100 * 0x100 + u % 0x100;
    assert u / 0x100 / 0x100 == u / 0x1_0000;
    assert u / 0x1_0000 / 0x100 == u / 0x100_0000;
  }

  /** The high byte comes first, and a negative `int` is written as its complement. */
  lemma IntBytes(v: Int32)
    ensures var s := EncodeInt(v);
      (s[0] as int) * 0x100_0000 + (s[1] as int) * 0x1_0000 + (s[2] as int) * 0x100 + s[3] == if v < 0 then v + 0x1_0000_0000 else v
  {
    var u := if v < 0 then v + 0x1_0000_0000 else v;
    assert u / 0x100 / 0x100 == u / 0x1_0000;
    assert u / 0x1_0000 / 0x100 == u / 0x100_0000;
  }

  /** Two integers that start the same bytes are equal. */
  lemma IntPrefixFree(v: Int32, w: Int32, s: seq<Byte>, t: seq<Byte>)
    requires EncodeInt(v) + s == EncodeInt(w) + t
    ensures v == w && s == t
  {
    IntRoundTrip(v);
    IntRoundTrip(w);
    var whole := EncodeInt(v) + s;
    assert forall i :: 0 <= i < 4 ==> EncodeInt(v)[i] == whole[i] && EncodeInt(w)[i] == whole[i];
    assert whole[4..] == s && whole[4..] == t;
  }

  function Min(a: int, b: int): int {
    if a < b then a else b
  }

  /** `b` is `was` with `part` written over it at `at`. */
  ghost predicate Overwritten<T>(was: seq<T>, at: nat, part: seq<T>, b: seq<T>) {
    && at + |part| <= |was| == |b|
    && b[..at] == was[..at]
    && b[at..at + |part|] == part
    && b[at + |part|..] == was[at + |part|..]
  }

  /** Writing `first` and then `second` behind it is writing both at once. */
  lemma OverwrittenTwice<T>(was: seq<T>, at: nat, first: seq<T>, between: seq<T>, second: seq<T>, b: seq<T>)
    requires Overwritten(was, at, first, between)
    requires Overwritten(between, at + |first|, second, b)
    ensures Overwritten(was, at, first + second, b)
  {
    var mid, end := at + |first|, at + |first| + |second|;
    assert b[..at] == b[..mid][..at] == between[..mid][..at] == between[..at];
    assert b[at..mid] == b[..mid][at..] == between[..mid][at..] == between[at..mid];
    assert b[at..end] == b[at..mid] + b[mid..end];
    assert between[end..] == between[mid..][|second|..] == was[mid..][|second|..] == was[end..];
  }

  /** The first `n` of the bytes on a channel are in the buffer `b`, the others still to be read. */
  ghost predicate Taken(bytes: seq<Byte>, n: nat, b: seq<Byte>, rest: seq<Byte>) {
    && n <= |bytes| && n <= |b|
    && b[..n] == bytes[..n]
    && rest == bytes[n..]
  }

  /** A read of `k` more bytes, behind those already taken. */
  lemma TakenMore(bytes: seq<Byte>, n: nat, was: seq<Byte>, rest: seq<Byte>, k: nat, now: seq<Byte>, left: seq<Byte>)
    requires Taken(bytes, n, was, rest) && k <= |rest|
    requires if k == 0 then now == was && left == rest else Overwritten(was, n, rest[..k], now) && left == rest[k..]
    ensures Taken(bytes, n + k, now, left)
  {
    if k > 0 {
      assert now[..n + k] == now[..n] + now[n..n + k];
      assert bytes[..n + k] == bytes[..n] + bytes[n..][..k];
      assert bytes[n..][k..] == bytes[n + k..];
    }
  }

  /** `System.arraycopy` between two different arrays. */
  method ArrayCopy(src: array<Byte>, srcPos: nat, dest: array<Byte>, destPos: nat, length: nat)
    requires src != dest
    requires srcPos + length <= src.Length && destPos + length <= dest.Length
    modifies dest
    ensures Overwritten(old(dest[..]), destPos, src[srcPos..srcPos + length], dest[..])
  {
    forall i | 0 <= i < length {
      dest[destPos + i] := src[srcPos + i];
    }
  }

  /** The writing end of a channel. */
  class Sink {
    var sent: seq<Byte>

    constructor ()
      ensures sent == []
    {
      sent := [];
    }

    method Write(b: Byte)
      modifies this
      ensures sent == old(sent) + [b]
    {
      sent := sent + [b];
    }

    method WriteArray(b: array<Byte>, off: nat, len: nat)
      requires off + len <= b.Length
      modifies this
      ensures sent == old(sent) + b[off..off + len]
    {
      sent := sent + b[off..off + len];
    }

    /** The four writes of `writeInt`, high byte first. */
    method WriteInt(v: Int32)
      modifies this
      ensures sent == old(sent) + EncodeInt(v)
    {
      var s := EncodeInt(v);
      Write(s[0]);
      Write(s[1]);
      Write(s[2]);
      Write(s[3]);
    }
  }

  /**
    The reading end of a channel. `rest` is everything the peer has sent or is
    still going to send and that has not been read yet.
  */
  class Source {
    var rest: seq<Byte>

    constructor (bytes: seq<Byte>)
      ensures rest == bytes
    {
      rest := bytes;
    }

    method Read() returns (b: int)
      modifies this
      ensures old(rest) == [] ==> b == -1 && rest == []
      ensures old(rest) != [] ==> b == old(rest)[0] && rest == old(rest)[1..]
    {
      if rest == [] {
        b := -1;
      } else {
        b := rest[0];
        rest := rest[1..];
      }
    }

    /**
      The contract of `InputStream.read(byte[], int, int)`: some non-empty part
      of what was asked for, chosen by the network; nothing at all when nothing
      was asked for; -1 at the end of the stream.
    */
    method ReadInto(b: array<Byte>, off: nat, len: nat) returns (n: int)
      requires off + len <= b.Length
      modifies this, b
      ensures len == 0 ==> n == 0
      ensures len > 0 ==> (n == -1 <==> old(rest) == [])
      ensures len > 0 && n != -1 ==> 1 <= n <= Min(len, |old(rest)|)
      ensures n <= 0 ==> rest == old(rest) && b[..] == old(b[..])
      ensures n > 0 ==> rest == old(rest)[n..]
      ensures n > 0 ==> Overwritten(old(b[..]), off, old(rest)[..n], b[..])
    {
      if len == 0 {
        return 0;
      }
      if rest == [] {
        return -1;
      }
      var most := Min(len, |rest|);
      n :| 1 <= n <= most;
      forall i | 0 <= i < n {
        b[off + i] := rest[i];
      }
      rest := rest[n..];
    }

    /** `BlockInputStream.readInt`, on a channel that still holds four bytes. */
    method ReadInt() returns (v: Int32)
      requires |rest| >= 4
      modifies this
      ensures rest == old(rest)[4..]
      ensures v == DecodeInt(old(rest)[0], old(rest)[1], old(rest)[2], old(rest)[3])
    {
      var ch1 := Read();
      var ch2 := Read();
      var ch3 := Read();
      var ch4 := Read();
      v := DecodeInt(ch1, ch2, ch3, ch4);
    }
  }
}
