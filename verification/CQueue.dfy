/** The byte queue shared by the audio paths: a fixed buffer with a read position, a write
    position and a length. The class keeps those fields; Contents() is the byte sequence
    they stand for, and every operation is specified on it. */
module ByteQueue {
  import opened Bytes
  import Ring

  class CQueue {
    const base: array<byte>
    var rd: nat
    var wr: nat
    var len: nat

    ghost predicate Valid()
      reads this
    {
      rd < base.Length && len <= base.Length && wr == Ring.Adv(rd, len, base.Length)
    }

    ghost function Contents(): (s: seq<byte>)
      requires Valid()
      reads this, base
      ensures |s| == len
    {
      Ring.Read(base[..], rd, len)
    }

    constructor (buf: array<byte>)
      requires buf.Length > 0
      ensures Valid() && base == buf && Contents() == []
    {
      base := buf;
      rd, wr, len := 0, 0, 0;
    }

    method Length() returns (n: nat)
      requires Valid()
      ensures n == |Contents()|
    {
      n := len;
    }

    method Available() returns (n: nat)
      requires Valid()
      ensures n + |Contents()| == base.Length
    {
      n := base.Length - len;
    }

    /** Appends all of e or nothing. */
    method EnCQueue(e: seq<byte>) returns (ok: bool)
      requires Valid()
      modifies this`wr, this`len, base
      ensures Valid()
      ensures ok == (|old(Contents())| + |e| <= base.Length)
      ensures Contents() == if ok then old(Contents()) + e else old(Contents())
      ensures !ok ==> base[..] == old(base[..])
    {
      if base.Length - len < |e| {
        return false;
      }
      Ring.AppendAtEnd(base[..], rd, len, e);
      len := len + |e|;
      var bytesToTheEnd := base.Length - wr;
      if bytesToTheEnd > |e| {
        Ring.CopyIn(base, wr, e);
        wr := wr + |e|;
      } else {
        Ring.WriteSplit(base[..], wr, e[..bytesToTheEnd], e[bytesToTheEnd..]);
        assert e == e[..bytesToTheEnd] + e[bytesToTheEnd..];
        Ring.CopyIn(base, wr, e[..bytesToTheEnd]);
        Ring.CopyIn(base, 0, e[bytesToTheEnd..]);
        wr := |e| - bytesToTheEnd;
      }
      ok := true;
    }

    /** Drops the first n bytes, or nothing when there are fewer. */
    method DeCQueue(n: nat) returns (ok: bool)
      requires Valid()
      modifies this`rd, this`len
      ensures Valid()
      ensures ok == (n <= |old(Contents())|)
      ensures Contents() == if ok then old(Contents())[n..] else old(Contents())
    {
      if len < n {
        return false;
      }
      Ring.DropFront(base[..], rd, len, n);
      Ring.AdvIsMod(rd, n, base.Length);
      len := len - n;
      rd := (rd + n) % base.Length;
      ok := true;
    }

    /** The first n bytes as two contiguous pieces, the second one empty unless they wrap. */
    method Peek(n: nat) returns (ok: bool, e1: seq<byte>, e2: seq<byte>)
      requires Valid()
      ensures ok == (n <= |Contents()|)
      ensures ok ==> e1 + e2 == Contents()[..n]
      ensures !ok ==> e1 == e2 == []
    {
      e1, e2 := [], [];
      if len < n {
        return false, [], [];
      }
      ok := true;
      Ring.DropFront(base[..], rd, len, n);
      if wr > rd || base.Length - rd >= n {
        e1 := base[rd..rd + n];
      } else {
        e1 := base[rd..];
        e2 := base[..n - |e1|];
      }
    }

    method Reset()
      requires Valid()
      modifies this`rd, this`wr, this`len
      ensures Valid() && Contents() == []
    {
      rd, wr, len := 0, 0, 0;
    }
  }
}
