/** Circular buffers as values. Every ring of the firmware (the byte queue, the
    co-processor input cache, the echo queue) is a fixed buffer read and written from a
    start position with wrap-around; this module gives the two operations and the laws
    that relate them. Positions are kept below the size, so no modulus is needed. */
module Ring {

  /** Position reached from pos by moving n places forward. */
  function Adv(pos: nat, n: nat, size: nat): (r: nat)
    requires pos < size && n <= size
    ensures r < size
  {
    if pos + n < size then pos + n else pos + n - size
  }

  /** The remainder operator moves a position the same way. */
  lemma AdvIsMod(pos: nat, n: nat, size: nat)
    requires pos < size && n <= size
    ensures (pos + n) % size == Adv(pos, n, size)
  {
    if pos + n >= size {
      assert pos + n == size * 1 + (pos + n - size);
    }
  }

  /** Number of places from r forward to w. */
  function Used(w: nat, r: nat, size: nat): (n: nat)
    requires w < size && r < size
    ensures n < size && Adv(r, n, size) == w
  {
    if w >= r then w - r else size - r + w
  }

  /** Moving the later or the earlier of two positions. */
  lemma UsedMoves(w: nat, r: nat, n: nat, size: nat)
    requires w < size && r < size
    ensures n <= Used(w, r, size) ==> Used(w, Adv(r, n, size), size) == Used(w, r, size) - n
    ensures Used(w, r, size) + n < size ==> Used(Adv(w, n, size), r, size) == Used(w, r, size) + n
  {
  }

  /** The n items that start at position start. */
  function Read<T>(buf: seq<T>, start: nat, n: nat): (s: seq<T>)
    requires start < |buf| && n <= |buf|
    ensures |s| == n
  {
    if start + n <= |buf| then buf[start..start + n] else buf[start..] + buf[..start + n - |buf|]
  }

  /** Item by item, which is what the two pieces amount to. */
  lemma ReadItems<T>(buf: seq<T>, start: nat, n: nat)
    requires start < |buf| && n <= |buf|
    ensures forall k :: 0 <= k < n ==> Read(buf, start, n)[k] == buf[Adv(start, k, |buf|)]
  {
  }

  /** The buffer after writing data from position start on. */
  function Write<T>(buf: seq<T>, start: nat, data: seq<T>): (b: seq<T>)
    requires start < |buf| && |data| <= |buf|
    ensures |b| == |buf|
  {
    seq(|buf|, i requires 0 <= i < |buf| =>
      if Used(i, start, |buf|) < |data| then data[Used(i, start, |buf|)] else buf[i])
  }

  lemma WriteNothing<T>(buf: seq<T>, start: nat)
    requires start < |buf|
    ensures Write(buf, start, []) == buf
  {
  }

  lemma ReadBack<T>(buf: seq<T>, start: nat, data: seq<T>)
    requires start < |buf| && |data| <= |buf|
    ensures Read(Write(buf, start, data), start, |data|) == data
  {
    var b := Write(buf, start, data);
    ReadItems(b, start, |data|);
    forall k | 0 <= k < |data| ensures Read(b, start, |data|)[k] == data[k] {
      assert Used(Adv(start, k, |buf|), start, |buf|) == k;
    }
  }

  /** A read that ends before the written stretch begins does not see the write. */
  lemma ReadElsewhere<T>(buf: seq<T>, start: nat, n: nat, gap: nat, data: seq<T>)
    requires start < |buf| && n <= gap && gap + |data| <= |buf|
    ensures Read(Write(buf, Adv(start, gap, |buf|), data), start, n) == Read(buf, start, n)
  {
    var w := Adv(start, gap, |buf|);
    var b := Write(buf, w, data);
    ReadItems(b, start, n);
    ReadItems(buf, start, n);
    forall k | 0 <= k < n ensures Read(b, start, n)[k] == Read(buf, start, n)[k] {
      var i := Adv(start, k, |buf|);
      assert Used(i, w, |buf|) >= |data|;
    }
  }

  lemma ReadSplit<T>(buf: seq<T>, start: nat, n: nat, m: nat)
    requires start < |buf| && n + m <= |buf|
    ensures Read(buf, start, n + m) == Read(buf, start, n) + Read(buf, Adv(start, n, |buf|), m)
  {
    hide Read;
    var l, r := Read(buf, start, n + m), Read(buf, start, n) + Read(buf, Adv(start, n, |buf|), m);
    ReadItems(buf, start, n + m);
    ReadItems(buf, start, n);
    ReadItems(buf, Adv(start, n, |buf|), m);
    forall k | 0 <= k < n + m ensures l[k] == r[k] {
      if n <= k {
        assert Adv(Adv(start, n, |buf|), k - n, |buf|) == Adv(start, k, |buf|);
      }
    }
  }

  lemma WriteSplit<T>(buf: seq<T>, start: nat, d1: seq<T>, d2: seq<T>)
    requires start < |buf| && |d1| + |d2| <= |buf|
    ensures Write(Write(buf, start, d1), Adv(start, |d1|, |buf|), d2) == Write(buf, start, d1 + d2)
  {
    var b := Write(buf, start, d1);
    var l, r := Write(b, Adv(start, |d1|, |buf|), d2), Write(buf, start, d1 + d2);
    forall i | 0 <= i < |buf| ensures l[i] == r[i] {
      var s := Adv(start, |d1|, |buf|);
      assert l[i] == if Used(i, s, |buf|) < |d2| then d2[Used(i, s, |buf|)] else b[i];
      assert b[i] == if Used(i, start, |buf|) < |d1| then d1[Used(i, start, |buf|)] else buf[i];
    }
  }

  /** Writing right behind the unread items appends to them. */
  lemma AppendAtEnd<T>(buf: seq<T>, start: nat, n: nat, data: seq<T>)
    requires start < |buf| && n + |data| <= |buf|
    ensures Read(Write(buf, Adv(start, n, |buf|), data), start, n + |data|) == Read(buf, start, n) + data
  {
    var b := Write(buf, Adv(start, n, |buf|), data);
    ReadSplit(b, start, n, |data|);
    ReadElsewhere(buf, start, n, n, data);
    ReadBack(buf, Adv(start, n, |buf|), data);
  }

  /** Dropping n items from the front of what is read. */
  lemma DropFront<T>(buf: seq<T>, start: nat, total: nat, n: nat)
    requires start < |buf| && n <= total <= |buf|
    ensures Read(buf, start, total)[..n] == Read(buf, start, n)
    ensures Read(buf, start, total)[n..] == Read(buf, Adv(start, n, |buf|), total - n)
  {
    ReadSplit(buf, start, n, total - n);
  }

  /** Publishing a new write position over data already in place appends it. */
  lemma Publish<T>(buf: seq<T>, r: nat, w: nat, data: seq<T>)
    requires r < |buf| && w < |buf| && Used(w, r, |buf|) + |data| < |buf|
    requires Read(buf, w, |data|) == data
    ensures Used(Adv(w, |data|, |buf|), r, |buf|) == Used(w, r, |buf|) + |data|
    ensures Read(buf, r, Used(Adv(w, |data|, |buf|), r, |buf|)) == Read(buf, r, Used(w, r, |buf|)) + data
  {
    UsedMoves(w, r, |data|, |buf|);
    ReadSplit(buf, r, Used(w, r, |buf|), |data|);
  }

  /** Publishing a new read position drops items from the front. */
  lemma Consume<T>(buf: seq<T>, r: nat, w: nat, n: nat)
    requires r < |buf| && w < |buf| && n <= Used(w, r, |buf|)
    ensures Used(w, Adv(r, n, |buf|), |buf|) == Used(w, r, |buf|) - n
    ensures Read(buf, Adv(r, n, |buf|), Used(w, Adv(r, n, |buf|), |buf|)) == Read(buf, r, Used(w, r, |buf|))[n..]
    ensures Read(buf, r, n) == Read(buf, r, Used(w, r, |buf|))[..n]
  {
    UsedMoves(w, r, n, |buf|);
    DropFront(buf, r, Used(w, r, |buf|), n);
  }

  /** One item stored in the free part, d places behind the write position. */
  lemma StoreOne<T>(buf: seq<T>, r: nat, w: nat, d: nat, x: T)
    requires r < |buf| && w < |buf| && Used(w, r, |buf|) + d < |buf|
    ensures var b := buf[Adv(w, d, |buf|) := x];
            && b == Write(buf, Adv(w, d, |buf|), [x])
            && Read(b, r, Used(w, r, |buf|)) == Read(buf, r, Used(w, r, |buf|))
            && Read(b, w, d + 1) == Read(buf, w, d) + [x]
  {
    var at := Adv(w, d, |buf|);
    var used := Used(w, r, |buf|);
    assert buf[at := x] == Write(buf, at, [x]);
    assert at == Adv(r, used + d, |buf|);
    ReadElsewhere(buf, r, used, used + d, [x]);
    AppendAtEnd(buf, w, d, [x]);
  }

  /** A contiguous copy into an array is a ring write that does not wrap. */
  method CopyIn<T>(dst: array<T>, off: nat, src: seq<T>)
    requires off < dst.Length && off + |src| <= dst.Length
    modifies dst
    ensures dst[..] == Write(old(dst[..]), off, src)
  {
    forall i | 0 <= i < |src| {
      dst[off + i] := src[i];
    }
    ghost var w := Write(old(dst[..]), off, src);
    forall i | 0 <= i < dst.Length ensures dst[..][i] == w[i] {
      assert Used(i, off, dst.Length) < |src| <==> off <= i < off + |src|;
    }
  }
}
