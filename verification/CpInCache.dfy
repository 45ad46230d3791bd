/** The input cache between the two cores: a single-producer single-consumer ring in which
    one byte always stays free. The MCU fills it from the byte queue, the co-processor (CP)
    takes packets out of it. Each side owns one position and works on a snapshot of the
    other's, taken before the call; a snapshot may be stale, so the methods only assume
    what stays true of it while the other side runs (MayLagRead, MayLagWrite). */
module CpInCache {
  import opened Bytes
  import opened ByteQueue
  import opened Framing
  import Ring

  /** Bytes the MCU may still write: all but the unread ones and one. */
  function Free(w: nat, r: nat, size: nat): (n: nat)
    requires w < size && r < size
    ensures n + Ring.Used(w, r, size) == size - 1
  {
    if w < r then r - w - 1 else size - w + r - 1
  }

  /** An old read position: the CP has since consumed some of the bytes behind it. */
  predicate MayLagRead(snapR: nat, w: nat, r: nat, size: nat) {
    snapR < size && w < size && r < size && Ring.Used(w, r, size) <= Ring.Used(w, snapR, size)
  }

  /** An old write position: the MCU has since added bytes behind it. */
  predicate MayLagWrite(snapW: nat, w: nat, r: nat, size: nat) {
    snapW < size && w < size && r < size && Ring.Used(snapW, r, size) <= Ring.Used(w, r, size)
  }

  function Min(a: nat, b: nat): nat { if a < b then a else b }

  /** The length handed to the AAC decoder: the smallest of 64, 128, ..., 2048 above the
      packet length. */
  function AacReadSize(len: nat): (m: nat)
    requires len < AAC_LIMIT
    ensures m in {64, 128, 256, 512, 1024, 2048} && len < m && (m == 64 || m / 2 <= len)
  {
    if len < 64 then 64 else if len < 128 then 128 else if len < 256 then 256
    else if len < 512 then 512 else if len < 1024 then 1024 else 2048
  }

  class Cache {
    const mem: array<byte>
    var inWpos: nat
    var inRpos: nat

    ghost predicate Valid()
      reads this
    {
      inWpos < mem.Length && inRpos < mem.Length
    }

    /** The bytes published by the MCU and not yet consumed by the CP. */
    ghost function Contents(): (s: seq<byte>)
      requires Valid()
      reads this, mem
    {
      Ring.Read(mem[..], inRpos, Ring.Used(inWpos, inRpos, mem.Length))
    }

    /** The part of them that a CP holding the write position snapW can see. */
    ghost function Visible(snapW: nat): (s: seq<byte>)
      requires Valid() && MayLagWrite(snapW, inWpos, inRpos, mem.Length)
      reads this, mem
      ensures s <= Contents()
    {
      Ring.DropFront(mem[..], inRpos, Ring.Used(inWpos, inRpos, mem.Length), Ring.Used(snapW, inRpos, mem.Length));
      Ring.Read(mem[..], inRpos, Ring.Used(snapW, inRpos, mem.Length))
    }

    constructor (buf: array<byte>)
      requires buf.Length > 1
      ensures Valid() && mem == buf && Contents() == []
    {
      mem := buf;
      inWpos, inRpos := 0, 0;
    }

    /** mcu_load_a2dp_encoded_data: moves as many bytes from the front of the queue to the
        end of the cache as the snapshot of the read position allows. */
    method McuLoad(q: CQueue, snapR: nat)
      requires Valid() && q.Valid() && q.base != mem
      requires MayLagRead(snapR, inWpos, inRpos, mem.Length)
      modifies this`inWpos, mem, q`rd, q`len
      ensures Valid() && q.Valid()
      ensures var n := Min(|old(q.Contents())|, Free(old(inWpos), snapR, mem.Length));
              && Contents() == old(Contents()) + old(q.Contents())[..n]
              && q.Contents() == old(q.Contents())[n..]
              && mem[..] == Ring.Write(old(mem[..]), old(inWpos), old(q.Contents())[..n])
    {
      hide Ring.Read, Ring.Write;
      ghost var all := q.Contents();
      ghost var before := mem[..];
      var freeLen := Free(inWpos, snapR, mem.Length);
      if freeLen == 0 {
        assert all[0..] == all;
        Ring.WriteNothing(before, inWpos);
        return;
      }
      var size := q.Length();
      if size > freeLen {
        size := freeLen;
      }
      var ok, e1, e2 := q.Peek(size);
      var w := CopySegments(inWpos, snapR, e1, e2);
      Ring.AppendAtEnd(before, inRpos, Ring.Used(inWpos, inRpos, mem.Length), all[..size]);
      inWpos := w;
      ok := q.DeCQueue(size);
    }

    /** The copy of the two queue segments into the free part of the cache. */
    method CopySegments(w: nat, snapR: nat, e1: seq<byte>, e2: seq<byte>) returns (next: nat)
      requires w < mem.Length && snapR < mem.Length && |e1| + |e2| <= Free(w, snapR, mem.Length)
      modifies mem
      ensures mem[..] == Ring.Write(old(mem[..]), w, e1 + e2)
      ensures next == Ring.Adv(w, |e1| + |e2|, mem.Length)
    {
      Ring.WriteSplit(mem[..], w, e1, e2);
      if w < snapR {
        Ring.CopyIn(mem, w, e1);
        Ring.CopyIn(mem, w + |e1|, e2);
        next := w + |e1| + |e2|;
      } else {
        next := CopyWrapped(w, e1);
        next := CopyWrapped(next, e2);
      }
    }

    /** One segment copied at w, in two pieces when it reaches the end of the cache. */
    method CopyWrapped(w: nat, e: seq<byte>) returns (next: nat)
      requires w < mem.Length && |e| < mem.Length
      modifies mem
      ensures mem[..] == Ring.Write(old(mem[..]), w, e)
      ensures next == Ring.Adv(w, |e|, mem.Length)
    {
      next := w;
      if |e| > 0 {
        var n := Min(mem.Length - w, |e|);
        Ring.WriteSplit(mem[..], w, e[..n], e[n..]);
        assert e == e[..n] + e[n..];
        Ring.CopyIn(mem, w, e[..n]);
        next := Ring.Adv(w, n, mem.Length);
        if n < |e| {
          Ring.CopyIn(mem, next, e[n..]);
          next := Ring.Adv(next, |e| - n, mem.Length);
        }
      }
    }

    /** cp_get_in_cache_data: len bytes from position r on, copied out in one or two pieces. */
    method GetData(len: nat, w: nat, r: nat) returns (data: seq<byte>)
      requires w < mem.Length && r < mem.Length && len <= Ring.Used(w, r, mem.Length)
      ensures data == Ring.Read(mem[..], r, len)
    {
      if w > r || mem.Length >= r + len {
        data := mem[r..r + len];
      } else {
        var copyLen := mem.Length - r;
        data := mem[r..r + copyLen] + mem[..len - copyLen];
      }
    }

    /** cp_load_sbc_frame: lends a contiguous piece of the cache, at most frameSize bytes. */
    method LoadSbc(snapW: nat, frameSize: nat) returns (ret: int, at: nat, len: nat)
      requires Valid() && MayLagWrite(snapW, inWpos, inRpos, mem.Length)
      ensures ret == if |Visible(snapW)| == 0 then 1 else 0
      ensures at == inRpos && at + len <= mem.Length && len <= frameSize && len <= |Visible(snapW)|
      ensures mem[at..at + len] == Contents()[..len]
      ensures ret == 0 && frameSize > 0 ==> len > 0
      ensures ret == 0 ==> len == frameSize || at + len == mem.Length || len == |Visible(snapW)|
    {
      hide Ring.Write;
      at, len := inRpos, 0;
      ghost var visible := Ring.Used(snapW, inRpos, mem.Length);
      if snapW == inRpos {
        return 1, at, len;
      }
      len := if snapW > inRpos then snapW - inRpos else mem.Length - inRpos;
      if len > frameSize {
        len := frameSize;
      }
      assert len <= visible && at + len <= mem.Length;
      ret := 0;
      FrontIsSlice(mem[..], inRpos, Ring.Used(inWpos, inRpos, mem.Length), len);
      hide Ring.Read;
    }

    /** cp_consume_sbc_frame: the decoder is done with the first n lent bytes. */
    method ConsumeSbc(n: nat)
      requires Valid() && n <= |Contents()|
      modifies this`inRpos
      ensures Valid() && Contents() == old(Contents())[n..]
    {
      Ring.DropFront(mem[..], inRpos, Ring.Used(inWpos, inRpos, mem.Length), n);
      inRpos := Ring.Adv(inRpos, n, mem.Length);
    }

    /** The end of a successful load: n bytes behind hdr header bytes are copied out, and
        all of it is consumed by publishing the new read position. */
    method Take(snapW: nat, hdr: nat, n: nat) returns (frame: seq<byte>)
      requires Valid() && MayLagWrite(snapW, inWpos, inRpos, mem.Length)
      requires hdr + n <= |Visible(snapW)|
      modifies this`inRpos
      ensures Valid()
      ensures frame == old(Visible(snapW))[hdr..hdr + n]
      ensures Contents() == old(Contents())[hdr + n..]
    {
      Ring.DropFront(mem[..], inRpos, Ring.Used(inWpos, inRpos, mem.Length), hdr + n);
      ReadInside(mem[..], inRpos, Ring.Used(snapW, inRpos, mem.Length), hdr, n);
      var r := Ring.Adv(inRpos, hdr, mem.Length);
      frame := GetData(n, snapW, r);
      inRpos := Ring.Adv(r, n, mem.Length);
    }

    /** The AAC length in the first two visible bytes, the second of which may have wrapped. */
    method AacHeader(snapW: nat) returns (n: nat)
      requires Valid() && MayLagWrite(snapW, inWpos, inRpos, mem.Length)
      requires |Visible(snapW)| >= 2
      ensures n == LittleEndian(Visible(snapW)[0], Visible(snapW)[1], 0, 0)
    {
      if snapW > inRpos || mem.Length >= inRpos + 2 {
        n := LittleEndian(mem[inRpos], mem[inRpos + 1], 0, 0);
      } else {
        n := LittleEndian(mem[inRpos], mem[0], 0, 0);
      }
    }

    /** cp_load_aac_frame; a bad header asks the player to reset the byte queue. */
    method LoadAac(snapW: nat) returns (ret: int, frame: seq<byte>, maxRead: nat, resetQueue: bool)
      requires Valid() && MayLagWrite(snapW, inWpos, inRpos, mem.Length)
      modifies this`inRpos
      ensures Valid() && resetQueue == (ret == 2)
      ensures match Parse(Aac, old(Visible(snapW)))
              case Frame(p, c) => && ret == 0 && frame == p && maxRead == AacReadSize(|p|)
                                  && c <= |old(Contents())| && Contents() == old(Contents())[c..]
              case BadHeader => ret == 2 && inRpos == old(inRpos)
              case NeedMore => ret in {1, 3} && inRpos == old(inRpos)
    {
      frame, maxRead, resetQueue := [], 0, false;
      var len: nat := Ring.Used(snapW, inRpos, mem.Length);
      if len < 2 {
        return 1, frame, maxRead, false;
      }
      var aacLen := AacHeader(snapW);
      if aacLen >= AAC_LIMIT {
        return 2, frame, maxRead, true;
      }
      maxRead := AacReadSize(aacLen);
      if len < 2 + aacLen {
        return 3, frame, maxRead, false;
      }
      frame := Take(snapW, 2, aacLen);
      ret := 0;
    }

    /** The scan of cp_load_lhdc_frame for a tag in the visible bytes span: how many bytes
        it skips, and the length announced behind the tag. */
    method SeekTag(snapW: nat, ghost span: seq<byte>) returns (found: bool, skipped: nat, packetLen: nat)
      requires snapW < mem.Length && inRpos < mem.Length
      requires span == Ring.Read(mem[..], inRpos, Ring.Used(snapW, inRpos, mem.Length))
      ensures ScanResult(span, found, skipped, packetLen)
    {
      skipped, packetLen := 0, 0;
      var r: nat := inRpos;
      var len: nat := Ring.Used(snapW, inRpos, mem.Length);
      while true
        invariant r < mem.Length && skipped + len == |span| && len == Ring.Used(snapW, r, mem.Length)
        invariant r == Ring.Adv(inRpos, skipped, mem.Length)
        invariant NoTagBefore(span, skipped)
        decreases len
      {
        if len < LHDC_HEADER_SIZE {
          ParseLhdcTooShort(span, skipped);
          return false, skipped, packetLen;
        }
        var header := GetData(LHDC_HEADER_SIZE, snapW, r);
        ReadInside(mem[..], inRpos, |span|, skipped, LHDC_HEADER_SIZE);
        ScanStep(span, skipped, header);
        if header[..4] == TAG {
          return true, skipped, HeaderLen(header);
        }
        r := Ring.Adv(r, 1, mem.Length);
        len := Ring.Used(snapW, r, mem.Length);
        skipped := skipped + 1;
      }
    }

    /** cp_load_lhdc_frame. A latency change or a decoder that is not ready leaves the
        cache alone. */
    method LoadLhdc(snapW: nat, latencyChanged: bool, ready: bool) returns (ret: int, frame: seq<byte>)
      requires Valid() && MayLagWrite(snapW, inWpos, inRpos, mem.Length)
      modifies this`inRpos
      ensures Valid()
      ensures latencyChanged ==> ret == 1 && inRpos == old(inRpos)
      ensures !latencyChanged && !ready ==> ret == 0 && frame == [] && inRpos == old(inRpos)
      ensures !latencyChanged && ready ==>
                match Parse(Lhdc, old(Visible(snapW)))
                case Frame(p, c) => ret == 0 && frame == p && c <= |old(Contents())|
                  && Contents() == old(Contents())[c..]
                case _ => ret == 1 && inRpos == old(inRpos)
    {
      hide Ring.Read, ParseLhdc;
      frame := [];
      if latencyChanged {
        return 1, frame;
      }
      if !ready {
        return 0, frame;
      }
      var found, skipped, packetLen := SeekTag(snapW, Visible(snapW));
      if !found || Ring.Used(snapW, inRpos, mem.Length) < skipped + LHDC_HEADER_SIZE + packetLen {
        return 1, frame;
      }
      frame := Take(snapW, skipped + LHDC_HEADER_SIZE, packetLen);
      ret := 0;
    }
  }

  lemma FrontIsSlice(buf: seq<byte>, r: nat, used: nat, n: nat)
    requires r < |buf| && n <= used <= |buf| && r + n <= |buf|
    ensures Ring.Read(buf, r, used)[..n] == buf[r..r + n]
  {
    Ring.DropFront(buf, r, used, n);
  }

  ghost predicate NoTagBefore(span: seq<byte>, k: nat) {
    forall i: nat :: i < k ==> !TagAt(span, i)
  }

  /** What a finished scan says about the specified outcome of the load. */
  ghost predicate ScanResult(span: seq<byte>, found: bool, skipped: nat, packetLen: nat) {
    var total := skipped + LHDC_HEADER_SIZE + packetLen;
    ParseLhdc(span) == if !found || |span| < total then NeedMore
                       else Frame(span[skipped + LHDC_HEADER_SIZE..total], total)
  }

  lemma ScanStep(span: seq<byte>, k: nat, header: seq<byte>)
    requires NoTagBefore(span, k) && k + LHDC_HEADER_SIZE <= |span| && header == span[k..k + LHDC_HEADER_SIZE]
    ensures header[..4] == TAG ==> ScanResult(span, true, k, HeaderLen(header))
    ensures header[..4] != TAG ==> NoTagBefore(span, k + 1)
  {
    assert header[..4] == span[k..k + 4];
    if header[..4] == TAG {
      ParseLhdcIsFirstContainer(span, k);
      assert HeaderLen(header) == HeaderLen(span[k..]);
    }
  }

  /** n items that lie k places into a longer stretch. */
  lemma ReadInside<T>(buf: seq<T>, start: nat, total: nat, k: nat, n: nat)
    requires start < |buf| && k + n <= total <= |buf|
    ensures Ring.Adv(Ring.Adv(start, k, |buf|), n, |buf|) == Ring.Adv(start, k + n, |buf|)
    ensures Ring.Read(buf, Ring.Adv(start, k, |buf|), n) == Ring.Read(buf, start, total)[k..k + n]
  {
    Ring.DropFront(buf, start, total, k);
    Ring.DropFront(buf, Ring.Adv(start, k, |buf|), total - k, n);
    var s := Ring.Read(buf, start, total);
    assert s[k..k + n] == s[k..][..n];
  }

  /** store_sbc_buffer on the AAC overlay: length and packet go in together or not at all. */
  method StoreAac(q: CQueue, buf: seq<byte>) returns (ok: bool)
    requires q.Valid()
    modifies q`wr, q`len, q.base
    ensures q.Valid()
    ensures ok == (|old(q.Contents())| + |buf| + 2 <= q.base.Length)
    ensures q.Contents() == if ok then old(q.Contents()) + Encode(Aac, buf) else old(q.Contents())
  {
    hide Ring.Read, Ring.Write;
    var available := q.Available();
    if available >= |buf| + 2 {
      ok := q.EnCQueue([|buf| % 256, |buf| / 256 % 256]);
      ok := q.EnCQueue(buf);
    } else {
      ok := false;
    }
  }

  /** store_sbc_buffer on the LHDC overlay, for the payload of an assembled packet. */
  method StoreLhdc(q: CQueue, payload: seq<byte>) returns (ok: bool)
    requires q.Valid()
    modifies q`wr, q`len, q.base
    ensures q.Valid()
    ensures ok == (|old(q.Contents())| + |payload| + LHDC_HEADER_SIZE <= q.base.Length)
    ensures q.Contents() == if ok then old(q.Contents()) + Encode(Lhdc, payload) else old(q.Contents())
  {
    var n := |payload|;
    var tmp := TAG + [n % 256, n / 256 % 256, n / 65536 % 256, n / 16777216 % 256] + payload;
    ok := q.EnCQueue(tmp);
  }
}
