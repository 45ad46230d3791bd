/** The list of audio requests: streams at the front, prompts ("playbacks") queued behind them. */
module AudioList {
  import opened Bytes

  datatype Status = Status(id: nat, audId: nat, freq: nat)

  datatype Position = Head | Tail

  const PLAY_BACK_AUDIO := 128
  const INCOMING_CALL := 21
  const MAX_AUDIO_BUF_LIST := 20

  predicate IsPlayback(x: Status) { x.id == PLAY_BACK_AUDIO }

  predicate IsRing(x: Status) { IsPlayback(x) && x.audId == INCOMING_CALL }

  /** The stream kinds the list knows; the voice path is one of them in builds that have it. */
  predicate IsStream(x: Status, voicePath: bool) {
    x.id in {1, 2, 4, 8, 16, 32} || (voicePath && x.id == 2048)
  }

  predicate HasStream(l: seq<Status>, voicePath: bool) {
    exists i :: 0 <= i < |l| && IsStream(l[i], voicePath)
  }

  predicate HasPlayback(l: seq<Status>) {
    exists i :: 0 <= i < |l| && IsPlayback(l[i])
  }

  predicate HasRing(l: seq<Status>) {
    exists i :: 0 <= i < |l| && IsRing(l[i])
  }

  /** A second ring is redundant; any other playback is refused once three entries wait. */
  predicate Refused(l: seq<Status>, x: Status) {
    IsPlayback(x) && if x.audId == INCOMING_CALL then HasRing(l) else |l| >= 3
  }

  predicate Overflows(l: seq<Status>, x: Status) {
    IsPlayback(x) && !Refused(l, x) && HasPlayback(l) && |l| >= MAX_AUDIO_BUF_LIST
  }

  /** app_audio_list_append: the new list and whether the request is to be started now. */
  function Appended(l: seq<Status>, x: Status, voicePath: bool): (seq<Status>, bool) {
    if !IsPlayback(x) then ([x] + l, true)
    else if Refused(l, x) then (l, false)
    else if Overflows(l, x) then (if HasStream(l, voicePath) then [l[0]] else [x], true)
    else (l + [x], !HasPlayback(l))
  }

  /** Where the first playback stands, or the length of the list. */
  function First(l: seq<Status>): (i: nat)
    ensures i <= |l| && (forall k :: 0 <= k < i ==> !IsPlayback(l[k]))
    ensures i < |l| ==> IsPlayback(l[i])
  {
    if l == [] || IsPlayback(l[0]) then 0 else 1 + First(l[1..])
  }

  function Without(l: seq<Status>, i: nat): (r: seq<Status>)
    requires i < |l|
  {
    l[..i] + l[i + 1..]
  }

  /** app_audio_list_rmv_callback: the new list and what to start next. */
  function Removed(l: seq<Status>, closing: Status, pos: Position, voicePath: bool): (seq<Status>, Option<Status>) {
    if IsPlayback(closing) then
      var i := First(l);
      if i == |l| then (l, None)
      else if i + 1 < |l| then (Without(l, i), Some(l[i + 1]))
      else (Without(l, i), if HasStream(l, voicePath) then Some(l[0]) else None)
    else if HasStream(l, voicePath) then
      (if pos == Head then l[1..] else l[..|l| - 1], None)
    else (l, None)
  }

  /** What the two ASSERTs of the removal demand of the entry handed on. */
  predicate AssertsHold(l: seq<Status>, closing: Status, voicePath: bool) {
    var i := First(l);
    IsPlayback(closing) && i < |l| ==>
      if i + 1 < |l| then IsPlayback(l[i + 1]) else HasStream(l, voicePath) ==> !IsPlayback(l[0])
  }

  /** The second ASSERT cannot fire on any list; the first fires exactly when something that
      is not a playback follows the first playback. */
  lemma WhenAssertsFail(l: seq<Status>, closing: Status, voicePath: bool)
    ensures !AssertsHold(l, closing, voicePath) <==>
            IsPlayback(closing) && First(l) + 1 < |l| && !IsPlayback(l[First(l) + 1])
  {
    var i := First(l);
    if i + 1 == |l| && HasStream(l, voicePath) {
      var k :| 0 <= k < |l| && IsStream(l[k], voicePath);
      assert k != i;
    }
  }

  /** Streams and the rest first, playbacks behind. */
  predicate Ordered(l: seq<Status>) {
    forall i, j :: 0 <= i < j < |l| && IsPlayback(l[i]) ==> IsPlayback(l[j])
  }

  function Playbacks(l: seq<Status>): (p: seq<Status>) {
    if l == [] then [] else (if IsPlayback(l[0]) then [l[0]] else []) + Playbacks(l[1..])
  }

  lemma {:induction false} PlaybacksAppend(a: seq<Status>, b: seq<Status>)
    ensures Playbacks(a + b) == Playbacks(a) + Playbacks(b)
  {
    if a == [] {
      assert a + b == b;
    } else {
      hide IsPlayback;
      assert (a + b)[0] == a[0] && (a + b)[1..] == a[1..] + b;
      PlaybacksAppend(a[1..], b);
      Regroup(if IsPlayback(a[0]) then [a[0]] else [], Playbacks(a[1..]), Playbacks(b));
    }
  }

  lemma {:induction false} OrderedPlaybacks(l: seq<Status>)
    requires Ordered(l)
    ensures Playbacks(l) == l[First(l)..]
  {
    if l != [] {
      assert Ordered(l[1..]) by {
        forall i, j | 0 <= i < j < |l| - 1 && IsPlayback(l[1..][i]) ensures IsPlayback(l[1..][j]) {
          assert l[1..][i] == l[i + 1] && l[1..][j] == l[j + 1];
        }
      }
      OrderedPlaybacks(l[1..]);
      if IsPlayback(l[0]) {
        if |l| > 1 {
          assert IsPlayback(l[1]);
        }
        assert First(l[1..]) == 0;
      } else {
        assert l[1..][First(l[1..])..] == l[First(l)..];
      }
    }
  }

  function Rings(l: seq<Status>): (n: nat)
    ensures n == 0 <==> !HasRing(l)
    ensures n <= |Playbacks(l)|
  {
    if l == [] then 0
    else
      assert HasRing(l) <==> IsRing(l[0]) || HasRing(l[1..]) by {
        if HasRing(l[1..]) {
          var i :| 0 <= i < |l| - 1 && IsRing(l[1..][i]);
          assert IsRing(l[i + 1]);
        }
        if HasRing(l) && !IsRing(l[0]) {
          var i :| 0 <= i < |l| && IsRing(l[i]);
          assert IsRing(l[1..][i - 1]);
        }
      }
      (if IsRing(l[0]) then 1 else 0) + Rings(l[1..])
  }

  lemma {:induction false} RingsAppend(a: seq<Status>, b: seq<Status>)
    ensures Rings(a + b) == Rings(a) + Rings(b)
  {
    if a == [] {
      assert a + b == b;
    } else {
      assert (a + b)[0] == a[0] && (a + b)[1..] == a[1..] + b;
      RingsAppend(a[1..], b);
    }
  }

  /** The order the removal rests on, at most one ring, and at most three other playbacks. */
  ghost predicate Valid(l: seq<Status>) {
    Ordered(l) && Rings(l) <= 1 && |Playbacks(l)| <= 3 + Rings(l)
  }

  lemma One(x: Status)
    ensures Playbacks([x]) == (if IsPlayback(x) then [x] else [])
    ensures Rings([x]) == if IsRing(x) then 1 else 0
  {
    assert [x][1..] == [];
  }

  lemma PlaybacksShort(l: seq<Status>)
    ensures |Playbacks(l)| <= |l|
  {
  }

  lemma AppendKeepsValid(l: seq<Status>, x: Status, voicePath: bool)
    requires Valid(l)
    ensures Valid(Appended(l, x, voicePath).0)
  {
    AppendKeepsOrder(l, x, voicePath);
    One(x);
    PlaybacksAppend(l, [x]);
    PlaybacksAppend([x], l);
    RingsAppend(l, [x]);
    RingsAppend([x], l);
    PlaybacksShort(l);
    if Overflows(l, x) {
      One(l[0]);
    }
    hide Playbacks, Rings, Ordered, HasPlayback, HasStream;
  }

  lemma AppendKeepsOrder(l: seq<Status>, x: Status, voicePath: bool)
    requires Ordered(l)
    ensures Ordered(Appended(l, x, voicePath).0)
  {
    hide Refused, HasPlayback, HasStream;
  }

  lemma DropKeepsValid(l: seq<Status>, i: nat)
    requires Valid(l) && i < |l|
    ensures Valid(Without(l, i))
  {
    DropKeepsOrder(l, i);
    WithoutParts(l, i);
    var a, x, b := l[..i], l[i], l[i + 1..];
    assert l == a + ([x] + b);
    hide *;
    DropCounts(a, x, b);
    ValidIs(l);
    ValidIs(Without(l, i));
  }

  lemma ValidIs(l: seq<Status>)
    ensures Valid(l) <==> Ordered(l) && Rings(l) <= 1 && |Playbacks(l)| <= 3 + Rings(l)
  {
  }

  lemma WithoutParts(l: seq<Status>, i: nat)
    requires i < |l|
    ensures Without(l, i) == l[..i] + l[i + 1..]
  {
  }

  lemma DropKeepsOrder(l: seq<Status>, i: nat)
    requires Ordered(l) && i < |l|
    ensures Ordered(Without(l, i))
  {
  }

  /** Dropping one entry drops at most one playback, and with it at most one ring. */
  lemma DropCounts(a: seq<Status>, x: Status, b: seq<Status>)
    ensures Rings(a + ([x] + b)) == Rings(a + b) + if IsRing(x) then 1 else 0
    ensures |Playbacks(a + ([x] + b))| == |Playbacks(a + b)| + if IsPlayback(x) then 1 else 0
    ensures IsRing(x) ==> IsPlayback(x)
  {
    hide Playbacks, Rings;
    One(x);
    PlaybacksAppend(a, [x] + b);
    PlaybacksAppend([x], b);
    PlaybacksAppend(a, b);
    RingsAppend(a, [x] + b);
    RingsAppend([x], b);
    RingsAppend(a, b);
  }

  lemma OrderMeetsAsserts(l: seq<Status>, closing: Status, voicePath: bool)
    requires Ordered(l)
    ensures AssertsHold(l, closing, voicePath)
  {
    WhenAssertsFail(l, closing, voicePath);
    hide AssertsHold;
  }

  lemma RemoveKeepsValid(l: seq<Status>, closing: Status, pos: Position, voicePath: bool)
    requires Valid(l)
    ensures Valid(Removed(l, closing, pos, voicePath).0) && AssertsHold(l, closing, voicePath)
  {
    OrderMeetsAsserts(l, closing, voicePath);
    hide Valid, AssertsHold, Ordered;
    if IsPlayback(closing) {
      if First(l) < |l| {
        DropKeepsValid(l, First(l));
      }
    } else if HasStream(l, voicePath) {
      if pos == Head {
        DropKeepsValid(l, 0);
        assert Without(l, 0) == l[1..];
      } else {
        DropKeepsValid(l, |l| - 1);
        assert Without(l, |l| - 1) == l[..|l| - 1];
      }
    }
  }

  class Manager {
    const voicePath: bool
    var list: seq<Status>

    constructor (voicePath: bool)
      ensures list == [] && this.voicePath == voicePath
    {
      this.voicePath, list := voicePath, [];
    }

    method StreamExist() returns (r: bool)
      ensures r == HasStream(list, voicePath)
    {
      for i := 0 to |list|
        invariant forall k :: 0 <= k < i ==> !IsStream(list[k], voicePath)
      {
        if IsStream(list[i], voicePath) {
          return true;
        }
      }
      return false;
    }

    method FilterExist(x: Status) returns (r: bool)
      ensures r == Refused(list, x)
    {
      if IsPlayback(x) {
        if x.audId == INCOMING_CALL {
          for i := 0 to |list|
            invariant forall k :: 0 <= k < i ==> !IsRing(list[k])
          {
            if IsRing(list[i]) {
              return true;
            }
          }
        } else {
          var cnt := 0;
          for i := 0 to |list|
            invariant cnt == i <= 2
          {
            if cnt > 1 {
              return true;
            }
            cnt := cnt + 1;
          }
        }
      }
      return false;
    }

    method PlaybackExist() returns (r: bool)
      ensures r == HasPlayback(list)
    {
      for i := 0 to |list|
        invariant forall k :: 0 <= k < i ==> !IsPlayback(list[k])
      {
        if IsPlayback(list[i]) {
          return true;
        }
      }
      return false;
    }

    method Append(x: Status) returns (start: bool)
      requires Valid(list)
      modifies `list
      ensures (list, start) == Appended(old(list), x, voicePath) && Valid(list)
    {
      AppendKeepsValid(list, x, voicePath);
      if !IsPlayback(x) {
        list := [x] + list;
        return true;
      }
      var refused := FilterExist(x);
      if refused {
        return false;
      }
      var playing := PlaybackExist();
      if playing {
        if |list| >= MAX_AUDIO_BUF_LIST {
          var stream := StreamExist();
          var kept := if stream then list[0] else x;
          list := [];
          list := list + [kept];
          assert list == [kept];
          return true;
        }
        list := list + [x];
        return false;
      }
      list := list + [x];
      return true;
    }

    method Remove(closing: Status, pos: Position) returns (next: Option<Status>)
      requires Valid(list)
      modifies `list
      ensures (list, next) == Removed(old(list), closing, pos, voicePath) && Valid(list)
    {
      RemoveKeepsValid(list, closing, pos, voicePath);
      if |list| == 0 {
        return None;
      }
      if IsPlayback(closing) {
        for i := 0 to |list|
          invariant First(list) >= i && list == old(list)
        {
          if IsPlayback(list[i]) {
            if i + 1 < |list| {
              next := Some(list[i + 1]);
              assert IsPlayback(next.value);
            } else {
              var stream := StreamExist();
              if stream {
                next := Some(list[0]);
                assert !IsPlayback(next.value);
              } else {
                next := None;
              }
            }
            list := Without(list, i);
            return;
          }
        }
        return None;
      }
      var stream := StreamExist();
      if stream {
        list := if pos == Head then list[1..] else list[..|list| - 1];
      }
      return None;
    }

    method Clear()
      modifies `list
      ensures list == []
    {
      list := [];
    }
  }

  lemma FrontIsNoPlayback(l: seq<Status>, voicePath: bool)
    requires Ordered(l) && HasStream(l, voicePath)
    ensures !IsPlayback(l[0])
  {
  }

  lemma PlaybacksExist(l: seq<Status>)
    requires Ordered(l)
    ensures HasPlayback(l) <==> Playbacks(l) != []
  {
    OrderedPlaybacks(l);
  }

  lemma PlaybacksAfterOpen(l: seq<Status>, x: Status, voicePath: bool)
    requires Ordered(l)
    ensures Playbacks(Appended(l, x, voicePath).0) ==
            if !IsPlayback(x) || Refused(l, x) then Playbacks(l)
            else if !Overflows(l, x) then Playbacks(l) + [x]
            else if HasStream(l, voicePath) then []
            else [x]
  {
    One(x);
    PlaybacksAppend(l, [x]);
    PlaybacksAppend([x], l);
    if Overflows(l, x) && HasStream(l, voicePath) {
      FrontIsNoPlayback(l, voicePath);
      One(l[0]);
    }
  }

  /** Closing a playback drops the first one, from either end, and hands on the next one, if
      there is one; closing anything else at the head drops no playback. */
  lemma PlaybacksAfterClose(l: seq<Status>, x: Status, pos: Position, voicePath: bool)
    requires Ordered(l) && (IsPlayback(x) || pos == Head)
    ensures var (r, next) := Removed(l, x, pos, voicePath);
            var p := Playbacks(l);
            && Playbacks(r) == (if IsPlayback(x) && p != [] then p[1..] else p)
            && (if IsPlayback(x) && |p| > 1 then next == Some(p[1]) && IsPlayback(p[1])
                else next == None || !IsPlayback(next.value))
  {
    hide Playbacks;
    OrderedPlaybacks(l);
    if IsPlayback(x) && First(l) < |l| {
      FirstPlaybackLeaves(l, First(l));
    }
    if HasStream(l, voicePath) {
      FrontIsNoPlayback(l, voicePath);
      DropNoPlayback(l);
    }
  }

  /** Closing a stream at the tail drops the last playback, when there is one. */
  lemma PlaybacksAfterTail(l: seq<Status>, x: Status, voicePath: bool)
    requires Ordered(l) && !IsPlayback(x)
    ensures Playbacks(Removed(l, x, Tail, voicePath).0) ==
            if HasStream(l, voicePath) && Playbacks(l) != [] then Playbacks(l)[..|Playbacks(l)| - 1] else Playbacks(l)
  {
    hide Playbacks, HasPlayback, IsPlayback, Ordered;
    PlaybacksExist(l);
    if l != [] {
      PlaybackAtTail(l);
      DropLast(l);
    }
  }

  lemma DropLast(l: seq<Status>)
    requires l != []
    ensures var p := Playbacks(l);
            if IsPlayback(l[|l| - 1]) then p != [] && Playbacks(l[..|l| - 1]) == p[..|p| - 1]
            else Playbacks(l[..|l| - 1]) == p
  {
    var a, z := l[..|l| - 1], l[|l| - 1];
    assert l == a + [z];
    PlaybacksAppend(a, [z]);
    One(z);
    hide Playbacks;
    assert Playbacks(a) + [] == Playbacks(a);
  }

  lemma PlaybackAtTail(l: seq<Status>)
    requires Ordered(l) && l != []
    ensures HasPlayback(l) <==> IsPlayback(l[|l| - 1])
  {
    if HasPlayback(l) {
      var i :| 0 <= i < |l| && IsPlayback(l[i]);
      assert i < |l| - 1 ==> IsPlayback(l[|l| - 1]);
    }
  }

  lemma FirstPlaybackLeaves(l: seq<Status>, i: nat)
    requires i < |l| && IsPlayback(l[i]) && forall k :: 0 <= k < i ==> !IsPlayback(l[k])
    ensures Playbacks(l) == [l[i]] + Playbacks(l[i + 1..])
    ensures Playbacks(Without(l, i)) == Playbacks(l[i + 1..])
  {
    hide *;
    var a, x, b := l[..i], l[i], l[i + 1..];
    assert l == a + ([x] + b);
    WithoutParts(l, i);
    RemovePlayback(a, x, b);
    NoPlaybacks(a);
    Regroup([], [x], Playbacks(b));
    assert [] + [x] == [x] && [] + Playbacks(b) == Playbacks(b);
  }

  lemma DropNoPlayback(l: seq<Status>)
    requires l != [] && !IsPlayback(l[0])
    ensures Playbacks(l[1..]) == Playbacks(l)
  {
  }

  lemma {:induction false} NoPlaybacks(l: seq<Status>)
    requires forall k :: 0 <= k < |l| ==> !IsPlayback(l[k])
    ensures Playbacks(l) == []
  {
    if l != [] {
      NoPlaybacks(l[1..]);
    }
  }

  lemma RemovePlayback(a: seq<Status>, x: Status, b: seq<Status>)
    requires IsPlayback(x)
    ensures Playbacks(a + ([x] + b)) == Playbacks(a) + ([x] + Playbacks(b))
    ensures Playbacks(a + b) == Playbacks(a) + Playbacks(b)
  {
    PlaybacksAppend(a, [x] + b);
    PlaybacksAppend([x], b);
    PlaybacksAppend(a, b);
    One(x);
  }

  // ---------- What is listed, and what closing brings back ----------

  /** A prompt that is no ring is listed last as long as fewer than three requests are listed,
      and turned away from then on. A ring is listed as long as none is; with a playback and 20
      requests listed it empties the list instead, down to the stream in front or to itself. */
  lemma ListedIff(l: seq<Status>, x: Status, voicePath: bool)
    requires IsPlayback(x)
    ensures x.audId != INCOMING_CALL ==> Appended(l, x, voicePath).0 == if |l| < 3 then l + [x] else l
    ensures x.audId == INCOMING_CALL ==>
              Appended(l, x, voicePath).0 ==
              if Rings(l) > 0 then l
              else if |l| < 20 || !HasPlayback(l) then l + [x]
              else if HasStream(l, voicePath) then [l[0]]
              else [x]
    ensures |l| < 20 ==> (Appended(l, x, voicePath).1 <==>
                            !HasPlayback(l) && Appended(l, x, voicePath).0 == l + [x])
  {
    assert |l + [x]| == |l| + 1;
  }

  /** The streams that leave the list when they close are the known ones. */
  lemma StreamsThatLeave(x: Status, voicePath: bool)
    requires !IsPlayback(x)
    ensures Removed([x], x, Head, voicePath).0 == [] <==>
              x.id in {1, 2, 4, 8, 16, 32} || (voicePath && x.id == 2048)
  {
    assert HasStream([x], voicePath) <==> IsStream([x][0], voicePath);
  }

  /** Closing a stream undoes its opening. */
  lemma OpenThenClose(l: seq<Status>, x: Status, voicePath: bool)
    requires !IsPlayback(x) && HasStream([x] + l, voicePath)
    ensures Appended(l, x, voicePath) == ([x] + l, true)
    ensures Removed([x] + l, x, Head, voicePath) == (l, None)
  {
    assert ([x] + l)[1..] == l;
  }

  /** When the last playback closes over several streams, the one opened last goes on. */
  lemma LatestStreamResumes(l: seq<Status>, x: Status, p: Status, voicePath: bool)
    requires !IsPlayback(x) && HasStream([x] + l, voicePath) && IsPlayback(p) && !HasPlayback(l)
    ensures var streams := Appended(l, x, voicePath).0;
            Removed(streams + [p], p, Head, voicePath) == (streams, Some(x))
  {
    var streams := [x] + l;
    assert First(streams + [p]) == |streams| by {
      assert forall k :: 0 <= k < |l| ==> !IsPlayback(l[k]) && streams[k + 1] == l[k];
      assert forall k :: 0 <= k < |streams| ==> !IsPlayback((streams + [p])[k]);
      assert (streams + [p])[|streams|] == p;
    }
    assert Without(streams + [p], |streams|) == streams;
    hide First, Without;
    assert HasStream(streams + [p], voicePath) by {
      var k :| 0 <= k < |streams| && IsStream(streams[k], voicePath);
      assert (streams + [p])[k] == streams[k];
    }
  }
}
