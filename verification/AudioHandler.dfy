/** The audio message handler: what the list says to start is started on the stream layer,
    which lets one output and one input stream run at a time. Opening a stream while another
    one of its direction runs closes that one and, on its own, takes an entry off the list. */
module AudioHandler {
  import opened Bytes
  import opened AudioList

  const BORDER_INDEX := 2048

  /** The output and the input part of the running-stream word; ids are single bits, 0 is none. */
  datatype Running = Running(output: nat, input: nat)

  predicate ValidRunning(r: Running) {
    r.output < BORDER_INDEX && (r.input == 0 || r.input >= BORDER_INDEX)
  }

  /** What the devices answer: whether a running stream stops, whether the new one starts. */
  datatype Io = Io(closes: bool, starts: bool)

  /** The stream that runs in the direction of id. */
  function Busy(r: Running, id: nat): nat {
    if id >= BORDER_INDEX then r.input else r.output
  }

  function Occupy(r: Running, id: nat, now: nat): Running {
    if id >= BORDER_INDEX then r.(input := now) else r.(output := now)
  }

  predicate Runs(r: Running, id: nat) { id != 0 && Busy(r, id) == id }

  /** Whether app_bt_stream_open gets as far as the device that plays x. */
  predicate Reaches(r: Running, x: Status, io: Io) {
    !Runs(r, x.id) && (Busy(r, x.id) == 0 || io.closes)
  }

  /** app_bt_stream_open: the list and the running streams after it. */
  function StreamOpen(l: seq<Status>, r: Running, x: Status, io: Io, voicePath: bool): (seq<Status>, Running) {
    if !Reaches(r, x, io) then (l, r)
    else
      (if Busy(r, x.id) == 0 then l else Removed(l, x, Tail, voicePath).0,
       Occupy(r, x.id, if io.starts then x.id else 0))
  }

  /** app_bt_stream_close. */
  function StreamClose(r: Running, id: nat, stops: bool): Running {
    if Runs(r, id) && stops then Occupy(r, id, 0) else r
  }

  /** Messages of the handler; Clear is the list emptied by the media manager. */
  datatype Event = Open(x: Status, io: Io) | Close(x: Status, stops: bool, io: Io) | CloseAll | Clear

  /** The list, the streams that run, and the requests whose device was asked to play so far. */
  datatype State = State(list: seq<Status>, run: Running, played: seq<Status>)

  const INITIAL := State([], Running(0, 0), [])

  /** The stream layer opens what the list hands over. */
  function Handed(l: seq<Status>, r: Running, played: seq<Status>, x: Status, io: Io, voicePath: bool): State {
    var (l', r') := StreamOpen(l, r, x, io, voicePath);
    State(l', r', if Reaches(r, x, io) then played + [x] else played)
  }

  function Step(s: State, e: Event, voicePath: bool): State {
    match e
    case Open(x, io) =>
      var (l, start) := Appended(s.list, x, voicePath);
      if start then Handed(l, s.run, s.played, x, io, voicePath) else s.(list := l)
    case Close(x, stops, io) =>
      var r := StreamClose(s.run, x.id, stops);
      var (l, next) := Removed(s.list, x, Head, voicePath);
      if next.Some? then Handed(l, r, s.played, next.value, io, voicePath) else State(l, r, s.played)
    case CloseAll => State([], Running(0, 0), s.played)
    case Clear => s.(list := [])
  }

  class Handler {
    const requests: Manager
    var run: Running
    var played: seq<Status>

    ghost predicate Valid()
      reads this, requests
    {
      AudioList.Valid(requests.list) && ValidRunning(run)
    }

    ghost function View(): State
      reads this, requests
    {
      State(requests.list, run, played)
    }

    constructor (voicePath: bool)
      ensures Valid() && fresh(requests) && View() == INITIAL && requests.voicePath == voicePath
    {
      requests := new Manager(voicePath);
      run, played := Running(0, 0), [];
    }

    method OpenStream(x: Status, io: Io)
      requires Valid()
      modifies this, requests
      ensures Valid()
      ensures View() == Handed(old(requests.list), old(run), old(played), x, io, requests.voicePath)
    {
      if run.output != 0 || run.input != 0 {
        if Runs(run, x.id) {
          return;
        }
        var previous := Busy(run, x.id);
        if previous > 0 {
          var stopped := CloseStream(previous, io.closes);
          if !stopped {
            return;
          }
          var _ := requests.Remove(x, Tail);
        }
      }
      played := played + [x];
      if io.starts {
        run := Occupy(run, x.id, x.id);
      }
    }

    method CloseStream(id: nat, stops: bool) returns (stopped: bool)
      requires ValidRunning(run)
      modifies `run
      ensures ValidRunning(run)
      ensures run == StreamClose(old(run), id, stops) && stopped == (Runs(old(run), id) && stops)
    {
      stopped := false;
      if Runs(run, id) && stops {
        run := Occupy(run, id, 0);
        stopped := true;
      }
    }

    /** app_audio_handle_process, its open, close and close-all branches. */
    method Handle(e: Event)
      requires Valid()
      modifies this, requests
      ensures Valid()
      ensures View() == Step(old(View()), e, requests.voicePath)
    {
      match e
      case Open(x, io) =>
        var start := requests.Append(x);
        if start {
          OpenStream(x, io);
        }
      case Close(x, stops, io) =>
        var _ := CloseStream(x.id, stops);
        var next := requests.Remove(x, Head);
        if next.Some? {
          OpenStream(next.value, io);
        }
      case CloseAll =>
        run := Running(0, 0);
        requests.Clear();
      case Clear =>
        requests.Clear();
    }
  }

  // ---------- What every message keeps ----------

  ghost predicate Sound(s: State) { AudioList.Valid(s.list) && ValidRunning(s.run) }

  lemma HandedIsSound(l: seq<Status>, r: Running, played: seq<Status>, x: Status, io: Io, voicePath: bool)
    requires AudioList.Valid(l) && ValidRunning(r)
    ensures Sound(Handed(l, r, played, x, io, voicePath)) && AssertsHold(l, x, voicePath)
  {
    hide AudioList.Valid;
    RemoveKeepsValid(l, x, Tail, voicePath);
  }

  lemma StepKeepsSound(s: State, e: Event, voicePath: bool)
    requires Sound(s)
    ensures Sound(Step(s, e, voicePath))
  {
    match e
    case Open(x, io) =>
      hide AudioList.Valid, Handed;
      AppendKeepsValid(s.list, x, voicePath);
      HandedIsSound(Appended(s.list, x, voicePath).0, s.run, s.played, x, io, voicePath);
    case Close(x, stops, io) =>
      hide AudioList.Valid, Handed;
      RemoveKeepsValid(s.list, x, Head, voicePath);
      var (l, next) := Removed(s.list, x, Head, voicePath);
      if next.Some? {
        HandedIsSound(l, StreamClose(s.run, x.id, stops), s.played, next.value, io, voicePath);
      }
    case CloseAll =>
    case Clear =>
  }

  function Run(s: State, es: seq<Event>, voicePath: bool): State
    decreases |es|
  {
    if es == [] then s else Run(Step(s, es[0], voicePath), es[1..], voicePath)
  }

  lemma {:induction false} RunKeepsSound(s: State, es: seq<Event>, voicePath: bool)
    requires Sound(s)
    ensures Sound(Run(s, es, voicePath))
    decreases |es|
  {
    if es != [] {
      StepKeepsSound(s, es[0], voicePath);
      RunKeepsSound(Step(s, es[0], voicePath), es[1..], voicePath);
    }
  }

  /** After any messages and any answers of the devices: no ASSERT can fire, neither in the
      handler's own removal nor in the one made by the stream layer; at most one ring and four
      playbacks are queued; at most one output and one input stream run. */
  lemma EveryReachableList(es: seq<Event>, voicePath: bool, x: Status)
    ensures var s := Run(INITIAL, es, voicePath);
            && ValidRunning(s.run)
            && Rings(s.list) <= 1 && |Playbacks(s.list)| <= 4
            && AssertsHold(s.list, x, voicePath)
            && AssertsHold(Appended(s.list, x, voicePath).0, x, voicePath)
            && AssertsHold(Removed(s.list, x, Head, voicePath).0, x, voicePath)
  {
    RunKeepsSound(INITIAL, es, voicePath);
    var l := Run(INITIAL, es, voicePath).list;
    RemoveKeepsValid(l, x, Head, voicePath);
    AppendKeepsValid(l, x, voicePath);
    RemoveKeepsValid(Appended(l, x, voicePath).0, x, Head, voicePath);
    RemoveKeepsValid(Removed(l, x, Head, voicePath).0, x, Head, voicePath);
  }

  // ---------- The order in which playbacks play ----------

  /** The playbacks accepted so far and not withdrawn by a close-all, a clear or an overflow. */
  function Accepted(s: State, e: Event, accepted: seq<Status>): seq<Status> {
    match e
    case Open(x, io) =>
      if !IsPlayback(x) || Refused(s.list, x) then accepted
      else if !Overflows(s.list, x) then accepted + [x]
      else Playbacks(s.played) + [x]
    case Close(x, stops, io) => accepted
    case CloseAll => Playbacks(s.played)
    case Clear => Playbacks(s.played)
  }

  /** Of the playbacks in the list the first is the one last played; those played so far,
      followed by those waiting, are the accepted ones in the order of their acceptance. */
  predicate InTurn(listed: seq<Status>, begun: seq<Status>, accepted: seq<Status>) {
    if listed == [] then accepted == begun
    else begun != [] && begun[|begun| - 1] == listed[0] && accepted == begun + listed[1..]
  }

  ghost predicate Inv(s: State, accepted: seq<Status>) {
    Sound(s) && InTurn(Playbacks(s.list), Playbacks(s.played), accepted)
  }

  /** The messages that keep playbacks in turn, told from the state and the devices' answers:
      a playback that is to start must get to its device, a stream must not push another one
      out while a playback waits behind the first, and the close of a playback must leave the
      output free for the next, or pushed out for the last one. */
  predicate Orderly(s: State, e: Event, voicePath: bool) {
    match e
    case Open(x, io) =>
      if !IsPlayback(x) then
        !(Reaches(s.run, x, io) && Busy(s.run, x.id) != 0
          && |Playbacks(s.list)| >= 2 && HasStream([x] + s.list, voicePath))
      else
        || Refused(s.list, x)
        || (HasPlayback(s.list) && !Overflows(s.list, x))
        || Reaches(s.run, x, io)
    case Close(x, stops, io) =>
      IsPlayback(x) && |Playbacks(s.list)| >= 2 ==>
        var r := StreamClose(s.run, x.id, stops);
        r.output == 0 || (r.output != PLAY_BACK_AUDIO && io.closes && |Playbacks(s.list)| == 2)
    case CloseAll => true
    case Clear => true
  }

  /** A simpler sufficient condition: nothing is started while a stream of its direction runs. */
  predicate Quiet(s: State, e: Event, voicePath: bool) {
    match e
    case Open(x, io) => Appended(s.list, x, voicePath).1 ==> Busy(s.run, x.id) == 0
    case Close(x, stops, io) => IsPlayback(x) ==> StreamClose(s.run, x.id, stops).output == 0
    case CloseAll => true
    case Clear => true
  }

  lemma QuietIsOrderly(s: State, e: Event, voicePath: bool)
    requires Quiet(s, e, voicePath)
    ensures Orderly(s, e, voicePath)
  {
  }

  /** Counting tells when playbacks are out of turn. */
  lemma TurnCounts(listed: seq<Status>, begun: seq<Status>, accepted: seq<Status>)
    requires InTurn(listed, begun, accepted)
    ensures |accepted| == |begun| + if listed == [] then 0 else |listed| - 1
  {
  }

  lemma NextTurn(listed: seq<Status>, begun: seq<Status>, accepted: seq<Status>)
    requires InTurn(listed, begun, accepted) && listed != []
    ensures |listed| == 1 ==> InTurn([], begun, accepted)
    ensures |listed| > 1 ==> InTurn(listed[1..], begun + [listed[1]], accepted)
    ensures |listed| == 2 ==> InTurn([], begun + [listed[1]], accepted)
  {
    if |listed| > 1 {
      assert begun + [listed[1]] + listed[1..][1..] == begun + listed[1..];
    }
  }

  lemma Enqueue(listed: seq<Status>, begun: seq<Status>, accepted: seq<Status>, x: Status)
    requires InTurn(listed, begun, accepted)
    ensures InTurn(listed + [x], if listed == [] then begun + [x] else begun, accepted + [x])
    ensures listed == [] ==> InTurn([], begun + [x], accepted + [x])
  {
    if listed == [] {
      assert [x][1..] == [] && listed + [x] == [x];
    } else {
      assert (listed + [x])[1..] == listed[1..] + [x];
    }
  }

  lemma FreshTurn(begun: seq<Status>)
    ensures InTurn([], begun, begun)
  {
  }

  lemma PlayOne(played: seq<Status>, x: Status)
    ensures Playbacks(played + [x]) == Playbacks(played) + if IsPlayback(x) then [x] else []
  {
    PlaybacksAppend(played, [x]);
    One(x);
    assert Playbacks(played) + [] == Playbacks(played);
  }

  /** What handing x over does to the playbacks listed and played. */
  lemma PlaybacksAfterHanding(l: seq<Status>, r: Running, played: seq<Status>, x: Status, io: Io, voicePath: bool)
    requires Ordered(l)
    ensures var t := Handed(l, r, played, x, io, voicePath);
            var p := Playbacks(l);
            && Playbacks(t.played) == Playbacks(played) + (if Reaches(r, x, io) && IsPlayback(x) then [x] else [])
            && Playbacks(t.list) ==
                 if !Reaches(r, x, io) || Busy(r, x.id) == 0 || p == [] then p
                 else if IsPlayback(x) then p[1..]
                 else if HasStream(l, voicePath) then p[..|p| - 1]
                 else p
  {
    hide Playbacks, HasStream, HasPlayback, Removed;
    PlayOne(played, x);
    PlaybacksExist(l);
    if IsPlayback(x) {
      PlaybacksAfterClose(l, x, Tail, voicePath);
    } else {
      PlaybacksAfterTail(l, x, voicePath);
    }
    assert Playbacks(played) + [] == Playbacks(played);
  }

  lemma OpenInOrderIff(s: State, x: Status, io: Io, voicePath: bool, accepted: seq<Status>)
    requires Inv(s, accepted)
    ensures var e := Open(x, io);
            Inv(Step(s, e, voicePath), Accepted(s, e, accepted)) <==> Orderly(s, e, voicePath)
  {
    if IsPlayback(x) {
      PlaybackInOrderIff(s, x, io, voicePath, accepted);
    } else {
      StreamInOrderIff(s, x, io, voicePath, accepted);
    }
  }

  lemma StreamInOrderIff(s: State, x: Status, io: Io, voicePath: bool, accepted: seq<Status>)
    requires Inv(s, accepted) && !IsPlayback(x)
    ensures var e := Open(x, io);
            Inv(Step(s, e, voicePath), Accepted(s, e, accepted)) <==> Orderly(s, e, voicePath)
  {
    var e := Open(x, io);
    var p, b, l := Playbacks(s.list), Playbacks(s.played), [x] + s.list;
    StepKeepsSound(s, e, voicePath);
    AppendKeepsValid(s.list, x, voicePath);
    PlaybacksAfterOpen(s.list, x, voicePath);
    PlaybacksAfterHanding(l, s.run, s.played, x, io, voicePath);
    TurnCounts(p, b, accepted);
    hide Playbacks, HasStream, Handed, Sound, InTurn;
    assert b + [] == b;
    var t := Step(s, e, voicePath);
    if InTurn(Playbacks(t.list), Playbacks(t.played), accepted) {
      TurnCounts(Playbacks(t.list), Playbacks(t.played), accepted);
    }
    if |p| == 1 {
      NextTurn(p, b, accepted);
      assert p[..0] == [];
    }
  }

  /** What the open of a playback does to the playbacks listed and played. */
  lemma PlaybacksAfterOpening(s: State, x: Status, io: Io, voicePath: bool)
    requires Sound(s) && IsPlayback(x)
    ensures var t, over := Step(s, Open(x, io), voicePath), Overflows(s.list, x);
            var p, b := Playbacks(s.list), Playbacks(s.played);
            var q := if over then (if HasStream(s.list, voicePath) then [] else [x]) else p + [x];
            if Refused(s.list, x) then Playbacks(t.list) == p && Playbacks(t.played) == b
            else if HasPlayback(s.list) && !over then Playbacks(t.list) == q && Playbacks(t.played) == b
            else
              && Playbacks(t.played) == b + (if Reaches(s.run, x, io) then [x] else [])
              && Playbacks(t.list) ==
                   if Reaches(s.run, x, io) && s.run.output != 0 && q != [] then q[1..] else q
  {
    AppendKeepsValid(s.list, x, voicePath);
    PlaybacksAfterOpen(s.list, x, voicePath);
    PlaybacksExist(s.list);
    PlaybacksAfterHanding(Appended(s.list, x, voicePath).0, s.run, s.played, x, io, voicePath);
    hide Playbacks, HasStream, HasPlayback, Handed, Refused, Reaches;
  }

  lemma PlaybackInOrderIff(s: State, x: Status, io: Io, voicePath: bool, accepted: seq<Status>)
    requires Inv(s, accepted) && IsPlayback(x)
    ensures var e := Open(x, io);
            Inv(Step(s, e, voicePath), Accepted(s, e, accepted)) <==> Orderly(s, e, voicePath)
  {
    var e := Open(x, io);
    var p, b := Playbacks(s.list), Playbacks(s.played);
    StepKeepsSound(s, e, voicePath);
    PlaybacksExist(s.list);
    PlaybacksAfterOpening(s, x, io, voicePath);
    assert Overflows(s.list, x) ==> HasPlayback(s.list);
    hide Playbacks, HasStream, HasPlayback, Step, Sound, InTurn, Refused, Overflows, Reaches;
    FreshTurn(b);
    FreshTurn(b + [x]);
    Enqueue(p, b, accepted, x);
    Enqueue([], b, b, x);
    assert b + [] == b && [] + [x] == [x] && [x][1..] == [];
    var t, a := Step(s, e, voicePath), Accepted(s, e, accepted);
    if InTurn(Playbacks(t.list), Playbacks(t.played), a) {
      TurnCounts(Playbacks(t.list), Playbacks(t.played), a);
    }
    TurnCounts(p, b, accepted);
  }

  /** What a close does to the playbacks listed and played. */
  lemma PlaybacksAfterClosing(s: State, x: Status, stops: bool, io: Io, voicePath: bool)
    requires Sound(s)
    ensures var t, r := Step(s, Close(x, stops, io), voicePath), StreamClose(s.run, x.id, stops);
            var p, b := Playbacks(s.list), Playbacks(s.played);
            if !IsPlayback(x) || p == [] then Playbacks(t.list) == p && Playbacks(t.played) == b
            else if |p| == 1 then Playbacks(t.list) == [] && Playbacks(t.played) == b
            else
              && IsPlayback(p[1])
              && Playbacks(t.played) == b + (if Reaches(r, p[1], io) then [p[1]] else [])
              && Playbacks(t.list) == if Reaches(r, p[1], io) && r.output != 0 then p[1..][1..] else p[1..]
  {
    var p, b, r := Playbacks(s.list), Playbacks(s.played), StreamClose(s.run, x.id, stops);
    var (l, next) := Removed(s.list, x, Head, voicePath);
    RemoveKeepsValid(s.list, x, Head, voicePath);
    PlaybacksAfterClose(s.list, x, Head, voicePath);
    if next.Some? {
      PlaybacksAfterHanding(l, r, s.played, next.value, io, voicePath);
    }
    hide Playbacks, HasStream, Handed, Removed;
    assert b + [] == b;
  }

  lemma CloseInOrderIff(s: State, x: Status, stops: bool, io: Io, voicePath: bool, accepted: seq<Status>)
    requires Inv(s, accepted)
    ensures var e := Close(x, stops, io);
            Inv(Step(s, e, voicePath), accepted) <==> Orderly(s, e, voicePath)
  {
    var e := Close(x, stops, io);
    var p, b := Playbacks(s.list), Playbacks(s.played);
    StepKeepsSound(s, e, voicePath);
    PlaybacksAfterClosing(s, x, stops, io, voicePath);
    hide Playbacks, Step, Sound, InTurn;
    var t := Step(s, e, voicePath);
    if InTurn(Playbacks(t.list), Playbacks(t.played), accepted) {
      TurnCounts(Playbacks(t.list), Playbacks(t.played), accepted);
    }
    TurnCounts(p, b, accepted);
    if p != [] {
      NextTurn(p, b, accepted);
      assert b + [] == b && (|p| == 2 ==> p[1..][1..] == []);
    }
  }

  /** From a state in which playbacks are in turn, a message leaves them in turn if and only
      if it is orderly. */
  lemma StepInOrderIff(s: State, e: Event, voicePath: bool, accepted: seq<Status>)
    requires Inv(s, accepted)
    ensures Inv(Step(s, e, voicePath), Accepted(s, e, accepted)) <==> Orderly(s, e, voicePath)
  {
    match e
    case Open(x, io) => OpenInOrderIff(s, x, io, voicePath, accepted);
    case Close(x, stops, io) => CloseInOrderIff(s, x, stops, io, voicePath, accepted);
    case CloseAll => FreshTurn(Playbacks(s.played));
    case Clear => FreshTurn(Playbacks(s.played));
  }

  predicate OrderlyRun(s: State, es: seq<Event>, voicePath: bool)
    decreases |es|
  {
    es == [] || (Orderly(s, es[0], voicePath) && OrderlyRun(Step(s, es[0], voicePath), es[1..], voicePath))
  }

  function AcceptedRun(s: State, es: seq<Event>, voicePath: bool, accepted: seq<Status>): seq<Status>
    decreases |es|
  {
    if es == [] then accepted
    else AcceptedRun(Step(s, es[0], voicePath), es[1..], voicePath, Accepted(s, es[0], accepted))
  }

  lemma {:induction false} RunInOrder(s: State, es: seq<Event>, voicePath: bool, accepted: seq<Status>)
    requires Inv(s, accepted) && OrderlyRun(s, es, voicePath)
    ensures Inv(Run(s, es, voicePath), AcceptedRun(s, es, voicePath, accepted))
    decreases |es|
  {
    if es != [] {
      hide Inv, Orderly, Step, Accepted;
      StepInOrderIff(s, es[0], voicePath, accepted);
      RunInOrder(Step(s, es[0], voicePath), es[1..], voicePath, Accepted(s, es[0], accepted));
    }
  }

  /** After orderly messages the playbacks played are the first of those accepted, in order. */
  lemma PlayedInOrder(es: seq<Event>, voicePath: bool)
    requires OrderlyRun(INITIAL, es, voicePath)
    ensures Playbacks(Run(INITIAL, es, voicePath).played) <= AcceptedRun(INITIAL, es, voicePath, [])
  {
    FreshTurn([]);
    RunInOrder(INITIAL, es, voicePath, []);
  }

  predicate ClosesPlayback(e: Event) { e.Close? && IsPlayback(e.x) && e.stops }

  /** With nothing but playbacks on the output, closing one after the other gives every
      accepted one its turn, whether or not the devices start. */
  lemma {:induction false} EveryPlaybackGetsItsTurn(s: State, es: seq<Event>, voicePath: bool, accepted: seq<Status>)
    requires Inv(s, accepted) && s.run.output in {0, PLAY_BACK_AUDIO}
    requires |es| == |Playbacks(s.list)| && forall i :: 0 <= i < |es| ==> ClosesPlayback(es[i])
    ensures var last := Run(s, es, voicePath);
            Playbacks(last.list) == [] && Playbacks(last.played) == accepted
    decreases |es|
  {
    if es != [] {
      var e, t := es[0], Step(s, es[0], voicePath);
      CloseInOrderIff(s, e.x, e.stops, e.io, voicePath, accepted);
      ClosedOne(s, e, voicePath, accepted);
      if |es| > 1 {
        hide Inv, Step, Playbacks;
        EveryPlaybackGetsItsTurn(t, es[1..], voicePath, accepted);
      } else {
        assert es[1..] == [];
      }
    }
  }

  lemma ClosedOne(s: State, e: Event, voicePath: bool, accepted: seq<Status>)
    requires Inv(s, accepted) && s.run.output in {0, PLAY_BACK_AUDIO} && ClosesPlayback(e) && Playbacks(s.list) != []
    ensures Orderly(s, e, voicePath)
    ensures var t := Step(s, e, voicePath);
            && |Playbacks(t.list)| == |Playbacks(s.list)| - 1
            && (|Playbacks(s.list)| > 1 ==> t.run.output in {0, PLAY_BACK_AUDIO})
  {
    var r := StreamClose(s.run, e.x.id, true);
    var (l, next) := Removed(s.list, e.x, Head, voicePath);
    PlaybacksAfterClose(s.list, e.x, Head, voicePath);
    RemoveKeepsValid(s.list, e.x, Head, voicePath);
    if next.Some? {
      PlaybacksAfterHanding(l, r, s.played, next.value, e.io, voicePath);
    }
    hide Playbacks, Removed;
  }

  const ON := Io(true, true)

  /** An open with willing devices: nothing in the way, or a running stream to push out. */
  lemma OpenStep(s: State, x: Status, l: seq<Status>, voicePath: bool)
    requires Appended(s.list, x, voicePath) == (l, true) && !Runs(s.run, x.id)
    ensures var m := if Busy(s.run, x.id) == 0 then l else Removed(l, x, Tail, voicePath).0;
            Step(s, Open(x, ON), voicePath) == State(m, Occupy(s.run, x.id, x.id), s.played + [x])
  {
  }

  lemma CloseStep(s: State, x: Status, l: seq<Status>, voicePath: bool)
    requires Removed(s.list, x, Head, voicePath).0 == l
    ensures var next, r := Removed(s.list, x, Head, voicePath).1, StreamClose(s.run, x.id, true);
            && (next == None ==> Step(s, Close(x, true, ON), voicePath) == State(l, r, s.played))
            && (next.Some? && !Runs(r, next.value.id) && Busy(r, next.value.id) == 0 ==>
                  Step(s, Close(x, true, ON), voicePath) ==
                  State(l, Occupy(r, next.value.id, next.value.id), s.played + [next.value]))
            && (next.Some? && Runs(r, next.value.id) ==>
                  Step(s, Close(x, true, ON), voicePath) == State(l, r, s.played))
  {
  }

  /** The condition is needed: a stream opened while one playback plays and another waits
      pushes the waiting one off the tail of the list, and it never plays. */
  lemma WaitingPlaybackIsLost(p1: Status, p2: Status, a: Status, voicePath: bool)
    requires IsPlayback(p1) && IsPlayback(p2) && !(IsRing(p1) && IsRing(p2)) && a.id == 8
    ensures Run(INITIAL, [Open(p1, ON), Open(p2, ON), Open(a, ON), Close(p1, true, ON)], voicePath) ==
            State([a], Running(8, 0), [p1, a])
  {
    AppendSteps(p1, p2, a, voicePath);
    RemoveSteps(p1, p2, a, voicePath);
    hide Appended, Removed;
    assert [] + [p1] == [p1] && [p1] + [a] == [p1, a];
    var s1, s3 := State([p1], Running(p1.id, 0), [p1]), State([a, p1], Running(8, 0), [p1, a]);
    OpenStep(INITIAL, p1, [p1], voicePath);
    assert Step(s1, Open(p2, ON), voicePath) == s1.(list := [p1, p2]);
    OpenStep(s1.(list := [p1, p2]), a, [a, p1, p2], voicePath);
    CloseStep(s3, p1, [a], voicePath);
    hide Step;
    FourSteps(INITIAL, Open(p1, ON), Open(p2, ON), Open(a, ON), Close(p1, true, ON), voicePath);
  }

  lemma AppendSteps(p1: Status, p2: Status, a: Status, voicePath: bool)
    requires IsPlayback(p1) && IsPlayback(p2) && !(IsRing(p1) && IsRing(p2)) && a.id == 8
    ensures Appended([], p1, voicePath) == ([p1], true)
    ensures Appended([p1], p2, voicePath) == ([p1, p2], false)
    ensures Appended([p1, p2], a, voicePath) == ([a, p1, p2], true)
  {
    assert [p1][0] == p1 && [] + [p1] == [p1] && [p1] + [p2] == [p1, p2] && [a] + [p1, p2] == [a, p1, p2];
  }

  lemma RemoveSteps(p1: Status, p2: Status, a: Status, voicePath: bool)
    requires IsPlayback(p1) && IsPlayback(p2) && a.id == 8
    ensures Removed([a, p1, p2], a, Tail, voicePath) == ([a, p1], None)
    ensures Removed([a, p1], p1, Head, voicePath) == ([a], Some(a))
  {
    assert [a, p1, p2][0] == a && [a, p1, p2][..2] == [a, p1];
    assert [a, p1][0] == a && First([a, p1]) == 1 && Without([a, p1], 1) == [a];
  }

  lemma FourSteps(s: State, e1: Event, e2: Event, e3: Event, e4: Event, voicePath: bool)
    ensures Run(s, [e1, e2, e3, e4], voicePath) ==
            Step(Step(Step(Step(s, e1, voicePath), e2, voicePath), e3, voicePath), e4, voicePath)
  {
    hide Step;
    var es := [e1, e2, e3, e4];
    assert es[1..] == [e2, e3, e4] && [e2, e3, e4][1..] == [e3, e4] && [e3, e4][1..] == [e4] && [e4][1..] == [];
    var s1 := Step(s, e1, voicePath);
    var s2 := Step(s1, e2, voicePath);
    var s3 := Step(s2, e3, voicePath);
    assert Run(s, es, voicePath) == Run(s1, [e2, e3, e4], voicePath);
    assert Run(s1, [e2, e3, e4], voicePath) == Run(s2, [e3, e4], voicePath);
    assert Run(s2, [e3, e4], voicePath) == Run(s3, [e4], voicePath);
    assert Run(s3, [e4], voicePath) == Run(Step(s3, e4, voicePath), [], voicePath);
  }

  /** And a playback opened over a stream plays, but is taken off the list at once: the next
      playback is then sent to a busy player, and never plays either. */
  lemma PlaybackOverStreamIsUnlisted(p1: Status, p2: Status, a: Status, voicePath: bool)
    requires IsPlayback(p1) && IsPlayback(p2) && a.id == 8
    ensures Run(INITIAL, [Open(a, ON), Open(p1, ON), Open(p2, ON), Close(p1, true, ON)], voicePath) ==
            State([a], Running(8, 0), [a, p1, a])
  {
    AppendBehind(p1, a, voicePath);
    AppendBehind(p2, a, voicePath);
    RemoveSteps(p1, p2, a, voicePath);
    RemoveSteps(p2, p1, a, voicePath);
    SameRemoval([a, p2], p1, p2, voicePath);
    hide Appended, Removed;
    assert [] + [a] == [a] && [a] + [p1] == [a, p1] && [a, p1] + [a] == [a, p1, a];
    var s1, s2 := State([a], Running(8, 0), [a]), State([a], Running(p1.id, 0), [a, p1]);
    OpenStep(INITIAL, a, [a], voicePath);
    OpenStep(s1, p1, [a, p1], voicePath);
    assert Step(s2, Open(p2, ON), voicePath) == s2.(list := [a, p2]);
    CloseStep(s2.(list := [a, p2]), p1, [a], voicePath);
    hide Step;
    FourSteps(INITIAL, Open(a, ON), Open(p1, ON), Open(p2, ON), Close(p1, true, ON), voicePath);
  }

  lemma AppendBehind(p: Status, a: Status, voicePath: bool)
    requires IsPlayback(p) && a.id == 8
    ensures Appended([], a, voicePath) == ([a], true) && Appended([a], p, voicePath) == ([a, p], true)
    ensures Removed([a, p], p, Tail, voicePath).0 == [a]
  {
    assert [a] + [] == [a] && [a] + [p] == [a, p] && [a, p][0] == a && First([a, p]) == 1;
    assert Without([a, p], 1) == [a];
  }

  /** Which playback closes makes no difference to the removal. */
  lemma SameRemoval(l: seq<Status>, x: Status, y: Status, voicePath: bool)
    requires IsPlayback(x) && IsPlayback(y)
    ensures Removed(l, x, Head, voicePath) == Removed(l, y, Head, voicePath)
  {
  }

  // ---------- What is accepted, and what a close-all leaves ----------

  /** Over runs: in any state with fewer than three requests listed, the open of a prompt that
      is no ring lists it last, unless it starts over an output stream that runs. */
  lemma PromptIsListed(s: State, p: Status, io: Io, voicePath: bool)
    requires IsPlayback(p) && p.audId != INCOMING_CALL && |s.list| < 3
    requires HasPlayback(s.list) || s.run.output == 0
    ensures Step(s, Open(p, io), voicePath).list == s.list + [p]
  {
    ListedIff(s.list, p, voicePath);
  }

  /** Three prompts wait in the order they came; a fourth is turned away, a ring is not. */
  lemma ThreePromptsAndARing(p1: Status, p2: Status, p3: Status, p4: Status, ring: Status, io: Io, voicePath: bool)
    requires forall p :: p in [p1, p2, p3, p4] ==> IsPlayback(p) && p.audId != INCOMING_CALL
    requires IsRing(ring)
    ensures Run(INITIAL, [Open(p1, io), Open(p2, io), Open(p3, io), Open(p4, io)], voicePath).list == [p1, p2, p3]
    ensures var s := Run(INITIAL, [Open(p1, io), Open(p2, io), Open(p3, io), Open(p4, io)], voicePath);
            && Step(s, Open(ring, io), voicePath).list == [p1, p2, p3, ring]
            && Step(Step(s, Open(ring, io), voicePath), Open(ring, io), voicePath).list == [p1, p2, p3, ring]
  {
    assert p1 in [p1, p2, p3, p4] && p2 in [p1, p2, p3, p4] && p3 in [p1, p2, p3, p4] && p4 in [p1, p2, p3, p4];
    hide Step, Run, HasPlayback;
    FourSteps(INITIAL, Open(p1, io), Open(p2, io), Open(p3, io), Open(p4, io), voicePath);
    PromptIsListed(INITIAL, p1, io, voicePath);
    assert [] + [p1] == [p1];
    var s1 := Step(INITIAL, Open(p1, io), voicePath);
    PlaybackInFront(s1.list);
    PromptIsListed(s1, p2, io, voicePath);
    assert [p1] + [p2] == [p1, p2];
    var s2 := Step(s1, Open(p2, io), voicePath);
    PlaybackInFront(s2.list);
    PromptIsListed(s2, p3, io, voicePath);
    assert [p1, p2] + [p3] == [p1, p2, p3];
    ThreeListed(Step(s2, Open(p3, io), voicePath), p1, p2, p3, p4, ring, io, voicePath);
  }

  lemma PlaybackInFront(l: seq<Status>)
    requires l != [] && IsPlayback(l[0])
    ensures HasPlayback(l)
  {
  }

  lemma ThreeListed(s: State, p1: Status, p2: Status, p3: Status, p4: Status, ring: Status, io: Io, voicePath: bool)
    requires s.list == [p1, p2, p3] && IsPlayback(p1) && !IsRing(p1) && !IsRing(p2) && !IsRing(p3)
    requires IsPlayback(p4) && !IsRing(p4) && IsRing(ring)
    ensures Step(s, Open(p4, io), voicePath) == s
    ensures Step(s, Open(ring, io), voicePath) == s.(list := [p1, p2, p3, ring])
    ensures var t := s.(list := [p1, p2, p3, ring]); Step(t, Open(ring, io), voicePath) == t
  {
    var l, m := [p1, p2, p3], [p1, p2, p3, ring];
    assert l[0] == p1 && m[0] == p1 && m[3] == ring && l + [ring] == m;
    assert !HasRing(l) && HasRing(m) && HasPlayback(l);
  }

  /** A close-all forgets everything but what was played: from there on the handler goes on as
      from the start. */
  lemma {:induction false} CloseAllForgets(s: State, es: seq<Event>, voicePath: bool)
    ensures var t, anew := Run(Step(s, CloseAll, voicePath), es, voicePath), Run(INITIAL, es, voicePath);
            t.list == anew.list && t.run == anew.run && t.played == s.played + anew.played
  {
    RunBehind(INITIAL, es, s.played, voicePath);
    assert s.played + [] == s.played;
  }

  lemma {:induction false} RunBehind(s: State, es: seq<Event>, before: seq<Status>, voicePath: bool)
    ensures var t, u := Run(s.(played := before + s.played), es, voicePath), Run(s, es, voicePath);
            t == u.(played := before + u.played)
    decreases |es|
  {
    if es != [] {
      StepBehind(s, es[0], before, voicePath);
      hide Step;
      RunBehind(Step(s, es[0], voicePath), es[1..], before, voicePath);
    }
  }

  lemma StepBehind(s: State, e: Event, before: seq<Status>, voicePath: bool)
    ensures var t, u := Step(s.(played := before + s.played), e, voicePath), Step(s, e, voicePath);
            t == u.(played := before + u.played)
  {
    hide Appended, Removed, StreamOpen;
    match e
    case Open(x, io) => Regroup(before, s.played, [x]);
    case Close(x, stops, io) =>
      var next := Removed(s.list, x, Head, voicePath).1;
      if next.Some? {
        Regroup(before, s.played, [next.value]);
      }
    case CloseAll =>
    case Clear =>
  }

  /** So after it whatever is opened is asked to play, and runs if its device starts. */
  lemma PlaysAfterCloseAll(s: State, x: Status, io: Io, voicePath: bool)
    ensures var t := Run(s, [CloseAll, Open(x, io)], voicePath);
            && t.played == s.played + [x] && t.list == [x]
            && (io.starts ==> Busy(t.run, x.id) == x.id)
  {
    var u := Step(s, CloseAll, voicePath);
    assert [CloseAll, Open(x, io)][1..] == [Open(x, io)] && [Open(x, io)][1..] == [];
    assert Run(s, [CloseAll, Open(x, io)], voicePath) == Run(Step(u, Open(x, io), voicePath), [], voicePath);
    assert [x] + [] == [x] && [] + [x] == [x];
  }

  /** An open or close in one direction leaves the stream of the other direction running. */
  lemma DirectionsAreApart(l: seq<Status>, r: Running, x: Status, io: Io, stops: bool, voicePath: bool)
    requires ValidRunning(r)
    ensures var after, ended := StreamOpen(l, r, x, io, voicePath).1, StreamClose(r, x.id, stops);
            if x.id < BORDER_INDEX then after.input == r.input && ended.input == r.input
            else after.output == r.output && ended.output == r.output
    ensures Reaches(r, x, io) ==>
              var now := if io.starts then x.id else 0;
              StreamOpen(l, r, x, io, voicePath).1 ==
              if x.id < BORDER_INDEX then Running(now, r.input) else Running(r.output, now)
  {
    hide Removed;
  }
}
