/** The receiver of the factory command link as it runs: a message buffer filled piece by
    piece, with a parse state that says where the next bytes go and how many there are. */
module CdcLink {
  import opened Bytes
  import opened CdcParser

  class Receiver {
    const message: array<byte>
    const dataSize: nat
    var inData: bool
    var at: nat
    var want: nat

    ghost predicate Valid()
      reads this, message
    {
      && message.Length == HEADER + dataSize && 1 <= dataSize <= 256
      && (if inData then
            && at == HEADER && want == message[3] as int + 1 && message[0] == PREFIX_CHAR
            && CheckHeader(message[1], message[3], dataSize) == None
          else
            at + want == HEADER && want > 0 && (at > 0 ==> message[0] == PREFIX_CHAR))
    }

    /** What has been received of the message under way. */
    ghost function Pending(): seq<byte>
      requires Valid()
      reads this, message
    {
      message[..at]
    }

    constructor (dataSize: nat)
      requires 1 <= dataSize <= 256
      ensures Valid() && Pending() == [] && this.dataSize == dataSize && fresh(message)
    {
      message := new byte[HEADER + dataSize](_ => 0);
      this.dataSize, inData, at, want := dataSize, false, 0, HEADER;
    }

    method ResetParseState()
      requires message.Length == HEADER + dataSize && 1 <= dataSize <= 256
      modifies this, message
      ensures Valid() && Pending() == []
    {
      inData := false;
      message[0], message[1], message[2], message[3] := 0, 0, 0, 0;
      at, want := 0, HEADER;
    }

    method Sum8(len: nat) returns (sum: byte)
      requires len % 256 <= message.Length
      ensures sum == CheckSum(message[..], len)
    {
      sum := 0;
      var n := len % 256;
      for i := 0 to n
        invariant sum == Sum(message[..i])
      {
        SumNext(message[..], i);
        assert message[..][..i] == message[..i] && message[..][..i + 1] == message[..i + 1];
        hide Sum;
        sum := (sum as int + message[i] as int) % 256;
      }
      assert message[..][..n] == message[..n];
    }

    /** handle_data: the checksum test, then the command. */
    method HandleData() returns (e: Option<Error>)
      requires Valid() && inData
      ensures e == Handle(message[..HEADER + want])
    {
      var total := HEADER + message[3] as int + 1;
      var sum := Sum8(total);
      assert message[..][..total % 256] == message[..total][..total % 256];
      if sum != 0xff {
        return Some(Checksum);
      }
      if message[1] == 0 {
        return HandleSys(message[4], message[3] as int - 1);
      }
      return None;
    }

    /** One turn of comm_loop: the wanted bytes arrive and parse_packet looks at them. Read
        with everything still to come, the stream means the same before and after. */
    method Receive(bytes: seq<byte>, ghost rest: seq<byte>) returns (got: Option<seq<byte>>, e: Option<Error>)
      requires Valid() && |bytes| == want
      modifies this, message
      ensures Valid()
      ensures e.Some? ==> got == None && Session(old(Pending()) + bytes + rest, dataSize) == ([], Failed(e.value))
      ensures got.Some? ==> Pending() == [] &&
                            Session(old(Pending()) + bytes + rest, dataSize) ==
                              ([got.value] + Session(rest, dataSize).0, Session(rest, dataSize).1)
      ensures e == None && got == None ==>
                Session(old(Pending()) + bytes + rest, dataSize) == Session(Pending() + rest, dataSize)
    {
      hide Session, Handle;
      ghost var t := Pending() + bytes;
      forall i | 0 <= i < |bytes| {
        message[at + i] := bytes[i];
      }
      assert message[..at + want] == t;
      got, e := None, None;
      if !inData {
        if message[0] != PREFIX_CHAR {
          Resynchronise(t, rest);
        } else {
          e := ParseHeader(t, rest);
        }
      } else {
        e := HandleData();
        SessionStep(t, rest, dataSize);
        if e == None {
          got := Some(message[..HEADER + want]);
        }
        ResetParseState();
      }
    }

    /** The mismatch branch. It only ever sees a whole header's worth of fresh bytes, keeps
        what starts at the first prefix character, and asks for what is missing. */
    method Resynchronise(ghost t: seq<byte>, ghost rest: seq<byte>)
      requires message.Length == HEADER + dataSize && 1 <= dataSize <= 256
      requires !inData && at == 0 && want == HEADER && t == message[..HEADER] && message[0] != PREFIX_CHAR
      modifies this, message
      ensures Valid() && Session(t + rest, dataSize) == Session(Pending() + rest, dataSize)
    {
      hide Session;
      var rlen, i := want, 1;
      while i < rlen
        invariant 1 <= i <= rlen && PREFIX_CHAR !in t[..i]
      {
        if message[i] == PREFIX_CHAR {
          break;
        }
        assert t[..i + 1] == t[..i] + [t[i]];
        i := i + 1;
      }
      assert i < rlen ==> t[i] == PREFIX_CHAR;
      assert t == t[..i] + t[i..];
      Regroup(t[..i], t[i..], rest);
      SessionAfterJunk(t[..i], t[i..] + rest, dataSize);
      for k := 0 to rlen - i
        invariant !inData
        invariant forall x :: 0 <= x < k ==> message[x] == t[i + x]
        invariant forall x :: k <= x < HEADER ==> message[x] == t[x]
      {
        message[k] := message[i + k];
      }
      at := rlen - i;
      want := HEADER + i - rlen;
      assert message[..at] == t[i..];
      assert at > 0 ==> message[0] == t[i];
    }

    method ParseHeader(ghost t: seq<byte>, ghost rest: seq<byte>) returns (e: Option<Error>)
      requires message.Length == HEADER + dataSize && 1 <= dataSize <= 256
      requires !inData && t == message[..HEADER] && message[0] == PREFIX_CHAR
      modifies this, message
      ensures Valid()
      ensures e.Some? ==> Session(t + rest, dataSize) == ([], Failed(e.value))
      ensures e == None ==> Pending() == t
    {
      e := CheckHeader(message[1], message[3], dataSize);
      assert FirstPrefix(t + rest) == 0;
      if e.Some? {
        assert (t + rest)[1] == message[1] && (t + rest)[3] == message[3];
        ResetParseState();
      } else {
        inData := true;
        at, want := HEADER, message[3] as int + 1;
      }
    }

    /** comm_loop on a finite input, up to the first error or until the input runs dry. */
    method CommLoop(input: seq<byte>) returns (msgs: seq<seq<byte>>, end: End)
      requires message.Length == HEADER + dataSize && 1 <= dataSize <= 256
      modifies this, message
      ensures (msgs, end) == Session(input, dataSize)
    {
      hide Session;
      ResetParseState();
      msgs := [];
      var i := 0;
      assert Pending() + input[i..] == input && [] + Session(input, dataSize).0 == Session(input, dataSize).0;
      while want <= |input| - i
        invariant i <= |input| && Valid()
        invariant Session(input, dataSize).0 == msgs + Session(Pending() + input[i..], dataSize).0
        invariant Session(input, dataSize).1 == Session(Pending() + input[i..], dataSize).1
        decreases |input| - i
      {
        var bytes := input[i..i + want];
        assert Pending() + bytes + input[i + want..] == Pending() + input[i..];
        i := i + want;
        var got, e := Receive(bytes, input[i..]);
        if e.Some? {
          assert msgs + [] == msgs;
          return msgs, Failed(e.value);
        }
        if got.Some? {
          Regroup(msgs, [got.value], Session(input[i..], dataSize).0);
          msgs := msgs + [got.value];
          assert Pending() + input[i..] == input[i..];
        }
      }
      Starves(Pending() + input[i..]);
      assert msgs + [] == msgs;
      return msgs, Starved;
    }

    lemma Starves(s: seq<byte>)
      requires Valid() && |s| < at + want && at <= |s| && s[..at] == Pending()
      ensures Session(s, dataSize) == ([], Starved)
    {
      if at > 0 {
        assert s[0] == s[..at][0] == PREFIX_CHAR;
        assert FirstPrefix(s) == 0;
      }
      if inData {
        assert s[1] == s[..at][1] && s[3] == s[..at][3];
      }
    }
  }

  /** send_reply: an answer under the header of the message received, None when it is too long. */
  method SendReply(kind: byte, sn: byte, payload: seq<byte>, dataSize: nat) returns (f: Option<seq<byte>>)
    requires 1 <= dataSize <= 255
    ensures f == if |payload| + 1 > dataSize then None else Some(Frame(kind, sn, payload))
  {
    if |payload| + 1 > dataSize {
      return None;
    }
    var m: seq<byte> := [PREFIX_CHAR, kind, sn, |payload|] + payload;
    var n, sum := (HEADER + |payload|) % 256, 0;
    for i := 0 to n
      invariant 0 <= sum < 256 && sum == Sum(m[..i])
    {
      SumNext(m, i);
      hide Sum;
      sum := (sum + m[i] as int) % 256;
    }
    return Some(m + [255 - sum]);
  }
}
