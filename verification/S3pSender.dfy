/** The two S3P encoders: one pushes bytes, the other hands them out one by one. */
module S3pSenders {
  import opened Common
  import opened S3pCode

  class S3pSenderSynchronous {
    var sent: seq<Byte>  // what the channel has been given

    constructor ()
      ensures sent == []
    {
      sent := [];
    }

    method PutByte(c: Byte)
      modifies this
      ensures sent == old(sent) + [c]
    {
      sent := sent + [c];
    }

    method PutDataByte(c: Byte)
      modifies this
      ensures sent == old(sent) + Symbol.Data(c).Bytes()
    {
      if c == MARK {
        PutCommand(STUFF);
      } else {
        PutByte(c);
      }
    }

    method PutCommand(c: DualByte)
      modifies this
      ensures sent == old(sent) + if c == NODATA then [] else [Msb(c), Lsb(c)]
    {
      if c == NODATA {
        return;
      }
      PutByte(Msb(c));
      PutByte(Lsb(c));
    }

    method SendMsg(s: seq<Byte>)
      modifies this
      ensures sent == old(sent) + Bytes(Frame(s))
    {
      ghost var before := sent;
      PutCommand(BOM);
      for i := 0 to |s|
        invariant sent == (before + Begin.Bytes()) + Bytes(DataOf(s[..i]))
      {
        PutDataByte(s[i]);
        OneByteSent(before + Begin.Bytes(), s, i);
      }
      PutCommand(EOM);
      assert s[..|s|] == s;
      FrameBytes(s);
    }
  }

  lemma OneByteSent(before: seq<Byte>, s: seq<Byte>, i: nat)
    requires i < |s|
    ensures before + Bytes(DataOf(s[..i + 1])) == before + Bytes(DataOf(s[..i])) + Data(s[i]).Bytes()
  {
    assert DataOf(s[..i + 1]) == DataOf(s[..i]) + [Data(s[i])];
    BytesConcat(DataOf(s[..i]), [Data(s[i])]);
    OneSymbol(Data(s[i]));
  }

  lemma OneSymbol(s: Symbol)
    ensures Bytes([s]) == s.Bytes()
  {
    assert [s][1..] == [];
  }

  lemma FrameBytes(msg: seq<Byte>)
    ensures Bytes(Frame(msg)) == Begin.Bytes() + Bytes(DataOf(msg)) + End.Bytes()
  {
    BytesConcat([Begin] + DataOf(msg), [End]);
    BytesConcat([Begin], DataOf(msg));
    OneSymbol(Begin);
    OneSymbol(End);
  }

  lemma {:induction false} PlainBytes(msg: seq<Byte>)
    requires MARK !in msg
    ensures Bytes(DataOf(msg)) == msg
    decreases |msg|
  {
    if msg != [] {
      assert DataOf(msg)[1..] == DataOf(msg[1..]);
      PlainBytes(msg[1..]);
    }
  }

  lemma StuffedBytes(msg: seq<Byte>, rest: seq<Byte>)
    requires MARK !in msg
    ensures Bytes(DataOf(msg + [MARK] + rest)) == msg + [MARK, Lsb(STUFF)] + Bytes(DataOf(rest))
  {
    PlainBytes(msg);
    var stuffed := [Data(MARK)];
    assert DataOf(msg + [MARK] + rest) == DataOf(msg) + stuffed + DataOf(rest);
    BytesConcat(DataOf(msg) + stuffed, DataOf(rest));
    BytesConcat(DataOf(msg), stuffed);
    OneSymbol(Data(MARK));
  }

  /** The format itself: FE 02 in front, FE 03 behind, the message in between; FE in it becomes FE 7E. */
  lemma WireFormat(msg: seq<Byte>, rest: seq<Byte>)
    requires 0xFE !in msg
    ensures Bytes(Frame(msg)) == [0xFE, 0x02] + msg + [0xFE, 0x03]
    ensures Bytes(Frame(msg + [0xFE] + rest)) ==
            [0xFE, 0x02] + (msg + [0xFE, 0x7E] + Bytes(DataOf(rest))) + [0xFE, 0x03]
  {
    FrameBytes(msg);
    PlainBytes(msg);
    FrameBytes(msg + [MARK] + rest);
    StuffedBytes(msg, rest);
  }

  // ---------------------------------------------------------------- asynchronous

  /** The stream still to come: the rest of the message being sent, and the messages behind it. */
  function ToCome(msg: Option<seq<Byte>>, queue: seq<seq<Byte>>): seq<Byte> {
    (if msg.Some? then Bytes(DataOf(msg.value) + [End]) else []) + Bytes(Frames(queue))
  }

  lemma ToComeNext(msg: Option<seq<Byte>>, queue: seq<seq<Byte>>)
    ensures msg.None? && queue == [] ==> ToCome(msg, queue) == []
    ensures msg.None? && queue != [] ==> ToCome(msg, queue) == Begin.Bytes() + ToCome(Some(queue[0]), queue[1..])
    ensures msg == Some([]) ==> ToCome(msg, queue) == End.Bytes() + ToCome(None, queue)
    ensures msg.Some? && msg.value != [] ==>
              ToCome(msg, queue) == Data(msg.value[0]).Bytes() + ToCome(Some(msg.value[1..]), queue)
  {
    if msg.None? {
      if queue != [] {
        var m, later := queue[0], queue[1..];
        BytesConcat(Frame(m), Frames(later));
        BytesConcat([Begin], DataOf(m) + [End]);
        OneSymbol(Begin);
        assert Frame(m) == [Begin] + (DataOf(m) + [End]);
      }
    } else if msg.value == [] {
      assert DataOf([]) + [End] == [End];
      OneSymbol(End);
    } else {
      var rest := msg.value;
      assert DataOf(rest) + [End] == [Data(rest[0])] + (DataOf(rest[1..]) + [End]);
      BytesConcat([Data(rest[0])], DataOf(rest[1..]) + [End]);
      OneSymbol(Data(rest[0]));
    }
  }

  /** The bytes a command or a data byte is sent as. */
  function OnTheWire(c: DualByte): seq<Byte> {
    if IsCommand(c) then [Msb(c), Lsb(c)] else Data(Lsb(c)).Bytes()
  }

  /** The next unit of the stream to come. */
  lemma NextUnit(msg: Option<seq<Byte>>, queue: seq<seq<Byte>>)
    ensures msg.None? && queue == [] ==> ToCome(msg, queue) == []
    ensures msg.None? && queue != [] ==> ToCome(msg, queue) == OnTheWire(BOM) + ToCome(Some(queue[0]), queue[1..])
    ensures msg == Some([]) ==> ToCome(msg, queue) == OnTheWire(EOM) + ToCome(None, queue)
    ensures msg.Some? && msg.value != [] ==>
              ToCome(msg, queue) == OnTheWire(msg.value[0]) + ToCome(Some(msg.value[1..]), queue)
  {
    ToComeNext(msg, queue);
    assert OnTheWire(BOM) == Begin.Bytes() && OnTheWire(EOM) == End.Bytes();
  }

  lemma FirstOnTheWire(c: DualByte, rest: seq<Byte>)
    ensures IsCommand(c) ==> OnTheWire(c) + rest == [Msb(c)] + ([Lsb(c)] + rest)
    ensures c == MARK ==> !IsCommand(c) && OnTheWire(c) + rest == [Msb(STUFF)] + ([Lsb(STUFF)] + rest)
    ensures c < 0x100 && c != MARK ==> OnTheWire(c) + rest == [Lsb(c)] + rest
  {
    if IsCommand(c) {
      Split(Msb(c), Lsb(c), rest);
    } else if c == MARK {
      assert OnTheWire(c) == [MARK, Lsb(STUFF)] && Msb(STUFF) == MARK;
      Split(MARK, Lsb(STUFF), rest);
    }
  }

  lemma Split(a: Byte, b: Byte, rest: seq<Byte>)
    ensures [a, b] + rest == [a] + ([b] + rest)
  {
  }

  /** Messages framed one after the other; `queue` is what the application has still to hand over
      when it is asked for a buffer to read. */
  class S3pMsgSenderAsynchronous {
    var pendingDualByte: DualByte
    var isABytePendig: bool
    var msg: Option<seq<Byte>>  // the rest of the message being sent
    var queue: seq<seq<Byte>>

    constructor (messages: seq<seq<Byte>>)
      ensures Rest() == Bytes(Frames(messages))
    {
      pendingDualByte, isABytePendig, msg, queue := 0, false, None, messages;
    }

    /** The bytes still to be handed out. */
    ghost function Rest(): seq<Byte>
      reads this
    {
      Pending() + ToCome(msg, queue)
    }

    method GetDualByte() returns (c: DualByte)
      modifies this`msg, this`queue
      ensures c == NODATA ==> old(ToCome(msg, queue)) == [] && msg == old(msg) && queue == old(queue)
      ensures c != NODATA ==>
                old(ToCome(msg, queue)) == OnTheWire(c) + ToCome(msg, queue)
      ensures c == NODATA || c == BOM || c == EOM || c < 0x100
    {
      NextUnit(msg, queue);
      if msg.None? {
        if queue == [] {
          return NODATA;
        }
        msg, queue := Some(queue[0]), queue[1..];
        return BOM;
      }
      if msg.value == [] {
        msg := None;
        return EOM;
      }
      c := msg.value[0];
      msg := Some(msg.value[1..]);
    }

    /** What is left of a command or a stuffed byte. */
    ghost function Pending(): seq<Byte>
      reads this`isABytePendig, this`pendingDualByte
    {
      if isABytePendig then [Lsb(pendingDualByte)] else []
    }

    /** The first byte of what `pendingDualByte` is sent as; the other one, if any, stays pending. */
    method Encode(ghost rest: seq<Byte>) returns (c: DualByte)
      requires !isABytePendig && (IsCommand(pendingDualByte) || pendingDualByte < 0x100)
      modifies this`pendingDualByte, this`isABytePendig
      ensures c < 0x100 && old(OnTheWire(pendingDualByte)) + rest == [c] + (Pending() + rest)
    {
      FirstOnTheWire(pendingDualByte, rest);
      if IsCommand(pendingDualByte) {
        isABytePendig := true;
        return Msb(pendingDualByte);
      }
      if pendingDualByte == MARK {
        pendingDualByte := STUFF;
        isABytePendig := true;
        return Msb(STUFF);
      }
      assert Pending() + rest == rest;
      return Lsb(pendingDualByte);
    }

    /** NODATA when there is nothing to send, and otherwise the next byte of the stream. */
    method GetByteOrNODATA() returns (c: DualByte)
      modifies this
      ensures c == NODATA ==> old(Rest()) == [] == Rest()
      ensures c != NODATA ==> c < 0x100 && old(Rest()) == [c] + Rest()
    {
      ghost var before := ToCome(msg, queue);
      if isABytePendig {
        isABytePendig := false;
        assert Rest() == [] + before && [] + before == before;
        return Lsb(pendingDualByte);
      }
      assert Rest() == [] + before && [] + before == before;
      pendingDualByte := GetDualByte();
      if pendingDualByte == NODATA {
        return NODATA;
      }
      c := Encode(ToCome(msg, queue));
    }

    /** Every byte until NODATA: the whole stream. */
    method Drain() returns (stream: seq<Byte>)
      modifies this
      ensures stream == old(Rest()) && Rest() == []
    {
      stream := [];
      var c := GetByteOrNODATA();
      while c != NODATA
        invariant c != NODATA ==> c < 0x100 && stream + ([c] + Rest()) == old(Rest())
        invariant c == NODATA ==> stream == old(Rest()) && Rest() == []
        decreases c != NODATA, |Rest()|
      {
        Associate(stream, [c], Rest());
        stream := stream + [c];
        c := GetByteOrNODATA();
        if c == NODATA {
          assert stream + [] == stream;
        }
      }
    }
  }

  lemma Associate(a: seq<Byte>, b: seq<Byte>, c: seq<Byte>)
    ensures (a + b) + c == a + (b + c)
  {
  }

  lemma NextFrame(messages: seq<seq<Byte>>, i: nat)
    requires i < |messages|
    ensures Bytes(Frames(messages[i..])) == Bytes(Frame(messages[i])) + Bytes(Frames(messages[i + 1..]))
  {
    var rest := messages[i..];
    assert rest[0] == messages[i] && rest[1..] == messages[i + 1..];
    BytesConcat(Frame(messages[i]), Frames(messages[i + 1..]));
  }

  method SendAll(messages: seq<seq<Byte>>) returns (stream: seq<Byte>)
    ensures stream == Bytes(Frames(messages))
  {
    var s := new S3pSenderSynchronous();
    assert messages[0..] == messages;
    for i := 0 to |messages|
      invariant s.sent + Bytes(Frames(messages[i..])) == Bytes(Frames(messages))
    {
      NextFrame(messages, i);
      Associate(s.sent, Bytes(Frame(messages[i])), Bytes(Frames(messages[i + 1..])));
      s.SendMsg(messages[i]);
    }
    stream := s.sent;
  }

  /** The two encoders agree: draining the one gives what the other sends for the same messages. */
  method SendBothWays(messages: seq<seq<Byte>>) returns (pulled: seq<Byte>, pushed: seq<Byte>)
    ensures pulled == pushed == Bytes(Frames(messages))
  {
    var a := new S3pMsgSenderAsynchronous(messages);
    pulled := a.Drain();
    pushed := SendAll(messages);
  }
}
