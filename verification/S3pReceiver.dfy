/** The two S3P decoders: one pulls bytes until it has a message, the other is pushed bytes. */
module S3pReceivers {
  import opened Common
  import opened S3pCode

  // ---------------------------------------------------------------- specification, byte by byte

  /** The pulling decoder between two bytes; `pending` after a mark. */
  datatype SyncState = SyncState(pending: bool, k: Collector) {
    function Byte(b: Byte, limit: nat -> int): SyncState {
      if !pending then
        if b == MARK then this.(pending := true) else this.(k := k.Store(b, limit(k.count)))
      else
        var command := Compose(MARK, b);
        SyncState(false,
                  if command == BOM then k.Start()
                  else if command == EOM then k.Finish()
                  else if command == STUFF then k.Store(MARK, limit(k.count))
                  else k.Report(command))
    }
  }

  /** The pushed decoder between two bytes; `dual` are the last two bytes, or 0. */
  datatype AsyncState = AsyncState(dual: DualByte, k: Collector) {
    function Byte(b: Byte, limit: nat -> int): AsyncState {
      var d := Compose(Lsb(dual), b);
      if b == MARK then this.(dual := d)
      else
        var command := if Msb(d) == 0 then 0 else d;
        AsyncState(0,
                   if command == 0 then k.Store(b, limit(k.count))
                   else if command == STUFF then k.Store(MARK, limit(k.count))
                   else if command == EOM then k.Finish()
                   else if command == BOM then k.Start()
                   else k.Report(command))
    }

    /** The same while the application has no buffer to offer: nothing is stored or begun. */
    function ByteWithoutBuffer(b: Byte): AsyncState {
      var d := Compose(Lsb(dual), b);
      if b == MARK then this.(dual := d)
      else AsyncState(0, if Msb(d) == 0 || d in {STUFF, EOM, BOM} then k else k.Report(d))
    }
  }

  function SyncRun(s: SyncState, input: seq<Byte>, limit: nat -> int): SyncState
    decreases |input|
  {
    if input == [] then s else SyncRun(s, input[..|input| - 1], limit).Byte(input[|input| - 1], limit)
  }

  function AsyncRun(s: AsyncState, input: seq<Byte>, limit: nat -> int): AsyncState
    decreases |input|
  {
    if input == [] then s else AsyncRun(s, input[..|input| - 1], limit).Byte(input[|input| - 1], limit)
  }

  /** The pushed decoder and whether it has a buffer of the application's, which it asks for at every byte
      as long as it has none and gives up with the message. */
  datatype OfferState = OfferState(a: AsyncState, has: bool) {
    function Byte(b: Byte, offered: bool, limit: nat -> int): OfferState {
      var n := if has || offered then a.Byte(b, limit) else a.ByteWithoutBuffer(b);
      OfferState(n, (has || offered) && n.k.count == a.k.count)
    }
  }

  /** `offers[i]` is whether the application has a buffer when byte `i` arrives. */
  function OfferRun(s: OfferState, input: seq<Byte>, offers: seq<bool>, limit: nat -> int): OfferState
    requires |offers| == |input|
    decreases |input|
  {
    if input == [] then s
    else
      var n := |input| - 1;
      OfferRun(s, input[..n], offers[..n], limit).Byte(input[n], offers[n], limit)
  }

  const FRESH: Collector := Collector(None, [], 0)

  function MessagesOf(events: seq<Event>): seq<seq<Byte>> {
    if events == [] then []
    else MessagesOf(events[..|events| - 1]) +
         if events[|events| - 1].Message? then [events[|events| - 1].data] else []
  }

  function CommandsOf(events: seq<Event>): seq<DualByte> {
    if events == [] then []
    else CommandsOf(events[..|events| - 1]) +
         if events[|events| - 1].Execute? then [events[|events| - 1].command] else []
  }

  // ---------------------------------------------------------------- the two decoders compared

  ghost predicate NoMarkPair(input: seq<Byte>) {
    forall i :: 0 <= i < |input| - 1 ==> !(input[i] == MARK && input[i + 1] == MARK)
  }

  /** Both have collected and reported the same, and both or neither wait for a command byte. */
  ghost predicate Alike(s: SyncState, a: AsyncState) {
    s.k == a.k && a.dual == if s.pending then Compose(0, MARK) else 0
  }

  /** On a stream without two marks in a row the decoders agree after every byte. */
  lemma {:induction false} DecodersAgree(input: seq<Byte>, limit: nat -> int)
    requires NoMarkPair(input)
    ensures var s := SyncRun(SyncState(false, FRESH), input, limit);
            var a := AsyncRun(AsyncState(0, FRESH), input, limit);
            Alike(s, a) && (s.pending <==> input != [] && input[|input| - 1] == MARK)
    decreases |input|
  {
    if input != [] {
      var front, b := input[..|input| - 1], input[|input| - 1];
      DecodersAgree(front, limit);
      assert front != [] ==> front[|front| - 1] == input[|input| - 2];
    }
  }

  lemma OneByteMore(s: SyncState, a: AsyncState, x: seq<Byte>, b: Byte, limit: nat -> int)
    ensures SyncRun(s, x + [b], limit) == SyncRun(s, x, limit).Byte(b, limit)
    ensures AsyncRun(a, x + [b], limit) == AsyncRun(a, x, limit).Byte(b, limit)
  {
    assert (x + [b])[..|x + [b]| - 1] == x;
  }

  lemma LastEvent(events: seq<Event>, e: Event)
    ensures MessagesOf(events + [e]) == MessagesOf(events) + if e.Message? then [e.data] else []
    ensures CommandsOf(events + [e]) == CommandsOf(events) + if e.Execute? then [e.command] else []
  {
    assert (events + [e])[..|events|] == events;
  }

  /** Alike after every byte of the stream. */
  ghost predicate AlikeThroughout(input: seq<Byte>, limit: nat -> int) {
    forall n :: 0 <= n <= |input| ==> AlikeAfter(input[..n], limit)
  }

  ghost predicate AlikeAfter(input: seq<Byte>, limit: nat -> int) {
    Alike(SyncRun(SyncState(false, FRESH), input, limit), AsyncRun(AsyncState(0, FRESH), input, limit))
  }

  /** The second of two marks is a command to the one and nothing yet to the other. */
  lemma SecondMark(s: SyncState, a: AsyncState, limit: nat -> int)
    requires Alike(s, a) && s.pending
    ensures s.Byte(MARK, limit) == SyncState(false, s.k.Report(Compose(MARK, MARK)))
    ensures a.Byte(MARK, limit) == AsyncState(Compose(MARK, MARK), a.k)
  {
  }

  /** The first pair of marks in a stream. */
  lemma {:induction false} FirstMarkPair(input: seq<Byte>) returns (n: nat)
    requires !NoMarkPair(input)
    ensures n + 2 <= |input| && input[n] == MARK == input[n + 1] && NoMarkPair(input[..n + 1])
    decreases |input|
  {
    var front := input[..|input| - 1];
    if NoMarkPair(front) {
      n := |input| - 2;
      assert input[..n + 1] == front;
    } else {
      n := FirstMarkPair(front);
      assert front[..n + 1] == input[..n + 1];
    }
  }

  /** The decoders agree after every byte of a stream exactly when it has no two marks in a row. */
  lemma DecodersAgreeIff(input: seq<Byte>, limit: nat -> int)
    ensures AlikeThroughout(input, limit) <==> NoMarkPair(input)
  {
    if NoMarkPair(input) {
      forall n | 0 <= n <= |input| ensures AlikeAfter(input[..n], limit) {
        DecodersAgree(input[..n], limit);
      }
    } else {
      var n := FirstMarkPair(input);
      var front := input[..n + 1];
      var s, a := SyncRun(SyncState(false, FRESH), front, limit), AsyncRun(AsyncState(0, FRESH), front, limit);
      DecodersAgree(front, limit);
      assert input[..n + 2] == front + [MARK];
      OneByteMore(SyncState(false, FRESH), AsyncState(0, FRESH), front, MARK, limit);
      SecondMark(s, a, limit);
      assert !AlikeAfter(input[..n + 2], limit);
    }
  }

  lemma MoreMessages(events: seq<Event>, command: DualByte, data: seq<Byte>)
    ensures MessagesOf(events + [Execute(command)]) != MessagesOf(events + [Message(data)])
  {
    LastEvent(events, Execute(command));
    LastEvent(events, Message(data));
    assert |MessagesOf(events) + [data]| != |MessagesOf(events) + []|;
  }

  lemma AfterEnd(k: Collector, command: DualByte, limit: nat -> int)
    requires k.body.Some?
    ensures SyncState(false, k.Report(command)).Byte(Lsb(EOM), limit).k.events == k.events + [Execute(command)]
    ensures AsyncState(Compose(MARK, MARK), k).Byte(Lsb(EOM), limit).k.events == k.events + [Message(k.body.value)]
  {
    assert Compose(MARK, Lsb(EOM)) == EOM;
  }

  lemma SyncAfterBegin(s: SyncState, limit: nat -> int)
    requires !s.pending && s.k.body.None?
    ensures s.Byte(Lsb(BOM), limit).Byte(MARK, limit).Byte(Lsb(EOM), limit) == s
  {
    assert s.Byte(Lsb(BOM), limit) == s;
    assert s.Byte(MARK, limit) == SyncState(true, s.k);
    assert Compose(MARK, Lsb(EOM)) == EOM;
    assert SyncState(true, s.k).Byte(Lsb(EOM), limit) == s;
  }

  lemma AsyncBegin(k: Collector, limit: nat -> int)
    ensures AsyncState(Compose(MARK, MARK), k).Byte(Lsb(BOM), limit) == AsyncState(0, k.Start())
  {
    assert Compose(Lsb(Compose(MARK, MARK)), Lsb(BOM)) == BOM && Msb(BOM) != 0;
  }

  lemma AsyncEnd(k: Collector, limit: nat -> int)
    ensures AsyncState(0, k).Byte(MARK, limit) == AsyncState(Compose(0, MARK), k)
    ensures AsyncState(Compose(0, MARK), k).Byte(Lsb(EOM), limit) == AsyncState(0, k.Finish())
  {
    assert Compose(Lsb(Compose(0, MARK)), Lsb(EOM)) == EOM && Msb(EOM) != 0;
  }

  /** A message is being collected: an end mark's second byte tells. */
  lemma EndSeparates(x: seq<Byte>, s: SyncState, a: AsyncState, k: Collector, limit: nat -> int)
    requires SyncRun(s, x, limit) == SyncState(false, k.Report(Compose(MARK, MARK)))
    requires AsyncRun(a, x, limit) == AsyncState(Compose(MARK, MARK), k) && k.body.Some?
    ensures MessagesOf(SyncRun(s, x + [Lsb(EOM)], limit).k.events) != MessagesOf(AsyncRun(a, x + [Lsb(EOM)], limit).k.events)
  {
    OneByteMore(s, a, x, Lsb(EOM), limit);
    AfterEnd(k, Compose(MARK, MARK), limit);
    MoreMessages(k.events, Compose(MARK, MARK), k.body.value);
  }

  /** None is: a begin mark's second byte and an end mark tell. */
  lemma BeginSeparates(x: seq<Byte>, s: SyncState, a: AsyncState, k: Collector, limit: nat -> int)
    requires SyncRun(s, x, limit) == SyncState(false, k.Report(Compose(MARK, MARK)))
    requires AsyncRun(a, x, limit) == AsyncState(Compose(MARK, MARK), k) && k.body.None?
    ensures MessagesOf(SyncRun(s, x + [Lsb(BOM)] + [MARK] + [Lsb(EOM)], limit).k.events) !=
            MessagesOf(AsyncRun(a, x + [Lsb(BOM)] + [MARK] + [Lsb(EOM)], limit).k.events)
  {
    OneByteMore(s, a, x, Lsb(BOM), limit);
    OneByteMore(s, a, x + [Lsb(BOM)], MARK, limit);
    OneByteMore(s, a, x + [Lsb(BOM)] + [MARK], Lsb(EOM), limit);
    SyncAfterBegin(SyncRun(s, x, limit), limit);
    AsyncBegin(k, limit);
    AsyncEnd(k.Start(), limit);
    MoreMessages(k.events, Compose(MARK, MARK), []);
  }

  /** The state after the first pair of marks. */
  lemma AfterPair(front: seq<Byte>, s: SyncState, a: AsyncState, limit: nat -> int) returns (k: Collector)
    requires Alike(SyncRun(s, front, limit), AsyncRun(a, front, limit)) && SyncRun(s, front, limit).pending
    ensures SyncRun(s, front + [MARK], limit) == SyncState(false, k.Report(Compose(MARK, MARK)))
    ensures AsyncRun(a, front + [MARK], limit) == AsyncState(Compose(MARK, MARK), k)
  {
    k := AsyncRun(a, front, limit).k;
    OneByteMore(s, a, front, MARK, limit);
    SecondMark(SyncRun(s, front, limit), AsyncRun(a, front, limit), limit);
  }

  lemma PairSeparates(pair: seq<Byte>, s: SyncState, a: AsyncState, k: Collector, limit: nat -> int)
    returns (more: seq<Byte>)
    requires SyncRun(s, pair, limit) == SyncState(false, k.Report(Compose(MARK, MARK)))
    requires AsyncRun(a, pair, limit) == AsyncState(Compose(MARK, MARK), k)
    ensures MessagesOf(SyncRun(s, pair + more, limit).k.events) != MessagesOf(AsyncRun(a, pair + more, limit).k.events)
  {
    if k.body.Some? {
      more := [Lsb(EOM)];
      EndSeparates(pair, s, a, k, limit);
    } else {
      more := [Lsb(BOM)] + [MARK] + [Lsb(EOM)];
      BeginSeparates(pair, s, a, k, limit);
      assert pair + more == pair + [Lsb(BOM)] + [MARK] + [Lsb(EOM)];
    }
  }

  /** The disagreement matters: whatever came before the first pair of marks and however large the
      buffers are, there are bytes that may follow for which the decoders deliver different messages. */
  lemma MarkPairSeparates(input: seq<Byte>, limit: nat -> int) returns (more: seq<Byte>)
    requires NoMarkPair(input + [MARK])
    ensures MessagesOf(SyncRun(SyncState(false, FRESH), input + [MARK] + [MARK] + more, limit).k.events) !=
            MessagesOf(AsyncRun(AsyncState(0, FRESH), input + [MARK] + [MARK] + more, limit).k.events)
  {
    var s, a := SyncState(false, FRESH), AsyncState(0, FRESH);
    var front := input + [MARK];
    DecodersAgree(front, limit);
    var k := AfterPair(front, s, a, limit);
    more := PairSeparates(front + [MARK], s, a, k, limit);
  }

  // ---------------------------------------------------------------- the classes

  lemma {:induction false} SyncConcat(s: SyncState, x: seq<Byte>, y: seq<Byte>, limit: nat -> int)
    ensures SyncRun(s, x + y, limit) == SyncRun(SyncRun(s, x, limit), y, limit)
    decreases |y|
  {
    if y == [] {
      assert x + y == x;
    } else {
      var front := y[..|y| - 1];
      assert (x + y)[..|x + y| - 1] == x + front;
      SyncConcat(s, x, front, limit);
    }
  }

  /** Messages are counted one at a time, so what has been reported by some byte was reported by one
      byte before it at the latest or at that byte. */
  lemma {:induction false} CountGrows(s: SyncState, x: seq<Byte>, i: nat, limit: nat -> int)
    requires i <= |x|
    ensures s.k.count <= SyncRun(s, x[..i], limit).k.count <= SyncRun(s, x, limit).k.count
    decreases |x|
  {
    if i == |x| {
      assert x[..i] == x;
      if x != [] {
        CountGrows(s, x[..|x| - 1], 0, limit);
      }
    } else {
      CountGrows(s, x[..|x| - 1], i, limit);
      assert x[..|x| - 1][..i] == x[..i];
    }
  }

  /** `consumed` ends with the byte that completes the first message after `start`. */
  ghost predicate EndsFirstMessage(start: SyncState, consumed: seq<Byte>, limit: nat -> int) {
    && consumed != []
    && SyncRun(start, consumed[..|consumed| - 1], limit).k.count == start.k.count
    && SyncRun(start, consumed, limit).k.count == start.k.count + 1
  }

  /** No other prefix of the stream is one a call of `GetMsg` could stop at. */
  lemma FirstMessageIsUnique(start: SyncState, stream: seq<Byte>, m: nat, n: nat, limit: nat -> int)
    requires m <= |stream| && EndsFirstMessage(start, stream[..m], limit)
    requires n <= |stream| && EndsFirstMessage(start, stream[..n], limit)
    ensures m == n
  {
    if m < n {
      assert stream[..n][..n - 1][..m] == stream[..m];
      CountGrows(start, stream[..n][..n - 1], m, limit);
    } else if n < m {
      assert stream[..m][..m - 1][..n] == stream[..n];
      CountGrows(start, stream[..m][..m - 1], n, limit);
    }
  }

  lemma ConsumedMore(start: SyncState, consumed: seq<Byte>, more: seq<Byte>, before: SyncState, after: SyncState,
                     limit: nat -> int)
    requires SyncRun(start, consumed, limit) == before && SyncRun(before, more, limit) == after
    ensures SyncRun(start, consumed + more, limit) == after
    ensures before.k.count == start.k.count && EndsFirstMessage(before, more, limit) ==>
              EndsFirstMessage(start, consumed + more, limit)
  {
    SyncConcat(start, consumed, more, limit);
    if more != [] {
      var front := more[..|more| - 1];
      assert (consumed + more)[..|consumed + more| - 1] == consumed + front;
      SyncConcat(start, consumed, front, limit);
    }
  }

  lemma TwoBytes(s: SyncState, a: Byte, b: Byte, limit: nat -> int)
    ensures SyncRun(s, [a], limit) == s.Byte(a, limit)
    ensures SyncRun(s, [a, b], limit) == s.Byte(a, limit).Byte(b, limit)
    ensures s.Byte(a, limit).k.count == s.k.count && s.Byte(a, limit).Byte(b, limit).k.count == s.k.count + 1 ==>
              EndsFirstMessage(s, [a, b], limit)
  {
    assert [a][..0] == [] && [a, b][..1] == [a];
  }

  class S3pReceiverSynchronous {
    var input: seq<Byte>  // what the channel still has to deliver
    var events: seq<Event>  // commands executed and messages returned so far
    var count: nat  // messages returned so far

    constructor (stream: seq<Byte>)
      ensures input == stream && events == [] && count == 0
    {
      input, events, count := stream, [], 0;
    }

    /** The collector between two calls. */
    function Idle(): Collector
      reads this
    {
      Collector(None, events, count)
    }

    method GetByte() returns (c: Byte)
      requires input != []
      modifies this`input
      ensures old(input) == [c] + input
    {
      c := input[0];
      input := input[1..];
    }

    method ExecuteCommand(command: DualByte)
      modifies this`events
      ensures events == old(events) + [Execute(command)]
      ensures MessagesOf(events) == MessagesOf(old(events))
    {
      LastEvent(events, Execute(command));
      events := events + [Execute(command)];
    }

    /** The collector during a call, `len` bytes of the message being in `msg`, or -1 before its begin. */
    ghost function Collecting(len: int, msg: array<Byte>): Collector
      requires -1 <= len <= msg.Length
      reads this, msg
    {
      Collector(if len < 0 then None else Some(msg[..len]), events, count)
    }

    method StoreByte(c: Byte, oldLen: int, maxLen: int, msg: array<Byte>) returns (len: int)
      requires -1 <= oldLen <= msg.Length && maxLen <= msg.Length
      modifies msg
      ensures -1 <= len <= msg.Length && Collecting(len, msg) == old(Collecting(oldLen, msg)).Store(c, maxLen)
    {
      len := oldLen;
      if len >= 0 && len < maxLen {
        msg[len] := c;
        len := len + 1;
        assert msg[..len] == old(msg[..oldLen]) + [c];
      }
    }

    /** The branches of the switch; `done` where the call returns. */
    method DoCommand(d: Byte, oldLen: int, maxLen: int, msg: array<Byte>, ghost limit: nat -> int)
      returns (len: int, done: bool)
      requires -1 <= oldLen <= msg.Length && maxLen <= msg.Length && limit(count) == maxLen
      modifies this`events, this`count, msg
      ensures -1 <= len <= msg.Length && (done ==> len >= 0)
      ensures SyncState(false, if done then Idle() else Collecting(len, msg)) ==
              SyncState(true, old(Collecting(oldLen, msg))).Byte(d, limit)
      ensures count == old(count) + if done then 1 else 0
      ensures MessagesOf(events) == MessagesOf(old(events)) + if done then [msg[..len]] else []
    {
      len, done := oldLen, false;
      var dualByte := Compose(MARK, d);
      if dualByte == BOM {
        len := 0;
      } else if dualByte == EOM {
        if len >= 0 {
          LastEvent(events, Message(msg[..len]));
          events, count, done := events + [Message(msg[..len])], count + 1, true;
        }
      } else if dualByte == STUFF {
        len := StoreByte(MARK, len, maxLen, msg);
      } else {
        ExecuteCommand(dualByte);
      }
    }

    /** One round of the loop: a byte, and the one behind it if it is a mark. `pending` if the channel
        has no byte behind the mark, where the call waits for ever. */
    method Round(oldLen: int, maxLen: int, msg: array<Byte>, ghost limit: nat -> int)
      returns (len: int, done: bool, pending: bool, ghost more: seq<Byte>)
      requires input != [] && -1 <= oldLen <= msg.Length && maxLen <= msg.Length && limit(count) == maxLen
      modifies this, msg
      ensures -1 <= len <= msg.Length && (done ==> len >= 0) && (pending ==> input == [] && !done)
      ensures old(input) == more + input && more != []
      ensures SyncRun(SyncState(false, old(Collecting(oldLen, msg))), more, limit) ==
              SyncState(pending, if done then Idle() else Collecting(len, msg))
      ensures count == old(count) + if done then 1 else 0
      ensures done ==> EndsFirstMessage(SyncState(false, old(Collecting(oldLen, msg))), more, limit)
      ensures MessagesOf(events) == MessagesOf(old(events)) + if done then [msg[..len]] else []
    {
      ghost var start := SyncState(false, Collecting(oldLen, msg));
      len, done, pending := oldLen, false, false;
      var c := GetByte();
      more := [c];
      TwoBytes(start, c, c, limit);
      if c != MARK {
        len := StoreByte(c, len, maxLen, msg);
      } else if input == [] {
        pending := true;
      } else {
        var d := GetByte();
        more := [c, d];
        TwoBytes(start, c, d, limit);
        len, done := DoCommand(d, len, maxLen, msg, limit);
      }
    }

    /** The next message, cut to `maxLen` bytes: the bytes read are those up to the end mark that
        completes it and no more. -1 stands for a call that waits for ever: the channel has delivered
        all it has and no message was completed. */
    method GetMsg(maxLen: int, msg: array<Byte>, ghost limit: nat -> int)
      returns (len: int, ghost consumed: seq<Byte>)
      requires maxLen <= msg.Length && limit(count) == maxLen
      modifies this, msg
      ensures -1 <= len <= msg.Length && old(input) == consumed + input
      ensures len >= 0 ==>
                && EndsFirstMessage(SyncState(false, old(Idle())), consumed, limit)
                && SyncRun(SyncState(false, old(Idle())), consumed, limit) == SyncState(false, Idle())
                && MessagesOf(events) == MessagesOf(old(events)) + [msg[..len]]
      ensures len < 0 ==>
                && input == []
                && SyncRun(SyncState(false, old(Idle())), consumed, limit).k.(body := None) == Idle()
                && MessagesOf(events) == MessagesOf(old(events)) && count == old(count)
    {
      ghost var start := SyncState(false, Idle());
      len, consumed := -1, [];
      var pending := false;
      while input != []
        invariant -1 <= len <= msg.Length && (pending ==> input == [])
        invariant old(input) == consumed + input && count == old(count)
        invariant MessagesOf(events) == MessagesOf(old(events))
        invariant SyncRun(start, consumed, limit) == SyncState(pending, Collecting(len, msg))
        decreases |input|
      {
        ghost var more;
        ghost var before := SyncState(false, Collecting(len, msg));
        var done;
        len, done, pending, more := Round(len, maxLen, msg, limit);
        ConsumedMore(start, consumed, more, before, SyncState(pending, if done then Idle() else Collecting(len, msg)), limit);
        assert consumed + (more + input) == consumed + more + input;
        consumed := consumed + more;
        if done {
          return;
        }
      }
      len := -1;
    }
  }

  /** Messages taken one after the other until the channel has no more. */
  method GetAll(stream: seq<Byte>, limit: nat -> int) returns (messages: seq<seq<Byte>>, commands: seq<DualByte>)
    ensures messages == MessagesOf(SyncRun(SyncState(false, FRESH), stream, limit).k.events)
    ensures commands == CommandsOf(SyncRun(SyncState(false, FRESH), stream, limit).k.events)
  {
    var r := new S3pReceiverSynchronous(stream);
    messages := [];
    ghost var consumed: seq<Byte> := [];
    while true
      invariant fresh(r) && stream == consumed + r.input
      invariant SyncRun(SyncState(false, FRESH), consumed, limit) == SyncState(false, r.Idle())
      invariant messages == MessagesOf(r.events)
      decreases |r.input|
    {
      var maxLen := limit(r.count);
      var msg := new Byte[if maxLen < 0 then 0 else maxLen];
      ghost var rest := r.input;
      var len, more := r.GetMsg(maxLen, msg, limit);
      SyncConcat(SyncState(false, FRESH), consumed, more, limit);
      consumed := consumed + more;
      if len < 0 {
        assert consumed == stream;
        commands := CommandsOf(r.events);
        return;
      }
      messages := messages + [msg[..len]];
    }
  }

  /** `limit(n)` is the size of the buffer the application offers for its n-th message, when it has one. */
  class S3pReceiverAsynchronous {
    var len: int
    var msg: array?<Byte>
    var maxLen: int
    var dualByte: DualByte
    var events: seq<Event>
    var count: nat
    const limit: nat -> int

    constructor (limit: nat -> int)
      ensures Valid() && State() == AsyncState(0, FRESH) && msg == null && this.limit == limit
    {
      len, msg, maxLen, dualByte := -1, null, 1300, 0;
      events, count := [], 0;
      this.limit := limit;
    }

    ghost predicate Valid()
      reads this
    {
      && -1 <= len
      && (msg == null ==> len < 0)
      && (msg != null ==> maxLen == limit(count) && maxLen <= msg.Length && len <= msg.Length)
    }

    ghost function State(): AsyncState
      requires Valid()
      reads this, msg
    {
      AsyncState(dualByte, Collector(if len < 0 then None else Some(msg[..len]), events, count))
    }

    /** The application offers a buffer, or none. */
    method RequestBufferToWrite(offered: bool)
      requires Valid() && msg == null
      modifies this`msg, this`maxLen
      ensures Valid() && State() == old(State())
      ensures if offered then msg != null && fresh(msg) else msg == null
    {
      maxLen := 0;
      if offered {
        maxLen := limit(count);
        msg := new Byte[if maxLen < 0 then 0 else maxLen];
      }
    }

    method EndOfMessage()
      requires Valid() && len >= 0
      modifies this`events, this`count
      ensures events == old(events) + [Message(msg[..len])] && count == old(count) + 1
    {
      events, count := events + [Message(msg[..len])], count + 1;
    }

    method ExecuteCommand(command: DualByte)
      modifies this`events
      ensures events == old(events) + [Execute(command)]
    {
      events := events + [Execute(command)];
    }

    method Put(b: Byte)
      requires Valid()
      modifies this`len, msg
      ensures Valid() && State() == old(State()).(k := old(State()).k.Store(b, limit(count)))
    {
      if msg != null && len >= 0 && len < maxLen {
        msg[len] := b;
        len := len + 1;
        assert msg[..len] == old(msg[..len]) + [b];
      }
    }

    /** `offered` is whether the application has a buffer, should it be asked. */
    method PutByte(inputByte: Byte, offered: bool)
      requires Valid()
      modifies this, msg
      ensures Valid()
      ensures State() == if old(msg) != null || offered then old(State()).Byte(inputByte, limit)
                         else old(State()).ByteWithoutBuffer(inputByte)
      ensures msg != null ==> msg == old(msg) || fresh(msg)
      ensures msg != null <==> (old(msg) != null || offered) && count == old(count)
    {
      if msg == null {
        RequestBufferToWrite(offered);
      }
      dualByte := Compose(Lsb(dualByte), inputByte);
      if inputByte == MARK {
        return;
      }
      if Msb(dualByte) == 0 {
        dualByte := 0;
      }
      if dualByte == 0 {
        Put(inputByte);
      } else if dualByte == STUFF {
        Put(MARK);
      } else if dualByte == EOM {
        if len >= 0 {
          EndOfMessage();
          msg, len := null, -1;
        }
      } else if dualByte == BOM {
        if msg != null {
          len := 0;
        }
      } else {
        ExecuteCommand(dualByte);
      }
      dualByte := 0;
    }
  }

  lemma OneOfferMore(s: OfferState, input: seq<Byte>, offers: seq<bool>, n: nat, limit: nat -> int)
    requires n < |input| == |offers|
    ensures OfferRun(s, input[..n + 1], offers[..n + 1], limit) ==
            OfferRun(s, input[..n], offers[..n], limit).Byte(input[n], offers[n], limit)
  {
    assert input[..n + 1][..n] == input[..n] && offers[..n + 1][..n] == offers[..n];
  }

  /** A whole stream, whatever buffers the application has. */
  method PutWithOffers(stream: seq<Byte>, offers: seq<bool>, limit: nat -> int)
    returns (messages: seq<seq<Byte>>, commands: seq<DualByte>)
    requires |offers| == |stream|
    ensures var events := OfferRun(OfferState(AsyncState(0, FRESH), false), stream, offers, limit).a.k.events;
            messages == MessagesOf(events) && commands == CommandsOf(events)
  {
    var r := new S3pReceiverAsynchronous(limit);
    for i := 0 to |stream|
      invariant fresh(r) && r.Valid() && (r.msg != null ==> fresh(r.msg)) && r.limit == limit
      invariant OfferState(r.State(), r.msg != null) ==
                OfferRun(OfferState(AsyncState(0, FRESH), false), stream[..i], offers[..i], limit)
    {
      OneOfferMore(OfferState(AsyncState(0, FRESH), false), stream, offers, i, limit);
      r.PutByte(stream[i], offers[i]);
    }
    assert stream[..|stream|] == stream && offers[..|stream|] == offers;
    messages, commands := MessagesOf(r.events), CommandsOf(r.events);
  }

  lemma {:induction false} AlwaysOffered(a: AsyncState, has: bool, input: seq<Byte>, offers: seq<bool>, limit: nat -> int)
    requires |offers| == |input| && forall i :: 0 <= i < |offers| ==> offers[i]
    ensures OfferRun(OfferState(a, has), input, offers, limit).a == AsyncRun(a, input, limit)
    decreases |input|
  {
    if input != [] {
      var n := |input| - 1;
      AlwaysOffered(a, has, input[..n], offers[..n], limit);
    }
  }

  /** The application offers a buffer whenever it is asked. */
  method PutAll(stream: seq<Byte>, limit: nat -> int) returns (messages: seq<seq<Byte>>, commands: seq<DualByte>)
    ensures messages == MessagesOf(AsyncRun(AsyncState(0, FRESH), stream, limit).k.events)
    ensures commands == CommandsOf(AsyncRun(AsyncState(0, FRESH), stream, limit).k.events)
  {
    var offers := seq(|stream|, _ => true);
    AlwaysOffered(AsyncState(0, FRESH), false, stream, offers, limit);
    messages, commands := PutWithOffers(stream, offers, limit);
  }
}
