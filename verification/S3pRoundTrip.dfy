/** What the S3P receivers deliver, said by the structure of the stream and not by its bytes. */
module S3pRoundTrip {
  import opened Common
  import opened S3pCode
  import opened S3pReceivers
  import S3pSenders

  // ---------------------------------------------------------------- from bytes to symbols

  lemma AfterSymbol(k: Collector, s: Symbol, limit: nat -> int)
    requires s.Valid()
    ensures SyncRun(SyncState(false, k), s.Bytes(), limit) == SyncState(false, k.Symbol(s, limit))
  {
    var start := SyncState(false, k);
    match s
    case Begin => TwoBytes(start, MARK, Lsb(BOM), limit);
    case End => TwoBytes(start, MARK, Lsb(EOM), limit);
    case Other(d) => TwoBytes(start, MARK, d, limit);
    case Data(b) =>
      if b == MARK {
        TwoBytes(start, MARK, Lsb(STUFF), limit);
      } else {
        TwoBytes(start, b, b, limit);
      }
  }

  /** Decoding a stream byte by byte takes its symbols one by one. */
  lemma {:induction false} AfterSymbols(k: Collector, symbols: seq<Symbol>, limit: nat -> int)
    requires AllValid(symbols)
    ensures SyncRun(SyncState(false, k), Bytes(symbols), limit) == SyncState(false, Symbols(k, symbols, limit))
    decreases |symbols|
  {
    if symbols != [] {
      var s := symbols[0];
      AfterSymbol(k, s, limit);
      AfterSymbols(k.Symbol(s, limit), symbols[1..], limit);
      SyncConcat(SyncState(false, k), s.Bytes(), Bytes(symbols[1..]), limit);
    }
  }

  lemma {:induction false} SymbolsHaveNoMarkPair(symbols: seq<Symbol>)
    requires AllValid(symbols)
    ensures NoMarkPair(Bytes(symbols))
    ensures symbols != [] ==> Bytes(symbols) != [] && Bytes(symbols)[|Bytes(symbols)| - 1] != MARK
    decreases |symbols|
  {
    if symbols != [] {
      SymbolsHaveNoMarkPair(symbols[1..]);
      assert symbols[1..] == [] ==> Bytes(symbols[1..]) == [];
    }
  }

  /** Symbols leave nothing out: every stream without two marks in a row that does not end in a mark
      is the bytes of symbols. */
  lemma {:induction false} EveryStreamIsSymbols(stream: seq<Byte>) returns (symbols: seq<Symbol>)
    requires NoMarkPair(stream) && (stream != [] ==> stream[|stream| - 1] != MARK)
    ensures AllValid(symbols) && Bytes(symbols) == stream
    decreases |stream|
  {
    if stream == [] {
      return [];
    }
    var n := if stream[0] == MARK then 2 else 1;
    var rest := stream[n..];
    assert forall i :: 0 <= i < |rest| ==> rest[i] == stream[i + n];
    var later := EveryStreamIsSymbols(rest);
    var first := if n == 1 then Data(stream[0])
                 else if stream[1] == Lsb(BOM) then Begin
                 else if stream[1] == Lsb(EOM) then End
                 else if stream[1] == Lsb(STUFF) then Data(MARK)
                 else Other(stream[1]);
    symbols := [first] + later;
    assert stream == first.Bytes() + rest;
    assert symbols[1..] == later;
  }

  // ---------------------------------------------------------------- from symbols to messages

  predicate Inner(s: Symbol) {
    s.Data? || (s.Other? && s.Valid())
  }

  ghost predicate AllInner(symbols: seq<Symbol>) {
    forall i :: 0 <= i < |symbols| ==> Inner(symbols[i])
  }

  ghost predicate AllIdle(symbols: seq<Symbol>) {
    forall i :: 0 <= i < |symbols| ==> symbols[i].End? || Inner(symbols[i])
  }

  ghost predicate AllAttempts(attempts: seq<seq<Symbol>>) {
    forall i :: 0 <= i < |attempts| ==> AllInner(attempts[i])
  }

  /** A message on its way: attempts that were given up before their end mark, then the complete
      frame, then what follows it up to the next begin mark. Bytes, and commands for others, occur
      anywhere; in a gap also stray end marks. */
  datatype Transmission = Transmission(attempts: seq<seq<Symbol>>, body: seq<Symbol>, gap: seq<Symbol>) {
    ghost predicate Valid() {
      AllAttempts(attempts) && AllInner(body) && AllIdle(gap)
    }

    function Symbols(): seq<Symbol> {
      Attempts(attempts) + [Begin] + body + [End] + gap
    }
  }

  function Attempts(attempts: seq<seq<Symbol>>): seq<Symbol> {
    if attempts == [] then [] else [Begin] + attempts[0] + Attempts(attempts[1..])
  }

  function SymbolsOf(transmissions: seq<Transmission>): seq<Symbol> {
    if transmissions == [] then [] else transmissions[0].Symbols() + SymbolsOf(transmissions[1..])
  }

  /** The message bytes among symbols. */
  function DataIn(symbols: seq<Symbol>): seq<Byte> {
    if symbols == [] then []
    else DataIn(symbols[..|symbols| - 1]) +
         if symbols[|symbols| - 1].Data? then [symbols[|symbols| - 1].b] else []
  }

  /** A message in a buffer of `maxLen` bytes. */
  function Cut(msg: seq<Byte>, maxLen: int): seq<Byte> {
    if |msg| <= maxLen then msg else if maxLen < 0 then [] else msg[..maxLen]
  }

  /** The messages that ought to arrive when `n` have arrived before. */
  function Expected(transmissions: seq<Transmission>, limit: nat -> int, n: nat): seq<seq<Byte>> {
    if transmissions == [] then []
    else [Cut(DataIn(transmissions[0].body), limit(n))] + Expected(transmissions[1..], limit, n + 1)
  }

  /** Nothing delivered on the way from `k` to `after`. */
  ghost predicate Quiet(k: Collector, after: Collector) {
    after.count == k.count && MessagesOf(after.events) == MessagesOf(k.events)
  }

  lemma SymbolsSnoc(k: Collector, front: seq<Symbol>, s: Symbol, limit: nat -> int)
    ensures Symbols(k, front + [s], limit) == Symbols(k, front, limit).Symbol(s, limit)
  {
    SymbolsConcat(k, front, [s], limit);
    assert [s][1..] == [];
  }

  lemma QuietSymbol(k: Collector, s: Symbol, limit: nat -> int)
    requires !s.End? || k.body.None?
    ensures Quiet(k, k.Symbol(s, limit))
  {
    if s.Other? {
      LastEvent(k.events, Execute(Compose(MARK, s.lsb)));
    }
  }

  /** Outside a message everything but a begin mark is passed over. */
  lemma {:induction false} GapIsPassedOver(k: Collector, gap: seq<Symbol>, limit: nat -> int)
    requires k.body.None? && AllIdle(gap)
    ensures var after := Symbols(k, gap, limit); Quiet(k, after) && after.body.None?
    decreases |gap|
  {
    if gap != [] {
      QuietSymbol(k, gap[0], limit);
      GapIsPassedOver(k.Symbol(gap[0], limit), gap[1..], limit);
    }
  }

  /** After a begin mark the data is collected, up to the size of the buffer. */
  lemma {:induction false} BodyIsCollected(k: Collector, body: seq<Symbol>, limit: nat -> int)
    requires AllInner(body)
    ensures var after := Symbols(k.Start(), body, limit);
            Quiet(k, after) && after.body == Some(Cut(DataIn(body), limit(k.count)))
    decreases |body|
  {
    if body != [] {
      var front, s := body[..|body| - 1], body[|body| - 1];
      assert body == front + [s];
      BodyIsCollected(k, front, limit);
      SymbolsSnoc(k.Start(), front, s, limit);
      QuietSymbol(Symbols(k.Start(), front, limit), s, limit);
      if s.Data? {
        CutOneMore(DataIn(front), s.b, limit(k.count));
        assert DataIn(body) == DataIn(front) + [s.b];
      } else {
        assert DataIn(body) == DataIn(front);
      }
    }
  }

  lemma CutOneMore(data: seq<Byte>, b: Byte, maxLen: int)
    ensures Cut(data + [b], maxLen) == if |Cut(data, maxLen)| < maxLen then Cut(data, maxLen) + [b] else Cut(data, maxLen)
  {
    if maxLen >= 0 && maxLen <= |data| {
      assert (data + [b])[..maxLen] == data[..maxLen];
    }
  }

  /** What was collected before an interruption is forgotten at the next begin mark. */
  lemma {:induction false} AttemptsAreForgotten(k: Collector, attempts: seq<seq<Symbol>>, limit: nat -> int)
    requires AllAttempts(attempts)
    ensures Quiet(k, Symbols(k, Attempts(attempts), limit))
    decreases |attempts|
  {
    if attempts != [] {
      var later := Attempts(attempts[1..]);
      BodyIsCollected(k, attempts[0], limit);
      var after := Symbols(k.Start(), attempts[0], limit);
      BeginThen(k, attempts[0], limit);
      SymbolsConcat(k, [Begin] + attempts[0], later, limit);
      AttemptsAreForgotten(after, attempts[1..], limit);
    }
  }

  lemma BeginThen(k: Collector, symbols: seq<Symbol>, limit: nat -> int)
    ensures Symbols(k, [Begin] + symbols, limit) == Symbols(k.Start(), symbols, limit)
  {
    assert ([Begin] + symbols)[1..] == symbols;
  }

  ghost predicate AllTransmissions(transmissions: seq<Transmission>) {
    forall i :: 0 <= i < |transmissions| ==> transmissions[i].Valid()
  }

  lemma OneArrives(k: Collector, t: Transmission, limit: nat -> int)
    requires t.Valid()
    ensures var after := Symbols(k, t.Symbols(), limit);
            && after.body.None? && after.count == k.count + 1
            && MessagesOf(after.events) == MessagesOf(k.events) + [Cut(DataIn(t.body), limit(k.count))]
  {
    var k1 := Symbols(k, Attempts(t.attempts), limit);
    AttemptsAreForgotten(k, t.attempts, limit);
    var k2 := Symbols(k1.Start(), t.body, limit);
    BodyIsCollected(k1, t.body, limit);
    BeginThen(k1, t.body, limit);
    SymbolsConcat(k, Attempts(t.attempts), [Begin] + t.body, limit);
    assert Attempts(t.attempts) + ([Begin] + t.body) == Attempts(t.attempts) + [Begin] + t.body;
    SymbolsSnoc(k, Attempts(t.attempts) + [Begin] + t.body, End, limit);
    LastEvent(k2.events, Message(k2.body.value));
    SymbolsConcat(k, Attempts(t.attempts) + [Begin] + t.body + [End], t.gap, limit);
    GapIsPassedOver(k2.Finish(), t.gap, limit);
  }

  /** Whatever lies between and within the frames, and however many attempts it took: exactly the
      completed messages arrive, in order, each cut to its buffer. */
  lemma {:induction false} AllArrive(k: Collector, transmissions: seq<Transmission>, limit: nat -> int)
    requires AllTransmissions(transmissions)
    requires k.body.None?
    ensures var after := Symbols(k, SymbolsOf(transmissions), limit);
            && after.body.None? && after.count == k.count + |transmissions|
            && MessagesOf(after.events) == MessagesOf(k.events) + Expected(transmissions, limit, k.count)
    decreases |transmissions|
  {
    if transmissions != [] {
      var t, later := transmissions[0], transmissions[1..];
      assert AllTransmissions(later) && t.Valid();
      OneArrives(k, t, limit);
      var k1 := Symbols(k, t.Symbols(), limit);
      AllArrive(k1, later, limit);
      assert Symbols(k, SymbolsOf(transmissions), limit) == Symbols(k1, SymbolsOf(later), limit) by {
        SymbolsConcat(k, t.Symbols(), SymbolsOf(later), limit);
      }
      var first := [Cut(DataIn(t.body), limit(k.count))];
      assert MessagesOf(k.events) + first + Expected(later, limit, k1.count) ==
             MessagesOf(k.events) + (first + Expected(later, limit, k1.count));
    }
  }

  // ---------------------------------------------------------------- whole streams

  /** What stands before the first begin mark, the transmissions, and what has not ended yet. */
  datatype Stream = Stream(opening: seq<Symbol>, transmissions: seq<Transmission>, unfinished: seq<seq<Symbol>>) {
    ghost predicate Valid() {
      AllIdle(opening) && AllTransmissions(transmissions) && AllAttempts(unfinished)
    }

    function Symbols(): seq<Symbol> {
      opening + SymbolsOf(transmissions) + Attempts(unfinished)
    }
  }

  lemma {:induction false} AttemptsAreValid(attempts: seq<seq<Symbol>>)
    requires AllAttempts(attempts)
    ensures AllValid(Attempts(attempts))
    decreases |attempts|
  {
    if attempts != [] {
      AttemptsAreValid(attempts[1..]);
    }
  }

  lemma {:induction false} TransmissionsAreValid(transmissions: seq<Transmission>)
    requires AllTransmissions(transmissions)
    ensures AllValid(SymbolsOf(transmissions))
    decreases |transmissions|
  {
    if transmissions != [] {
      AttemptsAreValid(transmissions[0].attempts);
      TransmissionsAreValid(transmissions[1..]);
    }
  }

  /** Either receiver delivers exactly the messages completed in the stream. */
  lemma StreamDelivers(stream: Stream, limit: nat -> int)
    requires stream.Valid()
    ensures var bytes, expected := Bytes(stream.Symbols()), Expected(stream.transmissions, limit, 0);
            && MessagesOf(SyncRun(SyncState(false, FRESH), bytes, limit).k.events) == expected
            && MessagesOf(AsyncRun(AsyncState(0, FRESH), bytes, limit).k.events) == expected
  {
    var symbols, body := stream.Symbols(), SymbolsOf(stream.transmissions);
    AttemptsAreValid(stream.unfinished);
    TransmissionsAreValid(stream.transmissions);
    AfterSymbols(FRESH, symbols, limit);
    SymbolsHaveNoMarkPair(symbols);
    DecodersAgree(Bytes(symbols), limit);
    SymbolsConcat(FRESH, stream.opening + body, Attempts(stream.unfinished), limit);
    SymbolsConcat(FRESH, stream.opening, body, limit);
    GapIsPassedOver(FRESH, stream.opening, limit);
    var k := Symbols(FRESH, stream.opening, limit);
    AllArrive(k, stream.transmissions, limit);
    AttemptsAreForgotten(Symbols(k, body, limit), stream.unfinished, limit);
  }

  // ---------------------------------------------------------------- commands

  /** The commands for others in a stream. */
  function CommandsIn(symbols: seq<Symbol>): seq<DualByte> {
    if symbols == [] then [] else CommandsIn(symbols[..|symbols| - 1]) + CommandOf(symbols[|symbols| - 1])
  }

  function CommandOf(s: Symbol): seq<DualByte> {
    if s.Other? then [Compose(MARK, s.lsb)] else []
  }

  function Collected(k: Collector): seq<Byte> {
    if k.body.Some? then k.body.value else []
  }

  lemma {:induction false} SymbolsExecute(k: Collector, symbols: seq<Symbol>, limit: nat -> int)
    ensures CommandsOf(Symbols(k, symbols, limit).events) == CommandsOf(k.events) + CommandsIn(symbols)
    decreases |symbols|
  {
    if symbols != [] {
      var front, s := symbols[..|symbols| - 1], symbols[|symbols| - 1];
      assert symbols == front + [s];
      SymbolsExecute(k, front, limit);
      SymbolsSnoc(k, front, s, limit);
      var before := Symbols(k, front, limit);
      LastEvent(before.events, if s.Other? then Execute(Compose(MARK, s.lsb)) else Message(Collected(before)));
    }
  }

  function AfterBytes(o: OfferState, x: seq<Byte>, first: bool, second: bool, limit: nat -> int): OfferState
    requires 1 <= |x| <= 2
  {
    var n := o.Byte(x[0], first, limit);
    if |x| == 1 then n else n.Byte(x[1], second, limit)
  }

  lemma OfferSplit(o: OfferState, x: seq<Byte>, y: seq<Byte>, offers: seq<bool>, limit: nat -> int)
    requires |offers| == |x| + |y| && 1 <= |y| <= 2
    ensures OfferRun(o, x + y, offers, limit) ==
            AfterBytes(OfferRun(o, x, offers[..|x|], limit), y, offers[|x|], offers[|x + y| - 1], limit)
  {
    OneOfferMore(o, x + y, offers, |x|, limit);
    assert (x + y)[..|x|] == x;
    if |y| == 2 {
      OneOfferMore(o, x + y, offers, |x| + 1, limit);
    }
    assert (x + y)[..|x + y|] == x + y && offers[..|x + y|] == offers;
  }

  lemma BytesSnoc(front: seq<Symbol>, s: Symbol)
    ensures Bytes(front + [s]) == Bytes(front) + s.Bytes()
  {
    BytesConcat(front, [s]);
    assert [s][1..] == [] && s.Bytes() + [] == s.Bytes();
  }

  // ---------------------------------------------------------------- buffers offered now and then

  /** The buffer and the collector belong together. */
  predicate Tidy(o: OfferState) {
    o.a.dual == 0 && (!o.has ==> o.a.k.body.None?)
  }

  /** What one symbol does: a begin mark without a buffer nothing, any other the same as ever. */
  function OfferedSymbol(k: Collector, s: Symbol, buffer: bool, limit: nat -> int): Collector {
    if s.Begin? && !buffer then k else k.Symbol(s, limit)
  }

  lemma SecondByteOffered(o: OfferState, s: Symbol, offered: bool, limit: nat -> int)
    requires o.a.dual == Compose(0, MARK) && (!o.has ==> o.a.k.body.None?) && s.Valid() && |s.Bytes()| == 2
    ensures var n := o.Byte(s.Bytes()[1], offered, limit);
            Tidy(n) && n.a.k == OfferedSymbol(o.a.k, s, o.has || offered, limit)
  {
    assert Lsb(Compose(0, MARK)) == MARK;
  }

  lemma SymbolOffered(o: OfferState, s: Symbol, first: bool, second: bool, limit: nat -> int)
    requires Tidy(o) && s.Valid()
    ensures var n := AfterBytes(o, s.Bytes(), first, second, limit);
            Tidy(n) && n.a.k == OfferedSymbol(o.a.k, s, o.has || first || second, limit)
  {
    if |s.Bytes()| == 2 {
      var m := o.Byte(MARK, first, limit);
      assert m.a == AsyncState(Compose(0, MARK), o.a.k) && m.has == (o.has || first);
      SecondByteOffered(m, s, second, limit);
    }
  }

  /** The symbols but for the begin marks by whose second byte the application has not had a buffer. */
  function Kept(o: OfferState, symbols: seq<Symbol>, offers: seq<bool>, limit: nat -> int): seq<Symbol>
    requires |offers| == |Bytes(symbols)|
    decreases |symbols|
  {
    if symbols == [] then []
    else
      var front, s := symbols[..|symbols| - 1], symbols[|symbols| - 1];
      BytesLast(symbols);
      var n := |Bytes(front)|;
      var before := OfferRun(o, Bytes(front), offers[..n], limit);
      Kept(o, front, offers[..n], limit) +
      if s.Begin? && !(before.has || offers[n] || offers[|offers| - 1]) then [] else [s]
  }

  lemma BytesLast(symbols: seq<Symbol>)
    requires symbols != []
    ensures Bytes(symbols) == Bytes(symbols[..|symbols| - 1]) + symbols[|symbols| - 1].Bytes()
    ensures |Bytes(symbols)| > |Bytes(symbols[..|symbols| - 1])|
  {
    assert symbols == symbols[..|symbols| - 1] + [symbols[|symbols| - 1]];
    BytesSnoc(symbols[..|symbols| - 1], symbols[|symbols| - 1]);
  }

  lemma SymbolArrives(o: OfferState, x: seq<Byte>, s: Symbol, offers: seq<bool>, limit: nat -> int)
    requires s.Valid() && |offers| == |x| + |s.Bytes()| && Tidy(OfferRun(o, x, offers[..|x|], limit))
    ensures var before, n := OfferRun(o, x, offers[..|x|], limit), OfferRun(o, x + s.Bytes(), offers, limit);
            Tidy(n) && n.a.k == OfferedSymbol(before.a.k, s, before.has || offers[|x|] || offers[|offers| - 1], limit)
  {
    OfferSplit(o, x, s.Bytes(), offers, limit);
    SymbolOffered(OfferRun(o, x, offers[..|x|], limit), s, offers[|x|], offers[|offers| - 1], limit);
  }

  /** One symbol more, kept or not. */
  lemma KeptOrNot(k: Collector, kept: seq<Symbol>, s: Symbol, buffer: bool, limit: nat -> int)
    ensures OfferedSymbol(Symbols(k, kept, limit), s, buffer, limit) ==
            Symbols(k, kept + if s.Begin? && !buffer then [] else [s], limit)
  {
    SymbolsSnoc(k, kept, s, limit);
    assert kept + [] == kept;
  }

  lemma KeptLast(o: OfferState, front: seq<Symbol>, s: Symbol, offers: seq<bool>, limit: nat -> int)
    requires |offers| == |Bytes(front + [s])| == |Bytes(front)| + |s.Bytes()|
    ensures var n := |Bytes(front)|;
            var before := OfferRun(o, Bytes(front), offers[..n], limit);
            Kept(o, front + [s], offers, limit) ==
              Kept(o, front, offers[..n], limit) +
              if s.Begin? && !(before.has || offers[n] || offers[|offers| - 1]) then [] else [s]
  {
    assert (front + [s])[..|front|] == front;
  }

  /** Whatever buffers the application has and when: the receiver does what it would do with a buffer at
      any time on the stream without those begin marks, so a message arrives, as `AllArrive` says, exactly
      if there is a buffer by the time its begin mark is complete. */
  lemma {:induction false} OffersDecide(o: OfferState, symbols: seq<Symbol>, offers: seq<bool>, limit: nat -> int)
    requires Tidy(o) && AllValid(symbols) && |offers| == |Bytes(symbols)|
    ensures Tidy(OfferRun(o, Bytes(symbols), offers, limit))
    ensures OfferRun(o, Bytes(symbols), offers, limit).a.k == Symbols(o.a.k, Kept(o, symbols, offers, limit), limit)
    decreases |symbols|
  {
    if symbols != [] {
      var front, s := symbols[..|symbols| - 1], symbols[|symbols| - 1];
      BytesLast(symbols);
      assert symbols == front + [s];
      OffersDecide(o, front, offers[..|Bytes(front)|], limit);
      OffersDecideLast(o, front, s, offers, limit);
    }
  }

  lemma OffersDecideLast(o: OfferState, front: seq<Symbol>, s: Symbol, offers: seq<bool>, limit: nat -> int)
    requires s.Valid() && |offers| == |Bytes(front + [s])| && Bytes(front + [s]) == Bytes(front) + s.Bytes()
    requires var early := offers[..|Bytes(front)|]; var before := OfferRun(o, Bytes(front), early, limit);
             Tidy(before) && before.a.k == Symbols(o.a.k, Kept(o, front, early, limit), limit)
    ensures Tidy(OfferRun(o, Bytes(front + [s]), offers, limit))
    ensures OfferRun(o, Bytes(front + [s]), offers, limit).a.k == Symbols(o.a.k, Kept(o, front + [s], offers, limit), limit)
  {
    var n := |Bytes(front)|;
    var kept, before := Kept(o, front, offers[..n], limit), OfferRun(o, Bytes(front), offers[..n], limit);
    SymbolArrives(o, Bytes(front), s, offers, limit);
    KeptLast(o, front, s, offers, limit);
    KeptOrNot(o.a.k, kept, s, before.has || offers[n] || offers[|offers| - 1], limit);
  }

  lemma {:induction false} KeptCommands(o: OfferState, symbols: seq<Symbol>, offers: seq<bool>, limit: nat -> int)
    requires |offers| == |Bytes(symbols)|
    ensures CommandsIn(Kept(o, symbols, offers, limit)) == CommandsIn(symbols)
    decreases |symbols|
  {
    if symbols != [] {
      var front, s := symbols[..|symbols| - 1], symbols[|symbols| - 1];
      BytesLast(symbols);
      assert symbols == front + [s];
      KeptCommands(o, front, offers[..|Bytes(front)|], limit);
      KeptLast(o, front, s, offers, limit);
      CommandsSnoc(Kept(o, front, offers[..|Bytes(front)|], limit), s);
    }
  }

  lemma CommandsSnoc(front: seq<Symbol>, s: Symbol)
    ensures CommandsIn(front + [s]) == CommandsIn(front) + CommandOf(s)
    ensures front + [] == front
  {
    assert (front + [s])[..|front|] == front;
  }

  lemma {:induction false} NeverHas(o: OfferState, bytes: seq<Byte>, offers: seq<bool>, limit: nat -> int)
    requires |offers| == |bytes| && !o.has && true !in offers
    ensures !OfferRun(o, bytes, offers, limit).has
    decreases |bytes|
  {
    if bytes != [] {
      NeverHas(o, bytes[..|bytes| - 1], offers[..|bytes| - 1], limit);
    }
  }

  lemma {:induction false} KeptWithoutBuffer(o: OfferState, symbols: seq<Symbol>, offers: seq<bool>, limit: nat -> int)
    requires AllValid(symbols) && |offers| == |Bytes(symbols)| && !o.has && true !in offers
    ensures AllIdle(Kept(o, symbols, offers, limit))
    decreases |symbols|
  {
    if symbols != [] {
      var front, s := symbols[..|symbols| - 1], symbols[|symbols| - 1];
      BytesLast(symbols);
      assert symbols == front + [s];
      var early := offers[..|Bytes(front)|];
      KeptWithoutBuffer(o, front, early, limit);
      NeverHas(o, Bytes(front), early, limit);
      KeptLast(o, front, s, offers, limit);
    }
  }

  /** Either receiver executes exactly the commands for others in the stream, in order; the pushed one
      also if the application has no buffer, always or now and then; if it never has one, no message is
      taken. */
  lemma CommandsAreExecuted(symbols: seq<Symbol>, offers: seq<bool>, limit: nat -> int)
    requires AllValid(symbols) && |offers| == |Bytes(symbols)|
    ensures var bytes, n := Bytes(symbols), OfferRun(OfferState(AsyncState(0, FRESH), false), Bytes(symbols), offers, limit);
            && CommandsOf(SyncRun(SyncState(false, FRESH), bytes, limit).k.events) == CommandsIn(symbols)
            && CommandsOf(n.a.k.events) == CommandsIn(symbols)
            && (true !in offers ==> MessagesOf(n.a.k.events) == [])
  {
    AfterSymbols(FRESH, symbols, limit);
    SymbolsExecute(FRESH, symbols, limit);
    var o := OfferState(AsyncState(0, FRESH), false);
    var kept := Kept(o, symbols, offers, limit);
    OffersDecide(o, symbols, offers, limit);
    SymbolsExecute(FRESH, kept, limit);
    KeptCommands(o, symbols, offers, limit);
    if true !in offers {
      KeptWithoutBuffer(o, symbols, offers, limit);
      GapIsPassedOver(FRESH, kept, limit);
    }
  }

  lemma {:induction false} OneTransmissionMore(transmissions: seq<Transmission>, t: Transmission)
    ensures SymbolsOf(transmissions + [t]) == SymbolsOf(transmissions) + t.Symbols()
    decreases |transmissions|
  {
    if transmissions == [] {
      assert [t][1..] == [] && transmissions + [t] == [t];
    } else {
      assert (transmissions + [t])[1..] == transmissions[1..] + [t];
      OneTransmissionMore(transmissions[1..], t);
    }
  }

  lemma {:induction false} OneAttemptMore(attempts: seq<seq<Symbol>>, a: seq<Symbol>)
    ensures Attempts(attempts + [a]) == Attempts(attempts) + [Begin] + a
    decreases |attempts|
  {
    if attempts == [] {
      assert [a][1..] == [] && attempts + [a] == [a];
    } else {
      assert (attempts + [a])[1..] == attempts[1..] + [a];
      OneAttemptMore(attempts[1..], a);
    }
  }

  /** The structure with one symbol more at its end. */
  function Extended(stream: Stream, s: Symbol): Stream {
    var Stream(opening, transmissions, unfinished) := stream;
    if s.Begin? then Stream(opening, transmissions, unfinished + [[]])
    else if unfinished == [] then
      if transmissions == [] then Stream(opening + [s], [], [])
      else
        var last := transmissions[|transmissions| - 1];
        Stream(opening, transmissions[..|transmissions| - 1] + [last.(gap := last.gap + [s])], [])
    else
      var front, last := unfinished[..|unfinished| - 1], unfinished[|unfinished| - 1];
      if s.End? then Stream(opening, transmissions + [Transmission(front, last, [])], [])
      else Stream(opening, transmissions, front + [last + [s]])
  }

  lemma GapOneMore(front: seq<Transmission>, t: Transmission, s: Symbol)
    ensures SymbolsOf(front + [t.(gap := t.gap + [s])]) == SymbolsOf(front + [t]) + [s]
  {
    OneTransmissionMore(front, t);
    OneTransmissionMore(front, t.(gap := t.gap + [s]));
    assert t.(gap := t.gap + [s]).Symbols() == t.Symbols() + [s];
    assert SymbolsOf(front) + (t.Symbols() + [s]) == SymbolsOf(front) + t.Symbols() + [s];
  }

  lemma BodyOneMore(front: seq<seq<Symbol>>, a: seq<Symbol>, s: Symbol)
    ensures Attempts(front + [a + [s]]) == Attempts(front + [a]) + [s]
  {
    OneAttemptMore(front, a);
    OneAttemptMore(front, a + [s]);
    assert Attempts(front) + [Begin] + (a + [s]) == Attempts(front) + [Begin] + a + [s];
  }

  lemma EndsTransmission(transmissions: seq<Transmission>, front: seq<seq<Symbol>>, a: seq<Symbol>)
    ensures SymbolsOf(transmissions + [Transmission(front, a, [])]) ==
            SymbolsOf(transmissions) + Attempts(front + [a]) + [End]
  {
    var t := Transmission(front, a, []);
    OneTransmissionMore(transmissions, t);
    OneAttemptMore(front, a);
    assert t.Symbols() == Attempts(front + [a]) + [End];
    assert SymbolsOf(transmissions) + (Attempts(front + [a]) + [End]) ==
           SymbolsOf(transmissions) + Attempts(front + [a]) + [End];
  }

  lemma ExtendedIsValid(stream: Stream, s: Symbol)
    requires stream.Valid() && s.Valid()
    ensures Extended(stream, s).Valid()
  {
  }

  lemma Append(a: seq<Symbol>, b: seq<Symbol>, c: seq<Symbol>, s: Symbol)
    ensures a + b + (c + [s]) == a + b + c + [s]
    ensures a + (b + c + [s]) + [] == a + b + c + [s]
  {
  }

  lemma ExtendedIsOneMore(stream: Stream, s: Symbol)
    requires stream.Valid() && s.Valid()
    ensures Extended(stream, s).Symbols() == stream.Symbols() + [s]
  {
    var Stream(opening, transmissions, unfinished) := stream;
    Append(opening, SymbolsOf(transmissions), Attempts(unfinished), s);
    if s.Begin? {
      OneAttemptMore(unfinished, []);
      assert Attempts(unfinished + [[]]) == Attempts(unfinished) + [Begin];
    } else if unfinished == [] {
      if transmissions == [] {
        assert opening + [s] + [] + [] == opening + [] + [] + [s];
      } else {
        var front, last := transmissions[..|transmissions| - 1], transmissions[|transmissions| - 1];
        assert transmissions == front + [last];
        GapOneMore(front, last, s);
        assert SymbolsOf(transmissions) + [] == SymbolsOf(transmissions);
      }
    } else {
      var front, last := unfinished[..|unfinished| - 1], unfinished[|unfinished| - 1];
      assert unfinished == front + [last];
      if s.End? {
        EndsTransmission(transmissions, front, last);
      } else {
        BodyOneMore(front, last, s);
      }
    }
  }

  lemma {:induction false} SymbolsAreAStream(symbols: seq<Symbol>) returns (stream: Stream)
    requires AllValid(symbols)
    ensures stream.Valid() && stream.Symbols() == symbols
    decreases |symbols|
  {
    if symbols == [] {
      stream := Stream([], [], []);
    } else {
      var front, s := symbols[..|symbols| - 1], symbols[|symbols| - 1];
      var before := SymbolsAreAStream(front);
      ExtendedIsValid(before, s);
      ExtendedIsOneMore(before, s);
      stream := Extended(before, s);
      assert symbols == front + [s];
    }
  }

  /** The theorem above speaks of every stream without two marks in a row that does not stop between
      the two bytes of a command. */
  lemma EveryStreamHasThisForm(bytes: seq<Byte>) returns (stream: Stream)
    requires NoMarkPair(bytes) && (bytes != [] ==> bytes[|bytes| - 1] != MARK)
    ensures stream.Valid() && Bytes(stream.Symbols()) == bytes
  {
    var symbols := EveryStreamIsSymbols(bytes);
    stream := SymbolsAreAStream(symbols);
  }

  // ---------------------------------------------------------------- senders and receivers together

  function Plain(messages: seq<seq<Byte>>): seq<Transmission> {
    seq(|messages|, i requires 0 <= i < |messages| => Transmission([], DataOf(messages[i]), []))
  }

  lemma {:induction false} DataOfIsData(msg: seq<Byte>)
    ensures DataIn(DataOf(msg)) == msg && AllInner(DataOf(msg))
    decreases |msg|
  {
    if msg != [] {
      var front := msg[..|msg| - 1];
      DataOfIsData(front);
      assert DataOf(msg)[..|msg| - 1] == DataOf(front);
    }
  }

  lemma {:induction false} FramesArePlain(messages: seq<seq<Byte>>)
    ensures SymbolsOf(Plain(messages)) == Frames(messages) && AllTransmissions(Plain(messages))
    decreases |messages|
  {
    if messages != [] {
      FramesArePlain(messages[1..]);
      assert Plain(messages)[1..] == Plain(messages[1..]);
      assert Plain(messages)[0].Symbols() == Frame(messages[0]);
      forall i | 0 <= i < |messages| ensures Plain(messages)[i].Valid() {
        DataOfIsData(messages[i]);
      }
    }
  }

  lemma {:induction false} PlainArrives(messages: seq<seq<Byte>>, limit: nat -> int, n: nat)
    ensures |Expected(Plain(messages), limit, n)| == |messages|
    ensures forall i :: 0 <= i < |messages| ==> Expected(Plain(messages), limit, n)[i] == Cut(messages[i], limit(n + i))
    decreases |messages|
  {
    if messages != [] {
      assert Plain(messages)[1..] == Plain(messages[1..]);
      PlainArrives(messages[1..], limit, n + 1);
      DataOfIsData(messages[0]);
      var later := Expected(Plain(messages[1..]), limit, n + 1);
      forall i | 0 <= i < |messages|
        ensures Expected(Plain(messages), limit, n)[i] == Cut(messages[i], limit(n + i))
      {
        if i > 0 {
          assert Expected(Plain(messages), limit, n)[i] == later[i - 1];
          assert messages[i] == messages[1..][i - 1];
        }
      }
    }
  }

  /** Messages sent by either sender and taken by either receiver arrive, each cut to its buffer. */
  method SendAndReceive(messages: seq<seq<Byte>>, limit: nat -> int)
    returns (got: seq<seq<Byte>>, put: seq<seq<Byte>>)
    ensures got == put && |got| == |messages|
    ensures forall i :: 0 <= i < |messages| ==> got[i] == Cut(messages[i], limit(i))
  {
    var pulled, pushed := S3pSenders.SendBothWays(messages);
    FramesArePlain(messages);
    PlainArrives(messages, limit, 0);
    var stream := Stream([], Plain(messages), []);
    assert stream.Symbols() == Frames(messages);
    StreamDelivers(stream, limit);
    var executed: seq<DualByte>;
    got, executed := GetAll(pulled, limit);
    put, executed := PutAll(pushed, limit);
  }
}
