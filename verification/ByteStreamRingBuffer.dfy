/** A ring of 32-bit words holding variable-length messages, each stored as a header
    word (its length in bytes) followed by its payload words.  Writing never waits:
    whole messages are dropped from the front, one at a time, in the middle of a write.

    The class below is the program; `Step` and `Run` are the queue it refines. */
module ByteStreamRingBuffer {
  import opened Common
  import opened Rings

  // ---------------------------------------------------------------- messages

  /** `len` is the length in bytes, `words` the payload rounded up to 32-bit words. */
  datatype Message = Message(len: nat, words: seq<int>) {
    predicate WellFormed() {
      |words| == WordsInObject(len)
    }

    /** The words the message occupies in the ring. */
    function Encoded(): seq<int> {
      [len] + words
    }
  }

  function WordsInObject(bytes: nat): nat {
    (bytes + 3) / 4
  }

  /** All messages laid out one after the other. */
  function Flatten(ms: seq<Message>): seq<int> {
    if ms == [] then [] else ms[0].Encoded() + Flatten(ms[1..])
  }

  /** What a ring may hold: messages of at least one byte. */
  ghost predicate AllStorable(ms: seq<Message>) {
    forall i :: 0 <= i < |ms| ==> ms[i].WellFormed() && 0 < ms[i].len
  }

  // ---------------------------------------------------------------- the abstract queue

  /** Oldest messages go, one by one, until `need` more words fit beside the rest in a
      ring of `w` words (of which one always stays free). */
  function Drop(ms: seq<Message>, need: nat, w: nat): seq<Message> {
    if ms == [] || |Flatten(ms)| + need <= w - 1 then ms else Drop(ms[1..], need, w)
  }

  /** What the queue holds once `m` has been written. */
  function Written(ms: seq<Message>, m: Message, w: nat): seq<Message> {
    if |m.words| == w - 1 then [] else Drop(ms, |m.Encoded()|, w) + [m]
  }

  datatype Operation = Write(m: Message) | Read(maxLen: int) | Reset

  datatype Outcome = Accepted | Rejected | Nothing | TooLong | Delivered(m: Message) | Done

  function Step(w: nat, ms: seq<Message>, op: Operation): (seq<Message>, Outcome) {
    match op
    case Write(m) =>
      if |m.words| >= w then (ms, Rejected)
      else if m.len == 0 then (ms, Accepted)
      else (Written(ms, m, w), Accepted)
    case Read(maxLen) =>
      if ms == [] then (ms, Nothing)
      else if ms[0].len > maxLen then (ms[1..], TooLong)
      else (ms[1..], Delivered(ms[0]))
    case Reset => ([], Done)
  }

  function Run(w: nat, ms: seq<Message>, ops: seq<Operation>): (seq<Message>, seq<Outcome>)
    decreases |ops|
  {
    if ops == [] then (ms, [])
    else
      var (ms1, out) := Step(w, ms, ops[0]);
      var (ms2, outs) := Run(w, ms1, ops[1..]);
      (ms2, [out] + outs)
  }

  // ---------------------------------------------------------------- facts about Drop

  lemma {:induction false} FlattenAppend(ms: seq<Message>, m: Message)
    ensures Flatten(ms + [m]) == Flatten(ms) + m.Encoded()
    decreases |ms|
  {
    if ms == [] {
      assert ms + [m] == [m] && [m][1..] == [];
    } else {
      FlattenAppend(ms[1..], m);
      FlattenFront(ms[0], ms[1..] + [m]);
      assert ms + [m] == [ms[0]] + (ms[1..] + [m]);
      assert ms[0].Encoded() + (Flatten(ms[1..]) + m.Encoded()) == ms[0].Encoded() + Flatten(ms[1..]) + m.Encoded();
    }
  }

  lemma FlattenFront(m: Message, ms: seq<Message>)
    ensures Flatten([m] + ms) == m.Encoded() + Flatten(ms)
  {
    assert ([m] + ms)[1..] == ms;
  }

  /** The dropped messages are exactly the shortest prefix whose removal makes room. */
  lemma {:induction false} DropIsMinimal(ms: seq<Message>, need: nat, w: nat) returns (k: nat)
    requires need <= w - 1
    ensures k <= |ms| && Drop(ms, need, w) == ms[k..]
    ensures |Flatten(ms[k..])| + need <= w - 1
    ensures forall j :: 0 <= j < k ==> |Flatten(ms[j..])| + need > w - 1
  {
    if ms == [] || |Flatten(ms)| + need <= w - 1 {
      k := 0;
      assert ms[0..] == ms;
    } else {
      var n := DropIsMinimal(ms[1..], need, w);
      k := n + 1;
      assert ms[1..][n..] == ms[k..];
      forall j | 0 <= j < k ensures |Flatten(ms[j..])| + need > w - 1 {
        if j == 0 {
          assert ms[0..] == ms;
        } else {
          assert ms[j..] == ms[1..][j - 1..];
        }
      }
    }
  }

  /** A ring with room for `need` words that is asked for one more drops at most one message. */
  lemma DropOneMore(ms: seq<Message>, need: nat, w: nat)
    requires AllStorable(ms) && need + 1 <= w - 1
    ensures var rest := Drop(ms, need, w);
            |Flatten(rest)| + need <= w - 1
            && Drop(ms, need + 1, w) == if |Flatten(rest)| + need == w - 1 && rest != [] then rest[1..] else rest
  {
    var rest := Drop(ms, need, w);
    if ms == [] {
    } else if |Flatten(ms)| + need <= w - 1 {
      if |Flatten(ms)| + need == w - 1 {
        assert ms[0].WellFormed();
        assert |Flatten(ms[1..])| + need + 1 <= w - 1;
      }
    } else {
      DropOneMore(ms[1..], need, w);
    }
  }

  lemma DropSuffix(ms: seq<Message>, need: nat, w: nat) returns (k: nat)
    ensures k <= |ms| && Drop(ms, need, w) == ms[k..]
  {
    if ms == [] || |Flatten(ms)| + need <= w - 1 {
      k := 0;
    } else {
      var n := DropSuffix(ms[1..], need, w);
      k := n + 1;
    }
  }

  lemma DropAll(ms: seq<Message>, need: nat, w: nat)
    requires AllStorable(ms) && need == w - 1
    ensures Drop(ms, need, w) == []
  {
    if ms != [] {
      DropAll(ms[1..], need, w);
    }
  }

  // ---------------------------------------------------------------- runs of the abstract queue

  predicate Stores(w: nat, op: Operation) {
    op.Write? && 0 < op.m.len && |op.m.words| < w
  }

  /** The messages a run accepts and does not ignore, in order. */
  function AcceptedBy(w: nat, ops: seq<Operation>): seq<Message> {
    if ops == [] then []
    else (if Stores(w, ops[0]) then [ops[0].m] else []) + AcceptedBy(w, ops[1..])
  }

  function DeliveredIn(outs: seq<Outcome>): seq<Message> {
    if outs == [] then []
    else (if outs[0].Delivered? then [outs[0].m] else []) + DeliveredIn(outs[1..])
  }

  /** `s` is `t` with some elements left out. */
  ghost predicate Subsequence(s: seq<Message>, t: seq<Message>) {
    s == [] ||
    (t != [] && ((s[0] == t[0] && Subsequence(s[1..], t[1..])) || Subsequence(s, t[1..])))
  }

  lemma SubsequenceBehind(s: seq<Message>, front: seq<Message>, t: seq<Message>)
    requires Subsequence(s, t)
    ensures Subsequence(s, front + t)
  {
    if front == [] {
      assert front + t == t;
    } else {
      SubsequenceBehind(s, front[1..], t);
      assert (front + t)[1..] == front[1..] + t;
    }
  }

  lemma StepConsumes(w: nat, ms: seq<Message>, op: Operation) returns (c: nat)
    requires AllStorable(ms)
    requires op.Write? ==> op.m.WellFormed()
    ensures var history := ms + (if Stores(w, op) then [op.m] else []);
            var (ms1, out) := Step(w, ms, op);
            && c <= |history| && ms1 == history[c..] && AllStorable(ms1)
            && (out.Delivered? ==> 0 < c && out.m == history[0])
  {
    match op {
      case Write(m) =>
        c := 0;
        if 0 < m.len && |m.words| < w {
          if |m.words| == w - 1 {
            c := |ms| + 1;
          } else {
            c := DropSuffix(ms, |m.Encoded()|, w);
            assert (ms + [m])[c..] == ms[c..] + [m];
          }
        }
      case Read(maxLen) =>
        c := if ms == [] then 0 else 1;
      case Reset =>
        c := |ms|;
    }
  }

  lemma DeliveredAfterStep(out: Outcome, later: seq<Message>, taken: seq<Message>, rest: seq<Message>)
    requires Subsequence(later, rest)
    requires out.Delivered? ==> taken != [] && out.m == taken[0]
    ensures Subsequence((if out.Delivered? then [out.m] else []) + later, taken + rest)
  {
    if out.Delivered? {
      SubsequenceBehind(later, taken[1..], rest);
      assert ([out.m] + later)[1..] == later;
      assert (taken + rest)[1..] == taken[1..] + rest;
    } else {
      SubsequenceBehind(later, taken, rest);
      assert [] + later == later;
    }
  }

  lemma DeliveredFront(out: Outcome, outs: seq<Outcome>)
    ensures DeliveredIn([out] + outs) == (if out.Delivered? then [out.m] else []) + DeliveredIn(outs)
  {
    assert ([out] + outs)[1..] == outs;
  }

  lemma Pieces(ms: seq<Message>, first: seq<Message>, later: seq<Message>, c: nat, k: nat)
    requires c <= |ms + first| && k <= |(ms + first)[c..] + later|
    ensures var history, rest := ms + (first + later), (ms + first)[c..] + later;
            history[c + k..] == rest[k..] && history[..c + k] == (ms + first)[..c] + rest[..k]
  {
    assert ms + (first + later) == (ms + first)[..c] + ((ms + first)[c..] + later);
  }

  /** What is left in the queue is a suffix of the messages accepted so far, and what was delivered
      was taken from in front of that suffix, in order, whole, and never twice. */
  ghost predicate IsFifo(history: seq<Message>, consumed: nat, rest: seq<Message>, delivered: seq<Message>) {
    consumed <= |history| && rest == history[consumed..] && Subsequence(delivered, history[..consumed])
  }

  lemma FifoStep(ms: seq<Message>, first: seq<Message>, later: seq<Message>, c: nat, out: Outcome,
                 k: nat, rest: seq<Message>, delivered: seq<Message>)
    requires c <= |ms + first| && (out.Delivered? ==> 0 < c && out.m == (ms + first)[0])
    requires IsFifo((ms + first)[c..] + later, k, rest, delivered)
    ensures IsFifo(ms + (first + later), c + k, rest, (if out.Delivered? then [out.m] else []) + delivered)
  {
    Pieces(ms, first, later, c, k);
    DeliveredAfterStep(out, delivered, (ms + first)[..c], ((ms + first)[c..] + later)[..k]);
  }

  /** Every run of the queue is first in, first out. */
  lemma {:induction false} RunIsFifo(w: nat, ms: seq<Message>, ops: seq<Operation>)
    returns (consumed: nat)
    requires AllStorable(ms)
    requires forall op <- ops :: op.Write? ==> op.m.WellFormed()
    ensures IsFifo(ms + AcceptedBy(w, ops), consumed, Run(w, ms, ops).0, DeliveredIn(Run(w, ms, ops).1))
    decreases |ops|
  {
    if ops == [] {
      consumed := 0;
      assert ms + AcceptedBy(w, ops) == ms;
    } else {
      var (ms1, out) := Step(w, ms, ops[0]);
      var c := StepConsumes(w, ms, ops[0]);
      var first, later := if Stores(w, ops[0]) then [ops[0].m] else [], AcceptedBy(w, ops[1..]);
      var k := RunIsFifo(w, ms1, ops[1..]);
      consumed := c + k;
      var (rest, outs) := Run(w, ms1, ops[1..]);
      var history, delivered := ms + (first + later), (if out.Delivered? then [out.m] else []) + DeliveredIn(outs);
      assert IsFifo(history, consumed, rest, delivered) by {
        FifoStep(ms, first, later, c, out, k, rest, DeliveredIn(outs));
      }
      assert Run(w, ms, ops) == (rest, [out] + outs) && AcceptedBy(w, ops) == first + later;
      assert DeliveredIn([out] + outs) == delivered by {
        DeliveredFront(out, outs);
      }
    }
  }

  /** An accepted message of at least one byte is in the queue after its write exactly when it
      leaves a word of the ring free beside its header; the longest message `Write` accepts
      empties the ring instead. */
  lemma WriteStoresIffItFits(w: nat, ms: seq<Message>, m: Message)
    requires m.WellFormed() && Stores(w, Write(m))
    ensures var after := Step(w, ms, Write(m)).0;
            && (after != [] <==> |m.words| <= w - 2)
            && (after != [] ==> after[|after| - 1] == m)
  {
  }

  /** A message that fits goes behind all older ones that fit beside it: no more of them are dropped than
      it needs, oldest first. */
  lemma WriteDropsOnlyWhatItMust(w: nat, ms: seq<Message>, m: Message) returns (k: nat)
    requires AllStorable(ms) && m.WellFormed() && Stores(w, Write(m)) && |m.words| <= w - 2
    ensures k <= |ms| && Step(w, ms, Write(m)).0 == ms[k..] + [m]
    ensures |Flatten(ms[k..] + [m])| <= w - 1
    ensures forall j :: 0 <= j < k ==> |Flatten(ms[j..] + [m])| > w - 1
  {
    k := DropIsMinimal(ms, |m.Encoded()|, w);
    forall j | 0 <= j <= k ensures |Flatten(ms[j..] + [m])| == |Flatten(ms[j..])| + |m.Encoded()| {
      FlattenAppend(ms[j..], m);
    }
  }

  /** A read takes the oldest message, if there is one, and no other, and delivers it exactly if it is not
      too long. */
  lemma ReadTakesOne(w: nat, ms: seq<Message>, maxLen: int)
    ensures var (after, out) := Step(w, ms, Read(maxLen));
            if ms == [] then after == [] && out == Nothing
            else [ms[0]] + after == ms && out == if ms[0].len <= maxLen then Delivered(ms[0]) else TooLong
  {
  }

  /** A write is refused exactly if its payload does not leave even the free word, and then, or without
      any payload, changes nothing. */
  lemma RejectedIff(w: nat, ms: seq<Message>, m: Message)
    requires m.WellFormed()
    ensures var (after, out) := Step(w, ms, Write(m));
            && (out == if m.len <= 4 * (w - 1) then Accepted else Rejected)
            && (0 == m.len || m.len > 4 * (w - 1) ==> after == ms)
  {
  }

  // ---------------------------------------------------------------- when nothing is lost

  /** A message written fits beside all that is held, one read is not too long, and nothing is reset. */
  predicate LosesNothing(w: nat, ms: seq<Message>, op: Operation) {
    match op
    case Write(m) => Stores(w, op) ==> |Flatten(ms)| + |m.Encoded()| < w
    case Read(maxLen) => ms != [] ==> ms[0].len <= maxLen
    case Reset => ms == []
  }

  predicate Lossless(w: nat, ms: seq<Message>, ops: seq<Operation>)
    decreases |ops|
  {
    ops == [] || (LosesNothing(w, ms, ops[0]) && Lossless(w, Step(w, ms, ops[0]).0, ops[1..]))
  }

  lemma StepAccount(w: nat, ms: seq<Message>, op: Operation)
    requires AllStorable(ms) && (op.Write? ==> op.m.WellFormed())
    ensures var (after, out) := Step(w, ms, op);
            var all := ms + if Stores(w, op) then [op.m] else [];
            var kept := (if out.Delivered? then [out.m] else []) + after;
            AllStorable(after) && if LosesNothing(w, ms, op) then kept == all else |kept| < |all|
  {
    var c := StepConsumes(w, ms, op);
    if Stores(w, op) && |op.m.words| <= w - 2 {
      var k := WriteDropsOnlyWhatItMust(w, ms, op.m);
      FlattenAppend(ms, op.m);
      assert ms[0..] == ms;
    }
  }

  lemma {:induction false} RunAccount(w: nat, ms: seq<Message>, ops: seq<Operation>)
    requires AllStorable(ms) && AllWellFormed(ops)
    ensures var (rest, outs) := Run(w, ms, ops);
            if Lossless(w, ms, ops) then DeliveredIn(outs) + rest == ms + AcceptedBy(w, ops)
            else |DeliveredIn(outs) + rest| < |ms + AcceptedBy(w, ops)|
    decreases |ops|
  {
    if ops != [] {
      var (ms1, out) := Step(w, ms, ops[0]);
      var (rest, outs) := Run(w, ms1, ops[1..]);
      var first, later := if Stores(w, ops[0]) then [ops[0].m] else [], AcceptedBy(w, ops[1..]);
      var d := if out.Delivered? then [out.m] else [];
      StepAccount(w, ms, ops[0]);
      RunAccount(w, ms1, ops[1..]);
      DeliveredFront(out, outs);
      assert Run(w, ms, ops) == (rest, [out] + outs);
      AccountStep(ms + first, d, ms1, later, DeliveredIn(outs), rest);
      assert ms + (first + later) == ms + first + later;
    }
  }

  /** Over every run, everything accepted is delivered or still held, in order, if and only if each write
      fitted beside what was held, no read found a too long message, and no reset found any. */
  lemma LosslessIff(w: nat, ms: seq<Message>, ops: seq<Operation>)
    requires AllStorable(ms) && AllWellFormed(ops)
    ensures var (rest, outs) := Run(w, ms, ops);
            DeliveredIn(outs) + rest == ms + AcceptedBy(w, ops) <==> Lossless(w, ms, ops)
  {
    RunAccount(w, ms, ops);
  }

  // ---------------------------------------------------------------- how much a read transfers

  ghost predicate AllWellFormed(ops: seq<Operation>) {
    forall op <- ops :: op.Write? ==> op.m.WellFormed()
  }

  /** What a queue in a ring of `w` words may hold at any time. */
  ghost predicate FitsRing(w: nat, ms: seq<Message>) {
    AllStorable(ms) && |Flatten(ms)| < w
  }

  lemma StepFits(w: nat, ms: seq<Message>, op: Operation)
    requires FitsRing(w, ms) && (op.Write? ==> op.m.WellFormed())
    ensures FitsRing(w, Step(w, ms, op).0)
  {
    var c := StepConsumes(w, ms, op);
    if op.Write? && Stores(w, op) && |op.m.words| < w - 1 {
      var k := DropIsMinimal(ms, |op.m.Encoded()|, w);
      FlattenAppend(Drop(ms, |op.m.Encoded()|, w), op.m);
    }
  }

  lemma {:induction false} RunFits(w: nat, ms: seq<Message>, ops: seq<Operation>)
    requires FitsRing(w, ms) && AllWellFormed(ops)
    ensures FitsRing(w, Run(w, ms, ops).0)
    decreases |ops|
  {
    if ops != [] {
      StepFits(w, ms, ops[0]);
      RunFits(w, Step(w, ms, ops[0]).0, ops[1..]);
    }
  }

  /** After these operations on an empty ring, a read with `maxLen` delivers a message of more words
      than `maxLen` bytes hold. */
  ghost predicate Overruns(w: nat, ops: seq<Operation>, maxLen: int) {
    && AllWellFormed(ops)
    && var (ms, _) := Run(w, [], ops);
       var out := Step(w, ms, Read(maxLen)).1;
       out.Delivered? && maxLen < 4 * |out.m.words|
  }

  /** A read transfers more than `maxLen` bytes, after some history, exactly when `maxLen` is not a
      multiple of 4 and a message of that length fits into the ring. */
  lemma ReadOverrunsIff(w: nat, maxLen: int)
    requires 0 < w
    ensures (exists ops :: Overruns(w, ops, maxLen)) <==>
            0 < maxLen && maxLen % 4 != 0 && WordsInObject(maxLen) <= w - 2
  {
    if ops :| Overruns(w, ops, maxLen) {
      RunFits(w, [], ops);
      var m := Run(w, [], ops).0[0];
      SplitFront(Run(w, [], ops).0);
      assert WordsInObject(m.len) == WordsInObject(maxLen);
    }
    if 0 < maxLen && maxLen % 4 != 0 && WordsInObject(maxLen) <= w - 2 {
      var m := Message(maxLen, seq(WordsInObject(maxLen), _ => 0));
      var ops := [Write(m)];
      assert Drop([], |m.Encoded()|, w) + [m] == [m];
      assert Step(w, [], Write(m)).0 == [m];
      assert ops[1..] == [];
      assert Run(w, [], ops).0 == [m];
      assert Overruns(w, ops, maxLen);
    }
  }

  // ---------------------------------------------------------------- the ring

  /** What the ring holds after one word: the front message goes when the ring got full. */
  function AfterWord(ms: seq<Message>, partial: seq<int>, val: int, w: nat): (seq<Message>, seq<int>) {
    if |Flatten(ms) + partial| + 1 < w then (ms, partial + [val])
    else if ms != [] then (ms[1..], partial + [val])
    else (ms, [])
  }

  ghost predicate HeaderOfFullRing(ms: seq<Message>, partial: seq<int>, val: int, w: nat) {
    ms == [] && |partial| + 1 == w ==>
      var header := (partial + [val])[0];
      0 <= header && WordsInObject(header) == |partial|
  }

  lemma FullRingDropsFront(cells: seq<int>, readX: nat, writeX: nat, ms: seq<Message>, partial: seq<int>, val: int)
    requires AllStorable(ms)
    requires Holds(cells, readX, writeX, Flatten(ms) + partial)
    requires |Flatten(ms) + partial| + 1 == |cells|
    requires HeaderOfFullRing(ms, partial, val, |cells|)
    ensures var after := cells[writeX := val];
            var (rest, inProgress) := AfterWord(ms, partial, val, |cells|);
            && (writeX + 1) % |cells| == readX
            && 0 <= after[readX]
            && Holds(after, (readX + 1 + WordsInObject(after[readX])) % |cells|, readX, Flatten(rest) + inProgress)
  {
    var content := Flatten(ms) + partial;
    if ms == [] {
      assert content == partial;
      HoldsAfterOverflow(cells, readX, writeX, content, val, |cells|);
      assert (content + [val])[|cells|..] == Flatten(ms) + [];
    } else {
      var k := |ms[0].Encoded()|;
      HoldsAfterOverflow(cells, readX, writeX, content, val, k);
      assert (content + [val])[k..] == Flatten(ms[1..]) + (partial + [val]);
    }
  }

  lemma EmptyIffIndicesEqual(cells: seq<int>, readX: nat, writeX: nat, ms: seq<Message>)
    requires Holds(cells, readX, writeX, Flatten(ms) + [])
    ensures readX == writeX <==> ms == []
  {
  }

  lemma SplitFront(ms: seq<Message>)
    requires AllStorable(ms) && ms != []
    ensures var content, m := Flatten(ms) + [], ms[0];
            && m.WellFormed() && 0 < m.len && |content| >= |m.Encoded()|
            && content[0] == m.len
            && content[1..] == m.words + Flatten(ms[1..])
            && content[1..][|m.words|..] == Flatten(ms[1..]) + []
  {
    HeaderThenRest(ms[0].len, ms[0].words, Flatten(ms[1..]));
  }

  lemma HeaderThenRest(header: int, payload: seq<int>, rest: seq<int>)
    ensures [header] + payload + rest + [] == [header] + (payload + rest)
    ensures ([header] + (payload + rest))[1..] == payload + rest
    ensures (payload + rest)[|payload|..] == rest + []
  {
  }

  /** Messages held and words of `m` stored when `n` words of `m` have been written. */
  function Midway(before: seq<Message>, m: Message, n: nat, w: nat): (seq<Message>, seq<int>)
    requires n <= |m.Encoded()|
  {
    if n == w then ([], []) else (Drop(before, n, w), m.Encoded()[..n])
  }

  lemma NextWord(before: seq<Message>, m: Message, n: nat, w: nat)
    requires AllStorable(before) && |Flatten(before)| < w
    requires m.WellFormed() && 0 < m.len && n < |m.Encoded()| <= w
    ensures AllStorable(Midway(before, m, n, w).0)
    ensures |Flatten(Midway(before, m, n, w).0)| + n < w
    ensures HeaderOfFullRing(Midway(before, m, n, w).0, m.Encoded()[..n], m.Encoded()[n], w)
    ensures AfterWord(Midway(before, m, n, w).0, m.Encoded()[..n], m.Encoded()[n], w) == Midway(before, m, n + 1, w)
  {
    var held, partial := Drop(before, n, w), m.Encoded()[..n];
    var k := DropSuffix(before, n, w);
    assert partial + [m.Encoded()[n]] == m.Encoded()[..n + 1];
    if n + 1 == w {
      DropAll(before, n, w);
    } else {
      DropOneMore(before, n, w);
    }
  }

  class ByteStreamRingBuffer {
    var buffer: array<int>
    var writeX: nat
    var readX: nat
    ghost var messages: seq<Message>

    /** The ring holds the words of `messages`, followed by `partial`, the part already
        stored of a message that is being written. */
    ghost predicate Holding(partial: seq<int>)
      reads this, buffer
    {
      && AllStorable(messages)
      && Holds(buffer[..], readX, writeX, Flatten(messages) + partial)
    }

    ghost predicate Valid()
      reads this, buffer
    {
      Holding([])
    }

    constructor (words: nat)
      requires 0 < words
      ensures Valid() && messages == [] && buffer.Length == words && fresh(buffer)
    {
      buffer := new int[words];
      readX, writeX := 0, 0;
      messages := [];
    }

    method WriteWord(val: int, ghost partial: seq<int>)
      requires Holding(partial)
      requires HeaderOfFullRing(messages, partial, val, buffer.Length)
      modifies this`writeX, this`readX, this`messages, buffer
      ensures messages == AfterWord(old(messages), partial, val, buffer.Length).0
      ensures Holding(AfterWord(old(messages), partial, val, buffer.Length).1)
    {
      ghost var cells, content := buffer[..], Flatten(messages) + partial;
      if |content| + 1 < buffer.Length {
        HoldsAfterWrite(cells, readX, writeX, content, val);
        assert Flatten(messages) + (partial + [val]) == content + [val];
      } else {
        FullRingDropsFront(cells, readX, writeX, messages, partial, val);
      }
      messages := AfterWord(messages, partial, val, buffer.Length).0;
      buffer[writeX] := val;
      assert buffer[..] == cells[writeX := val];
      writeX := (writeX + 1) % buffer.Length;
      if writeX == readX {
        readX := (readX + 1 + WordsInObject(buffer[readX])) % buffer.Length;
      }
    }

    /** A negative length is taken: the header alone is stored, and no message belongs to it. */
    method Write(source: array<int>, len: int) returns (ok: bool)
      requires Valid()
      requires source != buffer && if len >= 0 then WordsInObject(len) <= source.Length else 1 < buffer.Length
      modifies this`writeX, this`readX, this`messages, buffer
      ensures len >= 0 ==>
                var m := Message(len, source[..WordsInObject(len)]);
                var (after, out) := Step(buffer.Length, old(messages), Operation.Write(m));
                Valid() && messages == after && out == if ok then Accepted else Rejected
      ensures ok <==> len <= 4 * (buffer.Length - 1)
      ensures len < 0 ==>
                Holding([len]) && messages == AfterWord(old(messages), [], len, buffer.Length).0
    {
      if len >= 0 && WordsInObject(len) >= buffer.Length {
        return false;
      }
      if len == 0 {
        return true;
      }
      if len < 0 {
        WriteWord(len, []);
      } else {
        WriteObject(source, len);
      }
      return true;
    }

    /** Header and words of a message. */
    method WriteObject(source: array<int>, len: nat)
      requires Valid()
      requires source != buffer && WordsInObject(len) <= source.Length && 0 < len && WordsInObject(len) < buffer.Length
      modifies this`writeX, this`readX, this`messages, buffer
      ensures Valid()
      ensures messages == Written(old(messages), Message(len, source[..WordsInObject(len)]), buffer.Length)
    {
      ghost var m := Message(len, source[..WordsInObject(len)]);
      ghost var before := messages;
      NextWord(before, m, 0, buffer.Length);
      WriteWord(len, []);
      WritePayload(source, before, m, len);
      if |m.Encoded()| < buffer.Length {
        FlattenAppend(messages, m);
        assert m.Encoded()[..|m.Encoded()|] == m.Encoded();
        assert Flatten(messages + [m]) + [] == Flatten(messages) + m.Encoded();
        messages := messages + [m];
      }
    }

    /** The copying loop of `Write`. */
    method WritePayload(source: array<int>, ghost before: seq<Message>, ghost m: Message, len: nat)
      requires source != buffer && WordsInObject(len) <= source.Length
      requires m == Message(len, source[..WordsInObject(len)]) && 0 < len && |m.words| < buffer.Length
      requires AllStorable(before) && |Flatten(before)| < buffer.Length
      requires HoldingPart(before, m, 1)
      modifies this`writeX, this`readX, this`messages, buffer
      ensures HoldingPart(before, m, |m.Encoded()|)
    {
      var i: nat := 0;
      var left: int := len;
      while left > 0
        invariant left == len - 4 * i && i <= |m.words|
        invariant forall j :: 0 <= j < |m.words| ==> source[j] == m.words[j]
        invariant HoldingPart(before, m, i + 1)
      {
        NextWord(before, m, i + 1, buffer.Length);
        assert source[i] == m.Encoded()[i + 1];
        WriteWord(source[i], m.Encoded()[..i + 1]);
        i := i + 1;
        left := left - 4;
      }
    }

    method ReadWord(ghost content: seq<int>) returns (val: int)
      requires content != [] && Holds(buffer[..], readX, writeX, content)
      modifies this`readX
      ensures val == content[0] && Holds(buffer[..], readX, writeX, content[1..])
    {
      HoldsAfterRead(buffer[..], readX, writeX, content, 1);
      val := buffer[readX];
      readX := (readX + 1) % buffer.Length;
    }

    method Read(destination: array<int>, maxLen: int) returns (r: int)
      requires Valid()
      requires destination != buffer && (0 < maxLen ==> WordsInObject(maxLen) <= destination.Length)
      modifies this`readX, this`messages, destination
      ensures Valid()
      ensures var (after, out) := Step(buffer.Length, old(messages), Operation.Read(maxLen));
              && messages == after
              && match out
                 case Nothing => r == 0 && destination[..] == old(destination[..])
                 case TooLong => r == -1 && destination[..] == old(destination[..])
                 case Delivered(m) =>
                   && r == m.len > 0
                   && destination[..] == m.words + old(destination[|m.words|..])
                 case _ => false
    {
      EmptyIffIndicesEqual(buffer[..], readX, writeX, messages);
      if readX == writeX {
        return 0;
      }
      ghost var content, m := Flatten(messages) + [], messages[0];
      SplitFront(messages);
      var len := ReadWord(content);
      var objectLen := len;
      messages := messages[1..];
      if objectLen > maxLen {
        SkipPayload(content[1..], objectLen);
        return -1;
      }
      ReadPayload(destination, m, objectLen);
      return objectLen;
    }

    method SkipPayload(ghost content: seq<int>, objectLen: nat)
      requires Holds(buffer[..], readX, writeX, content) && WordsInObject(objectLen) <= |content|
      modifies this`readX
      ensures Holds(buffer[..], readX, writeX, content[WordsInObject(objectLen)..])
    {
      HoldsAfterRead(buffer[..], readX, writeX, content, WordsInObject(objectLen));
      readX := (readX + WordsInObject(objectLen)) % buffer.Length;
    }

    /** The copying loop of `Read`. */
    method ReadPayload(destination: array<int>, ghost m: Message, objectLen: nat)
      requires destination != buffer && |m.words| <= destination.Length
      requires m.WellFormed() && objectLen == m.len
      requires AllStorable(messages) && Holds(buffer[..], readX, writeX, m.words + Flatten(messages))
      modifies this`readX, destination
      ensures Valid()
      ensures destination[..] == m.words + old(destination[|m.words|..])
    {
      ghost var content := m.words + Flatten(messages);
      var len: int := objectLen;
      var i := 0;
      while len > 0
        invariant len == objectLen - 4 * i && 0 <= i <= |m.words|
        invariant buffer[..] == old(buffer[..])
        invariant Holds(buffer[..], readX, writeX, content[i..])
        invariant forall j :: 0 <= j < i ==> destination[j] == m.words[j]
        invariant destination[i..] == old(destination[i..])
      {
        var val := ReadWord(content[i..]);
        assert content[i..][0] == m.words[i] && content[i..][1..] == content[i + 1..];
        destination[i] := val;
        i := i + 1;
        len := len - 4;
      }
      assert content[i..] == Flatten(messages) + [];
    }

    method Reset()
      requires Valid()
      modifies this`readX, this`writeX, this`messages
      ensures Valid() && messages == Step(buffer.Length, old(messages), Operation.Reset).0
    {
      readX, writeX := 0, 0;
      messages := [];
    }

    /** The first `n` words of `m` are stored behind what is left of `before`. */
    ghost predicate HoldingPart(before: seq<Message>, m: Message, n: nat)
      requires n <= |m.Encoded()|
      reads this, buffer
    {
      var (held, partial) := Midway(before, m, n, buffer.Length);
      messages == held && Holding(partial)
    }
  }
}
