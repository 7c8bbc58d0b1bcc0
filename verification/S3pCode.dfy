/** Codes of the S3P framing of messages in a byte stream, and what a stream stands for. */
module S3pCode {
  import opened Common

  type Byte = b: int | 0 <= b < 0x100
  type DualByte = c: int | 0 <= c < 0x1_0000

  const BOM: DualByte := 0xFE02
  const EOM: DualByte := 0xFE03
  const STUFF: DualByte := 0xFE7E
  const NODATA: DualByte := 0xFEAA
  const COMMAND: DualByte := 0xFE00
  const MARK: Byte := 0xFE

  function Msb(c: DualByte): Byte {
    c / 0x100
  }

  function Lsb(c: DualByte): Byte {
    c % 0x100
  }

  function Compose(msb: Byte, lsb: Byte): DualByte {
    0x100 * msb + lsb
  }

  predicate IsCommand(c: DualByte) {
    Msb(c) == Msb(COMMAND)
  }

  // ---------------------------------------------------------------- symbols

  /** What a stream is made of: message bytes, frame marks, and other commands. */
  datatype Symbol = Begin | End | Data(b: Byte) | Other(lsb: Byte) {
    predicate Valid() {
      Other? ==> lsb !in {Lsb(BOM), Lsb(EOM), Lsb(STUFF), MARK}
    }

    function Bytes(): seq<Byte> {
      match this
      case Begin => [MARK, Lsb(BOM)]
      case End => [MARK, Lsb(EOM)]
      case Data(b) => if b == MARK then [MARK, Lsb(STUFF)] else [b]
      case Other(d) => [MARK, d]
    }
  }

  function Bytes(symbols: seq<Symbol>): seq<Byte> {
    if symbols == [] then [] else symbols[0].Bytes() + Bytes(symbols[1..])
  }

  ghost predicate AllValid(symbols: seq<Symbol>) {
    forall i :: 0 <= i < |symbols| ==> symbols[i].Valid()
  }

  lemma {:induction false} BytesConcat(s: seq<Symbol>, t: seq<Symbol>)
    ensures Bytes(s + t) == Bytes(s) + Bytes(t)
    decreases |s|
  {
    if s == [] {
      assert s + t == t;
    } else {
      BytesConcat(s[1..], t);
      assert (s + t)[0] == s[0] && (s + t)[1..] == s[1..] + t;
      assert s[0].Bytes() + (Bytes(s[1..]) + Bytes(t)) == s[0].Bytes() + Bytes(s[1..]) + Bytes(t);
    }
  }

  /** The bytes of a message as symbols. */
  function DataOf(msg: seq<Byte>): seq<Symbol> {
    seq(|msg|, i requires 0 <= i < |msg| => Data(msg[i]))
  }

  /** A message as `sendMsg` frames it. */
  function Frame(msg: seq<Byte>): seq<Symbol> {
    [Begin] + DataOf(msg) + [End]
  }

  function Frames(msgs: seq<seq<Byte>>): seq<Symbol> {
    if msgs == [] then [] else Frame(msgs[0]) + Frames(msgs[1..])
  }

  // ---------------------------------------------------------------- receivers

  /** What a receiver tells its user: a message, or a command it does not handle itself. */
  datatype Event = Message(data: seq<Byte>) | Execute(command: DualByte)

  /** The part of a receiver's state both kinds share: the message being collected, if any, and
      what has been reported; `count` is the number of messages reported. */
  datatype Collector = Collector(body: Option<seq<Byte>>, events: seq<Event>, count: nat) {

    /** A message byte arrives; it is stored while the buffer of `maxLen` bytes has room. */
    function Store(b: Byte, maxLen: int): Collector {
      if body.Some? && |body.value| < maxLen then this.(body := Some(body.value + [b])) else this
    }

    function Start(): Collector {
      this.(body := Some([]))
    }

    function Finish(): Collector {
      if body.Some? then Collector(None, events + [Message(body.value)], count + 1) else this
    }

    function Report(command: DualByte): Collector {
      this.(events := events + [Execute(command)])
    }

    /** The effect of one symbol; the n-th message goes to a buffer of `limit(n)` bytes. */
    function Symbol(s: Symbol, limit: nat -> int): Collector {
      match s
      case Begin => Start()
      case End => Finish()
      case Data(b) => Store(b, limit(count))
      case Other(d) => Report(Compose(MARK, d))
    }
  }

  function Symbols(k: Collector, symbols: seq<Symbol>, limit: nat -> int): Collector
    decreases |symbols|
  {
    if symbols == [] then k else Symbols(k.Symbol(symbols[0], limit), symbols[1..], limit)
  }

  lemma SymbolsConcat(k: Collector, s: seq<Symbol>, t: seq<Symbol>, limit: nat -> int)
    ensures Symbols(k, s + t, limit) == Symbols(Symbols(k, s, limit), t, limit)
    decreases |s|
  {
    if s == [] {
      assert s + t == t;
    } else {
      SymbolsConcat(k.Symbol(s[0], limit), s[1..], t, limit);
      assert (s + t)[1..] == s[1..] + t;
    }
  }
}
