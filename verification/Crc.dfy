/** What a byte does to the 16-bit CRC register, as facts about single machine words. */
module CrcWords {

  // ---------------------------------------------------------------- one bit

  /** One step of long division by x^16 + x^12 + x^5 + 1: the top bit of `c` enters. */
  function ShiftIn(value: bv16, c: bv8): bv16 {
    if (c & 0x80 != 0) != (value & 0x8000 != 0) then (value << 1) ^ 0x1021 else value << 1
  }

  /** The same step with nothing entering and no branch. */
  function Divide(x: bv16): bv16 {
    (x << 1) ^ ((x >> 15) ^ ((x >> 15) << 5) ^ ((x >> 15) << 12))
  }

  lemma DivideDef(x: bv16)
    ensures Divide(x) == (x << 1) ^ ((x >> 15) ^ ((x >> 15) << 5) ^ ((x >> 15) << 12))
  {
  }

  lemma ShiftInDef(value: bv16, c: bv8)
    ensures ShiftIn(value, c) == if (c & 0x80 != 0) != (value & 0x8000 != 0) then (value << 1) ^ 0x1021 else value << 1
  {
  }

  lemma ShiftInSubtracts(value: bv16, c: bv8)
    requires (c & 0x80 != 0) != (value & 0x8000 != 0)
    ensures var t := (value >> 15) ^ ((c >> 7) as bv16);
            (value << 1) ^ (t ^ (t << 5) ^ (t << 12)) == (value << 1) ^ 0x1021
  {
  }

  lemma ShiftInKeeps(value: bv16, c: bv8)
    requires (c & 0x80 != 0) == (value & 0x8000 != 0)
    ensures var t := (value >> 15) ^ ((c >> 7) as bv16);
            (value << 1) ^ (t ^ (t << 5) ^ (t << 12)) == value << 1
  {
  }

  lemma ShiftInBranches(value: bv16, c: bv8)
    ensures var t := (value >> 15) ^ ((c >> 7) as bv16);
            (value << 1) ^ (t ^ (t << 5) ^ (t << 12)) ==
              if (c & 0x80 != 0) != (value & 0x8000 != 0) then (value << 1) ^ 0x1021 else value << 1
  {
    if (c & 0x80 != 0) != (value & 0x8000 != 0) {
      ShiftInSubtracts(value, c);
    } else {
      ShiftInKeeps(value, c);
    }
  }

  lemma ShiftInBranchless(value: bv16, c: bv8, t: bv16, r: bv16)
    requires t == (value >> 15) ^ ((c >> 7) as bv16)
    requires r == if (c & 0x80 != 0) != (value & 0x8000 != 0) then (value << 1) ^ 0x1021 else value << 1
    ensures r == (value << 1) ^ (t ^ (t << 5) ^ (t << 12))
  {
    ShiftInBranches(value, c);
  }

  lemma BitAddedBeforehand(value: bv16, c: bv8, t: bv16, r: bv16, x: bv16, y: bv16)
    requires t == (value >> 15) ^ ((c >> 7) as bv16)
    requires r == (value << 1) ^ (t ^ (t << 5) ^ (t << 12))
    requires x == value ^ (c as bv16 << 8)
    requires y == (x << 1) ^ ((x >> 15) ^ ((x >> 15) << 5) ^ ((x >> 15) << 12))
    ensures y == r ^ ((c << 1) as bv16 << 8)
  {
  }

  lemma ShiftInAt(value: bv16, c: bv8, r: bv16, x: bv16, y: bv16)
    requires r == if (c & 0x80 != 0) != (value & 0x8000 != 0) then (value << 1) ^ 0x1021 else value << 1
    requires x == value ^ (c as bv16 << 8)
    requires y == (x << 1) ^ ((x >> 15) ^ ((x >> 15) << 5) ^ ((x >> 15) << 12))
    ensures y == r ^ ((c << 1) as bv16 << 8)
  {
    var t := (value >> 15) ^ ((c >> 7) as bv16);
    ShiftInBranchless(value, c, t, r);
    BitAddedBeforehand(value, c, t, r, x, y);
  }

  /** Letting bits enter one by one amounts to adding them to the register beforehand. */
  lemma ShiftInIsDivide(value: bv16, c: bv8, x: bv16)
    requires x == value ^ (c as bv16 << 8)
    ensures Divide(x) == ShiftIn(value, c) ^ ((c << 1) as bv16 << 8)
  {
    ShiftInDef(value, c);
    DivideDef(x);
    ShiftInAt(value, c, ShiftIn(value, c), x, Divide(x));
  }

  // ---------------------------------------------------------------- eight bits

  lemma TwoSteps(x: bv16, y: bv16, z: bv16)
    requires y == (x << 1) ^ ((x >> 15) ^ ((x >> 15) << 5) ^ ((x >> 15) << 12))
    requires z == (y << 1) ^ ((y >> 15) ^ ((y >> 15) << 5) ^ ((y >> 15) << 12))
    ensures z == (x << 2) ^ ((x >> 14) ^ ((x >> 14) << 5) ^ ((x >> 14) << 12))
  {
  }

  lemma FourSteps(x: bv16, y: bv16, z: bv16)
    requires y == (x << 2) ^ ((x >> 14) ^ ((x >> 14) << 5) ^ ((x >> 14) << 12))
    requires z == (y << 2) ^ ((y >> 14) ^ ((y >> 14) << 5) ^ ((y >> 14) << 12))
    ensures z == (x << 4) ^ ((x >> 12) ^ ((x >> 12) << 5) ^ ((x >> 12) << 12))
  {
  }

  lemma EightSteps(x: bv16, y: bv16, z: bv16)
    requires y == (x << 4) ^ ((x >> 12) ^ ((x >> 12) << 5) ^ ((x >> 12) << 12))
    requires z == (y << 4) ^ ((y >> 12) ^ ((y >> 12) << 5) ^ ((y >> 12) << 12))
    ensures var m := (x >> 8) ^ (x >> 12);
            z == (x << 8) ^ (m ^ (m << 5) ^ (m << 12))
  {
  }

  lemma DivideTwice(x: bv16)
    ensures Divide(Divide(x)) == (x << 2) ^ ((x >> 14) ^ ((x >> 14) << 5) ^ ((x >> 14) << 12))
  {
    DivideDef(x);
    DivideDef(Divide(x));
    TwoSteps(x, Divide(x), Divide(Divide(x)));
  }

  lemma DivideFourTimes(x: bv16, y: bv16, z: bv16)
    requires y == Divide(Divide(x)) && z == Divide(Divide(y))
    ensures z == (x << 4) ^ ((x >> 12) ^ ((x >> 12) << 5) ^ ((x >> 12) << 12))
  {
    DivideTwice(x);
    DivideTwice(y);
    FourSteps(x, y, z);
  }

  /** One step through the table: the register moves up a byte, and the multiple of the
      polynomial selected by its old top byte and by `c` is subtracted. */
  function TableStep(value: bv16, c: bv8): bv16 {
    var i := (((value >> 8) as bv8) ^ c) as bv16;
    var m := i ^ (i >> 4);
    (value << 8) ^ (m ^ (m << 5) ^ (m << 12))
  }

  lemma TableStepDef(value: bv16, c: bv8)
    ensures var i := (((value >> 8) as bv8) ^ c) as bv16;
            var m := i ^ (i >> 4);
            TableStep(value, c) == (value << 8) ^ (m ^ (m << 5) ^ (m << 12))
  {
  }

  lemma ByteAddedBeforehand(value: bv16, c: bv8, i: bv8, e: bv16, x: bv16, z: bv16)
    requires i == ((value >> 8) as bv8) ^ c
    requires var m := (i as bv16) ^ ((i as bv16) >> 4);
             e == m ^ (m << 5) ^ (m << 12)
    requires x == value ^ (c as bv16 << 8)
    requires var m := (x >> 8) ^ (x >> 12);
             z == (x << 8) ^ (m ^ (m << 5) ^ (m << 12))
    ensures z == (value << 8) ^ e
  {
  }

  lemma LookedUp(value: bv16, c: bv8, i: bv8, e: bv16, r: bv16)
    requires i == ((value >> 8) as bv8) ^ c
    requires var m := (i as bv16) ^ ((i as bv16) >> 4);
             e == m ^ (m << 5) ^ (m << 12)
    requires var i := (((value >> 8) as bv8) ^ c) as bv16;
             var m := i ^ (i >> 4);
             r == (value << 8) ^ (m ^ (m << 5) ^ (m << 12))
    ensures r == (value << 8) ^ e
  {
  }

  // ---------------------------------------------------------------- what a step forgets: nothing

  /** The table index of a step, recovered from the register after it. */
  function IndexOf(r: bv16): bv8 {
    var m := (r & 0xFF) ^ ((r << 5) & 0xFF);
    (m ^ (m >> 4)) as bv8
  }

  lemma IndexOfDef(r: bv16)
    ensures var m := (r & 0xFF) ^ ((r << 5) & 0xFF);
            IndexOf(r) == (m ^ (m >> 4)) as bv8
  {
  }

  lemma IndexRecovered(value: bv16, c: bv8, r: bv16, j: bv8)
    requires var i := (((value >> 8) as bv8) ^ c) as bv16;
             var m := i ^ (i >> 4);
             r == (value << 8) ^ (m ^ (m << 5) ^ (m << 12))
    requires var m := (r & 0xFF) ^ ((r << 5) & 0xFF);
             j == (m ^ (m >> 4)) as bv8
    ensures j == ((value >> 8) as bv8) ^ c
  {
  }

  lemma IndexOfTableStep(value: bv16, c: bv8, r: bv16)
    requires r == TableStep(value, c)
    ensures IndexOf(r) == ((value >> 8) as bv8) ^ c
  {
    TableStepDef(value, c);
    IndexOfDef(r);
    IndexRecovered(value, c, r, IndexOf(r));
  }

  lemma SameRegister(u: bv16, v: bv16, a: bv8, b: bv8, i: bv8, r: bv16)
    requires i == ((u >> 8) as bv8) ^ a && i == ((v >> 8) as bv8) ^ b
    requires var i := (((u >> 8) as bv8) ^ a) as bv16;
             var m := i ^ (i >> 4);
             r == (u << 8) ^ (m ^ (m << 5) ^ (m << 12))
    requires var i := (((v >> 8) as bv8) ^ b) as bv16;
             var m := i ^ (i >> 4);
             r == (v << 8) ^ (m ^ (m << 5) ^ (m << 12))
    ensures u & 0xFF == v & 0xFF
  {
  }

  lemma SameStep(u: bv16, v: bv16, a: bv8, b: bv8, r: bv16)
    requires r == TableStep(u, a) && r == TableStep(v, b)
    ensures ((u >> 8) as bv8) ^ a == ((v >> 8) as bv8) ^ b
    ensures u & 0xFF == v & 0xFF
  {
    IndexOfTableStep(u, a, r);
    IndexOfTableStep(v, b, r);
    TableStepDef(u, a);
    TableStepDef(v, b);
    SameRegister(u, v, a, b, IndexOf(r), r);
  }

  lemma SameHalves(u: bv16, v: bv16, c: bv8)
    requires ((u >> 8) as bv8) ^ c == ((v >> 8) as bv8) ^ c
    requires u & 0xFF == v & 0xFF
    ensures u == v
  {
  }

  /** A byte entering two different registers leaves them different. */
  lemma TableStepInjective(u: bv16, v: bv16, c: bv8)
    requires TableStep(u, c) == TableStep(v, c)
    ensures u == v
  {
    SameStep(u, v, c, c, TableStep(u, c));
    SameHalves(u, v, c);
  }

  lemma SameByte(v: bv16, w: bv16, a: bv8, b: bv8)
    requires v == w && ((v >> 8) as bv8) ^ a == ((w >> 8) as bv8) ^ b
    ensures a == b
  {
  }

  lemma SameLowByte(x: bv16, y: bv16, i: bv8, j: bv8)
    requires x & 0xFF == y & 0xFF
    requires var m := (x & 0xFF) ^ ((x << 5) & 0xFF);
             i == (m ^ (m >> 4)) as bv8
    requires var m := (y & 0xFF) ^ ((y << 5) & 0xFF);
             j == (m ^ (m >> 4)) as bv8
    ensures i == j
  {
  }

  lemma SameFirstByte(v: bv16, a: bv8, b: bv8, x: bv16, y: bv16)
    requires x == TableStep(v, a) && y == TableStep(v, b)
    requires x & 0xFF == y & 0xFF
    ensures a == b
  {
    IndexOfDef(x);
    IndexOfDef(y);
    SameLowByte(x, y, IndexOf(x), IndexOf(y));
    IndexOfTableStep(v, a, x);
    IndexOfTableStep(v, b, y);
    SameByte(v, v, a, b);
  }

  /** Two bytes in a row entering the same register: different pairs leave it different. */
  lemma TwoBytesInjective(v: bv16, a1: bv8, a2: bv8, b1: bv8, b2: bv8, x: bv16, y: bv16)
    requires x == TableStep(v, a1) && y == TableStep(v, b1)
    requires TableStep(x, a2) == TableStep(y, b2)
    ensures a1 == b1 && a2 == b2
  {
    SameStep(x, y, a2, b2, TableStep(x, a2));
    SameFirstByte(v, a1, b1, x, y);
    SameByte(x, y, a2, b2);
  }

  lemma RegisterShiftedOut(v: bv16, r: bv16, z: bv16)
    requires var i := (((v >> 8) as bv8) ^ ((v >> 8) as bv8)) as bv16;
             var m := i ^ (i >> 4);
             r == (v << 8) ^ (m ^ (m << 5) ^ (m << 12))
    requires var i := (((r >> 8) as bv8) ^ ((v & 0xFF) as bv8)) as bv16;
             var m := i ^ (i >> 4);
             z == (r << 8) ^ (m ^ (m << 5) ^ (m << 12))
    ensures z == 0
  {
  }

  /** A register that its own two bytes enter, high byte first, is left empty. */
  lemma ResidueOfWord(v: bv16, high: bv8, low: bv8, r: bv16)
    requires high == (v >> 8) as bv8 && low == (v & 0xFF) as bv8
    requires r == TableStep(v, high)
    ensures TableStep(r, low) == 0
  {
    TableStepDef(v, (v >> 8) as bv8);
    TableStepDef(r, (v & 0xFF) as bv8);
    RegisterShiftedOut(v, r, TableStep(r, (v & 0xFF) as bv8));
  }

  // ---------------------------------------------------------------- the table constructor

  /** What the table stores for the byte `i`. */
  function Entry(i: bv8): bv16 {
    var m := (i as bv16) ^ ((i as bv16) >> 4);
    m ^ (m << 5) ^ (m << 12)
  }

  lemma EntryDef(i: bv8)
    ensures var m := (i as bv16) ^ ((i as bv16) >> 4);
            Entry(i) == m ^ (m << 5) ^ (m << 12)
  {
  }

  lemma TableStepLooksUp(value: bv16, c: bv8, i: bv8, e: bv16)
    requires i == ((value >> 8) as bv8) ^ c && e == Entry(i)
    ensures TableStep(value, c) == (value << 8) ^ e
  {
    EntryDef(i);
    TableStepDef(value, c);
    LookedUp(value, c, i, e, TableStep(value, c));
  }

  lemma EightDivisions(value: bv16, c: bv8, i: bv8, e: bv16, x: bv16, x4: bv16, x8: bv16)
    requires i == ((value >> 8) as bv8) ^ c && e == Entry(i)
    requires x == value ^ (c as bv16 << 8)
    requires x4 == Divide(Divide(Divide(Divide(x)))) && x8 == Divide(Divide(Divide(Divide(x4))))
    ensures x8 == (value << 8) ^ e
  {
    DivideFourTimes(x, Divide(Divide(x)), x4);
    DivideFourTimes(x4, Divide(Divide(x4)), x8);
    EightSteps(x, x4, x8);
    EntryDef(i);
    ByteAddedBeforehand(value, c, i, e, x, x8);
  }

  /** Eight division steps of the register with the byte added are one step through the table. */
  lemma EightDivisionsAreTableStep(value: bv16, c: bv8, i: bv8, e: bv16, x: bv16, x4: bv16, x8: bv16)
    requires i == ((value >> 8) as bv8) ^ c && e == Entry(i)
    requires x == value ^ (c as bv16 << 8)
    requires x4 == Divide(Divide(Divide(Divide(x)))) && x8 == Divide(Divide(Divide(Divide(x4))))
    ensures x8 == TableStep(value, c)
  {
    EightDivisions(value, c, i, e, x, x4, x8);
    TableStepLooksUp(value, c, i, e);
  }

  /** The sum the table constructor forms out of its eight constants. */
  function SumOfConstants(b0: bool, b1: bool, b2: bool, b3: bool, b4: bool, b5: bool, b6: bool, b7: bool): bv16 {
    (if b0 then 0x1021 else 0) ^ (if b1 then 0x2042 else 0) ^ (if b2 then 0x4084 else 0) ^ (if b3 then 0x8108 else 0) ^
    (if b4 then 0x1231 else 0) ^ (if b5 then 0x2462 else 0) ^ (if b6 then 0x48C4 else 0) ^ (if b7 then 0x9188 else 0)
  }

  lemma ConstantsGiveEntry(c: bv8)
    ensures SumOfConstants(c & 1 != 0, c & 2 != 0, c & 4 != 0, c & 8 != 0,
                           c & 16 != 0, c & 32 != 0, c & 64 != 0, c & 128 != 0) == Entry(c)
  {
  }

  // ---------------------------------------------------------------- one byte

  lemma OneBit(v: bv16, c: bv8, v1: bv16, c1: bv8, x: bv16)
    requires v1 == ShiftIn(v, c) && c1 == c << 1
    requires x == v ^ (c as bv16 << 8)
    ensures Divide(x) == v1 ^ (c1 as bv16 << 8)
  {
    ShiftInIsDivide(v, c, x);
  }

  lemma FourBits(v: bv16, c: bv8, v4: bv16, c4: bv8, x: bv16)
    requires v4 == ShiftIn(ShiftIn(ShiftIn(ShiftIn(v, c), c << 1), c << 1 << 1), c << 1 << 1 << 1)
    requires c4 == c << 1 << 1 << 1 << 1
    requires x == v ^ (c as bv16 << 8)
    ensures Divide(Divide(Divide(Divide(x)))) == v4 ^ (c4 as bv16 << 8)
  {
    var v1, c1 := ShiftIn(v, c), c << 1;
    var v2, c2 := ShiftIn(v1, c1), c1 << 1;
    var v3, c3 := ShiftIn(v2, c2), c2 << 1;
    OneBit(v, c, v1, c1, x);
    OneBit(v1, c1, v2, c2, Divide(x));
    OneBit(v2, c2, v3, c3, Divide(Divide(x)));
    OneBit(v3, c3, v4, c4, Divide(Divide(Divide(x))));
  }

  lemma NothingLeft(c: bv8, c4: bv8, c8: bv8, v: bv16, x: bv16)
    requires c4 == c << 1 << 1 << 1 << 1 && c8 == c4 << 1 << 1 << 1 << 1
    requires x == v ^ (c8 as bv16 << 8)
    ensures x == v
  {
  }

  /** Eight bits one by one are one step through the table. */
  lemma EightBitsAreTableStep(v: bv16, c: bv8, v4: bv16, c4: bv8, v8: bv16)
    requires v4 == ShiftIn(ShiftIn(ShiftIn(ShiftIn(v, c), c << 1), c << 1 << 1), c << 1 << 1 << 1)
    requires c4 == c << 1 << 1 << 1 << 1
    requires v8 == ShiftIn(ShiftIn(ShiftIn(ShiftIn(v4, c4), c4 << 1), c4 << 1 << 1), c4 << 1 << 1 << 1)
    ensures v8 == TableStep(v, c)
  {
    var x := v ^ (c as bv16 << 8);
    var x4 := Divide(Divide(Divide(Divide(x))));
    var x8 := Divide(Divide(Divide(Divide(x4))));
    var c8 := c4 << 1 << 1 << 1 << 1;
    FourBits(v, c, v4, c4, x);
    FourBits(v4, c4, v8, c8, x4);
    NothingLeft(c, c4, c8, v8, x8);
    var i := ((v >> 8) as bv8) ^ c;
    EightDivisionsAreTableStep(v, c, i, Entry(i), x, x4, x8);
  }
}

/** The 16-bit CRC in its two forms, bit by bit and through a table of 256 entries.
    The polynomial is that of section 4.1.6.2 of CCSDS 132.0-B. */
module Crc {
  import opened CrcWords

  /** `n` more bits of `c`, taken from its top, enter the register. */
  function ShiftInBits(value: bv16, c: bv8, n: nat): bv16
    decreases n
  {
    if n == 0 then value else ShiftInBits(ShiftIn(value, c), c << 1, n - 1)
  }

  /** The checksum of `data` when the register starts at `initial`. */
  function Checksum(data: seq<bv8>, initial: bv16): bv16 {
    if data == [] then initial
    else ShiftInBits(Checksum(data[..|data| - 1], initial), data[|data| - 1], 8)
  }

  lemma FourMoreBits(v: bv16, c: bv8, n: nat)
    ensures ShiftInBits(v, c, n + 4) ==
            ShiftInBits(ShiftIn(ShiftIn(ShiftIn(ShiftIn(v, c), c << 1), c << 1 << 1), c << 1 << 1 << 1), c << 1 << 1 << 1 << 1, n)
  {
    var v1, c1 := ShiftIn(v, c), c << 1;
    var v2, c2 := ShiftIn(v1, c1), c1 << 1;
    var v3, c3 := ShiftIn(v2, c2), c2 << 1;
    assert ShiftInBits(v, c, n + 4) == ShiftInBits(v1, c1, n + 3);
    assert ShiftInBits(v1, c1, n + 3) == ShiftInBits(v2, c2, n + 2);
    assert ShiftInBits(v2, c2, n + 2) == ShiftInBits(v3, c3, n + 1);
  }

  lemma ByteIsTableStep(v: bv16, c: bv8)
    ensures ShiftInBits(v, c, 8) == TableStep(v, c)
  {
    FourMoreBits(v, c, 4);
    var v4 := ShiftIn(ShiftIn(ShiftIn(ShiftIn(v, c), c << 1), c << 1 << 1), c << 1 << 1 << 1);
    var c4 := c << 1 << 1 << 1 << 1;
    FourMoreBits(v4, c4, 0);
    var v8 := ShiftIn(ShiftIn(ShiftIn(ShiftIn(v4, c4), c4 << 1), c4 << 1 << 1), c4 << 1 << 1 << 1);
    EightBitsAreTableStep(v, c, v4, c4, v8);
  }

  // ---------------------------------------------------------------- programs

  method ComputeCrc(data: seq<bv8>, initialValue: bv16) returns (currentValue: bv16)
    ensures currentValue == Checksum(data, initialValue)
  {
    currentValue := initialValue;
    for charCnt := 0 to |data|
      invariant currentValue == Checksum(data[..charCnt], initialValue)
    {
      ghost var before := currentValue;
      var curChar := data[charCnt];
      for bitCnt := 0 to 8
        invariant ShiftInBits(currentValue, curChar, 8 - bitCnt) == ShiftInBits(before, data[charCnt], 8)
      {
        ShiftInDef(currentValue, curChar);
        if (curChar & 0x80 != 0) != (currentValue & 0x8000 != 0) {
          currentValue := (currentValue << 1) ^ 0x1021;
        } else {
          currentValue := currentValue << 1;
        }
        curChar := curChar << 1;
      }
      assert data[..charCnt + 1][..charCnt] == data[..charCnt];
    }
    assert data[..|data|] == data;
  }

  class CRC {
    const lookUpTable: array<bv16>

    ghost predicate Valid()
      reads lookUpTable
    {
      && lookUpTable.Length == 256
      && forall i :: 0 <= i < 256 ==> lookUpTable[i] == Entry(i as bv8)
    }

    constructor ()
      ensures Valid() && fresh(lookUpTable)
    {
      lookUpTable := new bv16[256];
      new;
      for i := 0 to 256
        invariant forall k :: 0 <= k < i ==> lookUpTable[k] == Entry(k as bv8)
      {
        var index := i as bv8;
        var tmp: bv16 := 0;
        if index & 1 != 0 { tmp := tmp ^ 0x1021; }
        if index & 2 != 0 { tmp := tmp ^ 0x2042; }
        if index & 4 != 0 { tmp := tmp ^ 0x4084; }
        if index & 8 != 0 { tmp := tmp ^ 0x8108; }
        if index & 16 != 0 { tmp := tmp ^ 0x1231; }
        if index & 32 != 0 { tmp := tmp ^ 0x2462; }
        if index & 64 != 0 { tmp := tmp ^ 0x48C4; }
        if index & 128 != 0 { tmp := tmp ^ 0x9188; }
        ConstantsGiveEntry(index);
        lookUpTable[i] := tmp;
      }
    }

    lemma EntryAt(index: bv8)
      requires Valid()
      ensures lookUpTable[index as int] == Entry(index)
    {
      IndexRoundTrip(index);
    }

    /** What the table holds for a byte. */
    method EntryOf(index: bv8) returns (e: bv16)
      requires Valid()
      ensures e == Entry(index)
    {
      EntryAt(index);
      e := lookUpTable[index as int];
    }

    /** One byte through the table. */
    method LookUp(value: bv16, c: bv8) returns (r: bv16)
      requires Valid()
      ensures r == ShiftInBits(value, c, 8)
    {
      var index := ((value >> 8) as bv8) ^ c;
      var e := EntryOf(index);
      r := (value << 8) ^ e;
      LookUpIsOneByte(value, c, index, e, r);
    }

    method ComputeCRC(data: seq<bv8>, initialValue: bv16) returns (currentValue: bv16)
      requires Valid()
      ensures currentValue == Checksum(data, initialValue)
    {
      currentValue := initialValue;
      for i := 0 to |data|
        invariant currentValue == Checksum(data[..i], initialValue)
      {
        OneByteMore(data, i, initialValue);
        currentValue := LookUp(currentValue, data[i]);
      }
      assert data[..|data|] == data;
    }
  }

  lemma OneByteMore(data: seq<bv8>, i: nat, initial: bv16)
    requires i < |data|
    ensures Checksum(data[..i + 1], initial) == ShiftInBits(Checksum(data[..i], initial), data[i], 8)
  {
    assert data[..i + 1][..i] == data[..i];
  }

  lemma IndexRoundTrip(b: bv8)
    ensures (b as int) as bv8 == b
  {
  }

  lemma LookUpIsOneByte(value: bv16, c: bv8, index: bv8, e: bv16, r: bv16)
    requires index == ((value >> 8) as bv8) ^ c && e == Entry(index) && r == (value << 8) ^ e
    ensures r == ShiftInBits(value, c, 8)
  {
    ByteIsTableStep(value, c);
    TableStepLooksUp(value, c, index, e);
  }

  // ---------------------------------------------------------------- properties

  /** A message may be checked piece by piece. */
  lemma {:induction false} ChecksumOfConcatenation(a: seq<bv8>, b: seq<bv8>, initial: bv16)
    ensures Checksum(a + b, initial) == Checksum(b, Checksum(a, initial))
    decreases |b|
  {
    if b == [] {
      assert a + b == a;
    } else {
      assert (a + b)[..|a + b| - 1] == a + b[..|b| - 1];
      ChecksumOfConcatenation(a, b[..|b| - 1], initial);
    }
  }

  lemma ChecksumOfTwo(a: bv8, b: bv8, initial: bv16)
    ensures Checksum([a, b], initial) == TableStep(TableStep(initial, a), b)
  {
    assert [a, b][..1] == [a] && [a][..0] == [];
    ByteIsTableStep(initial, a);
    ByteIsTableStep(TableStep(initial, a), b);
    assert Checksum([a], initial) == ShiftInBits(Checksum([], initial), a, 8);
    assert Checksum([a, b], initial) == ShiftInBits(Checksum([a], initial), b, 8);
  }

  lemma ChecksumInjective(data: seq<bv8>, u: bv16, v: bv16)
    requires Checksum(data, u) == Checksum(data, v)
    ensures u == v
  {
    if data != [] {
      var front, c := data[..|data| - 1], data[|data| - 1];
      ByteIsTableStep(Checksum(front, u), c);
      ByteIsTableStep(Checksum(front, v), c);
      TableStepInjective(Checksum(front, u), Checksum(front, v), c);
      ChecksumInjective(front, u, v);
    }
  }

  /** The checksum as sent: high byte first. */
  function BigEndian(crc: bv16): seq<bv8> {
    [(crc >> 8) as bv8, (crc & 0xFF) as bv8]
  }

  /** A receiver sees residue 0 exactly when the two bytes behind the message are its checksum. */
  lemma ResidueIsZero(data: seq<bv8>, initial: bv16, a: bv8, b: bv8)
    ensures Checksum(data + [a, b], initial) == 0 <==> [a, b] == BigEndian(Checksum(data, initial))
  {
    var crc := Checksum(data, initial);
    var high, low := BigEndian(crc)[0], BigEndian(crc)[1];
    ChecksumOfConcatenation(data, [a, b], initial);
    ChecksumOfTwo(a, b, crc);
    ResidueOfWord(crc, high, low, TableStep(crc, high));
    if TableStep(TableStep(crc, a), b) == 0 {
      TwoBytesInjective(crc, a, b, high, low, TableStep(crc, a), TableStep(crc, high));
    }
  }

  /** Damage confined to two neighbouring bytes always changes the checksum. */
  lemma DetectsBurst(before: seq<bv8>, after: seq<bv8>, initial: bv16, a1: bv8, a2: bv8, b1: bv8, b2: bv8)
    requires a1 != b1 || a2 != b2
    ensures Checksum(before + [a1, a2] + after, initial) != Checksum(before + [b1, b2] + after, initial)
  {
    var crc := Checksum(before, initial);
    ChecksumOfConcatenation(before + [a1, a2], after, initial);
    ChecksumOfConcatenation(before + [b1, b2], after, initial);
    ChecksumOfConcatenation(before, [a1, a2], initial);
    ChecksumOfConcatenation(before, [b1, b2], initial);
    ChecksumOfTwo(a1, a2, crc);
    ChecksumOfTwo(b1, b2, crc);
    if Checksum(before + [a1, a2] + after, initial) == Checksum(before + [b1, b2] + after, initial) {
      ChecksumInjective(after, Checksum([a1, a2], crc), Checksum([b1, b2], crc));
      TwoBytesInjective(crc, a1, a2, b1, b2, TableStep(crc, a1), TableStep(crc, b1));
      assert false;
    }
  }
}
