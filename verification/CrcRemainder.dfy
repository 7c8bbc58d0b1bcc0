/** The CRC register bit by bit. */
module CrcBits {

  function Xor(a: bool, b: bool): bool {
    a != b
  }

  /** The `n` highest bits of a word, the highest first. */
  function Bits(v: bv16, n: nat): (p: seq<bool>)
    ensures |p| == n
    decreases n
  {
    if n == 0 then [] else [v & 0x8000 != 0] + Bits(v << 1, n - 1)
  }

  lemma BitsDef(v: bv16, w: bv16, t: bool, n: nat)
    requires w == v << 1 && t == (v & 0x8000 != 0) && n > 0
    ensures Bits(v, n) == [t] + Bits(w, n - 1)
  {
  }

  lemma TopOfSum(a: bv16, b: bv16, s: bv16, a1: bv16, b1: bv16, s1: bv16, ta: bool, tb: bool, ts: bool)
    requires s == a ^ b && a1 == a << 1 && b1 == b << 1 && s1 == s << 1
    requires ta == (a & 0x8000 != 0) && tb == (b & 0x8000 != 0) && ts == (s & 0x8000 != 0)
    ensures ts == (ta != tb) && s1 == a1 ^ b1
  {
  }

  function Sum(p: seq<bool>, q: seq<bool>): (r: seq<bool>)
    requires |p| == |q|
    ensures |r| == |p|
  {
    seq(|p|, i requires 0 <= i < |p| => Xor(p[i], q[i]))
  }

  lemma SumOfFirst(a: bool, p: seq<bool>, b: bool, q: seq<bool>)
    requires |p| == |q|
    ensures Sum([a] + p, [b] + q) == [Xor(a, b)] + Sum(p, q)
  {
  }

  /** Adding words adds their bits. */
  lemma {:induction false} BitsOfSum(a: bv16, b: bv16, s: bv16, n: nat)
    requires s == a ^ b
    ensures Bits(s, n) == Sum(Bits(a, n), Bits(b, n))
    decreases n
  {
    if n > 0 {
      var a1, b1, s1 := a << 1, b << 1, s << 1;
      var ta, tb, ts := a & 0x8000 != 0, b & 0x8000 != 0, s & 0x8000 != 0;
      TopOfSum(a, b, s, a1, b1, s1, ta, tb, ts);
      BitsOfSum(a1, b1, s1, n - 1);
      BitsDef(a, a1, ta, n);
      BitsDef(b, b1, tb, n);
      BitsDef(s, s1, ts, n);
      SumOfFirst(ta, Bits(a1, n - 1), tb, Bits(b1, n - 1));
    }
  }

  function ShiftedUp(v: bv16, n: nat): bv16
    decreases n
  {
    if n == 0 then v else ShiftedUp(v << 1, n - 1)
  }

  lemma {:induction false} OneBitMore(v: bv16, n: nat)
    ensures Bits(v, n + 1) == Bits(v, n) + [ShiftedUp(v, n) & 0x8000 != 0]
    decreases n
  {
    if n > 0 {
      OneBitMore(v << 1, n - 1);
    }
  }

  lemma FourShifts(v: bv16, w: bv16)
    requires w == v << 4
    ensures v << 1 << 1 << 1 << 1 == w
  {
  }

  lemma FourUp(v: bv16, w: bv16, n: nat)
    requires w == v << 4
    ensures ShiftedUp(v, n + 4) == ShiftedUp(w, n)
  {
    assert ShiftedUp(v, n + 4) == ShiftedUp(v << 1, n + 3);
    assert ShiftedUp(v << 1, n + 3) == ShiftedUp(v << 1 << 1, n + 2);
    assert ShiftedUp(v << 1 << 1, n + 2) == ShiftedUp(v << 1 << 1 << 1, n + 1);
    FourShifts(v, w);
  }

  lemma AllShiftedOut(v: bv16, w4: bv16, w8: bv16, w12: bv16, w16: bv16)
    requires w4 == v << 4 && w8 == w4 << 4 && w12 == w8 << 4 && w16 == w12 << 4
    ensures w16 == 0
  {
  }

  lemma NothingLeft(v: bv16)
    ensures ShiftedUp(v, 16) == 0
  {
    FourUp(v, v << 4, 12);
    FourUp(v << 4, v << 4 << 4, 8);
    FourUp(v << 4 << 4, v << 4 << 4 << 4, 4);
    FourUp(v << 4 << 4 << 4, v << 4 << 4 << 4 << 4, 0);
    AllShiftedOut(v, v << 4, v << 4 << 4, v << 4 << 4 << 4, v << 4 << 4 << 4 << 4);
  }

  lemma NoTop(w: bv16)
    requires w == 0
    ensures !(w & 0x8000 != 0)
  {
  }

  /** One place up: the highest bit is gone, and 0 comes in. */
  lemma BitsUp(v: bv16, w: bv16)
    requires w == v << 1
    ensures Bits(w, 16) == Bits(v, 16)[1..] + [false]
  {
    OneBitMore(w, 15);
    BitsDef(v, w, v & 0x8000 != 0, 16);
    assert ShiftedUp(w, 15) == ShiftedUp(v, 16);
    NothingLeft(v);
    NoTop(ShiftedUp(v, 16));
  }

  /** The generator without its highest power: x^12 + x^5 + 1. */
  function Generator(): (p: seq<bool>)
    ensures |p| == 16
  {
    [false, false, false, true, false, false, false, false, false, false, true, false, false, false, false, true]
  }

  lemma GeneratorBits()
    ensures Bits(0x1021, 16) == Generator()
  {
    BitsDef(0x1021, 0x2042, false, 16);
    BitsDef(0x2042, 0x4084, false, 15);
    BitsDef(0x4084, 0x8108, false, 14);
    BitsDef(0x8108, 0x0210, true, 13);
    BitsDef(0x0210, 0x0420, false, 12);
    BitsDef(0x0420, 0x0840, false, 11);
    BitsDef(0x0840, 0x1080, false, 10);
    BitsDef(0x1080, 0x2100, false, 9);
    BitsDef(0x2100, 0x4200, false, 8);
    BitsDef(0x4200, 0x8400, false, 7);
    BitsDef(0x8400, 0x0800, true, 6);
    BitsDef(0x0800, 0x1000, false, 5);
    BitsDef(0x1000, 0x2000, false, 4);
    BitsDef(0x2000, 0x4000, false, 3);
    BitsDef(0x4000, 0x8000, false, 2);
    BitsDef(0x8000, 0x0000, true, 1);
  }

  /** The register after one step of long division. */
  lemma BitsAfter(v: bv16, w: bv16, r: bv16, t: bool)
    requires w == v << 1 && r == if t then w ^ 0x1021 else w
    ensures var up := Bits(v, 16)[1..] + [false];
            Bits(r, 16) == if t then Sum(up, Generator()) else up
  {
    BitsUp(v, w);
    GeneratorBits();
    if t {
      BitsOfSum(w, 0x1021, r, 16);
    }
  }

  lemma TopOfZero(w: bv16)
    requires !(w & 0x8000 != 0) && w << 1 == 0
    ensures w == 0
  {
  }

  ghost predicate AllZero(p: seq<bool>) {
    forall k :: 0 <= k < |p| ==> !p[k]
  }

  lemma {:induction false} ZeroBits(w: bv16, n: nat)
    requires AllZero(Bits(w, n)) && ShiftedUp(w, n) == 0
    ensures w == 0
    decreases n
  {
    if n > 0 {
      BitsDef(w, w << 1, w & 0x8000 != 0, n);
      assert Bits(w, n)[1..] == Bits(w << 1, n - 1) && !Bits(w, n)[0];
      ZeroBits(w << 1, n - 1);
      TopOfZero(w);
    }
  }

  lemma ZeroSum(u: bv16, v: bv16, s: bv16)
    requires s == u ^ v && s == 0
    ensures u == v
  {
  }

  /** A word is known by its bits. */
  lemma EqualBits(u: bv16, v: bv16)
    requires Bits(u, 16) == Bits(v, 16)
    ensures u == v
  {
    var s := u ^ v;
    BitsOfSum(u, v, s, 16);
    NothingLeft(s);
    ZeroBits(s, 16);
    ZeroSum(u, v, s);
  }
}

/** What the checksum is: the remainder of the message, read as a polynomial with coefficients 0 and 1,
    divided by x^16 + x^12 + x^5 + 1. Nothing here refers to how it is computed. */
module CrcRemainder {
  import opened CrcBits
  import opened CrcWords
  import opened Crc

  // ---------------------------------------------------------------- polynomials

  /** The coefficient of x^i; coefficients are listed with the highest power first. */
  function Coefficient(p: seq<bool>, i: int): bool {
    0 <= i < |p| && p[|p| - 1 - i]
  }

  /** The coefficient of x^i in `q` times the generator. */
  function TimesGenerator(q: seq<bool>, i: int): bool {
    Xor(Xor(Coefficient(q, i), Coefficient(q, i - 5)), Xor(Coefficient(q, i - 12), Coefficient(q, i - 16)))
  }

  /** The `n` highest bits of a byte. */
  function TopBits(c: bv8, n: nat): seq<bool>
    decreases n
  {
    if n == 0 then [] else [c & 0x80 != 0] + TopBits(c << 1, n - 1)
  }

  function DataBits(data: seq<bv8>): seq<bool> {
    if data == [] then [] else DataBits(data[..|data| - 1]) + TopBits(data[|data| - 1], 8)
  }

  /** The coefficient of x^i in the dividend: the message times x^16, and the initial value in front
      of the message. */
  function Dividend(bits: seq<bool>, initial: seq<bool>, i: int): bool {
    Xor(Coefficient(initial, i - |bits|), Coefficient(bits, i - 16))
  }

  /** The dividend is `q` times the generator plus `r`, whose degree is below 16. */
  ghost predicate IsDivision(bits: seq<bool>, initial: seq<bool>, q: seq<bool>, r: seq<bool>) {
    && |initial| == 16 && |r| == 16
    && forall i: int {:trigger Dividend(bits, initial, i)} :: Dividend(bits, initial, i) == Xor(TimesGenerator(q, i), Coefficient(r, i))
  }

  // ---------------------------------------------------------------- one bit

  lemma CoefficientAfter(p: seq<bool>, b: bool, i: int)
    ensures Coefficient(p + [b], i) == if i == 0 then b else Coefficient(p, i - 1)
  {
  }

  /** A register one place up, the generator subtracted if `t`. */
  function Shifted(p: seq<bool>, t: bool): (s: seq<bool>)
    requires |p| == 16
    ensures |s| == 16
  {
    if t then Sum(p[1..] + [false], Generator()) else p[1..] + [false]
  }

  lemma ShiftedCoefficient(p: seq<bool>, t: bool, i: int)
    requires |p| == 16
    ensures Coefficient(Shifted(p, t), i) ==
            Xor(Xor(Coefficient(p, i - 1), i == 16 && p[0]), t && (i == 0 || i == 5 || i == 12))
  {
    if 0 <= i < 16 {
      var up := p[1..] + [false];
      assert up[15 - i] == (i > 0 && p[16 - i]);
      assert Generator()[15 - i] == (i == 0 || i == 5 || i == 12);
      assert Shifted(p, t)[15 - i] == Xor(up[15 - i], t && Generator()[15 - i]);
    }
  }

  lemma QuotientAfter(q: seq<bool>, t: bool, i: int)
    ensures TimesGenerator(q + [t], i) == Xor(TimesGenerator(q, i - 1), t && (i == 0 || i == 5 || i == 12 || i == 16))
  {
    CoefficientAfter(q, t, i);
    CoefficientAfter(q, t, i - 5);
    CoefficientAfter(q, t, i - 12);
    CoefficientAfter(q, t, i - 16);
  }

  lemma DividendAfter(bits: seq<bool>, initial: seq<bool>, b: bool, i: int)
    ensures Dividend(bits + [b], initial, i) == Xor(Dividend(bits, initial, i - 1), b && i == 16)
  {
    CoefficientAfter(bits, b, i - 16);
  }

  /** At x^i: `d`, `g` and `c` are the coefficients of dividend, multiple and remainder at x^(i-1). */
  lemma SubtractOnce(d: bool, g: bool, c: bool, b: bool, top: bool, low: bool, high: bool)
    requires d == Xor(g, c) && !(low && high)
    ensures var t := Xor(b, top);
            Xor(d, b && high) == Xor(Xor(g, t && (low || high)), Xor(Xor(c, high && top), t && low))
  {
  }

  lemma DivisionAt(bits: seq<bool>, initial: seq<bool>, q: seq<bool>, p: seq<bool>, b: bool, t: bool, i: int)
    requires |p| == 16 && t == Xor(b, p[0])
    requires Dividend(bits, initial, i - 1) == Xor(TimesGenerator(q, i - 1), Coefficient(p, i - 1))
    ensures Dividend(bits + [b], initial, i) == Xor(TimesGenerator(q + [t], i), Coefficient(Shifted(p, t), i))
  {
    DividendAfter(bits, initial, b, i);
    QuotientAfter(q, t, i);
    ShiftedCoefficient(p, t, i);
    SubtractOnce(Dividend(bits, initial, i - 1), TimesGenerator(q, i - 1), Coefficient(p, i - 1), b, p[0],
                 i == 0 || i == 5 || i == 12, i == 16);
  }

  /** A bit entering continues the division by one place: the generator is subtracted if that bit and
      the highest of the remainder differ. */
  lemma DivisionAfter(bits: seq<bool>, initial: seq<bool>, q: seq<bool>, p: seq<bool>, b: bool)
    requires IsDivision(bits, initial, q, p)
    ensures IsDivision(bits + [b], initial, q + [Xor(b, p[0])], Shifted(p, Xor(b, p[0])))
  {
    var t := Xor(b, p[0]);
    forall i: int
      ensures Dividend(bits + [b], initial, i) == Xor(TimesGenerator(q + [t], i), Coefficient(Shifted(p, t), i))
    {
      assert Dividend(bits, initial, i - 1) == Xor(TimesGenerator(q, i - 1), Coefficient(p, i - 1));
      DivisionAt(bits, initial, q, p, b, t, i);
    }
  }

  // ---------------------------------------------------------------- the whole message

  lemma FirstOfTop(c: bv8, c1: bv8, b: bool, n: nat)
    requires c1 == c << 1 && b == (c & 0x80 != 0) && n > 0
    ensures TopBits(c, n) == [b] + TopBits(c1, n - 1)
  {
  }

  lemma FirstShiftedIn(v: bv16, c: bv8, c1: bv8, w: bv16, n: nat)
    requires c1 == c << 1 && w == ShiftIn(v, c) && n > 0
    ensures ShiftInBits(v, c, n) == ShiftInBits(w, c1, n - 1)
  {
  }

  lemma RegisterAfter(v: bv16, c: bv8, b: bool, w: bv16)
    requires b == (c & 0x80 != 0) && w == ShiftIn(v, c)
    ensures Bits(w, 16) == Shifted(Bits(v, 16), Xor(b, Bits(v, 16)[0]))
  {
    var top := v & 0x8000 != 0;
    BitsDef(v, v << 1, top, 16);
    ShiftInDef(v, c);
    BitsAfter(v, v << 1, w, Xor(b, top));
  }

  lemma Regroup(p: seq<bool>, b: bool, q: seq<bool>)
    ensures p + ([b] + q) == p + [b] + q
  {
  }

  lemma BitDivides(bits: seq<bool>, initial: seq<bool>, q: seq<bool>, v: bv16, c: bv8, b: bool, w: bv16)
    requires b == (c & 0x80 != 0) && w == ShiftIn(v, c)
    requires IsDivision(bits, initial, q, Bits(v, 16))
    ensures IsDivision(bits + [b], initial, q + [Xor(b, Bits(v, 16)[0])], Bits(w, 16))
  {
    RegisterAfter(v, c, b, w);
    DivisionAfter(bits, initial, q, Bits(v, 16), b);
  }

  lemma SameDivision(bits: seq<bool>, initial: seq<bool>, q: seq<bool>, v: bv16, c: bv8, b: bool, c1: bv8, w: bv16, n: nat)
    requires c1 == c << 1 && b == (c & 0x80 != 0) && w == ShiftIn(v, c) && n > 0
    requires IsDivision(bits + [b] + TopBits(c1, n - 1), initial, q, Bits(ShiftInBits(w, c1, n - 1), 16))
    ensures IsDivision(bits + TopBits(c, n), initial, q, Bits(ShiftInBits(v, c, n), 16))
  {
    FirstOfTop(c, c1, b, n);
    Regroup(bits, b, TopBits(c1, n - 1));
    FirstShiftedIn(v, c, c1, w, n);
  }

  lemma {:induction false} BitsDivide(bits: seq<bool>, initial: seq<bool>, q: seq<bool>, v: bv16, c: bv8, n: nat)
    returns (quotient: seq<bool>)
    requires IsDivision(bits, initial, q, Bits(v, 16))
    ensures IsDivision(bits + TopBits(c, n), initial, quotient, Bits(ShiftInBits(v, c, n), 16))
    decreases n
  {
    if n == 0 {
      quotient := q;
      assert bits + [] == bits;
    } else {
      var b, c1, w := c & 0x80 != 0, c << 1, ShiftIn(v, c);
      var longer := q + [Xor(b, Bits(v, 16)[0])];
      BitDivides(bits, initial, q, v, c, b, w);
      quotient := BitsDivide(bits + [b], initial, longer, w, c1, n - 1);
      SameDivision(bits, initial, quotient, v, c, b, c1, w, n);
    }
  }

  lemma {:induction false} ChecksumDivides(data: seq<bv8>, initial: bv16) returns (quotient: seq<bool>)
    ensures IsDivision(DataBits(data), Bits(initial, 16), quotient, Bits(Checksum(data, initial), 16))
    decreases |data|
  {
    if data == [] {
      quotient := [];
    } else {
      var front, c := data[..|data| - 1], data[|data| - 1];
      var q := ChecksumDivides(front, initial);
      quotient := BitsDivide(DataBits(front), Bits(initial, 16), q, Checksum(front, initial), c, 8);
    }
  }

  // ---------------------------------------------------------------- there is one remainder

  /** Two divisions of the same dividend have the same quotient, from the highest place down. */
  lemma {:induction false} QuotientsAgree(bits: seq<bool>, initial: seq<bool>, q1: seq<bool>, r1: seq<bool>,
                                          q2: seq<bool>, r2: seq<bool>, i: nat)
    requires IsDivision(bits, initial, q1, r1) && IsDivision(bits, initial, q2, r2)
    ensures Coefficient(q1, i) == Coefficient(q2, i)
    decreases |q1| + |q2| - i
  {
    if i < |q1| + |q2| {
      QuotientsAgree(bits, initial, q1, r1, q2, r2, i + 16);
      QuotientsAgree(bits, initial, q1, r1, q2, r2, i + 11);
      QuotientsAgree(bits, initial, q1, r1, q2, r2, i + 4);
      assert Dividend(bits, initial, i + 16) == Xor(TimesGenerator(q1, i + 16), Coefficient(r1, i + 16));
      assert Dividend(bits, initial, i + 16) == Xor(TimesGenerator(q2, i + 16), Coefficient(r2, i + 16));
    }
  }

  lemma SameCoefficients(p: seq<bool>, q: seq<bool>)
    requires |p| == |q| && forall i: nat :: Coefficient(p, i) == Coefficient(q, i)
    ensures p == q
  {
    forall k | 0 <= k < |p| ensures p[k] == q[k] {
      assert Coefficient(p, |p| - 1 - k) == Coefficient(q, |p| - 1 - k);
    }
  }

  lemma RemainderIsUnique(bits: seq<bool>, initial: seq<bool>, q1: seq<bool>, r1: seq<bool>, q2: seq<bool>, r2: seq<bool>)
    requires IsDivision(bits, initial, q1, r1) && IsDivision(bits, initial, q2, r2)
    ensures r1 == r2
  {
    forall j: nat ensures Coefficient(q1, j) == Coefficient(q2, j) {
      QuotientsAgree(bits, initial, q1, r1, q2, r2, j);
    }
    forall i: nat ensures Coefficient(r1, i) == Coefficient(r2, i) {
      assert Dividend(bits, initial, i) == Xor(TimesGenerator(q1, i), Coefficient(r1, i));
      assert Dividend(bits, initial, i) == Xor(TimesGenerator(q2, i), Coefficient(r2, i));
    }
    SameCoefficients(r1, r2);
  }

  /** `r` is a remainder of the message. */
  ghost predicate IsRemainder(data: seq<bv8>, initial: bv16, r: bv16) {
    exists q: seq<bool> :: IsDivision(DataBits(data), Bits(initial, 16), q, Bits(r, 16))
  }

  lemma SomeRemainder(data: seq<bv8>, initial: bv16, r: bv16, q: seq<bool>)
    requires IsDivision(DataBits(data), Bits(initial, 16), q, Bits(r, 16))
    ensures IsRemainder(data, initial, r)
  {
  }

  lemma OneRemainder(data: seq<bv8>, initial: bv16, r: bv16, s: bv16)
    requires IsRemainder(data, initial, r) && IsRemainder(data, initial, s)
    ensures r == s
  {
    var bits, init := DataBits(data), Bits(initial, 16);
    var q: seq<bool> :| IsDivision(bits, init, q, Bits(r, 16));
    var p: seq<bool> :| IsDivision(bits, init, p, Bits(s, 16));
    RemainderIsUnique(bits, init, q, Bits(r, 16), p, Bits(s, 16));
    EqualBits(r, s);
  }

  /** A word is the checksum of a message if and only if it is the remainder of that division. */
  lemma ChecksumIsRemainder(data: seq<bv8>, initial: bv16, r: bv16)
    ensures IsRemainder(data, initial, r) <==> r == Checksum(data, initial)
  {
    var crc := Checksum(data, initial);
    var quotient := ChecksumDivides(data, initial);
    SomeRemainder(data, initial, crc, quotient);
    if IsRemainder(data, initial, r) {
      OneRemainder(data, initial, r, crc);
    }
  }
}
