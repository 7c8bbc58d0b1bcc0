/** A thread that sleeps from beat to beat. */
module PeriodicThread {
  import opened Common
  import opened TimeModel

  class Thread {
    var nextBeat: int
    var period: int
    ghost var slept: seq<int>  // the times it has asked to sleep until

    constructor ()
      ensures slept == []
    {
      nextBeat, period := 0, 0;
      slept := [];
    }

    method SetPeriodicBeat(begin: int, period: int)
      modifies this`nextBeat, this`period
      ensures nextBeat == begin && this.period == period
    {
      nextBeat := begin;
      this.period := period;
    }

    method SuspendCallerUntil(reactivationTime: int)
      modifies this`slept
      ensures slept == old(slept) + [reactivationTime]
    {
      slept := slept + [reactivationTime];
    }

    /** `timeNow` is the time at which the thread runs again, late or, when somebody resumed it,
        early.  A thread whose period is 0 never returns from here. */
    method SuspendUntilNextBeat(timeNow: int)
      requires period != 0
      modifies this`nextBeat, this`slept
      ensures slept == old(slept) + [old(nextBeat)]
      ensures nextBeat == ComputeNextBeat(old(nextBeat), period, timeNow)
    {
      SuspendCallerUntil(nextBeat);
      nextBeat := ComputeNextBeat(nextBeat, period, timeNow);
    }
  }

  /** The next beat after running again at each of the given times. */
  function BeatAfter(begin: int, period: int, whens: seq<int>): int
    decreases |whens|
  {
    if whens == [] then begin
    else ComputeNextBeat(BeatAfter(begin, period, whens[..|whens| - 1]), period, whens[|whens| - 1])
  }

  /** A thread doing its rounds, and the times it sleeps until. */
  method Rounds(begin: int, period: int, whens: seq<int>) returns (t: Thread)
    requires 0 <= begin && 0 < period
    ensures fresh(t) && t.nextBeat == BeatAfter(begin, period, whens)
    ensures |t.slept| == |whens| && forall i :: 0 <= i < |whens| ==> t.slept[i] == BeatAfter(begin, period, whens[..i])
  {
    t := new Thread();
    t.SetPeriodicBeat(begin, period);
    for i := 0 to |whens|
      invariant fresh(t) && t.period == period && t.nextBeat == BeatAfter(begin, period, whens[..i])
      invariant |t.slept| == i && forall j :: 0 <= j < i ==> t.slept[j] == BeatAfter(begin, period, whens[..j])
    {
      assert whens[..i + 1][..i] == whens[..i];
      t.SuspendUntilNextBeat(whens[i]);
    }
    assert whens[..|whens|] == whens;
  }

  /** `k` is the number of the first beat after all the given times, and after `begin` on if there
      is none before it. */
  ghost predicate FirstBeatAfter(begin: int, period: int, whens: seq<int>, k: nat) {
    && (forall i :: 0 <= i < |whens| ==> whens[i] < Beat(begin, period, k))
    && (forall j: nat :: j < k ==> exists i :: 0 <= i < |whens| && Beat(begin, period, j) <= whens[i])
  }

  /** Over every run, late, early or on time: the beat slept for next is the first of the grid after
      all times the thread has run at. So no beat is slept for twice once it is past, none that is still to
      come is left out, and lateness never shifts the grid. */
  lemma {:induction false} SleepsForFirstBeat(begin: int, period: int, whens: seq<int>) returns (k: nat)
    requires 0 <= begin && 0 < period
    requires forall i :: 0 <= i < |whens| ==> 0 <= whens[i] && whens[i] + period < END_OF_TIME
    ensures BeatAfter(begin, period, whens) == Beat(begin, period, k) && FirstBeatAfter(begin, period, whens, k)
    decreases |whens|
  {
    k := 0;
    if whens != [] {
      var front, now := whens[..|whens| - 1], whens[|whens| - 1];
      k := SleepsForFirstBeat(begin, period, front);
      k := OneMoreRound(begin, period, front, now, k);
      assert whens == front + [now];
    }
  }

  lemma OneMoreRound(begin: int, period: int, front: seq<int>, now: int, k: nat) returns (next: nat)
    requires 0 <= begin && 0 < period && 0 <= now && now + period < END_OF_TIME
    requires FirstBeatAfter(begin, period, front, k)
    ensures ComputeNextBeat(Beat(begin, period, k), period, now) == Beat(begin, period, next)
    ensures FirstBeatAfter(begin, period, front + [now], next)
  {
    var whens, at := front + [now], Beat(begin, period, k);
    MultiplyMonotone(0, k, period);
    if at > now {
      next := k;
      forall j: nat | j < k ensures exists i :: 0 <= i < |whens| && Beat(begin, period, j) <= whens[i] {
        var i :| 0 <= i < |front| && Beat(begin, period, j) <= front[i];
        assert whens[i] == front[i];
      }
    } else {
      var m := NextBeatIsLeast(at, period, now);
      next := k + m;
      BeatsAdd(begin, period, k, m);
      assert Beat(begin, period, next) == at + m * period;
      forall j: nat | j < next ensures exists i :: 0 <= i < |whens| && Beat(begin, period, j) <= whens[i] {
        BeatsAdd(begin, period, k, j - k);
        assert j - k < m;
        assert !(now < at + (j - k) * period);
        assert whens[|front|] == now && Beat(begin, period, j) <= whens[|front|];
      }
    }
    assert forall i :: 0 <= i < |whens| ==> whens[i] < Beat(begin, period, next);
  }
}
