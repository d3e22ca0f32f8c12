/**
 The dejitter clock: a filter that turns jittery readings of the wall clock into an
 adjusted OSC time, one step per DSP tick.

 Times and periods are exact real seconds. `Advance` is the specification of one tick, the
 class method `Dejitter.Update` is the in-place code, and the lemmas speak of `After(run)`,
 the state that an arbitrary run of ticks leads to. Readings may go backwards.
 */
module Dejitters {

  const TOLERANCE := 0.1
  const MAX_DELTA := 0.02
  // The empty time tag, the value of a time tag that was never set.
  const EMPTY := 0.0

  datatype Filter = Filter(last: real, adjusted: real, lastBigDelta: real)

  // One DSP tick: what the wall clock reads and the nominal length of a block.
  datatype Tick = Tick(reading: real, period: real)

  const START := Filter(EMPTY, EMPTY, 0.0)

  function Max(a: real, b: real): real {
    if a < b then b else a
  }

  // A tick is short when it came earlier than its nominal period, beyond the tolerance.
  predicate IsShort(delta: real, period: real)
    requires period > 0.0
  {
    delta / period < 1.0 - TOLERANCE
  }

  lemma ShortIff(delta: real, period: real)
    requires period > 0.0
    ensures IsShort(delta, period) <==> delta < 0.9 * period
  {
  }

  // The specification of a tick: either the nominal step, or the later of old and real time.
  function Advance(f: Filter, t: Tick): Filter
    requires t.period > 0.0
  {
    if f.last == EMPTY then
      f.(last := t.reading, adjusted := t.reading)
    else
      var delta := t.reading - f.last;
      var short := IsShort(delta, t.period);
      Filter(t.reading,
             if short && f.lastBigDelta <= MAX_DELTA then f.adjusted + t.period else Max(f.adjusted, t.reading),
             if short then f.lastBigDelta else delta)
  }

  class Dejitter {
    var refcount: int
    var lastOscTime: real
    var oscTimeAdjusted: real
    var lastBigDelta: real

    constructor ()
      ensures refcount == 1 && State() == START
    {
      refcount := 1;
      lastOscTime, oscTimeAdjusted, lastBigDelta := EMPTY, EMPTY, 0.0;
    }

    function State(): Filter
      reads this
    {
      Filter(lastOscTime, oscTimeAdjusted, lastBigDelta)
    }

    method Update(osctime: real, period: real)
      requires period > 0.0
      modifies this
      ensures State() == Advance(old(State()), Tick(osctime, period))
      ensures refcount == old(refcount)
    {
      if lastOscTime == EMPTY {
        oscTimeAdjusted := osctime;
      } else {
        var delta := osctime - lastOscTime;
        if delta / period < 1.0 - TOLERANCE {
          // do not advance after a big delta, so that the clock catches up
          if lastBigDelta <= MAX_DELTA {
            oscTimeAdjusted := oscTimeAdjusted + period;
          } else if osctime > oscTimeAdjusted {
            oscTimeAdjusted := osctime;
          }
        } else {
          // never let time go backwards
          if osctime > oscTimeAdjusted {
            oscTimeAdjusted := osctime;
          }
          lastBigDelta := delta;
        }
      }
      lastOscTime := osctime;
    }
  }

  // ---------- Runs ----------

  predicate IsRun(run: seq<Tick>) {
    forall i | 0 <= i < |run| :: run[i].reading != EMPTY && run[i].period > 0.0
  }

  function After(run: seq<Tick>): Filter
    requires IsRun(run)
  {
    if run == [] then START else Advance(After(run[..|run| - 1]), run[|run| - 1])
  }

  function Adjusted(run: seq<Tick>): real
    requires IsRun(run)
  {
    After(run).adjusted
  }

  // The nominal time that passes from tick `from` (inclusive) to the end of the run.
  function Elapsed(run: seq<Tick>, from: nat): real
    requires from <= |run|
  {
    if from == |run| then 0.0 else Elapsed(run[..|run| - 1], from) + run[|run| - 1].period
  }

  function Delta(run: seq<Tick>, i: nat): real
    requires 1 <= i < |run|
  {
    run[i].reading - run[i - 1].reading
  }

  predicate ShortAt(run: seq<Tick>, i: nat)
    requires IsRun(run) && 1 <= i < |run|
  {
    Delta(run, i) < 0.9 * run[i].period
  }

  // The delta of the last tick that was not short (0 if there was none), read off the run alone.
  function LastLongDelta(run: seq<Tick>): real
    requires IsRun(run)
  {
    if |run| <= 1 then 0.0
    else if ShortAt(run, |run| - 1) then LastLongDelta(run[..|run| - 1])
    else Delta(run, |run| - 1)
  }

  // The tick advances by exactly the nominal period.
  predicate NominalAt(run: seq<Tick>, i: nat)
    requires IsRun(run) && 1 <= i < |run|
  {
    ShortAt(run, i) && LastLongDelta(run[..i]) <= MAX_DELTA
  }

  // What the filter remembers is the last reading and the last long delta.
  lemma {:induction false} RememberedState(run: seq<Tick>)
    requires IsRun(run) && run != []
    ensures After(run).last == run[|run| - 1].reading
    ensures After(run).lastBigDelta == LastLongDelta(run)
  {
    if |run| > 1 {
      RememberedState(run[..|run| - 1]);
      ShortIff(Delta(run, |run| - 1), run[|run| - 1].period);
    } else {
      assert run[..0] == [];
    }
  }

  // One tick of a run, in terms of the run.
  lemma LastTick(run: seq<Tick>)
    requires IsRun(run) && |run| >= 2
    ensures Adjusted(run) == if NominalAt(run, |run| - 1)
                             then Adjusted(run[..|run| - 1]) + run[|run| - 1].period
                             else Max(Adjusted(run[..|run| - 1]), run[|run| - 1].reading)
  {
    RememberedState(run[..|run| - 1]);
    ShortIff(Delta(run, |run| - 1), run[|run| - 1].period);
  }

  lemma FirstTick(run: seq<Tick>)
    requires IsRun(run) && |run| == 1
    ensures Adjusted(run) == run[0].reading
  {
    assert After(run[..|run| - 1]) == START;
  }

  // ---------- The closed form and the sandwich ----------

  // The nominal time credited from tick `from` (inclusive) to the end of the run.
  function Credit(run: seq<Tick>, from: nat): real
    requires IsRun(run) && 1 <= from <= |run|
  {
    if from == |run| then 0.0
    else Credit(run[..|run| - 1], from) + if NominalAt(run, |run| - 1) then run[|run| - 1].period else 0.0
  }

  lemma {:induction false} CreditBounds(run: seq<Tick>, from: nat)
    requires IsRun(run) && 1 <= from <= |run|
    ensures 0.0 <= Credit(run, from) <= Elapsed(run, from)
  {
    if from < |run| {
      CreditBounds(run[..|run| - 1], from);
    }
  }

  // Every reading, moved forward by the credit since, is a lower bound.
  lemma {:induction false} ReadingPlusCredit(run: seq<Tick>, m: nat)
    requires IsRun(run) && m < |run|
    ensures run[m].reading + Credit(run, m + 1) <= Adjusted(run)
  {
    if |run| == 1 {
      FirstTick(run);
    } else {
      var n := |run| - 1;
      LastTick(run);
      ReadingPlusCredit(run[..n], n - 1);
      if m < n {
        ReadingPlusCredit(run[..n], m);
      }
    }
  }

  // Some reading, moved forward by the credit since, is the adjusted time.
  lemma {:induction false} SomeReadingPlusCredit(run: seq<Tick>) returns (m: nat)
    requires IsRun(run) && run != []
    ensures m < |run|
    ensures Adjusted(run) == run[m].reading + Credit(run, m + 1)
  {
    m := |run| - 1;
    if |run| == 1 {
      FirstTick(run);
    } else {
      LastTick(run);
      if Adjusted(run) != run[m].reading {
        m := SomeReadingPlusCredit(run[..|run| - 1]);
      }
    }
  }

  /**
   The adjusted time after any run is exactly the maximum, over all ticks, of the reading at
   the tick plus the periods of the nominal ticks since.
   */
  lemma ClosedForm(run: seq<Tick>)
    requires IsRun(run) && run != []
    ensures forall m :: 0 <= m < |run| ==> run[m].reading + Credit(run, m + 1) <= Adjusted(run)
    ensures exists m :: 0 <= m < |run| && Adjusted(run) == run[m].reading + Credit(run, m + 1)
  {
    forall m | 0 <= m < |run| ensures run[m].reading + Credit(run, m + 1) <= Adjusted(run) {
      ReadingPlusCredit(run, m);
    }
    var m := SomeReadingPlusCredit(run);
  }

  lemma NeverBehindAnyReading(run: seq<Tick>, m: nat)
    requires IsRun(run) && m < |run|
    ensures run[m].reading <= Adjusted(run)
  {
    ReadingPlusCredit(run, m);
    CreditBounds(run, m + 1);
  }

  // Some earlier tick `m` such that the adjusted time is at most its reading plus the
  // nominal time since.
  lemma NeverAheadOfNominal(run: seq<Tick>) returns (m: nat)
    requires IsRun(run) && run != []
    ensures m < |run|
    ensures Adjusted(run) <= run[m].reading + Elapsed(run, m + 1)
  {
    m := SomeReadingPlusCredit(run);
    CreditBounds(run, m + 1);
  }

  lemma {:induction false} NeverGoesBack(run: seq<Tick>, i: nat)
    requires IsRun(run) && 1 <= i <= |run|
    ensures Adjusted(run[..i]) <= Adjusted(run)
  {
    if i == |run| {
      assert run[..i] == run;
    } else {
      LastTick(run);
      NeverGoesBack(run[..|run| - 1], i);
      assert run[..|run| - 1][..i] == run[..i];
    }
  }

  /**
   Over every run the adjusted time never decreases, is at least every reading so far, and
   is at most the largest of "a reading plus the nominal time since".
   */
  lemma Sandwich(run: seq<Tick>)
    requires IsRun(run) && run != []
    ensures forall i :: 1 <= i <= |run| ==> Adjusted(run[..i]) <= Adjusted(run)
    ensures forall m :: 0 <= m < |run| ==> run[m].reading <= Adjusted(run)
    ensures exists m :: 0 <= m < |run| && Adjusted(run) <= run[m].reading + Elapsed(run, m + 1)
  {
    forall i | 1 <= i <= |run| ensures Adjusted(run[..i]) <= Adjusted(run) {
      NeverGoesBack(run, i);
    }
    forall m | 0 <= m < |run| ensures run[m].reading <= Adjusted(run) {
      NeverBehindAnyReading(run, m);
    }
    var m := NeverAheadOfNominal(run);
  }

  /**
   If from no tick on the real clock loses more than `slack` against the nominal time, the
   adjusted time is never more than `slack` ahead of the real clock.
   */
  lemma BoundedLead(run: seq<Tick>, slack: real)
    requires IsRun(run) && run != []
    requires forall m :: 0 <= m < |run| ==>
                           run[|run| - 1].reading - run[m].reading >= Elapsed(run, m + 1) - slack
    ensures run[|run| - 1].reading <= Adjusted(run) <= run[|run| - 1].reading + slack
  {
    var m := NeverAheadOfNominal(run);
    NeverBehindAnyReading(run, |run| - 1);
  }

  // ---------- Nominal rate and catching up ----------

  /**
   The exact choice at every tick: the clock takes the later of its old value and real time
   if the tick is long or the last long tick exceeded MAX_DELTA, 20 ms, and only then; otherwise it
   advances by the period, which is strictly more.
   */
  lemma CatchesUpIff(run: seq<Tick>)
    requires IsRun(run) && |run| >= 2
    ensures var n := |run| - 1;
            var later := Max(Adjusted(run[..n]), run[n].reading);
            && (Adjusted(run) == later <==> !ShortAt(run, n) || LastLongDelta(run[..n]) > 0.02)
            && (Adjusted(run) != later ==> Adjusted(run) == Adjusted(run[..n]) + run[n].period > later)
  {
    var n := |run| - 1;
    LastTick(run);
    NeverBehindAnyReading(run[..n], n - 1);
  }

  // A stretch of short ticks does not change what the filter remembers.
  lemma {:induction false} ShortTicksKeepDelta(run: seq<Tick>, m: nat)
    requires IsRun(run) && m < |run|
    requires forall i :: m < i < |run| ==> ShortAt(run, i)
    ensures LastLongDelta(run) == LastLongDelta(run[..m + 1])
  {
    if m + 1 == |run| {
      assert run[..m + 1] == run;
    } else {
      var front := run[..|run| - 1];
      forall i | m < i < |front| ensures ShortAt(front, i) {
        assert ShortAt(run, i);
      }
      ShortTicksKeepDelta(front, m);
      assert front[..m + 1] == run[..m + 1];
    }
  }

  /**
   Smoothing: while all ticks are short and no block was missed, the clock runs at exactly
   the nominal rate, whatever the readings do.
   */
  lemma {:induction false} NominalRate(run: seq<Tick>, m: nat)
    requires IsRun(run) && m < |run|
    requires LastLongDelta(run[..m + 1]) <= MAX_DELTA
    requires forall i :: m < i < |run| ==> ShortAt(run, i)
    ensures Adjusted(run) == Adjusted(run[..m + 1]) + Elapsed(run, m + 1)
  {
    if m + 1 == |run| {
      assert run[..m + 1] == run;
    } else {
      var front := run[..|run| - 1];
      forall i | m < i < |front| ensures ShortAt(front, i) {
        assert ShortAt(run, i);
      }
      assert front[..m + 1] == run[..m + 1];
      ShortTicksKeepDelta(front, m);
      NominalRate(front, m);
      LastTick(run);
    }
  }

  /**
   From a long tick `m` whose delta exceeds MAX_DELTA through the next long tick, the clock is
   exactly the later of its previous value and real time.
   */
  lemma CatchUpAfterBigDelta(run: seq<Tick>, m: nat)
    requires IsRun(run) && 1 <= m < |run|
    requires !ShortAt(run, m) && Delta(run, m) > MAX_DELTA
    requires forall i :: m < i < |run| - 1 ==> ShortAt(run, i)
    ensures Adjusted(run) == Max(Adjusted(run[..|run| - 1]), run[|run| - 1].reading)
  {
    CatchesUpIff(run);
    if m < |run| - 1 {
      var front := run[..|run| - 1];
      forall i | m < i < |front| ensures ShortAt(front, i) {
        assert ShortAt(run, i);
      }
      ShortTicksKeepDelta(front, m);
      assert front[..m + 1][..m + 1] == front[..m + 1];
      assert !ShortAt(front[..m + 1], m);
    }
  }

  /**
   A delta above MAX_DELTA does not start catching up when its tick is short: with blocks of
   90 ms, deltas of 50 ms are forgotten and the clock runs ahead.
   */
  lemma BigShortDeltaIsForgotten()
    ensures var run := [Tick(1.0, 0.09), Tick(1.05, 0.09), Tick(1.1, 0.09)];
            IsRun(run) && Delta(run, 1) > MAX_DELTA && Adjusted(run) == 1.18
  {
    var run := [Tick(1.0, 0.09), Tick(1.05, 0.09), Tick(1.1, 0.09)];
    assert run[..2] == [Tick(1.0, 0.09), Tick(1.05, 0.09)];
    assert run[..2][..1] == run[..1] == [Tick(1.0, 0.09)];
    FirstTick(run[..1]);
    LastTick(run[..2]);
    LastTick(run);
  }

  lemma {:induction false} CoarseLongDelta(run: seq<Tick>, m: nat)
    requires IsRun(run) && 1 <= m < |run|
    requires forall i :: 1 <= i < |run| ==> 0.9 * run[i].period > MAX_DELTA
    requires !ShortAt(run, m)
    ensures LastLongDelta(run) > MAX_DELTA
  {
    if ShortAt(run, |run| - 1) {
      assert !ShortAt(run[..|run| - 1], m);
      CoarseLongDelta(run[..|run| - 1], m);
    }
  }

  /**
   With blocks so long that 90% of one exceeds MAX_DELTA, the filter degenerates for ever
   after the first long tick: it only holds back a clock that went backwards.
   */
  lemma CoarseBlocksDegenerate(run: seq<Tick>, m: nat)
    requires IsRun(run) && 1 <= m < |run|
    requires forall i :: 1 <= i < |run| ==> 0.9 * run[i].period > MAX_DELTA
    requires !ShortAt(run, m)
    ensures Adjusted(run) == Max(Adjusted(run[..|run| - 1]), run[|run| - 1].reading)
  {
    CatchesUpIff(run);
    if m < |run| - 1 {
      assert !ShortAt(run[..|run| - 1], m);
      CoarseLongDelta(run[..|run| - 1], m);
    }
  }

  // Adjusted and real time agree after tick `i`.
  predicate AgreesAt(run: seq<Tick>, i: nat)
    requires IsRun(run) && i < |run|
  {
    Adjusted(run[..i + 1]) == run[i].reading
  }

  // The reading does not go back at tick `i`, and the tick is not advanced nominally.
  predicate PlainAt(run: seq<Tick>, i: nat)
    requires IsRun(run) && 1 <= i < |run|
  {
    run[i - 1].reading <= run[i].reading && !NominalAt(run, i)
  }

  lemma AgreementStep(run: seq<Tick>, i: nat)
    requires IsRun(run) && 1 <= i < |run| && AgreesAt(run, i - 1)
    ensures AgreesAt(run, i) <==> PlainAt(run, i)
  {
    var here := run[..i + 1];
    assert here[..i] == run[..i];
    CatchesUpIff(here);
  }

  lemma {:induction false} PlainTicksAgree(run: seq<Tick>, n: nat)
    requires IsRun(run) && n < |run|
    requires forall i :: 1 <= i < |run| ==> PlainAt(run, i)
    ensures AgreesAt(run, n)
  {
    if n == 0 {
      FirstTick(run[..1]);
    } else {
      PlainTicksAgree(run, n - 1);
      AgreementStep(run, n);
    }
  }

  /**
   The filter is the identity on a run exactly when the readings never go back and every tick
   is long or follows a big delta.
   */
  lemma TransparentIff(run: seq<Tick>)
    requires IsRun(run)
    ensures (forall i :: 0 <= i < |run| ==> AgreesAt(run, i))
       <==> (forall i :: 1 <= i < |run| ==> PlainAt(run, i))
  {
    if forall i :: 1 <= i < |run| ==> PlainAt(run, i) {
      forall i | 0 <= i < |run| ensures AgreesAt(run, i) {
        PlainTicksAgree(run, i);
      }
    }
    if forall i :: 0 <= i < |run| ==> AgreesAt(run, i) {
      forall i | 1 <= i < |run| ensures PlainAt(run, i) {
        assert AgreesAt(run, i - 1);
        AgreementStep(run, i);
      }
    }
  }

  lemma LongTicksAreTransparent(run: seq<Tick>)
    requires IsRun(run)
    requires forall i :: 1 <= i < |run| ==> !ShortAt(run, i)
    ensures forall i :: 0 <= i < |run| ==> AgreesAt(run, i)
  {
    forall i | 1 <= i < |run| ensures PlainAt(run, i) {
      assert !ShortAt(run, i);
    }
    TransparentIff(run);
  }
}
