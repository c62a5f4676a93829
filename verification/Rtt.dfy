/** Round-trip-time estimation of lib/rtt.c, with reals for floats. */
module Rtt {
  const RXTMIN: real := 2.0
  const RXTMAX: real := 60.0
  const MAXNREXMT := 3

  datatype Estimate = Estimate(rtt: real, srtt: real, rttvar: real, rto: real, nrexmt: nat, base: nat)

  function MinMax(rto: real): (r: real)
    ensures RXTMIN <= r <= RXTMAX && (RXTMIN <= rto <= RXTMAX ==> r == rto)
    ensures (rto < RXTMIN ==> r == RXTMIN) && (rto > RXTMAX ==> r == RXTMAX)
  {
    if rto < RXTMIN then RXTMIN else if rto > RXTMAX then RXTMAX else rto
  }

  function RtoCalc(e: Estimate): real {
    e.srtt + 4.0 * e.rttvar
  }

  function Abs(x: real): real {
    if x < 0.0 then -x else x
  }

  function Initial(e: Estimate, now: nat): Estimate {
    var e' := e.(base := now, rtt := 0.0, srtt := 0.0, rttvar := 0.75);
    e'.(rto := MinMax(RtoCalc(e')))
  }

  function NewPack(e: Estimate): Estimate {
    e.(nrexmt := 0)
  }

  /** (int)(rto + 0.5): the seconds given to alarm. */
  function Start(e: Estimate): int {
    (e.rto + 0.5).Floor
  }

  /** One number of seconds is nearest to the RTO, and that is what alarm gets: never more than half a second off. */
  lemma StartIsNearest(e: Estimate, secs: int)
    ensures secs as real - 0.5 <= e.rto < secs as real + 0.5 <==> secs == Start(e)
  {
    var x := e.rto + 0.5;
    assert x.Floor as real <= x < x.Floor as real + 1.0;
    if secs as real - 0.5 <= e.rto < secs as real + 0.5 {
      assert (secs - x.Floor) as real < 1.0 && (x.Floor - secs) as real < 1.0;
    }
  }

  function Stop(e: Estimate, ms: nat): Estimate {
    var m := ms as real / 1000.0;
    var delta := m - e.srtt;
    var e' := e.(rtt := m, srtt := e.srtt + delta / 8.0, rttvar := e.rttvar + (Abs(delta) - e.rttvar) / 4.0);
    e'.(rto := MinMax(RtoCalc(e')))
  }

  function Timeout(e: Estimate): Estimate {
    e.(rto := e.rto * 2.0, nrexmt := e.nrexmt + 1)
  }

  predicate GiveUp(e: Estimate) {
    e.nrexmt > MAXNREXMT
  }

  /**
    * What a sample does, as equations: gains of 1/8 and 1/4 and four deviations above the
    * mean, held within 2 and 60 seconds.
    */
  ghost predicate Learned(e: Estimate, ms: nat, e': Estimate) {
    var m := ms as real / 1000.0;
    var x := e'.srtt + 4.0 * e'.rttvar;
    && e'.rtt == m && 8.0 * e'.srtt == 7.0 * e.srtt + m
    && 4.0 * e'.rttvar == 3.0 * e.rttvar + (if m >= e.srtt then m - e.srtt else e.srtt - m)
    && e'.rto == (if x < 2.0 then 2.0 else if x > 60.0 then 60.0 else x)
    && e'.nrexmt == e.nrexmt && e'.base == e.base
  }

  lemma StopLearns(e: Estimate, ms: nat)
    ensures Learned(e, ms, Stop(e, ms))
  {
    var m, e' := ms as real / 1000.0, Stop(e, ms);
    var delta := m - e.srtt;
    assert 8.0 * (delta / 8.0) == delta;
    assert 4.0 * ((Abs(delta) - e.rttvar) / 4.0) == Abs(delta) - e.rttvar;
    assert e'.srtt == e.srtt + delta / 8.0 && e'.rttvar == e.rttvar + (Abs(delta) - e.rttvar) / 4.0;
  }

  /** Estimators stay inside what samples up to peak allow. */
  ghost predicate Bounded(e: Estimate, peak: real) {
    0.0 <= e.srtt <= peak && 0.0 <= e.rttvar <= (if peak < 0.75 then 0.75 else peak)
  }

  lemma StopBounded(e: Estimate, ms: nat, peak: real, peak': real)
    requires Bounded(e, peak) && peak <= peak' && ms as real / 1000.0 <= peak'
    ensures Bounded(Stop(e, ms), peak') && RXTMIN <= Stop(e, ms).rto <= RXTMAX
  {
    var m := ms as real / 1000.0;
    var d := Abs(m - e.srtt);
    var e' := Stop(e, ms);
    assert e'.srtt == (7.0 * e.srtt + m) / 8.0;
    assert e'.rttvar == (3.0 * e.rttvar + d) / 4.0;
    assert 0.0 <= d <= peak';
  }

  function Repeat(e: Estimate, ms: nat, n: nat): Estimate {
    if n == 0 then e else Stop(Repeat(e, ms, n - 1), ms)
  }

  function Pow(x: real, n: nat): real {
    if n == 0 then 1.0 else x * Pow(x, n - 1)
  }

  lemma Scaled(a: real, p: real, err: real, prev: real, now: real)
    requires prev == p * err && now == a * prev
    ensures now == (a * p) * err
  {
  }

  lemma StopError(e: Estimate, ms: nat)
    ensures Stop(e, ms).srtt - ms as real / 1000.0 == 0.875 * (e.srtt - ms as real / 1000.0)
  {
  }

  function Shrink(err: real, n: nat): real {
    if n == 0 then err else 0.875 * Shrink(err, n - 1)
  }

  lemma {:induction false} ErrorShrinks(e: Estimate, ms: nat, n: nat)
    ensures Repeat(e, ms, n).srtt - ms as real / 1000.0 == Shrink(e.srtt - ms as real / 1000.0, n)
  {
    if n > 0 {
      ErrorShrinks(e, ms, n - 1);
      StopError(Repeat(e, ms, n - 1), ms);
    }
  }

  lemma {:induction false} ShrinkIsPow(err: real, n: nat)
    ensures Shrink(err, n) == Pow(0.875, n) * err
  {
    if n > 0 {
      ShrinkIsPow(err, n - 1);
      Scaled(0.875, Pow(0.875, n - 1), err, Shrink(err, n - 1), Shrink(err, n));
    }
  }

  /** n equal samples shrink the error of srtt by exactly (7/8)^n. */
  lemma {:induction false} Converges(e: Estimate, ms: nat, n: nat)
    ensures Repeat(e, ms, n).srtt - ms as real / 1000.0 == Pow(0.875, n) * (e.srtt - ms as real / 1000.0)
  {
    ErrorShrinks(e, ms, n);
    ShrinkIsPow(e.srtt - ms as real / 1000.0, n);
  }

  /** struct rtt_info, updated in place. */
  class RttInfo {
    var rtt: real
    var srtt: real
    var rttvar: real
    var rto: real
    var nrexmt: nat
    var base: nat

    ghost function View(): Estimate
      reads this
    {
      Estimate(rtt, srtt, rttvar, rto, nrexmt, base)
    }

    constructor ()
      ensures View() == Estimate(0.0, 0.0, 0.0, 0.0, 0, 0)
    {
      rtt, srtt, rttvar, rto, nrexmt, base := 0.0, 0.0, 0.0, 0.0, 0, 0;
    }

    method RttInit(now: nat)
      modifies this
      ensures View() == Initial(old(View()), now)
      ensures rtt == 0.0 && srtt == 0.0 && rttvar == 0.75 && rto == 3.0 && base == now && nrexmt == old(nrexmt)
    {
      base := now;
      rtt := 0.0;
      srtt := 0.0;
      rttvar := 0.75;
      rto := MinMax(srtt + 4.0 * rttvar);
    }

    method RttNewPack()
      modifies this
      ensures View() == NewPack(old(View())) && nrexmt == 0
    {
      nrexmt := 0;
    }

    /** The whole number of seconds nearest to the RTO, a half rounded up. */
    method RttStart() returns (secs: int)
      ensures secs as real - 0.5 <= rto < secs as real + 0.5
    {
      secs := (rto + 0.5).Floor;
    }

    method RttStop(ms: nat)
      modifies this
      ensures View() == Stop(old(View()), ms) && Learned(old(View()), ms, View())
    {
      rtt := ms as real / 1000.0;
      var delta := rtt - srtt;
      srtt := srtt + delta / 8.0;
      if delta < 0.0 {
        delta := -delta;
      }
      rttvar := rttvar + (delta - rttvar) / 4.0;
      rto := MinMax(srtt + 4.0 * rttvar);
      StopLearns(old(View()), ms);
    }

    method RttTimeout() returns (rc: int)
      modifies this
      ensures View() == Timeout(old(View())) && rto == 2.0 * old(rto) && nrexmt == old(nrexmt) + 1
      ensures rc == if GiveUp(View()) then -1 else 0
      ensures rc < 0 <==> old(nrexmt) >= 3
    {
      rto := rto * 2.0;
      nrexmt := nrexmt + 1;
      rc := if nrexmt > MAXNREXMT then -1 else 0;
    }
  }
}
