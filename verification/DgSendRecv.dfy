/**
  * Reliable request/reply over UDP: dg_send_recv against the echo server of rtt/dg_echo.c,
  * over a network that loses, duplicates and reorders.
  */
module DgSendRecv {
  import opened Basics
  import opened Rtt

  const U32 := 0x1_0000_0000
  const HDRSZ := 8
  const MAXLINE := 4096

  /** The 8-byte header and what follows it. */
  datatype Msg = Msg(seqno: nat, ts: nat, payload: seq<Byte>)

  /**
    * A message in the network. The label says that it stems from transmission tx of request
    * req, counting from 0; the server passes it on and neither program reads it.
    */
  datatype Packet = Packet(msg: Msg, req: nat, tx: nat)

  /**
    * One call: its payload, the room for the reply, the base its timestamps count from, and
    * when it was transmitted, in microseconds.
    */
  datatype Request = Request(payload: seq<Byte>, inbytes: nat, base: nat, times: seq<nat>)

  /** What a call returned: the bytes stored, the sample given to rtt_stop and when, or ETIMEDOUT. */
  datatype Result = Reply(payload: seq<Byte>, sample: nat, at: nat) | TimedOut

  /**
    * The client's statics, the call in progress, and the network: a message that was ever
    * sent may arrive any number of times, at any time, or never. accepted logs the packet
    * that ended each call, None for a timeout.
    */
  datatype State = State(
    rttinit: bool, est: Estimate, seqno: nat,
    waiting: bool, entryRto: real, armed: int, peak: real,
    clock: nat, requests: seq<Request>, toServer: set<Packet>, toClient: set<Packet>,
    results: seq<Result>, accepted: seq<Option<Packet>>)

  /** rtt_ts: milliseconds since base, in 32 bits. */
  function Ts(base: nat, us: nat): (ts: nat)
    ensures ts < U32
  {
    ((us / 1_000_000 - base) * 1000 + us % 1_000_000 / 1000) % U32
  }

  function Sample(base: nat, us: nat, ts: nat): nat {
    (Ts(base, us) - ts) % U32
  }

  /** dg_echo: at most MAXLINE bytes come in, and they all go back. */
  function EchoMsg(m: Msg): Msg {
    m.(payload := m.payload[..Min(|m.payload|, MAXLINE - HDRSZ)])
  }

  function Echo(p: Packet): Packet {
    p.(msg := EchoMsg(p.msg))
  }

  ghost predicate Init(s: State) {
    && !s.rttinit && s.seqno == 0 && !s.waiting && s.requests == [] && s.toServer == {} && s.toClient == {}
    && s.results == [] && s.accepted == [] && s.peak == 0.0 && s.armed == 0
  }

  // ----- steps -----

  /** sendagain: stamp, send and arm. */
  function Transmit(s: State, us: nat): State
    requires |s.requests| > 0
  {
    var k := |s.requests| - 1;
    var q := s.requests[k];
    s.(clock := us,
    requests := s.requests[k := q.(times := q.times + [us])],
    toServer := s.toServer + {Packet(Msg(s.seqno, Ts(s.est.base, us), q.payload), k, |q.times|)},
    armed := s.armed + Start(s.est))
  }

  /** The state inside a call before its first transmission. */
  function Begin(s: State, payload: seq<Byte>, inbytes: nat, t0: nat): State {
    var e := NewPack(if s.rttinit then s.est else Initial(s.est, t0 / 1_000_000));
    s.(rttinit := true, est := e, seqno := (s.seqno + 1) % U32, waiting := true,
    entryRto := e.rto, armed := 0, requests := s.requests + [Request(payload, inbytes, e.base, [])])
  }

  /** A call, up to its first transmission; t0 and t1 are the two clock readings. */
  function Call(s: State, payload: seq<Byte>, inbytes: nat, t0: nat, t1: nat): State {
    Transmit(Begin(s, payload, inbytes, t0), t1)
  }

  /** SIGALRM while waiting: back off, then give up or send again. */
  function Alarm(s: State, us: nat): State
    requires |s.requests| > 0
  {
    var s' := s.(clock := us, est := Timeout(s.est));
    if GiveUp(s'.est) then
      s'.(waiting := false, rttinit := false, results := s.results + [TimedOut], accepted := s.accepted + [None])
    else
      Transmit(s', us)
  }

  /** Recvmsg returned p: keep waiting on a sequence mismatch, else measure and return. */
  function Receive(s: State, p: Packet, us: nat): State
    requires |s.requests| > 0
  {
    if p.msg.seqno != s.seqno then
      s.(clock := us)
    else
      var ms := Sample(s.est.base, us, p.msg.ts);
      var r := ms as real / 1000.0;
      var n := Min(|p.msg.payload|, s.requests[|s.requests| - 1].inbytes);
      s.(clock := us, waiting := false, est := Stop(s.est, ms), peak := if r > s.peak then r else s.peak,
      results := s.results + [Reply(p.msg.payload[..n], ms, us)], accepted := s.accepted + [Some(p)])
  }

  ghost predicate Next(s: State, s': State) {
    || (!s.waiting && exists b, n, t0, t1 :: s.clock <= t0 <= t1 && s' == Call(s, b, n, t0, t1))
    || (s.waiting && |s.requests| > 0 && exists us :: s.clock <= us && s' == Alarm(s, us))
    || (s.waiting && |s.requests| > 0 && exists p, us :: p in s.toClient && s.clock <= us && s' == Receive(s, p, us))
    || (exists p :: p in s.toServer && s' == s.(toClient := s.toClient + {Echo(p)}))
  }

  ghost predicate StepAt(run: seq<State>, i: nat)
    requires i + 1 < |run|
  {
    Next(run[i], run[i + 1])
  }

  ghost predicate IsRun(run: seq<State>) {
    |run| > 0 && Init(run[0]) && forall i :: 0 <= i < |run| - 1 ==> StepAt(run, i)
  }

  // ----- where messages come from -----

  /** The label is true: p is the transmission it names. */
  ghost predicate Sent(rs: seq<Request>, p: Packet) {
    && p.req < |rs| && p.tx < |rs[p.req].times|
    && p.msg == Msg((p.req + 1) % U32, Ts(rs[p.req].base, rs[p.req].times[p.tx]), rs[p.req].payload)
  }

  ghost predicate Echoed(requests: set<Packet>, p: Packet) {
    exists p0 :: p0 in requests && p == Echo(p0)
  }

  ghost predicate Network(s: State) {
    && (forall p :: p in s.toServer ==> Sent(s.requests, p))
    && (forall p :: p in s.toClient ==> Echoed(s.toServer, p))
  }

  /** rs' only adds requests and transmissions to rs. */
  ghost predicate Grows(rs: seq<Request>, rs': seq<Request>) {
    && |rs| <= |rs'|
    && forall k :: 0 <= k < |rs| ==> rs[k].payload == rs'[k].payload && rs[k].base == rs'[k].base &&
                                     rs[k].times <= rs'[k].times
  }

  lemma SentGrows(rs: seq<Request>, rs': seq<Request>, p: Packet)
    requires Grows(rs, rs') && Sent(rs, p)
    ensures Sent(rs', p)
  {
  }

  /** The call in progress. */
  ghost predicate InCall(s: State) {
    && |s.requests| > 0 && s.rttinit
    && s.requests[|s.requests| - 1].base == s.est.base
    && |s.requests[|s.requests| - 1].times| == s.est.nrexmt + 1
    && s.est.nrexmt <= MAXNREXMT
    && s.est.rto == RtoAfter(s.entryRto, s.est.nrexmt)
    && 0 <= s.armed <= ArmedBound(s.est.nrexmt)
    && RXTMIN <= s.entryRto <= RXTMAX
  }

  /** The RTO after n timeouts of a request that began with entry. */
  function RtoAfter(entry: real, n: nat): real {
    if n == 0 then entry else RtoAfter(entry, n - 1) * 2.0
  }

  /** 60, 180, 420, 900: the most seconds armed after n retransmissions. */
  function ArmedBound(n: nat): nat {
    if n == 0 then 60 else 2 * ArmedBound(n - 1) + 60
  }

  ghost predicate Timers(s: State) {
    && s.peak >= 0.0 && 0 <= s.armed <= 900
    && (s.rttinit ==> Bounded(s.est, s.peak))
    && (s.rttinit && !s.waiting ==> RXTMIN <= s.est.rto <= RXTMAX)
    && (s.waiting ==> InCall(s))
  }

  ghost predicate Log(s: State) {
    && (forall k :: 0 <= k < |s.requests| ==> 1 <= |s.requests[k].times| <= MAXNREXMT + 1)
    && (forall k, j :: 0 <= k < |s.requests| && 0 <= j < |s.requests[k].times| ==> s.requests[k].times[j] <= s.clock)
    && |s.requests| == |s.results| + (if s.waiting then 1 else 0) && |s.accepted| == |s.results|
    && (|s.requests| < U32 ==> forall k :: 0 <= k < |s.results| ==> GoodResult(s.requests[k], k, s.results[k], s.accepted[k]))
  }

  /** Between calls the estimators are set up unless no call was made or the last one timed out. */
  ghost predicate Starts(s: State) {
    !s.waiting ==> (s.rttinit <==> s.results != [] && s.results[|s.results| - 1].Reply?)
  }

  ghost predicate Inv(s: State) {
    s.seqno == |s.requests| % U32 && Network(s) && Timers(s) && Log(s) && Starts(s)
  }

  /**
    * What call k may return: on a packet that stems from one of its own transmissions, the
    * payload, cut only by MAXLINE and the caller's buffer, and a sample that is the
    * milliseconds since that very transmission, modulo 2^32; or a timeout after four.
    */
  ghost predicate GoodResult(q: Request, k: nat, r: Result, a: Option<Packet>) {
    match r
    case Reply(payload, sample, at) =>
      && payload == q.payload[..Min(Min(|q.payload|, MAXLINE - HDRSZ), q.inbytes)]
      && a.Some? && a.value.req == k && a.value.tx < |q.times| && q.times[a.value.tx] <= at
      && sample == (at / 1000 - q.times[a.value.tx] / 1000) % U32
    case TimedOut => a.None? && |q.times| == MAXNREXMT + 1
  }

  lemma BackoffValues(entry: real)
    ensures RtoAfter(entry, 1) == 2.0 * entry && RtoAfter(entry, 2) == 4.0 * entry && RtoAfter(entry, 3) == 8.0 * entry
    ensures ArmedBound(0) == 60 && ArmedBound(1) == 180 && ArmedBound(2) == 420 && ArmedBound(3) == 900
  {
  }

  lemma NetworkTransmit(s: State, us: nat)
    requires |s.requests| > 0 && Network(s)
    requires s.seqno == |s.requests| % U32 && s.est.base == s.requests[|s.requests| - 1].base
    ensures Network(Transmit(s, us))
  {
    var s' := Transmit(s, us);
    var k := |s.requests| - 1;
    forall p | p in s'.toServer ensures Sent(s'.requests, p) {
      if p in s.toServer {
        SentGrows(s.requests, s'.requests, p);
      } else {
        assert p.req == k && s'.requests[k].times[p.tx] == us;
      }
    }
    forall p | p in s'.toClient ensures Echoed(s'.toServer, p) {
      assert Echoed(s.toServer, p);
    }
  }

  lemma CallNetwork(s: State, b: seq<Byte>, n: nat, t0: nat, t1: nat)
    requires Inv(s) && !s.waiting
    ensures Network(Call(s, b, n, t0, t1)) && Call(s, b, n, t0, t1).seqno == (|s.requests| + 1) % U32
  {
    var mid := Begin(s, b, n, t0);
    forall p | p in s.toServer ensures Sent(mid.requests, p) { SentGrows(s.requests, mid.requests, p); }
    NetworkTransmit(mid, t1);
  }

  lemma CallTimers(s: State, b: seq<Byte>, n: nat, t0: nat, t1: nat)
    requires Timers(s) && !s.waiting
    ensures Timers(Call(s, b, n, t0, t1))
  {
    assert Call(s, b, n, t0, t1).est == Begin(s, b, n, t0).est;
  }

  lemma CallLog(s: State, b: seq<Byte>, n: nat, t0: nat, t1: nat)
    requires Log(s) && !s.waiting && s.clock <= t0 <= t1
    ensures Log(Call(s, b, n, t0, t1))
  {
    var s', k := Call(s, b, n, t0, t1), |s.requests|;
    assert s'.requests[k].times == [t1];
    assert forall i :: 0 <= i < k ==> s'.requests[i] == s.requests[i];
  }

  lemma CallKeeps(s: State, b: seq<Byte>, n: nat, t0: nat, t1: nat)
    requires Inv(s) && !s.waiting && s.clock <= t0 <= t1
    ensures Inv(Call(s, b, n, t0, t1))
  {
    CallNetwork(s, b, n, t0, t1);
    CallTimers(s, b, n, t0, t1);
    CallLog(s, b, n, t0, t1);
  }

  /** One more doubling of the timer. */
  lemma BackoffStep(entry: real, n: nat, armed: int)
    requires RXTMIN <= entry <= RXTMAX && n < MAXNREXMT && 0 <= armed <= ArmedBound(n)
    ensures 0 <= armed + (RtoAfter(entry, n + 1) + 0.5).Floor <= ArmedBound(n + 1) <= 900
  {
    BackoffValues(entry);
  }

  lemma RetransmitTimers(s: State, us: nat)
    requires Timers(s) && s.waiting && s.est.nrexmt < MAXNREXMT
    ensures Timers(Alarm(s, us))
  {
    var s', k := Alarm(s, us), |s.requests| - 1;
    BackoffStep(s.entryRto, s.est.nrexmt, s.armed);
    assert s'.est == Timeout(s.est) && s'.armed == s.armed + Start(s'.est);
    assert s'.requests[k].times == s.requests[k].times + [us];
  }

  lemma RetransmitLog(s: State, us: nat)
    requires Log(s) && InCall(s) && s.waiting && s.clock <= us && s.est.nrexmt < MAXNREXMT
    ensures Log(Alarm(s, us))
  {
    var s', k := Alarm(s, us), |s.requests| - 1;
    assert s'.requests[k].times == s.requests[k].times + [us];
    assert forall i :: 0 <= i < k ==> s'.requests[i] == s.requests[i];
  }

  lemma AlarmKeeps(s: State, us: nat)
    requires Inv(s) && s.waiting && s.clock <= us
    ensures Inv(Alarm(s, us))
  {
    if s.est.nrexmt < MAXNREXMT {
      NetworkTransmit(s.(clock := us, est := Timeout(s.est)), us);
      RetransmitTimers(s, us);
      RetransmitLog(s, us);
    }
  }

  // ----- what a reply means -----

  /** Timestamps are millisecond clocks modulo 2^32, whatever the base. */
  lemma TsIsClock(base: nat, us: nat)
    ensures Ts(base, us) == (us / 1000 - base * 1000) % U32
  {
    assert us / 1000 == us / 1_000_000 * 1000 + us % 1_000_000 / 1000;
  }

  lemma SampleIsElapsed(base: nat, us: nat, sent: nat)
    requires sent <= us
    ensures Sample(base, us, Ts(base, sent)) == (us / 1000 - sent / 1000) % U32
  {
    TsIsClock(base, us);
    TsIsClock(base, sent);
    ModDifference(us / 1000 - base * 1000, sent / 1000 - base * 1000);
  }

  lemma ModDifference(a: int, b: int)
    ensures (a % U32 - b % U32) % U32 == (a - b) % U32
  {
    var q := a / U32 - b / U32;
    assert a - b == U32 * q + (a % U32 - b % U32);
  }

  lemma SameNumber(a: nat, b: nat)
    requires a < U32 && b < U32 && a % U32 == b % U32
    ensures a == b
  {
  }

  /** With fewer than 2^32 requests, a packet with the current number stems from the current request. */
  lemma ReplyOrigin(s: State, p: Packet)
    requires Inv(s) && s.waiting && p in s.toClient && p.msg.seqno == s.seqno && |s.requests| < U32
    ensures var q := s.requests[|s.requests| - 1];
            && p.req == |s.requests| - 1 && p.tx < |q.times|
            && p.msg == EchoMsg(Msg(s.seqno, Ts(q.base, q.times[p.tx]), q.payload))
  {
    assert Echoed(s.toServer, p);
    var p0 :| p0 in s.toServer && p == Echo(p0);
    assert Sent(s.requests, p0);
    SameNumber(p0.req + 1, |s.requests|);
  }

  /** The accepted packet answers the current request, and the sample is taken from the transmission it answers. */
  lemma ReplyIsCurrent(s: State, p: Packet, us: nat)
    requires Inv(s) && s.waiting && p in s.toClient && s.clock <= us && p.msg.seqno == s.seqno && |s.requests| < U32
    ensures var k := |s.requests| - 1;
            var m, q := p.msg, s.requests[k];
            GoodResult(q, k, Reply(m.payload[..Min(|m.payload|, q.inbytes)], Sample(s.est.base, us, m.ts), us), Some(p))
  {
    ReplyOrigin(s, p);
    var q := s.requests[|s.requests| - 1];
    SampleIsElapsed(q.base, us, q.times[p.tx]);
    var n := Min(|q.payload|, MAXLINE - HDRSZ);
    assert q.payload[..n][..Min(n, q.inbytes)] == q.payload[..Min(n, q.inbytes)];
  }

  lemma ReceiveKeeps(s: State, p: Packet, us: nat)
    requires Inv(s) && s.waiting && p in s.toClient && s.clock <= us
    ensures Inv(Receive(s, p, us))
  {
    if p.msg.seqno == s.seqno {
      var ms := Sample(s.est.base, us, p.msg.ts);
      StopBounded(s.est, ms, s.peak, Receive(s, p, us).peak);
      if |s.requests| < U32 { ReplyIsCurrent(s, p, us); }
    }
  }

  lemma EchoNetwork(s: State, p: Packet)
    requires Network(s) && p in s.toServer
    ensures Network(s.(toClient := s.toClient + {Echo(p)}))
  {
    assert Echoed(s.toServer, Echo(p));
  }

  lemma EchoKeeps(s: State, p: Packet)
    requires Inv(s) && p in s.toServer
    ensures Inv(s.(toClient := s.toClient + {Echo(p)}))
  {
    EchoNetwork(s, p);
    OnlyNetwork(s, s.toClient + {Echo(p)});
  }

  lemma OnlyNetwork(s: State, c: set<Packet>)
    requires Timers(s) && Log(s)
    ensures Timers(s.(toClient := c)) && Log(s.(toClient := c))
  {
    var s' := s.(toClient := c);
    assert s'.requests == s.requests && s'.results == s.results && s'.accepted == s.accepted;
  }

  lemma StepKeeps(s: State, s': State)
    requires Inv(s) && Next(s, s')
    ensures Inv(s')
  {
    if !s.waiting && exists b, n, t0, t1 :: s.clock <= t0 <= t1 && s' == Call(s, b, n, t0, t1) {
      var b, n, t0, t1 :| s.clock <= t0 <= t1 && s' == Call(s, b, n, t0, t1);
      CallKeeps(s, b, n, t0, t1);
    } else if s.waiting && exists us :: s.clock <= us && s' == Alarm(s, us) {
      var us :| s.clock <= us && s' == Alarm(s, us);
      AlarmKeeps(s, us);
    } else if s.waiting && exists p, us :: p in s.toClient && s.clock <= us && s' == Receive(s, p, us) {
      var p, us :| p in s.toClient && s.clock <= us && s' == Receive(s, p, us);
      ReceiveKeeps(s, p, us);
    } else {
      var p :| p in s.toServer && s' == s.(toClient := s.toClient + {Echo(p)});
      EchoKeeps(s, p);
    }
  }

  lemma {:induction false} RunInv(run: seq<State>, i: nat)
    requires IsRun(run) && i < |run|
    ensures Inv(run[i])
  {
    if i > 0 {
      RunInv(run, i - 1);
      assert StepAt(run, i - 1);
      StepKeeps(run[i - 1], run[i]);
    }
  }

  /**
    * Over every run with loss, duplication and reordering and fewer than 2^32 requests: a
    * call that returned a reply had accepted a packet that stems from one of its own
    * transmissions, returned the whole payload if that is short enough for the server and
    * the caller, and took as sample the time since that very transmission, retransmitted or
    * not; it is exact when below 2^32 ms, whether or not the timestamps wrapped. A call
    * that timed out had accepted nothing and transmitted four times.
    */
  lemma RunResults(run: seq<State>, i: nat, k: nat)
    requires IsRun(run) && i < |run| && |run[i].requests| < U32 && k < |run[i].results|
    ensures |run[i].results| == |run[i].accepted| <= |run[i].requests|
    ensures var q, r, a := run[i].requests[k], run[i].results[k], run[i].accepted[k];
            match r
            case TimedOut => a.None? && |q.times| == 4
            case Reply(payload, sample, at) =>
              && a.Some? && a.value.req == k && a.value.tx < |q.times|
              && var elapsed := at / 1000 - q.times[a.value.tx] / 1000;
              && 0 <= elapsed && sample == elapsed % U32 && (elapsed < U32 ==> sample == elapsed)
              && payload <= q.payload
              && (|q.payload| <= 4088 && |q.payload| <= q.inbytes ==> payload == q.payload)
  {
    RunInv(run, i);
    var q, r, a := run[i].requests[k], run[i].results[k], run[i].accepted[k];
    assert GoodResult(q, k, r, a);
    assert q.payload[..|q.payload|] == q.payload;
    if r.Reply? { Milliseconds(q.times[a.value.tx], r.at); }
  }

  lemma Milliseconds(t: nat, us: nat)
    requires t <= us
    ensures t / 1000 <= us / 1000
  {
  }

  /**
    * Over every run: a request starts with an RTO of 2 to 60 seconds, transmits at most four
    * times and is armed for at most 900 seconds in all, and the estimators stay within what
    * the largest sample allows.
    */
  lemma RunTimers(run: seq<State>, i: nat)
    requires IsRun(run) && i < |run|
    ensures var s := run[i];
            && (forall k :: 0 <= k < |s.requests| ==> 1 <= |s.requests[k].times| <= 4)
            && (s.waiting ==> 2.0 <= s.entryRto <= 60.0) && 0 <= s.armed <= 900
            && (s.rttinit && !s.waiting ==> 2.0 <= s.est.rto <= 60.0)
            && (s.rttinit ==> 0.0 <= s.est.srtt <= s.peak && 0.0 <= s.est.rttvar <= (if s.peak < 0.75 then 0.75 else s.peak))
  {
    RunInv(run, i);
  }

  // ----- what the estimators learn -----

  /** n is the whole number of seconds nearest to rto. */
  ghost predicate Nearest(n: int, rto: real) {
    n as real - 0.5 <= rto < n as real + 0.5
  }

  /** A new request: the estimators are kept, or begin at 0, 0.75 and an RTO of 3 seconds if there are none. */
  ghost predicate Started(s: State, s': State) {
    && (s.results != [] && s.results[|s.results| - 1].Reply?
        ==> s'.est.srtt == s.est.srtt && s'.est.rttvar == s.est.rttvar && s'.est.rto == s.est.rto && s'.est.base == s.est.base)
    && (s.results == [] || s.results[|s.results| - 1].TimedOut?
        ==> s'.est.srtt == 0.0 && s'.est.rttvar == 0.75 && s'.est.rto == 3.0)
    && s'.est.nrexmt == 0 && Nearest(s'.armed, s'.est.rto)
  }

  /** Sent again: the RTO is doubled and added to what was armed. */
  ghost predicate BackedOff(s: State, s': State) {
    && s'.est.srtt == s.est.srtt && s'.est.rttvar == s.est.rttvar && s'.est.base == s.est.base
    && s'.est.rto == 2.0 * s.est.rto && Nearest(s'.armed - s.armed, s'.est.rto)
  }

  lemma CallStarts(s: State, b: seq<Byte>, n: nat, t0: nat, t1: nat)
    requires Inv(s) && !s.waiting
    ensures Started(s, Call(s, b, n, t0, t1)) && |Call(s, b, n, t0, t1).requests| == |s.requests| + 1
  {
    var s' := Call(s, b, n, t0, t1);
    assert s'.est == Begin(s, b, n, t0).est;
    StartIsNearest(s'.est, s'.armed);
  }

  lemma AlarmBacksOff(s: State, us: nat)
    requires Inv(s) && s.waiting
    ensures var s' := Alarm(s, us);
            && |s'.requests| == |s.requests| && s'.est.srtt == s.est.srtt && s'.est.rttvar == s.est.rttvar
            && if s'.waiting then BackedOff(s, s') && s'.results == s.results else s'.results == s.results + [TimedOut]
  {
    var s' := Alarm(s, us);
    StartIsNearest(s'.est, Start(s'.est));
  }

  lemma ReceiveLearns(s: State, p: Packet, us: nat)
    requires Inv(s) && s.waiting
    ensures var s' := Receive(s, p, us);
            && s'.requests == s.requests
            && if s'.waiting then s'.est == s.est && s'.results == s.results
               else |s'.results| == |s.results| + 1 && s'.results[|s.results|].Reply?
                    && Learned(s.est, s'.results[|s.results|].sample, s'.est)
  {
    StopLearns(s.est, Sample(s.est.base, us, p.msg.ts));
  }

  /** What a step of the machine does to the estimators, told from the logs alone. */
  ghost predicate Learning(s: State, s': State) {
    if |s'.requests| > |s.requests| then Started(s, s')
    else if |s'.results| > |s.results| && s'.results[|s.results|].Reply? then Learned(s.est, s'.results[|s.results|].sample, s'.est)
    else if s'.requests != s.requests then BackedOff(s, s')
    else s'.est.srtt == s.est.srtt && s'.est.rttvar == s.est.rttvar
  }

  /**
    * Over every run: each reply's logged sample, and nothing else, is what the estimators
    * learn from; they are set up exactly at the first request and at the first after a
    * timeout; each retransmission doubles the RTO; and each transmission arms the alarm for
    * the RTO rounded to seconds.
    */
  lemma RunLearns(run: seq<State>, i: nat)
    requires IsRun(run) && i + 1 < |run|
    ensures Learning(run[i], run[i + 1])
  {
    RunInv(run, i);
    assert StepAt(run, i);
    StepLearns(run[i], run[i + 1]);
  }

  lemma StepLearns(s: State, s': State)
    requires Inv(s) && Next(s, s')
    ensures Learning(s, s')
  {
    if !s.waiting && exists b, n, t0, t1 :: s.clock <= t0 <= t1 && s' == Call(s, b, n, t0, t1) {
      var b, n, t0, t1 :| s.clock <= t0 <= t1 && s' == Call(s, b, n, t0, t1);
      CallStarts(s, b, n, t0, t1);
    } else if s.waiting && exists us :: s.clock <= us && s' == Alarm(s, us) {
      var us :| s.clock <= us && s' == Alarm(s, us);
      AlarmBacksOff(s, us);
      AlarmRequests(s, us);
    } else if s.waiting && exists p, us :: p in s.toClient && s.clock <= us && s' == Receive(s, p, us) {
      var p, us :| p in s.toClient && s.clock <= us && s' == Receive(s, p, us);
      ReceiveLearns(s, p, us);
    }
  }

  lemma AlarmRequests(s: State, us: nat)
    requires Inv(s) && s.waiting
    ensures Alarm(s, us).requests != s.requests <==> Alarm(s, us).waiting
  {
    var s', k := Alarm(s, us), |s.requests| - 1;
    if s'.waiting { assert |s'.requests[k].times| == |s.requests[k].times| + 1; }
  }

  // ----- the program -----

  /** What can end the wait in Recvmsg: the alarm, or a datagram. */
  datatype Event = Alrm(us: nat) | Datagram(p: Packet, us: nat)

  function React(s: State, e: Event): State
    requires |s.requests| > 0
  {
    match e
    case Alrm(us) => Alarm(s, us)
    case Datagram(p, us) => Receive(s, p, us)
  }

  /** The steps a call takes on these events, until it returns. */
  function Drive(s: State, es: seq<Event>): State
    requires |s.requests| > 0
    decreases |es|
  {
    if !s.waiting || es == [] then s else Drive(React(s, es[0]), es[1..])
  }

  /** r is what the reply m, read at us, yields: its payload as far as the caller has room. */
  ghost predicate Answers(m: Msg, us: nat, inbytes: nat, r: Result) {
    r.Reply? && r.payload == m.payload[..if |m.payload| <= inbytes then |m.payload| else inbytes] && r.at == us
  }

  ghost predicate AnsweredBy(e: Event, seqno: nat, inbytes: nat, r: Result) {
    e.Datagram? && e.p.msg.seqno == seqno && Answers(e.p.msg, e.us, inbytes, r)
  }

  class Requester {
    const est: RttInfo
    var rttinit: bool
    var seqno: nat

    /** The statics are those of s. */
    ghost predicate Mirrors(s: State)
      reads this, est
    {
      rttinit == s.rttinit && est.View() == s.est && seqno == s.seqno
    }

    constructor ()
      ensures !rttinit && seqno == 0 && fresh(est)
    {
      est := new RttInfo();
      rttinit, seqno := false, 0;
    }

    /** sendagain: stamp and send the request, and arm the alarm. */
    method SendAgain(payload: seq<Byte>, us: nat) returns (m: Msg, secs: int)
      ensures m == Msg(seqno, Ts(est.base, us), payload) && secs == Start(est.View())
    {
      var ts := ((us / 1_000_000 - est.base) * 1000 + us % 1_000_000 / 1000) % U32;
      m := Msg(seqno, ts, payload);
      secs := est.RttStart();
      StartIsNearest(est.View(), secs);
    }

    /** Up to the first transmission. */
    method Open(ghost s: State, payload: seq<Byte>, inbytes: nat, t0: nat, t1: nat) returns (m: Msg, secs: int)
      requires Mirrors(s)
      modifies this, est
      ensures var s' := Call(s, payload, inbytes, t0, t1);
              && Mirrors(s') && s'.toServer == s.toServer + {Packet(m, |s.requests|, 0)} && s'.armed == secs
              && Current(s', payload, inbytes, |s.requests|, 1)
      ensures m.payload == payload && m.seqno == seqno == (old(seqno) + 1) % U32 && est.nrexmt == 0
    {
      if !rttinit {
        est.RttInit(t0 / 1_000_000);
        rttinit := true;
      }
      seqno := (seqno + 1) % U32;
      est.RttNewPack();
      m, secs := SendAgain(payload, t1);
    }

    /** SIGALRM: None when the call gives up, else the message sent again and the seconds armed. */
    method OnAlarm(ghost s: State, payload: seq<Byte>, us: nat) returns (again: Option<(Msg, int)>)
      requires Mirrors(s) && |s.requests| > 0 && s.requests[|s.requests| - 1].payload == payload && s.waiting
      modifies this, est
      ensures var s' := Alarm(s, us);
              && Mirrors(s') && s'.waiting == again.Some?
              && s'.results == s.results + (if again.None? then [TimedOut] else [])
              && s'.toServer == s.toServer + (if again.None? then {} else
                                              {Packet(again.value.0, |s.requests| - 1, |s.requests[|s.requests| - 1].times|)})
              && s'.armed == s.armed + (if again.None? then 0 else again.value.1)
      ensures seqno == old(seqno) && est.nrexmt == old(est.nrexmt) + 1 && (again.None? <==> old(est.nrexmt) >= 3)
      ensures again.Some? ==> again.value.0.payload == payload && again.value.0.seqno == seqno
    {
      var rc := est.RttTimeout();
      if rc < 0 {
        rttinit := false;
        return None;
      }
      var m, secs := SendAgain(payload, us);
      again := Some((m, secs));
    }

    /** A datagram arrived: None while it is not the reply to this request. Its label p is not there to be read. */
    method OnDatagram(ghost s: State, ghost p: Packet, m: Msg, us: nat, inbytes: nat) returns (r: Option<Result>)
      requires p.msg == m
      requires Mirrors(s) && |s.requests| > 0 && s.requests[|s.requests| - 1].inbytes == inbytes && s.waiting
      modifies est
      ensures var s' := Receive(s, p, us);
              && Mirrors(s') && s'.waiting == r.None? && s'.toServer == s.toServer && s'.armed == s.armed
              && s'.results == s.results + (if r.Some? then [r.value] else [])
      ensures r.Some? <==> m.seqno == seqno
      ensures r.Some? ==> Answers(m, us, inbytes, r.value) && Learned(old(est.View()), r.value.sample, est.View())
      ensures r.None? ==> est.View() == old(est.View())
    {
      if m.seqno != seqno {
        return None;
      }
      var ms := Sample(est.base, us, m.ts);
      est.RttStop(ms);
      r := Some(Reply(m.payload[..Min(|m.payload|, inbytes)], ms, us));
    }

    /**
      * dg_send_recv: the result, the messages sent in order, the seconds armed and the new
      * statics are those of the machine driven by the same events; None if the events end
      * while it still waits.
      */
    method SendRecv(ghost s: State, payload: seq<Byte>, inbytes: nat, t0: nat, t1: nat, events: seq<Event>)
      returns (r: Option<Result>, sent: seq<Msg>, armed: int)
      requires Mirrors(s) && !s.waiting
      modifies this, est
      ensures var s' := Drive(Call(s, payload, inbytes, t0, t1), events);
              && Mirrors(s') && s'.toServer == s.toServer + Labelled(sent, |s.requests|) && s'.armed == armed
              && (r.Some? <==> !s'.waiting)
              && s'.results == s.results + (if r.Some? then [r.value] else [])
      ensures 1 <= |sent| <= 4 && forall j :: 0 <= j < |sent| ==> sent[j].payload == payload && sent[j].seqno == seqno
      ensures seqno == (old(seqno) + 1) % U32 && (r == Some(TimedOut) ==> |sent| == 4)
      ensures r.Some? && r.value.Reply? ==> exists i :: 0 <= i < |events| && AnsweredBy(events[i], seqno, inbytes, r.value)
    {
      ghost var cur, k := Call(s, payload, inbytes, t0, t1), |s.requests|;
      ghost var goal := Drive(cur, events);
      var first;
      first, armed := Open(s, payload, inbytes, t0, t1);
      r, sent := None, [first];
      LabelledSnoc([], first, k);
      var i := 0;
      while i < |events| && r.None?
        invariant 0 <= i <= |events| && Current(cur, payload, inbytes, k, |sent|) && Mirrors(cur)
        invariant Drive(cur, events[i..]) == goal && cur.results == s.results + (if r.Some? then [r.value] else [])
        invariant 1 <= |sent| <= 4 && forall j :: 0 <= j < |sent| ==> sent[j].payload == payload && sent[j].seqno == seqno
        invariant seqno == (old(seqno) + 1) % U32 && (r.None? ==> |sent| == est.nrexmt + 1) && (r == Some(TimedOut) ==> |sent| == 4)
        invariant r.Some? && r.value.Reply? ==> exists k :: 0 <= k < i && AnsweredBy(events[k], seqno, inbytes, r.value)
        invariant cur.waiting == r.None? && cur.toServer == s.toServer + Labelled(sent, k) && cur.armed == armed
      {
        DriveStep(cur, events, i);
        CurrentKept(cur, events[i], payload, inbytes, k, |sent|);
        match events[i] {
          case Alrm(us) =>
            var again := OnAlarm(cur, payload, us);
            if again.None? {
              r := Some(TimedOut);
            } else {
              LabelledSnoc(sent, again.value.0, k);
              sent, armed := sent + [again.value.0], armed + again.value.1;
            }
          case Datagram(p, us) =>
            r := OnDatagram(cur, p, p.msg, us, inbytes);
        }
        cur := React(cur, events[i]);
        i := i + 1;
      }
    }
  }

  /** The messages of request k with their labels. */
  ghost function Labelled(sent: seq<Msg>, k: nat): set<Packet> {
    set j | 0 <= j < |sent| :: Packet(sent[j], k, j)
  }

  lemma LabelledSnoc(sent: seq<Msg>, m: Msg, k: nat)
    ensures Labelled(sent + [m], k) == Labelled(sent, k) + {Packet(m, k, |sent|)}
  {
    var more := sent + [m];
    forall p | p in Labelled(sent, k) + {Packet(m, k, |sent|)} ensures p in Labelled(more, k) {
      assert p.tx < |more| && more[p.tx] == p.msg;
    }
  }

  /** The call in progress is request k, with this payload and room for the reply, sent n times so far. */
  ghost predicate Current(s: State, payload: seq<Byte>, inbytes: nat, k: nat, n: nat) {
    && |s.requests| == k + 1 && s.requests[k].payload == payload && s.requests[k].inbytes == inbytes
    && |s.requests[k].times| == n
  }

  lemma DriveStep(s: State, es: seq<Event>, i: nat)
    requires |s.requests| > 0 && s.waiting && i < |es|
    ensures Drive(s, es[i..]) == Drive(React(s, es[i]), es[i + 1..])
  {
    var rest := es[i..];
    assert rest[1..] == es[i + 1..] && rest[0] == es[i];
  }

  lemma CurrentKept(s: State, e: Event, payload: seq<Byte>, inbytes: nat, k: nat, n: nat)
    requires Current(s, payload, inbytes, k, n)
    ensures Current(React(s, e), payload, inbytes, k, if e.Alrm? && !GiveUp(Timeout(s.est)) then n + 1 else n)
  {
  }
}
