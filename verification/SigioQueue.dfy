/** The datagram queue shared by a SIGIO handler and the main loop of dg_echo. */
module SigioQueue {
  import opened Basics
  import opened Rings

  const QSIZE := 8
  const MAXDG := 4096

  datatype Dgram = Dgram(data: seq<Byte>, sa: int)

  /** Where the main loop stands; SIGIO is deliverable exactly at the unmasked points. */
  datatype MainPc =
    | Testing     // masked, at while (nqueue == 0)
    | Suspended   // in sigsuspend, unmasked
    | Opened      // unmasked, before Sendto
    | Sending     // inside Sendto, dg[iget] being read
    | Sent        // before ++iget
    | Bumped      // after ++iget, before the wrap test: iget may be QSIZE
    | Wrapped     // before SIGIO is blocked again
    | Closed      // masked, before nqueue--
  {
    predicate Unmasked() {
      !Testing? && !Closed?
    }
  }

  datatype HandlerPc = Idle | Checking | Receiving | Booking

  /**
    * The statics of the program, two program counters, and the logs of recvfrom and Sendto.
    * began is how much had been received when the signal came, and counts logs for each
    * handled signal how many datagrams it read.
    */
  datatype State = State(dg: seq<Dgram>, iget: nat, iput: nat, nqueue: nat, main: MainPc,
                         hand: HandlerPc, nread: nat, cntread: seq<nat>, quit: bool,
                         received: seq<Dgram>, sent: seq<Dgram>, began: nat, counts: seq<int>)

  ghost predicate Init(s: State) {
    && |s.dg| == QSIZE && |s.cntread| == QSIZE + 1 && (forall i :: 0 <= i <= QSIZE ==> s.cntread[i] == 0)
    && s.iget == s.iput == s.nqueue == s.nread == 0
    && s.main == Testing && s.hand == Idle && !s.quit && s.received == s.sent == []
    && s.began == 0 && s.counts == []
  }

  // ----- steps of the main loop -----

  function Test(s: State): State {
    s.(main := if s.nqueue == 0 then Suspended else Opened)
  }

  function SendDone(s: State): State
    requires s.iget < |s.dg|
  {
    s.(main := Sent, sent := s.sent + [s.dg[s.iget]])
  }

  function WrapGet(s: State): State {
    s.(main := Wrapped, iget := if s.iget >= QSIZE then 0 else s.iget)
  }

  function Release(s: State): State
    requires s.nqueue > 0
  {
    s.(main := Testing, nqueue := s.nqueue - 1)
  }

  ghost predicate MainStep(s: State, s': State) {
    && !s.quit && s.hand.Idle?
    && match s.main
       case Testing => s' == Test(s)
       case Suspended => s' == s.(main := Testing)   // another signal ended sigsuspend
       case Opened => s' == s.(main := Sending)
       case Sending => s.iget < |s.dg| && s' == SendDone(s)
       case Sent => s' == s.(main := Bumped, iget := s.iget + 1)
       case Bumped => s' == WrapGet(s)
       case Wrapped => s' == s.(main := Closed)
       case Closed => s.nqueue > 0 && s' == Release(s)
  }

  // ----- steps of the handler -----

  function Check(s: State): State {
    if s.nqueue >= QSIZE then s.(quit := true) else s.(hand := Receiving)
  }

  function Fill(s: State, d: Dgram): State
    requires s.iput < |s.dg|
  {
    s.(hand := Booking, dg := s.dg[s.iput := d], received := s.received + [d])
  }

  function Book(s: State): State {
    s.(hand := Checking, nread := s.nread + 1, nqueue := s.nqueue + 1,
    iput := if s.iput + 1 >= QSIZE then 0 else s.iput + 1)
  }

  function Drained(s: State): State
    requires s.nread < |s.cntread|
  {
    s.(hand := Idle, cntread := s.cntread[s.nread := s.cntread[s.nread] + 1], counts := s.counts + [|s.received| - s.began],
    main := if s.main == Suspended then Testing else s.main)
  }

  ghost predicate HandlerStep(s: State, s': State) {
    && !s.quit
    && match s.hand
       case Idle => s.main.Unmasked() && s' == s.(hand := Checking, nread := 0, began := |s.received|)
       case Checking => s' == Check(s)
       case Receiving =>
         || (s.iput < |s.dg| && exists d: Dgram :: |d.data| <= MAXDG && s' == Fill(s, d))
         || (s.nread < |s.cntread| && s' == Drained(s))    // EWOULDBLOCK
         || s' == s.(quit := true)                         // any other error
       case Booking => s' == Book(s)
  }

  ghost predicate Next(s: State, s': State) {
    MainStep(s, s') || HandlerStep(s, s')
  }

  ghost predicate StepAt(run: seq<State>, i: nat)
    requires i + 1 < |run|
  {
    Next(run[i], run[i + 1])
  }

  ghost predicate IsRun(run: seq<State>) {
    |run| > 0 && forall i :: 0 <= i < |run| - 1 ==> StepAt(run, i)
  }

  // ----- the invariant -----

  /** The datagram at iget has been sent, although nqueue still counts it. */
  predicate HeadGone(m: MainPc) {
    m.Sent? || m.Bumped? || m.Wrapped? || m.Closed?
  }

  /** Datagrams received and booked but not sent. */
  function Pending(s: State): int {
    if HeadGone(s.main) then s.nqueue - 1 else s.nqueue
  }

  /** Where the oldest of them lies: iget, shifted by one between the send and the increment. */
  function Head(s: State): nat {
    if s.main.Sent? || (s.main.Bumped? && s.iget == QSIZE) then (if s.iget + 1 >= QSIZE then 0 else s.iget + 1)
    else s.iget
  }

  ghost predicate Inv(s: State) {
    && |s.dg| == QSIZE && |s.cntread| == QSIZE + 1
    && (if s.main.Bumped? then 1 <= s.iget <= QSIZE else s.iget < QSIZE)
    && 0 <= Pending(s) <= s.nqueue <= QSIZE
    && (s.main.Opened? || s.main.Sending? ==> s.nqueue >= 1)
    && s.iput == Slot(Head(s), Pending(s), QSIZE)
    && (s.hand.Idle? || s.hand.Receiving? || s.hand.Booking? ==> s.nqueue < QSIZE)
    && (!s.hand.Idle? ==> s.main.Unmasked() && s.nread <= s.nqueue)
    && s.cntread[QSIZE] == 0
    && s.received == s.sent + Window(s.dg, Head(s), Pending(s)) + (if s.hand.Booking? then [s.dg[s.iput]] else [])
  }

  lemma InitInv(s: State)
    requires Init(s)
    ensures Inv(s)
  {
  }

  lemma MainKeeps(s: State, s': State)
    requires Inv(s) && MainStep(s, s')
    ensures Inv(s')
  {
    if s.main.Sending? {
      SendKeeps(s);
    } else {
      assert Head(s') == Head(s) && Pending(s') == Pending(s);
    }
  }

  lemma SendKeeps(s: State)
    requires Inv(s) && s.hand.Idle? && s.main.Sending?
    ensures Inv(SendDone(s))
  {
    var s' := SendDone(s);
    WindowPop(s.dg, s.iget, s.nqueue);
    ConcatAssoc(s.sent, [s.dg[s.iget]], Window(s.dg, Head(s'), Pending(s')));
  }

  lemma FillKeeps(s: State, d: Dgram)
    requires Inv(s) && !s.quit && s.hand.Receiving?
    ensures Inv(Fill(s, d))
    ensures s.main.Sending? ==> s.iput != s.iget && Fill(s, d).dg[s.iget] == s.dg[s.iget]
  {
    WindowPush(s.dg, Head(s), Pending(s), d);
  }

  lemma BookKeeps(s: State)
    requires Inv(s) && !s.quit && s.hand.Booking?
    ensures Inv(Book(s))
  {
    var x := s.dg[s.iput];
    WindowPush(s.dg, Head(s), Pending(s), x);
    assert s.dg[s.iput := x] == s.dg;
    ConcatAssoc(s.sent, Window(s.dg, Head(s), Pending(s)), [x]);
  }

  lemma HandlerKeeps(s: State, s': State)
    requires Inv(s) && HandlerStep(s, s')
    ensures Inv(s')
  {
    if s.hand.Booking? {
      BookKeeps(s);
    } else if s.dg == s'.dg && s.received == s'.received {
      assert Head(s') == Head(s) && Pending(s') == Pending(s);
    } else {
      var d: Dgram :| |d.data| <= MAXDG && s' == Fill(s, d);
      FillKeeps(s, d);
    }
  }

  lemma {:induction false} RunInv(run: seq<State>, i: nat)
    requires IsRun(run) && Init(run[0]) && i < |run|
    ensures Inv(run[i])
  {
    if i == 0 {
      InitInv(run[0]);
    } else {
      RunInv(run, i - 1);
      assert StepAt(run, i - 1);
      if MainStep(run[i - 1], run[i]) { MainKeeps(run[i - 1], run[i]); } else { HandlerKeeps(run[i - 1], run[i]); }
    }
  }

  lemma QueueIndices(s: State)
    requires Inv(s)
    ensures s.iput == if s.main.Bumped? || s.main.Wrapped? || s.main.Closed? then (s.iget + s.nqueue - 1) % QSIZE
                      else (s.iget + s.nqueue) % QSIZE
  {
    SlotIsMod(Head(s), Pending(s), QSIZE);
  }

  /**
    * In every interleaving: what was sent is a prefix of what was received, the rest is
    * exactly the queue in order (plus a datagram the handler is still booking), the indices
    * agree modulo QSIZE with the shift by one after the increment, and the last histogram
    * bucket is never used because a queue that fills up ends the program first.
    */
  lemma InOrderExactlyOnce(run: seq<State>, i: nat)
    requires IsRun(run) && Init(run[0]) && i < |run|
    ensures var s := run[i];
            && |s.dg| == QSIZE && s.iput < QSIZE && Head(s) < QSIZE && 0 <= Pending(s) <= QSIZE
            && s.received == s.sent + (Window(s.dg, Head(s), Pending(s)) + (if s.hand.Booking? then [s.dg[s.iput]] else []))
            && (if s.main.Bumped? || s.main.Wrapped? || s.main.Closed? then s.iput == (s.iget + s.nqueue - 1) % QSIZE
                else s.iput == (s.iget + s.nqueue) % QSIZE)
            && (s.hand.Idle? ==> s.nqueue < QSIZE)
            && |s.cntread| == QSIZE + 1 && s.cntread[QSIZE] == 0
  {
    RunInv(run, i);
    QueueIndices(run[i]);
  }

  // ----- when the program sleeps, and what the histogram counts -----

  /** It sleeps only on an empty queue; while the handler runs, nread counts its datagrams; bucket k counts the signals that read k. */
  ghost predicate Awake(s: State) {
    && (s.main.Suspended? && s.hand.Idle? && !s.quit ==> s.nqueue == 0)
    && (!s.hand.Idle? ==> s.nread == |s.received| - s.began - (if s.hand.Booking? then 1 else 0))
    && |s.cntread| == QSIZE + 1 && forall k :: 0 <= k <= QSIZE ==> s.cntread[k] == Count(s.counts, k)
  }

  lemma CountSnoc(s: seq<int>, y: int, x: int)
    ensures Count(s + [y], x) == Count(s, x) + (if y == x then 1 else 0)
  {
    assert (s + [y])[..|s|] == s;
  }

  lemma AwakeKept(s: State, s': State)
    requires Inv(s) && Awake(s) && Next(s, s')
    ensures Awake(s')
  {
    if s'.counts != s.counts {
      DrainedKeeps(s);
    }
  }

  lemma DrainedKeeps(s: State)
    requires Inv(s) && Awake(s) && s.hand.Receiving? && s.nread < |s.cntread|
    ensures Awake(Drained(s))
  {
    forall k | 0 <= k <= QSIZE ensures Drained(s).cntread[k] == Count(Drained(s).counts, k) {
      CountSnoc(s.counts, |s.received| - s.began, k);
    }
  }

  lemma {:induction false} RunAwake(run: seq<State>, i: nat)
    requires IsRun(run) && Init(run[0]) && i < |run|
    ensures Awake(run[i])
  {
    if i > 0 {
      RunAwake(run, i - 1);
      RunInv(run, i - 1);
      assert StepAt(run, i - 1);
      AwakeKept(run[i - 1], run[i]);
    }
  }

  /** In every run the program sleeps only when everything received has been sent. */
  lemma SleepsOnlyWhenDone(run: seq<State>, i: nat)
    requires IsRun(run) && Init(run[0]) && i < |run|
    requires run[i].main.Suspended? && run[i].hand.Idle? && !run[i].quit
    ensures run[i].nqueue == 0 && run[i].received == run[i].sent
  {
    RunInv(run, i);
    RunAwake(run, i);
  }

  /** The main loop goes to sleep from its test exactly when the queue is empty. */
  lemma SleepsExactly(s: State, s': State)
    requires s.main.Testing? && MainStep(s, s')
    ensures s'.main.Suspended? <==> s.nqueue == 0
    ensures s'.main.Opened? <==> s.nqueue != 0
  {
  }

  /** Bucket k of the histogram is the number of handled signals that read k datagrams. */
  lemma HistogramCounts(run: seq<State>, i: nat, k: nat)
    requires IsRun(run) && Init(run[0]) && i < |run| && k <= QSIZE
    ensures |run[i].cntread| == QSIZE + 1 && run[i].cntread[k] == Count(run[i].counts, k)
  {
    RunAwake(run, i);
  }

  /** Along a run, the slot handed to Sendto keeps its datagram until Sendto is done. */
  lemma {:induction false} SlotStableWhileSending(run: seq<State>, i: nat, j: nat)
    requires IsRun(run) && Init(run[0]) && i <= j < |run|
    requires forall k :: i <= k <= j ==> run[k].main.Sending?
    ensures SameSlot(run[i], run[j])
  {
    if i == j {
      RunInv(run, i);
    } else {
      SlotStableWhileSending(run, i, j - 1);
      RunInv(run, j - 1);
      assert StepAt(run, j - 1);
      StepKeepsSlot(run[j - 1], run[j]);
      SameSlotTrans(run[i], run[j - 1], run[j]);
    }
  }

  /** The slot at iget is the same one and holds the same datagram. */
  ghost predicate SameSlot(s: State, s': State) {
    s.iget == s'.iget < QSIZE && |s.dg| == |s'.dg| == QSIZE && s.dg[s.iget] == s'.dg[s'.iget]
  }

  lemma SameSlotTrans(a: State, b: State, c: State)
    requires SameSlot(a, b) && SameSlot(b, c)
    ensures SameSlot(a, c)
  {
  }

  /** The handler never writes the slot being sent. */
  lemma StepKeepsSlot(s: State, s': State)
    requires Inv(s) && Next(s, s') && s.main.Sending? && s'.main.Sending?
    ensures SameSlot(s, s')
  {
    if s' != s.(hand := s'.hand, nread := s'.nread, nqueue := s'.nqueue, iput := s'.iput, quit := s'.quit,
              cntread := s'.cntread, began := s'.began, counts := s'.counts) {
      var d: Dgram :| |d.data| <= MAXDG && s' == Fill(s, d);
      FillKeeps(s, d);
    }
  }

  /** SIGIO can interrupt the main loop at every point but the two where it is blocked. */
  lemma SignalsArrive(s: State)
    requires s.hand.Idle? && !s.quit
    ensures (exists s' :: HandlerStep(s, s')) <==> !s.main.Testing? && !s.main.Closed?
  {
    if !s.main.Testing? && !s.main.Closed? {
      assert HandlerStep(s, s.(hand := Checking, nread := 0, began := |s.received|));
    }
  }

  /** The overflow exit is taken exactly when QSIZE datagrams are unsent or in flight. */
  lemma OverflowExit(s: State)
    requires Inv(s) && !s.quit && s.hand.Checking?
    ensures Check(s).quit <==> s.nqueue == 8
    ensures Check(s).quit ==> |s.received| == |s.sent| + (if HeadGone(s.main) then QSIZE - 1 else QSIZE)
  {
  }

  /** In this call the handler has read the first nread of the datagrams that were waiting. */
  ghost predicate ReadSoFar(s0: State, s: State, kernel: seq<Dgram>) {
    && s.nread <= |kernel| && s.received == s0.received + kernel[..s.nread] && s.sent == s0.sent
    && s.nqueue == s0.nqueue + s.nread && s.iget == s0.iget
  }

  lemma ReadOneMore(s0: State, s: State, kernel: seq<Dgram>)
    requires ReadSoFar(s0, s, kernel) && s.nread < |kernel| && s.nqueue < QSIZE && s.iput < |s.dg|
    ensures ReadSoFar(s0, Book(Fill(Check(s), kernel[s.nread])), kernel)
  {
    assert kernel[..s.nread + 1] == kernel[..s.nread] + [kernel[s.nread]];
    ConcatAssoc(s0.received, kernel[..s.nread], [kernel[s.nread]]);
  }

  // ----- the program -----

  class DgEcho {
    var dg: array<Dgram>
    var iget: nat
    var iput: nat
    var nqueue: nat
    var cntread: array<nat>
    ghost var main: MainPc
    ghost var hand: HandlerPc
    var nread: nat   // local to sig_io in the source
    var quit: bool   // the program has exited
    ghost var received: seq<Dgram>
    ghost var sent: seq<Dgram>
    ghost var began: nat
    ghost var counts: seq<int>

    ghost function View(): State
      reads this, dg, cntread
    {
      State(dg[..], iget, iput, nqueue, main, hand, nread, cntread[..], quit, received, sent, began, counts)
    }

    constructor (filler: Dgram)
      ensures Init(View()) && fresh(dg) && fresh(cntread)
    {
      dg := new Dgram[QSIZE](_ => filler);
      cntread := new nat[QSIZE + 1](_ => 0);
      iget, iput, nqueue := 0, 0, 0;
      main, hand, nread, quit, received, sent, began, counts := Testing, Idle, 0, false, [], [], 0, [];
    }

    /** if (nqueue >= QSIZE) err_quit(...) */
    method CheckQueue()
      requires Inv(View()) && !quit && hand.Checking?
      modifies this
      ensures View() == Check(old(View())) && Inv(View()) && dg == old(dg) && cntread == old(cntread)
      ensures quit <==> old(nqueue) >= QSIZE
    {
      ghost var s := View();
      if nqueue >= QSIZE { quit := true; } else { hand := Receiving; }
      HandlerKeeps(s, View());
    }

    /** recvfrom into dg[iput]. */
    method Recv(d: Dgram)
      requires Inv(View()) && !quit && hand.Receiving? && |d.data| <= MAXDG
      modifies this, dg
      ensures View() == Fill(old(View()), d) && Inv(View()) && dg == old(dg) && cntread == old(cntread)
      ensures dg[..] == old(dg[..])[iput := d] && received == old(received) + [d] && sent == old(sent)
    {
      ghost var s := View();
      dg[iput] := d;
      hand, received := Booking, received + [d];
      FillKeeps(s, d);
      assert View() == Fill(s, d);
    }

    /** nread++, nqueue++ and the wrap of iput. */
    method BookIn()
      requires Inv(View()) && !quit && hand.Booking?
      modifies this
      ensures View() == Book(old(View())) && Inv(View()) && dg == old(dg) && cntread == old(cntread)
      ensures iput == (if old(iput) == 7 then 0 else old(iput) + 1) && nqueue == old(nqueue) + 1 && nread == old(nread) + 1
    {
      ghost var s := View();
      nread, nqueue, iput, hand := nread + 1, nqueue + 1, iput + 1, Checking;
      if iput >= QSIZE { iput := 0; }
      BookKeeps(s);
    }

    /** EWOULDBLOCK: count this signal in the histogram and return to the main loop. */
    method Return()
      requires Inv(View()) && !quit && hand.Receiving?
      modifies this, cntread
      ensures View() == Drained(old(View())) && Inv(View()) && dg == old(dg) && cntread == old(cntread)
      ensures cntread[..] == old(cntread[..])[nread := old(cntread[nread]) + 1] && hand.Idle? && main != Suspended
    {
      ghost var s := View();
      cntread[nread] := cntread[nread] + 1;
      hand, counts := Idle, counts + [|received| - began];
      if main == Suspended { main := Testing; }
      assert View() == Drained(s);
      HandlerKeeps(s, View());
    }

    /**
      * sig_io over the datagrams the kernel hands it before EWOULDBLOCK, made of the steps
      * above: it reads them all, or ends the program when the queue fills up.
      */
    method SigIo(kernel: seq<Dgram>)
      requires Inv(View()) && !quit && hand.Checking? && nread == 0
      requires forall i :: 0 <= i < |kernel| ==> |kernel[i].data| <= MAXDG
      modifies this, dg, cntread
      ensures dg == old(dg) && cntread == old(cntread) && Inv(View())
      ensures nread <= |kernel| && received == old(received) + kernel[..nread] && sent == old(sent)
      ensures nqueue == old(nqueue) + nread && iget == old(iget)
      ensures quit <==> old(nqueue) + |kernel| >= QSIZE
      ensures if quit then nqueue == QSIZE else hand.Idle? && nread == |kernel|
    {
      ghost var s0 := View();
      assert kernel[..0] == [];
      while true
        invariant nread <= |kernel| && hand.Checking? && !quit
        invariant dg == old(dg) && cntread == old(cntread) && Inv(View()) && ReadSoFar(s0, View(), kernel)
        decreases |kernel| - nread
      {
        ghost var s := View();
        CheckQueue();
        if quit {
          return;
        }
        if nread == |kernel| {
          Return();
          return;
        }
        ReadOneMore(s0, s, kernel);
        TakeOne(kernel[nread]);
      }
    }

    /** One datagram read and booked. */
    method TakeOne(d: Dgram)
      requires Inv(View()) && !quit && hand.Receiving? && |d.data| <= MAXDG
      modifies this, dg
      ensures dg == old(dg) && cntread == old(cntread) && Inv(View()) && View() == Book(Fill(old(View()), d))
      ensures !quit && hand.Checking? && sent == old(sent) && received == old(received) + [d]
      ensures nread == old(nread) + 1 && nqueue == old(nqueue) + 1 && iget == old(iget)
    {
      Recv(d);
      BookIn();
    }

    /** while (nqueue == 0): wait for a signal, or go on with SIGIO unblocked. */
    method TestQueue()
      requires Inv(View()) && !quit && hand.Idle? && main.Testing?
      modifies this
      ensures View() == Test(old(View())) && Inv(View()) && dg == old(dg) && cntread == old(cntread)
      ensures (main.Suspended? <==> old(nqueue) == 0) && (main.Opened? <==> old(nqueue) != 0)
    {
      ghost var s := View();
      if nqueue == 0 { main := Suspended; } else { main := Opened; }
      MainKeeps(s, View());
    }

    /** ++iget; a signal may come before the wrap test. */
    method BumpGet()
      requires Inv(View()) && !quit && hand.Idle? && main.Sent?
      modifies this
      ensures View() == old(View()).(main := Bumped, iget := old(iget) + 1) && Inv(View())
      ensures dg == old(dg) && cntread == old(cntread)
    {
      ghost var s := View();
      iget, main := iget + 1, Bumped;
      MainKeeps(s, View());
    }

    method WrapAround()
      requires Inv(View()) && !quit && hand.Idle? && main.Bumped?
      modifies this
      ensures View() == WrapGet(old(View())) && Inv(View()) && dg == old(dg) && cntread == old(cntread)
      ensures iget == (if old(iget) == 8 then 0 else old(iget)) && nqueue == old(nqueue)
    {
      ghost var s := View();
      if iget >= QSIZE { iget := 0; }
      main := Wrapped;
      MainKeeps(s, View());
    }

    /** nqueue--, with SIGIO blocked. */
    method Uncount()
      requires Inv(View()) && !quit && hand.Idle? && main.Closed?
      modifies this
      ensures View() == Release(old(View())) && Inv(View()) && dg == old(dg) && cntread == old(cntread)
      ensures nqueue == old(nqueue) - 1 && iget == old(iget)
    {
      ghost var s := View();
      nqueue, main := nqueue - 1, Testing;
      MainKeeps(s, View());
    }

    /** Sendto on the head of the queue, which the handler cannot have touched. */
    method SendHead() returns (d: Dgram)
      requires Inv(View()) && !quit && hand.Idle? && main.Sending?
      modifies this
      ensures View() == SendDone(old(View())) && Inv(View()) && d == old(received)[|old(sent)|]
    {
      ghost var s := View();
      d := dg[iget];
      assert d == Window(dg[..], iget, nqueue)[0];
      main, sent := Sent, sent + [d];
      MainKeeps(s, View());
    }
  }
}
