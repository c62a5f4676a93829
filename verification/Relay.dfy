/** str_cli of nonblock/strclinonb.c: a non-blocking copy in both directions. */
module Relay {
  import opened Basics

  const MAXLINE := 4096

  /** One buffer with its input and output pointers, and the bytes ever read into and written from it. */
  datatype Chan = Chan(buf: seq<Byte>, iptr: nat, optr: nat, read: seq<Byte>, written: seq<Byte>)
  {
    ghost predicate Valid() {
      && |buf| == MAXLINE && optr <= iptr <= MAXLINE
      && (optr == iptr ==> iptr == 0)
      && read == written + buf[optr..iptr]
    }

    predicate Empty() {
      optr == iptr
    }

    /** read() stored d at iptr. */
    function Fill(d: seq<Byte>): Chan
      requires Valid() && |d| <= MAXLINE - iptr
    {
      this.(buf := buf[..iptr] + d + buf[iptr + |d|..], iptr := iptr + |d|, read := read + d)
    }

    /** write() took n bytes; an emptied buffer starts again at its beginning. */
    function Drain(n: nat): Chan
      requires Valid() && n <= iptr - optr
    {
      var out := written + buf[optr..optr + n];
      if optr + n == iptr then this.(iptr := 0, optr := 0, written := out)
      else this.(optr := optr + n, written := out)
    }
  }

  datatype Pc = Top | ReadStdin | ReadSock | WriteStdout | WriteSock | Done(normal: bool)

  /** rIn and rSock, wOut and wSock are the members of rset and wset that matter to this pass. */
  datatype State = State(to: Chan, fr: Chan, stdineof: bool, shutdowns: nat, pc: Pc,
                         rIn: bool, rSock: bool, wOut: bool, wSock: bool)

  ghost predicate Init(s: State) {
    && |s.to.buf| == |s.fr.buf| == MAXLINE
    && s.to.iptr == s.to.optr == s.fr.iptr == s.fr.optr == 0
    && s.to.read == s.to.written == s.fr.read == s.fr.written == []
    && !s.stdineof && s.shutdowns == 0 && s.pc == Top
  }

  // ----- what is asked of select -----

  predicate AskStdin(s: State) { !s.stdineof && s.to.iptr < MAXLINE }
  predicate AskSock(s: State) { s.fr.iptr < MAXLINE }
  predicate AskSockWrite(s: State) { s.to.optr != s.to.iptr }
  predicate AskStdout(s: State) { s.fr.optr != s.fr.iptr }

  /** Any subset of what was asked for may come back ready. */
  ghost predicate Select(s: State, s': State) {
    && s' == s.(pc := ReadStdin, rIn := s'.rIn, rSock := s'.rSock, wOut := s'.wOut, wSock := s'.wSock)
    && (s'.rIn ==> AskStdin(s)) && (s'.rSock ==> AskSock(s)) && (s'.wOut ==> AskStdout(s)) && (s'.wSock ==> AskSockWrite(s))
  }

  function StdinEof(s: State): State {
    s.(stdineof := true, shutdowns := if s.to.Empty() then s.shutdowns + 1 else s.shutdowns, pc := ReadSock)
  }

  ghost predicate StdinStep(s: State, s': State) {
    if !s.rIn then s' == s.(pc := ReadSock)
    else
      || s' == s.(pc := ReadSock)       // EWOULDBLOCK
      || s' == s.(pc := Done(false))    // any other error
      || s' == StdinEof(s)
      || (s.to.Valid() && exists d :: 0 < |d| <= MAXLINE - s.to.iptr && s' == s.(to := s.to.Fill(d), wSock := true, pc := ReadSock))
  }

  ghost predicate SockStep(s: State, s': State) {
    if !s.rSock then s' == s.(pc := WriteStdout)
    else
      || s' == s.(pc := WriteStdout)
      || s' == s.(pc := Done(false))
      || s' == s.(pc := Done(s.stdineof))   // EOF: normal only after EOF on stdin
      || (s.fr.Valid() && exists d :: 0 < |d| <= MAXLINE - s.fr.iptr && s' == s.(fr := s.fr.Fill(d), wOut := true, pc := WriteStdout))
  }

  ghost predicate StdoutStep(s: State, s': State) {
    if !s.wOut || s.fr.Empty() then s' == s.(pc := WriteSock)
    else
      || s' == s.(pc := WriteSock)
      || s' == s.(pc := Done(false))
      || (s.fr.Valid() && exists n :: 0 <= n <= s.fr.iptr - s.fr.optr && s' == s.(fr := s.fr.Drain(n), pc := WriteSock))
  }

  function SockWritten(s: State, n: nat): State
    requires s.to.Valid() && n <= s.to.iptr - s.to.optr
  {
    var c := s.to.Drain(n);
    s.(to := c, shutdowns := if s.to.optr + n == s.to.iptr && s.stdineof then s.shutdowns + 1 else s.shutdowns, pc := Top)
  }

  ghost predicate SockWriteStep(s: State, s': State) {
    if !s.wSock || s.to.Empty() then s' == s.(pc := Top)
    else
      || s' == s.(pc := Top)
      || s' == s.(pc := Done(false))
      || (s.to.Valid() && exists n :: 0 <= n <= s.to.iptr - s.to.optr && s' == SockWritten(s, n))
  }

  ghost predicate Next(s: State, s': State) {
    match s.pc
    case Top => Select(s, s')
    case ReadStdin => StdinStep(s, s')
    case ReadSock => SockStep(s, s')
    case WriteStdout => StdoutStep(s, s')
    case WriteSock => SockWriteStep(s, s')
    case Done(_) => false
  }

  ghost predicate StepAt(run: seq<State>, i: nat)
    requires i + 1 < |run|
  {
    Next(run[i], run[i + 1])
  }

  ghost predicate IsRun(run: seq<State>) {
    |run| > 0 && Init(run[0]) && forall i :: 0 <= i < |run| - 1 ==> StepAt(run, i)
  }

  // ----- the invariant -----

  ghost predicate Inv(s: State) {
    && s.to.Valid() && s.fr.Valid()
    && s.shutdowns == (if s.stdineof && s.to.Empty() then 1 else 0)
    && (s.pc.ReadStdin? && s.rIn ==> AskStdin(s))
    && ((s.pc.ReadStdin? || s.pc.ReadSock?) && s.rSock ==> AskSock(s))
    && (s.pc == Done(true) ==> s.stdineof)
  }

  lemma FillValid(c: Chan, d: seq<Byte>)
    requires c.Valid() && 0 < |d| <= MAXLINE - c.iptr
    ensures c.Fill(d).Valid()
  {
    var c' := c.Fill(d);
    assert c'.buf[c.optr..c'.iptr] == c.buf[c.optr..c.iptr] + d;
  }

  lemma DrainValid(c: Chan, n: nat)
    requires c.Valid() && n <= c.iptr - c.optr
    ensures c.Drain(n).Valid()
    ensures c.Drain(n).Empty() <==> c.optr + n == c.iptr
  {
    assert c.buf[c.optr..c.iptr] == c.buf[c.optr..c.optr + n] + c.buf[c.optr + n..c.iptr];
  }

  /** Nothing read or written is taken back, and after the FIN nothing more goes to the socket. */
  ghost predicate Grows(s: State, s': State) {
    && s.to.read <= s'.to.read && s.to.written <= s'.to.written
    && s.fr.read <= s'.fr.read && s.fr.written <= s'.fr.written
    && (s.shutdowns == 1 ==> s'.shutdowns == 1 && s'.to.written == s.to.written)
  }

  lemma StdinKeeps(s: State, s': State)
    requires Inv(s) && s.pc.ReadStdin? && StdinStep(s, s')
    ensures Inv(s') && Grows(s, s')
  {
    if s'.to != s.to {
      var d :| 0 < |d| <= MAXLINE - s.to.iptr && s' == s.(to := s.to.Fill(d), wSock := true, pc := ReadSock);
      FillValid(s.to, d);
    }
  }

  lemma SockKeeps(s: State, s': State)
    requires Inv(s) && s.pc.ReadSock? && SockStep(s, s')
    ensures Inv(s') && Grows(s, s')
  {
    if s'.fr != s.fr {
      var d :| 0 < |d| <= MAXLINE - s.fr.iptr && s' == s.(fr := s.fr.Fill(d), wOut := true, pc := WriteStdout);
      FillValid(s.fr, d);
    }
  }

  lemma StdoutKeeps(s: State, s': State)
    requires Inv(s) && s.pc.WriteStdout? && StdoutStep(s, s')
    ensures Inv(s') && Grows(s, s')
  {
    if s'.fr != s.fr {
      var n :| 0 <= n <= s.fr.iptr - s.fr.optr && s' == s.(fr := s.fr.Drain(n), pc := WriteSock);
      DrainValid(s.fr, n);
    }
  }

  lemma SockWriteKeeps(s: State, s': State)
    requires Inv(s) && s.pc.WriteSock? && SockWriteStep(s, s')
    ensures Inv(s') && Grows(s, s')
  {
    if s'.to != s.to {
      var n :| 0 <= n <= s.to.iptr - s.to.optr && s' == SockWritten(s, n);
      DrainValid(s.to, n);
    }
  }

  lemma StepKeeps(s: State, s': State)
    requires Inv(s) && Next(s, s')
    ensures Inv(s') && Grows(s, s')
  {
    match s.pc
    case Top =>
    case ReadStdin => StdinKeeps(s, s');
    case ReadSock => SockKeeps(s, s');
    case WriteStdout => StdoutKeeps(s, s');
    case WriteSock => SockWriteKeeps(s, s');
  }

  lemma {:induction false} RunInv(run: seq<State>, i: nat)
    requires IsRun(run) && i < |run|
    ensures Inv(run[i])
  {
    if i == 0 {
      assert run[0].to.buf[0..0] == [] && run[0].fr.buf[0..0] == [];
    } else {
      RunInv(run, i - 1);
      assert StepAt(run, i - 1);
      StepKeeps(run[i - 1], run[i]);
    }
  }

  /**
    * In every run: in each direction the bytes read are the bytes written followed by the
    * pending slice of the buffer, and Shutdown has been called exactly when stdin is at EOF
    * and every byte read from it has been written to the socket, and then once.
    */
  lemma Conservation(run: seq<State>, i: nat)
    requires IsRun(run) && i < |run|
    ensures var s := run[i];
            && s.to.optr <= s.to.iptr <= |s.to.buf| && s.to.read == s.to.written + s.to.buf[s.to.optr..s.to.iptr]
            && s.fr.optr <= s.fr.iptr <= |s.fr.buf| && s.fr.read == s.fr.written + s.fr.buf[s.fr.optr..s.fr.iptr]
            && s.shutdowns == (if s.stdineof && s.to.read == s.to.written then 1 else 0)
            && (s.pc == Done(true) ==> s.stdineof)
  {
    RunInv(run, i);
    var s := run[i];
    assert |s.to.read| == |s.to.written| + (s.to.iptr - s.to.optr);
    if s.to.Empty() { assert s.to.written + [] == s.to.written; }
  }

  /** Along a run the logs only grow, and after the FIN nothing more is written to the socket. */
  lemma {:induction false} LogsGrow(run: seq<State>, i: nat, j: nat)
    requires IsRun(run) && i <= j < |run|
    ensures Grows(run[i], run[j])
  {
    if i < j {
      LogsGrow(run, i, j - 1);
      RunStepGrows(run, j - 1);
      GrowsTrans(run[i], run[j - 1], run[j]);
    }
  }

  lemma RunStepGrows(run: seq<State>, i: nat)
    requires IsRun(run) && i + 1 < |run|
    ensures Grows(run[i], run[i + 1])
  {
    var s, s' := run[i], run[i + 1];
    RunInv(run, i);
    assert StepAt(run, i);
    StepKeeps(s, s');
  }

  lemma GrowsTrans(a: State, b: State, c: State)
    requires Grows(a, b) && Grows(b, c)
    ensures Grows(a, c)
  {
    PrefixTrans(a.to.read, b.to.read, c.to.read);
    PrefixTrans(a.to.written, b.to.written, c.to.written);
    PrefixTrans(a.fr.read, b.fr.read, c.fr.read);
    PrefixTrans(a.fr.written, b.fr.written, c.fr.written);
  }

  /** A read is never issued with no room, so a return of zero is end of file; and select always waits for something. */
  lemma AlwaysRoomAndWork(run: seq<State>, i: nat)
    requires IsRun(run) && i < |run|
    ensures run[i].pc.ReadStdin? && run[i].rIn ==> run[i].to.iptr < MAXLINE && !run[i].stdineof
    ensures run[i].pc.ReadSock? && run[i].rSock ==> run[i].fr.iptr < MAXLINE
    ensures AskSock(run[i]) || AskStdout(run[i])
    ensures run[i].to.iptr == MAXLINE ==> AskSockWrite(run[i])
  {
    RunInv(run, i);
  }

  // ----- a buffer in place -----

  class Pipe {
    const buf: array<Byte>
    var iptr: nat
    var optr: nat
    ghost var read: seq<Byte>
    ghost var written: seq<Byte>

    ghost function View(): Chan
      reads this, buf
    {
      Chan(buf[..], iptr, optr, read, written)
    }

    constructor ()
      ensures View().Valid() && View().Empty() && read == [] && written == [] && fresh(buf)
    {
      buf := new Byte[MAXLINE];
      iptr, optr, read, written := 0, 0, [], [];
    }

    /** The kernel copied d into the room after iptr. */
    method Fill(d: seq<Byte>)
      requires View().Valid() && 0 < |d| <= MAXLINE - iptr
      modifies this, buf
      ensures View() == old(View()).Fill(d) && View().Valid()
    {
      FillValid(View(), d);
      forall k | 0 <= k < |d| { buf[iptr + k] := d[k]; }
      iptr, read := iptr + |d|, read + d;
    }

    /** write() returned n. */
    method Drain(n: nat) returns (emptied: bool)
      requires View().Valid() && n <= iptr - optr
      modifies this
      ensures View() == old(View()).Drain(n) && View().Valid() && emptied == (n == old(iptr - optr))
    {
      DrainValid(View(), n);
      written := written + buf[optr..optr + n];
      optr := optr + n;
      emptied := optr == iptr;
      if emptied {
        iptr, optr := 0, 0;
      }
    }
  }

  // ----- the loop, given what each call comes back with -----

  datatype ReadResult = ReadBlocked | ReadFailed | Eof | Got(bytes: seq<Byte>)
  datatype WriteResult = WriteBlocked | WriteFailed | Wrote(n: nat)

  function AfterSelect(s: State, canIn: bool, canSock: bool, canOut: bool, canSockWrite: bool): State {
    s.(pc := ReadStdin, rIn := canIn && AskStdin(s), rSock := canSock && AskSock(s),
    wOut := canOut && AskStdout(s), wSock := canSockWrite && AskSockWrite(s))
  }

  ghost predicate Fits(c: Chan, io: ReadResult) {
    io.Got? ==> 0 < |io.bytes| <= MAXLINE - c.iptr
  }

  function AfterStdin(s: State, io: ReadResult): State
    requires s.to.Valid() && (s.rIn ==> Fits(s.to, io))
  {
    if !s.rIn then s.(pc := ReadSock)
    else match io
      case ReadBlocked => s.(pc := ReadSock)
      case ReadFailed => s.(pc := Done(false))
      case Eof => StdinEof(s)
      case Got(d) => s.(to := s.to.Fill(d), wSock := true, pc := ReadSock)
  }

  function AfterSock(s: State, io: ReadResult): State
    requires s.fr.Valid() && (s.rSock ==> Fits(s.fr, io))
  {
    if !s.rSock then s.(pc := WriteStdout)
    else match io
      case ReadBlocked => s.(pc := WriteStdout)
      case ReadFailed => s.(pc := Done(false))
      case Eof => s.(pc := Done(s.stdineof))
      case Got(d) => s.(fr := s.fr.Fill(d), wOut := true, pc := WriteStdout)
  }

  function AfterStdout(s: State, io: WriteResult): State
    requires s.fr.Valid() && (io.Wrote? ==> io.n <= s.fr.iptr - s.fr.optr)
  {
    if !s.wOut || s.fr.Empty() then s.(pc := WriteSock)
    else match io
      case WriteBlocked => s.(pc := WriteSock)
      case WriteFailed => s.(pc := Done(false))
      case Wrote(n) => s.(fr := s.fr.Drain(n), pc := WriteSock)
  }

  function AfterSockWrite(s: State, io: WriteResult): State
    requires s.to.Valid() && (io.Wrote? ==> io.n <= s.to.iptr - s.to.optr)
  {
    if !s.wSock || s.to.Empty() then s.(pc := Top)
    else match io
      case WriteBlocked => s.(pc := Top)
      case WriteFailed => s.(pc := Done(false))
      case Wrote(n) => SockWritten(s, n)
  }

  /** Each descriptor is asked for exactly when there is room to read into, or something to write. */
  lemma AsksExactly(s: State)
    requires s.pc.Top?
    ensures (exists s' :: Next(s, s') && s'.rIn) <==> !s.stdineof && s.to.iptr < 4096
    ensures (exists s' :: Next(s, s') && s'.rSock) <==> s.fr.iptr < 4096
    ensures (exists s' :: Next(s, s') && s'.wOut) <==> s.fr.optr != s.fr.iptr
    ensures (exists s' :: Next(s, s') && s'.wSock) <==> s.to.optr != s.to.iptr
  {
    assert Next(s, AfterSelect(s, true, true, true, true));
  }

  /** Each of them is a step of the machine, so every run of the loop is one of its runs. */
  lemma LoopIsRun(s: State, r: ReadResult, w: WriteResult, canIn: bool, canSock: bool, canOut: bool, canSockWrite: bool)
    requires Inv(s)
    ensures s.pc.Top? ==> Next(s, AfterSelect(s, canIn, canSock, canOut, canSockWrite))
    ensures s.pc.ReadStdin? && Fits(s.to, r) ==> Next(s, AfterStdin(s, r))
    ensures s.pc.ReadSock? && Fits(s.fr, r) ==> Next(s, AfterSock(s, r))
    ensures s.pc.WriteStdout? && (w.Wrote? ==> w.n <= s.fr.iptr - s.fr.optr) ==> Next(s, AfterStdout(s, w))
    ensures s.pc.WriteSock? && (w.Wrote? ==> w.n <= s.to.iptr - s.to.optr) ==> Next(s, AfterSockWrite(s, w))
  {
  }

  class Client {
    const to: Pipe
    const fr: Pipe
    var stdineof: bool
    var shutdowns: nat
    var pc: Pc
    var rIn: bool
    var rSock: bool
    var wOut: bool
    var wSock: bool

    ghost function View(): State
      reads this, to, to.buf, fr, fr.buf
    {
      State(to.View(), fr.View(), stdineof, shutdowns, pc, rIn, rSock, wOut, wSock)
    }

    ghost predicate Apart() {
      to != fr && to.buf != fr.buf
    }

    constructor ()
      ensures Apart() && Init(View()) && fresh(to) && fresh(fr) && fresh(to.buf) && fresh(fr.buf)
    {
      to := new Pipe();
      fr := new Pipe();
      stdineof, shutdowns, pc, rIn, rSock, wOut, wSock := false, 0, Top, false, false, false, false;
    }

    /** Select returned; only what was asked for can be set. */
    method Select(canIn: bool, canSock: bool, canOut: bool, canSockWrite: bool)
      requires pc.Top?
      modifies this
      ensures View() == AfterSelect(old(View()), canIn, canSock, canOut, canSockWrite)
    {
      ghost var s := View();
      SetReads(canIn, canSock);
      SetWrites(canOut, canSockWrite);
      pc := ReadStdin;
      assert to.View() == s.to && fr.View() == s.fr;
    }

    method SetReads(canIn: bool, canSock: bool)
      modifies this`rIn, this`rSock
      ensures rIn == (canIn && AskStdin(View())) && rSock == (canSock && AskSock(View()))
      ensures rIn <==> canIn && !stdineof && to.iptr < 4096
      ensures rSock <==> canSock && fr.iptr < 4096
    {
      rIn := canIn && !stdineof && to.iptr < MAXLINE;
      rSock := canSock && fr.iptr < MAXLINE;
    }

    method SetWrites(canOut: bool, canSockWrite: bool)
      modifies this`wOut, this`wSock
      ensures wOut == (canOut && AskStdout(View())) && wSock == (canSockWrite && AskSockWrite(View()))
      ensures wOut <==> canOut && fr.optr != fr.iptr
      ensures wSock <==> canSockWrite && to.optr != to.iptr
    {
      wSock := canSockWrite && to.optr != to.iptr;
      wOut := canOut && fr.optr != fr.iptr;
    }

    method OnStdin(io: ReadResult)
      requires Apart() && to.View().Valid() && pc.ReadStdin? && (rIn ==> Fits(to.View(), io))
      modifies this, to, to.buf
      ensures View() == AfterStdin(old(View()), io) && to.View().Valid()
      ensures rIn && io.Eof? ==> stdineof && shutdowns == old(shutdowns) + (if old(to.optr) == old(to.iptr) then 1 else 0)
      ensures rIn && io.Got? ==> to.read == old(to.read) + io.bytes && wSock
      ensures pc == if rIn && io.ReadFailed? then Done(false) else ReadSock
    {
      pc := ReadSock;
      if rIn {
        match io {
          case ReadBlocked =>
          case ReadFailed => pc := Done(false);
          case Eof =>
            stdineof := true;
            if to.optr == to.iptr {
              shutdowns := shutdowns + 1;
            }
          case Got(bytes) =>
            to.Fill(bytes);
            wSock := true;
        }
      }
    }

    method OnSock(io: ReadResult)
      requires Apart() && fr.View().Valid() && pc.ReadSock? && (rSock ==> Fits(fr.View(), io))
      modifies this, fr, fr.buf
      ensures View() == AfterSock(old(View()), io) && fr.View().Valid()
      ensures rSock && io.Eof? ==> (pc == Done(true) <==> stdineof) && (pc == Done(false) <==> !stdineof)
      ensures rSock && io.Got? ==> fr.read == old(fr.read) + io.bytes && wOut
      ensures pc == Done(false) || pc == Done(true) || pc == WriteStdout
      ensures !rSock || io.ReadBlocked? || io.Got? ==> pc == WriteStdout
    {
      pc := WriteStdout;
      if rSock {
        match io {
          case ReadBlocked =>
          case ReadFailed => pc := Done(false);
          case Eof => pc := Done(stdineof);
          case Got(bytes) =>
            fr.Fill(bytes);
            wOut := true;
        }
      }
    }

    method OnStdout(io: WriteResult)
      requires Apart() && fr.View().Valid() && pc.WriteStdout? && (io.Wrote? ==> io.n <= fr.iptr - fr.optr)
      modifies this, fr
      ensures View() == AfterStdout(old(View()), io) && fr.View().Valid()
      ensures wOut && io.Wrote? ==> fr.written == old(fr.written) + old(fr.buf[fr.optr..fr.optr + io.n])
    {
      pc := WriteSock;
      if wOut && fr.iptr - fr.optr > 0 {
        match io {
          case WriteBlocked =>
          case WriteFailed => pc := Done(false);
          case Wrote(n) => var _ := fr.Drain(n);
        }
      }
    }

    method OnSockWrite(io: WriteResult)
      requires Apart() && to.View().Valid() && pc.WriteSock? && (io.Wrote? ==> io.n <= to.iptr - to.optr)
      modifies this, to
      ensures View() == AfterSockWrite(old(View()), io) && to.View().Valid()
      ensures wSock && io.Wrote? ==> to.written == old(to.written) + old(to.buf[to.optr..to.optr + io.n])
      ensures shutdowns == old(shutdowns) + (if wSock && io.Wrote? && io.n > 0 && old(to.optr) + io.n == old(to.iptr) && stdineof then 1 else 0)
    {
      pc := Top;
      if wSock && to.iptr - to.optr > 0 {
        match io {
          case WriteBlocked =>
          case WriteFailed => pc := Done(false);
          case Wrote(n) =>
            var emptied := to.Drain(n);
            if emptied && stdineof {
              shutdowns := shutdowns + 1;
            }
        }
      }
    }
  }
}
