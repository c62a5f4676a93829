/** The buffered readline of lib/readline.c against the byte-at-a-time one of server/readline.c. */
module Readline {
  import opened Basics

  const MAXLINE := 4096
  const NEWLINE: Byte := 10

  // ----- what a line is -----

  /** How many bytes one call stores, with room for that many before the terminating NUL. */
  function LineLen(stream: seq<Byte>, room: nat): (n: nat)
    ensures n <= |stream| && n <= room
  {
    if room == 0 || stream == [] then 0
    else if stream[0] == NEWLINE then 1
    else 1 + LineLen(stream[1..], room - 1)
  }

  function Line(stream: seq<Byte>, maxlen: nat): seq<Byte>
    requires maxlen >= 1
  {
    stream[..LineLen(stream, maxlen - 1)]
  }

  /** A line has a newline only at its end, and stops for a newline, for want of room, or at end of file. */
  lemma {:induction false} LineIsMaximal(stream: seq<Byte>, room: nat)
    ensures var n := LineLen(stream, room);
            && (forall i :: 0 <= i < n - 1 ==> stream[i] != NEWLINE)
            && ((n > 0 && stream[n - 1] == NEWLINE) || n == room || n == |stream|)
  {
    if room > 0 && stream != [] && stream[0] != NEWLINE {
      LineIsMaximal(stream[1..], room - 1);
      var n := LineLen(stream, room);
      assert forall i :: 0 < i < n ==> stream[i] == stream[1..][i - 1];
    }
  }

  predicate EndsInNewline(s: seq<Byte>) {
    s != [] && s[|s| - 1] == NEWLINE
  }

  /** What the buffered form returns: one more than it stored when it ran out of room. */
  function BufferedReturn(line: seq<Byte>, maxlen: nat): nat {
    if EndsInNewline(line) || |line| + 1 < maxlen then |line| else maxlen
  }

  /** What the simple form returns: at a partial end of file it too counts one more. */
  function SimpleReturn(line: seq<Byte>, maxlen: nat): nat {
    if EndsInNewline(line) || (line == [] && maxlen > 1) then |line| else |line| + 1
  }

  /** The two agree except after a partial line at end of file, where they differ by one. */
  lemma ReturnsDiffer(stream: seq<Byte>, maxlen: nat)
    requires maxlen >= 1
    ensures var line := Line(stream, maxlen);
            var partial := line != [] && line == stream && !EndsInNewline(line) && |line| + 1 < maxlen;
            SimpleReturn(line, maxlen) == BufferedReturn(line, maxlen) + (if partial then 1 else 0)
  {
    LineIsMaximal(stream, maxlen - 1);
  }

  /** The lines of successive calls, and what they leave of the stream. */
  function Lines(stream: seq<Byte>, maxlens: seq<nat>): (r: (seq<seq<Byte>>, seq<Byte>))
    requires forall i :: 0 <= i < |maxlens| ==> maxlens[i] >= 1
    ensures |r.0| == |maxlens|
  {
    if maxlens == [] then ([], stream)
    else
      var n := LineLen(stream, maxlens[0] - 1);
      var (ls, rest) := Lines(stream[n..], maxlens[1..]);
      ([stream[..n]] + ls, rest)
  }

  function Flatten(ls: seq<seq<Byte>>): seq<Byte> {
    if ls == [] then [] else ls[0] + Flatten(ls[1..])
  }

  lemma FlattenCons(line: seq<Byte>, ls: seq<seq<Byte>>)
    ensures Flatten([line] + ls) == line + Flatten(ls)
  {
    assert ([line] + ls)[1..] == ls;
  }

  /** No byte is lost or repeated over any sequence of calls. */
  lemma {:induction false} LinesConserve(stream: seq<Byte>, maxlens: seq<nat>)
    requires forall i :: 0 <= i < |maxlens| ==> maxlens[i] >= 1
    ensures Flatten(Lines(stream, maxlens).0) + Lines(stream, maxlens).1 == stream
  {
    if maxlens == [] {
      assert [] + stream == stream;
    } else {
      var n := LineLen(stream, maxlens[0] - 1);
      LinesConserve(stream[n..], maxlens[1..]);
      var (ls, rest) := Lines(stream[n..], maxlens[1..]);
      FlattenCons(stream[..n], ls);
      ConcatAssoc(stream[..n], Flatten(ls), rest);
      assert stream == stream[..n] + stream[n..];
    }
  }

  /** As long as no newline was met and there is room and input, the line goes on. */
  lemma {:induction false} LineGoesOn(stream: seq<Byte>, room: nat, n: nat)
    requires n < room && n < |stream| && forall i :: 0 <= i < n ==> stream[i] != NEWLINE
    ensures n < LineLen(stream, room)
  {
    if n > 0 {
      LineGoesOn(stream[1..], room - 1, n - 1);
    }
  }

  lemma OneMore(s: seq<Byte>, n: nat)
    requires n < |s|
    ensures s[n..][0] == s[n] && s[n..][1..] == s[n + 1..] && s[..n + 1] == s[..n] + [s[n]]
  {
  }

  // ----- the byte-at-a-time form -----

  /** One read(fd, &c, 1) per byte of the stream; rc is 0 at its end. */
  method SimpleReadline(stream: seq<Byte>, maxlen: nat) returns (line: seq<Byte>, rc: nat)
    requires maxlen >= 1
    ensures line == Line(stream, maxlen) && rc == SimpleReturn(line, maxlen)
    ensures EndsInNewline(line) || (stream == [] && maxlen > 1) ==> rc == |line|
    ensures !EndsInNewline(line) && (stream != [] || maxlen == 1) ==> rc == |line| + 1
  {
    line := [];
    var n := 1;
    while n < maxlen
      invariant 1 <= n <= maxlen && |line| == n - 1 <= |stream| && line == stream[..n - 1]
      invariant forall i :: 0 <= i < n - 1 ==> stream[i] != NEWLINE
    {
      if |line| < |stream| {
        var c := stream[|line|];
        line := line + [c];
        if c == NEWLINE {
          LineAtNewline(stream, maxlen, n - 1);
          return line, n;
        }
      } else {
        assert line == stream;
        LineAtEof(stream, maxlen);
        return line, if n == 1 then 0 else n;
      }
      n := n + 1;
    }
    LineAtLimit(stream, maxlen);
    rc := n;
  }

  /** The three ways a line ends. */
  lemma LineAtNewline(stream: seq<Byte>, maxlen: nat, n: nat)
    requires n + 1 < maxlen && n < |stream| && stream[n] == NEWLINE && forall i :: 0 <= i < n ==> stream[i] != NEWLINE
    ensures Line(stream, maxlen) == stream[..n + 1] && BufferedReturn(stream[..n + 1], maxlen) == n + 1
  {
    LineGoesOn(stream, maxlen - 1, n);
    LineIsMaximal(stream, maxlen - 1);
  }

  lemma LineAtEof(stream: seq<Byte>, maxlen: nat)
    requires |stream| + 1 < maxlen && forall i :: 0 <= i < |stream| ==> stream[i] != NEWLINE
    ensures Line(stream, maxlen) == stream && BufferedReturn(stream, maxlen) == |stream|
  {
    if |stream| > 0 { LineGoesOn(stream, maxlen - 1, |stream| - 1); }
    assert stream[..|stream|] == stream;
  }

  lemma LineAtLimit(stream: seq<Byte>, maxlen: nat)
    requires 1 <= maxlen <= |stream| + 1 && forall i :: 0 <= i < maxlen - 1 ==> stream[i] != NEWLINE
    ensures Line(stream, maxlen) == stream[..maxlen - 1] && BufferedReturn(stream[..maxlen - 1], maxlen) == maxlen
  {
    if maxlen > 1 { LineGoesOn(stream, maxlen - 1, maxlen - 2); }
  }

  // ----- the buffered form -----

  /** What read(2) will do next on this descriptor; after the last event it returns 0. */
  datatype Event = Data(bytes: seq<Byte>) | Eintr

  function Unread(script: seq<Event>): seq<Byte> {
    if script == [] then []
    else (if script[0].Data? then script[0].bytes else []) + Unread(script[1..])
  }

  ghost predicate Legal(script: seq<Event>) {
    forall i :: 0 <= i < |script| && script[i].Data? ==> 0 < |script[i].bytes| <= MAXLINE
  }

  class LineReader {
    var readCnt: nat
    var readPtr: nat
    const readBuf: array<Byte>
    var script: seq<Event>        // the kernel's side
    ghost var pulled: seq<Byte>   // everything read() has returned
    ghost var stored: seq<Byte>   // everything readline has stored

    ghost predicate Valid()
      reads this, readBuf
    {
      && readBuf.Length == MAXLINE && readPtr + readCnt <= MAXLINE && Legal(script)
      && pulled == stored + Remainder()
    }

    /** readlinebuf: the bytes read ahead. */
    ghost function Remainder(): seq<Byte>
      requires readBuf.Length == MAXLINE && readPtr + readCnt <= MAXLINE
      reads this, readBuf
    {
      readBuf[readPtr..readPtr + readCnt]
    }

    /** What the caller has still to see. */
    ghost function Stream(): seq<Byte>
      requires Valid()
      reads this, readBuf
    {
      Remainder() + Unread(script)
    }

    constructor (script: seq<Event>)
      requires Legal(script)
      ensures Valid() && Stream() == Unread(script) && pulled == [] && stored == [] && fresh(readBuf)
    {
      readBuf := new Byte[MAXLINE];
      readCnt, readPtr := 0, 0;
      this.script := script;
      pulled, stored := [], [];
      new;
      assert Remainder() == [];
    }

    /** read(fd, read_buf, sizeof read_buf), repeated while it is interrupted. */
    method Refill()
      requires Valid() && readCnt == 0
      modifies this, readBuf
      ensures Valid() && Stream() == old(Stream()) && stored == old(stored)
      ensures readCnt == 0 ==> script == [] && Stream() == []
    {
      while script != [] && script[0].Eintr?
        invariant Valid() && readCnt == 0 && Stream() == old(Stream()) && stored == old(stored)
        decreases |script|
      {
        assert Unread(script) == [] + Unread(script[1..]);
        script := script[1..];
      }
      assert Remainder() == [];
      if script != [] {
        var d := script[0].bytes;
        forall k | 0 <= k < |d| { readBuf[k] := d[k]; }
        readCnt, readPtr := |d|, 0;
        pulled := pulled + d;
        script := script[1..];
        assert Remainder() == d;
      }
    }

    /** my_read: the next byte of the stream, or None at its end. */
    method MyRead() returns (c: Option<Byte>)
      requires Valid()
      modifies this, readBuf
      ensures Valid()
      ensures old(Stream()) == [] ==> c == None && Stream() == [] && stored == old(stored)
      ensures old(Stream()) != [] ==> c == Some(old(Stream())[0]) && Stream() == old(Stream())[1..] &&
                                      stored == old(stored) + [old(Stream())[0]]
    {
      if readCnt == 0 {
        Refill();
        if readCnt == 0 {
          return None;
        }
      }
      ghost var r := Remainder();
      c := Some(readBuf[readPtr]);
      assert r == [readBuf[readPtr]] + readBuf[readPtr + 1..readPtr + readCnt];
      readCnt, readPtr := readCnt - 1, readPtr + 1;
      stored := stored + [c.value];
      assert Remainder() == r[1..];
    }

    /** readline: the same bytes as the simple form stores, however read(2) cut the stream. */
    method Readline(maxlen: nat) returns (line: seq<Byte>, rc: nat)
      requires Valid() && maxlen >= 1
      modifies this, readBuf
      ensures Valid()
      ensures line == Line(old(Stream()), maxlen) && Stream() == old(Stream())[|line|..]
      ensures stored == old(stored) + line && rc == BufferedReturn(line, maxlen)
      ensures EndsInNewline(line) || |old(Stream())| + 1 < maxlen ==> rc == |line|
      ensures !EndsInNewline(line) && |old(Stream())| + 1 >= maxlen ==> rc == maxlen
    {
      ghost var all := Stream();
      line := [];
      var n := 1;
      while n < maxlen
        invariant Valid() && 1 <= n <= maxlen && |line| == n - 1 <= |all| && line == all[..n - 1]
        invariant Stream() == all[n - 1..] && stored == old(stored) + line
        invariant forall i :: 0 <= i < n - 1 ==> all[i] != NEWLINE
      {
        var c := MyRead();
        if c.None? {
          assert line == all && all[|all|..] == [];
          LineAtEof(all, maxlen);
          return line, n - 1;
        }
        OneMore(all, n - 1);
        line := line + [c.value];
        if c.value == NEWLINE {
          LineAtNewline(all, maxlen, n - 1);
          return line, n;
        }
        n := n + 1;
      }
      LineAtLimit(all, maxlen);
      rc := n;
    }

    /** Any number of calls, with any sizes. */
    method ReadLines(maxlens: seq<nat>) returns (lines: seq<seq<Byte>>)
      requires Valid() && forall i :: 0 <= i < |maxlens| ==> maxlens[i] >= 1
      modifies this, readBuf
      ensures Valid() && lines == Lines(old(Stream()), maxlens).0 && Stream() == Lines(old(Stream()), maxlens).1
      decreases |maxlens|
    {
      if maxlens == [] {
        return [];
      }
      var line, rc := Readline(maxlens[0]);
      var rest := ReadLines(maxlens[1..]);
      lines := [line] + rest;
    }
  }

  /** The same calls on the simple form. */
  method SimpleReadLines(stream: seq<Byte>, maxlens: seq<nat>) returns (lines: seq<seq<Byte>>, left: seq<Byte>)
    requires forall i :: 0 <= i < |maxlens| ==> maxlens[i] >= 1
    ensures (lines, left) == Lines(stream, maxlens)
    decreases |maxlens|
  {
    if maxlens == [] {
      return [], stream;
    }
    var line, rc := SimpleReadline(stream, maxlens[0]);
    var rest;
    rest, left := SimpleReadLines(stream[|line|..], maxlens[1..]);
    lines := [line] + rest;
  }
}
