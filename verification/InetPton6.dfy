/** IPv6 text to address: inet_pton6 and its overlapping in-place shift. */
module InetPton6 {
  import opened Basics
  import opened TextFields
  import opened DottedQuad

  const ADDRSZ := 16

  predicate IsGroup(f: string) {
    f != "" && AllHex(f) && HexVal(f) <= 0xffff
  }

  function WordBytes(w: nat): (b: seq<Byte>)
    requires w <= 0xffff
    ensures |b| == 2
  {
    [w / 256, w % 256]
  }

  /** Bytes stored so far, and where "::" stood among them: tmp[..tp] and colonp. */
  datatype Parsed = Parsed(out: seq<Byte>, colon: Option<nat>)
  {
    ghost predicate Valid() {
      |out| <= ADDRSZ && (colon.Some? ==> colon.value <= |out|)
    }
  }

  const START := Parsed([], None)

  /** The piece before the end of the text: nothing, a group, or a dotted quad. */
  function LastField(p: Parsed, f: string): (r: Option<Parsed>)
    requires p.Valid()
    ensures r.Some? ==> r.value.Valid()
  {
    if f == "" then Some(p)
    else if IsGroup(f) then
      if |p.out| + 2 <= ADDRSZ then Some(p.(out := p.out + WordBytes(HexVal(f)))) else None
    else if Quad(f).Some? && |p.out| + 4 <= ADDRSZ then Some(p.(out := p.out + Quad(f).value))
    else None
  }

  /** The pieces between colons, from left to right. */
  function Groups(p: Parsed, fs: seq<string>): (r: Option<Parsed>)
    requires p.Valid() && |fs| >= 1
    ensures r.Some? ==> r.value.Valid()
    decreases |fs|
  {
    if |fs| == 1 then LastField(p, fs[0])
    else if fs[0] == "" then
      if p.colon.Some? then None else Groups(p.(colon := Some(|p.out|)), fs[1..])
    else if IsGroup(fs[0]) && |p.out| + 2 <= ADDRSZ then
      Groups(p.(out := p.out + WordBytes(HexVal(fs[0]))), fs[1..])
    else None
  }

  /** What the shift makes of the stored bytes: note the full-address case. */
  function Expand(out: seq<Byte>, c: nat): (a: seq<Byte>)
    requires c <= |out| <= ADDRSZ
    ensures |a| == ADDRSZ
  {
    if |out| < ADDRSZ then out[..c] + Zeros(ADDRSZ - |out|) + out[c..]
    else out[..c] + Zeros(ADDRSZ - c)
  }

  function Finish(p: Parsed): (r: Option<seq<Byte>>)
    requires p.Valid()
    ensures r.Some? ==> |r.value| == ADDRSZ
  {
    match p.colon
    case Some(c) => Some(Expand(p.out, c))
    case None => if |p.out| == ADDRSZ then Some(p.out) else None
  }

  /** A leading colon must be doubled, and then only the second one is scanned. */
  function Body(s: string): Option<string> {
    if s == "" || s[0] != ':' then Some(s)
    else if |s| > 1 && s[1] == ':' then Some(s[1..])
    else None
  }

  /** The address inet_pton6 reads from s, defined on the pieces of s. */
  function Addr6(s: string): (r: Option<seq<Byte>>)
    ensures r.Some? ==> |r.value| == ADDRSZ
  {
    match Body(s)
    case None => None
    case Some(b) =>
      match Groups(START, Split(b, ':'))
      case None => None
      case Some(p) => Finish(p)
  }

  // ----- the language in closed form -----

  function FieldBytes(f: string): seq<Byte> {
    if IsGroup(f) then WordBytes(HexVal(f)) else if Quad(f).Some? then Quad(f).value else []
  }

  function AllBytes(fs: seq<string>): seq<Byte> {
    if fs == [] then [] else FieldBytes(fs[0]) + AllBytes(fs[1..])
  }

  /** Pieces that are followed by a colon: groups, and empty ones that mark "::". */
  predicate InnerField(f: string) {
    f == "" || IsGroup(f)
  }

  /** e is the only empty piece that is followed by a colon. */
  predicate OnlyElision(fs: seq<string>, e: nat) {
    e + 1 < |fs| && fs[e] == "" && forall i :: 0 <= i < |fs| - 1 && i != e ==> fs[i] != ""
  }

  predicate NoElision(fs: seq<string>) {
    forall i :: 0 <= i < |fs| - 1 ==> fs[i] != ""
  }

  predicate Pieces(fs: seq<string>)
    requires |fs| >= 1
  {
    && (forall i :: 0 <= i < |fs| - 1 ==> InnerField(fs[i]))
    && (fs[|fs| - 1] == "" || IsGroup(fs[|fs| - 1]) || Quad(fs[|fs| - 1]).Some?)
  }

  lemma FirstGroup(out: seq<Byte>, fs: seq<string>)
    requires |fs| >= 1 && IsGroup(fs[0])
    ensures AllBytes(fs) == WordBytes(HexVal(fs[0])) + AllBytes(fs[1..])
    ensures out + AllBytes(fs) == out + WordBytes(HexVal(fs[0])) + AllBytes(fs[1..])
  {
  }

  lemma {:induction false} GroupsPlain(p: Parsed, fs: seq<string>)
    requires p.Valid() && |fs| >= 1 && NoElision(fs)
    ensures Groups(p, fs) ==
            if Pieces(fs) && |p.out| + |AllBytes(fs)| <= ADDRSZ then Some(p.(out := p.out + AllBytes(fs))) else None
    decreases |fs|
  {
    if |fs| == 1 {
      assert AllBytes(fs) == FieldBytes(fs[0]) + AllBytes(fs[1..]) == FieldBytes(fs[0]);
      assert p.out + [] == p.out;
    } else {
      var rest := fs[1..];
      assert forall i :: 0 <= i < |rest| ==> rest[i] == fs[i + 1];
      assert Pieces(fs) <==> IsGroup(fs[0]) && Pieces(rest);
      if IsGroup(fs[0]) && |p.out| + 2 <= ADDRSZ {
        var q := p.(out := p.out + WordBytes(HexVal(fs[0])));
        GroupsPlain(q, rest);
        FirstGroup(p.out, fs);
      }
    }
  }

  lemma {:induction false} GroupsElided(p: Parsed, fs: seq<string>, e: nat)
    requires p.Valid() && |fs| >= 1 && p.colon == None && OnlyElision(fs, e)
    ensures Groups(p, fs) ==
            if Pieces(fs) && |p.out| + |AllBytes(fs)| <= ADDRSZ
            then Some(Parsed(p.out + AllBytes(fs), Some(|p.out| + |AllBytes(fs[..e])|)))
            else None
    decreases |fs|
  {
    var rest := fs[1..];
    assert forall i :: 0 <= i < |rest| ==> rest[i] == fs[i + 1];
    if e == 0 {
      assert Pieces(fs) <==> Pieces(rest);
      GroupsPlain(p.(colon := Some(|p.out|)), rest);
      assert AllBytes(fs) == AllBytes(rest) by { QuadNotEmpty(); }
      assert fs[..0] == [];
    } else {
      assert Pieces(fs) <==> IsGroup(fs[0]) && Pieces(rest);
      if IsGroup(fs[0]) && |p.out| + 2 <= ADDRSZ {
        var q := p.(out := p.out + WordBytes(HexVal(fs[0])));
        GroupsElided(q, rest, e - 1);
        FirstGroup(p.out, fs);
        assert fs[..e][1..] == rest[..e - 1];
      }
    }
  }

  lemma QuadNotEmpty()
    ensures Quad("") == None
  {
    assert |Split("", '.')| == 1;
  }

  lemma {:induction false} TwoElisions(p: Parsed, fs: seq<string>, i: nat, j: nat)
    requires p.Valid() && i < j < |fs| - 1 && fs[j] == "" && (fs[i] == "" || p.colon.Some?)
    ensures Groups(p, fs) == None
    decreases |fs|
  {
    var rest := fs[1..];
    if fs[0] == "" {
      if p.colon == None {
        var q := p.(colon := Some(|p.out|));
        if j >= 2 { TwoElisions(q, rest, 0, j - 1); } else { assert rest[0] == "" && |rest| > 1; }
      }
    } else if IsGroup(fs[0]) && |p.out| + 2 <= ADDRSZ {
      var q := p.(out := p.out + WordBytes(HexVal(fs[0])));
      if j >= 2 {
        TwoElisions(q, rest, if i == 0 then 0 else i - 1, j - 1);
      } else {
        assert rest[0] == "" && |rest| > 1;
      }
    }
  }

  /** Without "::" the pieces must spell sixteen bytes. */
  lemma Addr6Plain(s: string, fs: seq<string>)
    requires Body(s).Some? && fs == Split(Body(s).value, ':') && NoElision(fs)
    ensures Addr6(s) == if Pieces(fs) && |AllBytes(fs)| == ADDRSZ then Some(AllBytes(fs)) else None
  {
    GroupsPlain(START, fs);
    assert [] + AllBytes(fs) == AllBytes(fs);
  }

  /** With one "::" they spell at most sixteen, spread around it. */
  lemma Addr6Elided(s: string, fs: seq<string>, e: nat)
    requires Body(s).Some? && fs == Split(Body(s).value, ':') && OnlyElision(fs, e)
    ensures |AllBytes(fs[..e])| <= |AllBytes(fs)|
    ensures Addr6(s) == if Pieces(fs) && |AllBytes(fs)| <= ADDRSZ
                        then Some(Expand(AllBytes(fs), |AllBytes(fs[..e])|)) else None
  {
    GroupsElided(START, fs, e);
    assert [] + AllBytes(fs) == AllBytes(fs);
    AllBytesPrefix(fs, e);
  }

  /**
    * Exactly which texts inet_pton6 accepts. After the leading colon is dealt with, every
    * piece but the last is a group or empty, at most one of these is empty, and the last is
    * empty, a group or a dotted quad. Without an empty piece the bytes must be sixteen, with
    * one they are at most sixteen. Addr6Plain and Addr6Elided say as what.
    */
  lemma Addr6Language(s: string)
    ensures Addr6(s).Some? <==>
            Body(s).Some? &&
            var fs := Split(Body(s).value, ':');
            Pieces(fs) && ((NoElision(fs) && |AllBytes(fs)| == ADDRSZ) ||
                           ((exists e: nat :: OnlyElision(fs, e)) && |AllBytes(fs)| <= ADDRSZ))
  {
    if Body(s).Some? {
      var fs := Split(Body(s).value, ':');
      if NoElision(fs) {
        Addr6Plain(s, fs);
      } else if e: nat :| OnlyElision(fs, e) {
        Addr6Elided(s, fs, e);
      } else {
        var i :| 0 <= i < |fs| - 1 && fs[i] == "";
        assert !OnlyElision(fs, i);
        var j :| 0 <= j < |fs| - 1 && j != i && fs[j] == "";
        TwoElisions(START, fs, Min(i, j), Max(i, j));
      }
    }
  }

  lemma {:induction false} AllBytesPrefix(fs: seq<string>, e: nat)
    requires e <= |fs|
    ensures AllBytes(fs) == AllBytes(fs[..e]) + AllBytes(fs[e..])
  {
    if e == 0 {
      assert fs[0..] == fs;
    } else {
      var rest := fs[1..];
      AllBytesPrefix(rest, e - 1);
      assert fs[..e][1..] == rest[..e - 1] && rest[e - 1..] == fs[e..] && fs[..e][0] == fs[0];
      var h, a, b := FieldBytes(fs[0]), AllBytes(rest[..e - 1]), AllBytes(fs[e..]);
      assert h + (a + b) == (h + a) + b;
    }
  }

  /**
    * The comment that "::" in a full address is silently ignored holds exactly when the
    * bytes after it are zero already; otherwise they are wiped.
    */
  lemma FullAddressElision(out: seq<Byte>, c: nat)
    requires |out| == ADDRSZ && c <= ADDRSZ
    ensures Expand(out, c) == out <==> forall i :: c <= i < ADDRSZ ==> out[i] == 0
  {
    if forall i :: c <= i < ADDRSZ ==> out[i] == 0 {
      assert Expand(out, c) == out;
    } else {
      var i :| c <= i < ADDRSZ && out[i] != 0;
      assert Expand(out, c)[i] == 0;
    }
  }

  /** The pieces without the empty one that marks the "::". */
  function WithoutElision(fs: seq<string>, e: nat): seq<string>
    requires e < |fs|
  {
    fs[..e] + fs[e + 1..]
  }

  lemma WithoutElisionBytes(fs: seq<string>, e: nat)
    requires e < |fs| && fs[e] == ""
    ensures AllBytes(WithoutElision(fs, e)) == AllBytes(fs) == AllBytes(fs[..e]) + AllBytes(fs[e..])
    ensures AllBytes(fs[e + 1..]) == AllBytes(fs[e..])
  {
    var gs, tail := WithoutElision(fs, e), fs[e..];
    AllBytesPrefix(fs, e);
    AllBytesPrefix(gs, e);
    assert gs[..e] == fs[..e] && gs[e..] == fs[e + 1..];
    assert tail[1..] == fs[e + 1..] && tail[0] == "";
    EmptyPieceFirst(tail);
  }

  lemma EmptyPieceFirst(fs: seq<string>)
    requires fs != [] && fs[0] == ""
    ensures AllBytes(fs) == AllBytes(fs[1..])
  {
    QuadNotEmpty();
  }

  lemma AllBytesShort(fs: seq<string>)
    requires |fs| == 2 && fs[0] == ""
    ensures |AllBytes(fs)| <= 4
  {
    QuadNotEmpty();
    assert fs[1..][1..] == [];
    assert AllBytes(fs[1..]) == FieldBytes(fs[1]) + AllBytes(fs[1..][1..]);
  }

  lemma WithoutElisionPieces(fs: seq<string>, e: nat)
    requires OnlyElision(fs, e) && Pieces(fs) && |AllBytes(fs)| == ADDRSZ
    ensures var gs := WithoutElision(fs, e);
            |gs| >= 1 && Pieces(gs) && NoElision(gs) && IsGroup(gs[0])
  {
    var gs := WithoutElision(fs, e);
    assert forall i :: 0 <= i < |gs| ==> gs[i] == if i < e then fs[i] else fs[i + 1];
    if |fs| == 2 { AllBytesShort(fs); }
  }

  lemma JoinStart(gs: seq<string>)
    requires |gs| >= 1 && gs[0] != ""
    ensures Join(gs, ':') != "" && Join(gs, ':')[0] == gs[0][0]
  {
  }

  /** Written without its "::", a full address has the value its groups spell. */
  lemma FullWithoutElision(b: string, e: nat)
    requires var fs := Split(b, ':'); OnlyElision(fs, e) && Pieces(fs) && |AllBytes(fs)| == ADDRSZ
    ensures var fs := Split(b, ':'); Addr6(Join(WithoutElision(fs, e), ':')) == Some(AllBytes(fs))
  {
    var fs := Split(b, ':');
    var gs := WithoutElision(fs, e);
    WithoutElisionPieces(fs, e);
    WithoutElisionBytes(fs, e);
    JoinSplit(b, ':');
    assert forall f :: f in gs ==> f in fs;
    SplitJoin(gs, ':');
    JoinStart(gs);
    assert gs[0][0] != ':';
    Addr6Plain(Join(gs, ':'), gs);
  }

  /**
    * The comment at inet_pton.c:134, for every text of a full address with a "::" anywhere
    * in it: everything after the "::" is replaced by zeros, so the "::" is ignored, and the
    * text means the same as without it, exactly when the groups after it are all zero.
    */
  lemma ElisionInFullAddress(s: string, e: nat)
    requires Body(s).Some?
    requires var fs := Split(Body(s).value, ':'); OnlyElision(fs, e) && Pieces(fs) && |AllBytes(fs)| == ADDRSZ
    ensures var fs := Split(Body(s).value, ':');
            && |AllBytes(fs[..e])| <= ADDRSZ && AllBytes(fs) == AllBytes(fs[..e]) + AllBytes(fs[e..])
            && Addr6(s) == Some(AllBytes(fs[..e]) + Zeros(ADDRSZ - |AllBytes(fs[..e])|))
            && Addr6(Join(WithoutElision(fs, e), ':')) == Some(AllBytes(fs))
            && (Addr6(s) == Addr6(Join(WithoutElision(fs, e), ':')) <==> forall x :: x in AllBytes(fs[e..]) ==> x == 0)
  {
    ElisionZeroes(s, Split(Body(s).value, ':'), e);
    FullWithoutElision(Body(s).value, e);
  }

  lemma ElisionZeroes(s: string, fs: seq<string>, e: nat)
    requires Body(s).Some? && fs == Split(Body(s).value, ':') && OnlyElision(fs, e) && Pieces(fs) && |AllBytes(fs)| == ADDRSZ
    ensures |AllBytes(fs[..e])| <= ADDRSZ && AllBytes(fs) == AllBytes(fs[..e]) + AllBytes(fs[e..])
    ensures Addr6(s) == Some(AllBytes(fs[..e]) + Zeros(ADDRSZ - |AllBytes(fs[..e])|))
    ensures Addr6(s) == Some(AllBytes(fs)) <==> forall x :: x in AllBytes(fs[e..]) ==> x == 0
  {
    AllBytesPrefix(fs, e);
    Addr6Elided(s, fs, e);
    FullExpand(AllBytes(fs), AllBytes(fs[..e]), AllBytes(fs[e..]));
  }

  lemma FullExpand(out: seq<Byte>, pre: seq<Byte>, post: seq<Byte>)
    requires |out| == ADDRSZ && out == pre + post
    ensures Expand(out, |pre|) == pre + Zeros(ADDRSZ - |pre|)
    ensures Expand(out, |pre|) == out <==> forall x :: x in post ==> x == 0
  {
    assert out[..|pre|] == pre;
    FullAddressElision(out, |pre|);
    if Expand(out, |pre|) == out {
      forall x | x in post ensures x == 0 {
        var j :| 0 <= j < |post| && post[j] == x;
        assert out[|pre| + j] == x;
      }
    }
    if forall x :: x in post ==> x == 0 {
      forall i | |pre| <= i < ADDRSZ ensures out[i] == 0 {
        assert out[i] == post[i - |pre|] && post[i - |pre|] in post;
      }
    }
  }

  /** A single colon after a final group changes nothing: the text is still accepted, with the same value. */
  lemma TrailingColonIgnored(s: string)
    requires Body(s).Some?
    requires IsGroup(Split(Body(s).value, ':')[|Split(Body(s).value, ':')| - 1])
    ensures Addr6(s + ":") == Addr6(s)
  {
    var b := Body(s).value;
    assert Split(b + ":", ':') == Split(b, ':') + [""] by { SplitTrailing(b); }
    assert s != "" by { assert |Split("", ':')| == 1; }
    assert (s + ":")[1..] == s[1..] + ":";
    assert Body(s + ":") == Some(b + ":");
    TrailingEmpty(START, Split(b, ':'));
  }

  lemma {:induction false} SplitTrailing(b: string)
    ensures Split(b + ":", ':') == Split(b, ':') + [""]
  {
    if b == "" {
      assert b + ":" == ":";
      assert ":"[1..] == "";
    } else {
      SplitTrailing(b[1..]);
      assert (b + ":")[1..] == b[1..] + ":";
    }
  }

  lemma {:induction false} TrailingEmpty(p: Parsed, fs: seq<string>)
    requires p.Valid() && |fs| >= 1 && IsGroup(fs[|fs| - 1])
    ensures Groups(p, fs + [""]) == Groups(p, fs)
    decreases |fs|
  {
    assert (fs + [""])[1..] == fs[1..] + [""];
    if |fs| == 1 {
      assert (fs + [""])[1..] == [""];
    } else if fs[0] == "" {
      if p.colon == None { TrailingEmpty(p.(colon := Some(|p.out|)), fs[1..]); }
    } else if IsGroup(fs[0]) && |p.out| + 2 <= ADDRSZ {
      TrailingEmpty(p.(out := p.out + WordBytes(HexVal(fs[0]))), fs[1..]);
    }
  }

  // ----- one step of the scan, as a fact about the pieces -----

  /** The scan has stored p and is inside a piece that began with tok; rest is unread. */
  ghost predicate Scanned(goal: Option<Parsed>, p: Parsed, tok: string, rest: string) {
    && p.Valid()
    && AllHex(tok) && HexVal(tok) <= 0xffff
    && goal == Groups(p, Split(tok + rest, ':'))
  }

  lemma FirstPiece(tok: string, rest: string)
    requires ':' !in tok
    ensures var f := Split(tok + rest, ':')[0];
            |f| >= |tok| && f[..|tok|] == tok
  {
    SplitPrefix(tok, rest, ':');
    var f := Split(tok + rest, ':')[0];
    assert f == tok + Split(rest, ':')[0];
  }

  /** The digits before the first dot of a dotted quad never overflow the group accumulator. */
  lemma QuadPrefixSmall(f: string, tok: string)
    requires Quad(f).Some? && |tok| <= |f| && f[..|tok|] == tok && '.' !in tok
    ensures AllHex(tok) && HexVal(tok) <= 0xffff
  {
    var rest := f[|tok|..];
    assert f == tok + rest;
    SplitPrefix(tok, rest, '.');
    var g := Split(f, '.')[0];
    assert g == tok + Split(rest, '.')[0];
    assert IsOctet(g) && g[..|tok|] == tok;
    assert forall i :: 0 <= i < |tok| ==> tok[i] == g[i];
    assert AllDec(tok);
    DecMonotone(g, |tok|);
    HexOfDec(tok);
    BcdSmall(DecVal(tok));
  }

  lemma BcdSmall(n: nat)
    requires n <= 255
    ensures Bcd(n) <= 0x255
  {
    assert n / 10 / 10 < 10;
    assert Bcd(n / 10) == if n / 10 < 10 then n / 10 else 16 * (n / 10 / 10) + n / 10 % 10;
  }

  /** A piece that starts with an overflowing or foreign prefix is neither a group nor a quad. */
  lemma BadPiece(p: Parsed, tok: string, rest: string)
    requires p.Valid() && tok != "" && ':' !in tok && '.' !in tok && (AllHex(tok) ==> HexVal(tok) > 0xffff)
    ensures Groups(p, Split(tok + rest, ':')) == None
  {
    FirstPiece(tok, rest);
    var f := Split(tok + rest, ':')[0];
    if IsGroup(f) {
      assert forall i :: 0 <= i < |tok| ==> tok[i] == f[i];
      HexMonotone(f, |tok|);
    }
    if Quad(f).Some? {
      QuadPrefixSmall(f, tok);
    }
  }

  lemma StepHex(goal: Option<Parsed>, p: Parsed, tok: string, rest: string)
    requires Scanned(goal, p, tok, rest) && rest != "" && IsHex(rest[0])
    ensures AllHex(tok + [rest[0]]) && HexVal(tok + [rest[0]]) == 16 * HexVal(tok) + HexDigit(rest[0])
    ensures tok + [rest[0]] + rest[1..] == tok + rest
    ensures if HexVal(tok + [rest[0]]) <= 0xffff then Scanned(goal, p, tok + [rest[0]], rest[1..]) else goal == None
  {
    HexSnoc(tok, rest[0]);
    var tok' := tok + [rest[0]];
    assert tok + rest == tok' + rest[1..];
    if HexVal(tok') > 0xffff {
      BadPiece(p, tok', rest[1..]);
    }
  }

  lemma StepColon(goal: Option<Parsed>, p: Parsed, tok: string, rest: string)
    requires Scanned(goal, p, tok, rest) && rest != "" && rest[0] == ':'
    ensures "" + rest[1..] == rest[1..]
    ensures tok == "" && p.colon.Some? ==> goal == None
    ensures tok == "" && p.colon == None ==> Scanned(goal, p.(colon := Some(|p.out|)), "", rest[1..])
    ensures tok != "" && |p.out| + 2 > ADDRSZ ==> goal == None
    ensures tok != "" && |p.out| + 2 <= ADDRSZ ==>
              Scanned(goal, p.(out := p.out + WordBytes(HexVal(tok))), "", rest[1..])
  {
    assert tok + rest == tok + [':'] + rest[1..];
    SplitAt(tok, rest[1..], ':');
    var fs := Split(tok + rest, ':');
    assert fs[1..] == Split(rest[1..], ':');
    assert "" + rest[1..] == rest[1..];
  }

  lemma StepDot(goal: Option<Parsed>, p: Parsed, tok: string, rest: string)
    requires Scanned(goal, p, tok, rest) && rest != "" && rest[0] == '.'
    ensures goal == if |p.out| + 4 <= ADDRSZ && Quad(tok + rest).Some?
                    then Some(p.(out := p.out + Quad(tok + rest).value)) else None
  {
    var s := tok + rest;
    var tok' := tok + ['.'];
    assert s == tok' + rest[1..];
    FirstPiece(tok', rest[1..]);
    var fs := Split(s, ':');
    assert fs[0][|tok|] == '.';
    assert !IsGroup(fs[0]) && fs[0] != "";
    JoinSplit(s, ':');
    if Quad(s).Some? {
      QuadAlphabet(s);
      SplitPlain(s, ':');
    }
  }

  lemma StepOther(goal: Option<Parsed>, p: Parsed, tok: string, rest: string)
    requires Scanned(goal, p, tok, rest) && rest != "" && !IsHex(rest[0]) && rest[0] != ':' && rest[0] != '.'
    ensures goal == None
  {
    var tok' := tok + [rest[0]];
    assert tok + rest == tok' + rest[1..];
    assert !AllHex(tok') by { assert tok'[|tok|] == rest[0]; }
    BadPiece(p, tok', rest[1..]);
  }

  lemma StepEnd(goal: Option<Parsed>, p: Parsed, tok: string)
    requires Scanned(goal, p, tok, "")
    ensures goal == if tok == "" then Some(p)
                    else if |p.out| + 2 <= ADDRSZ then Some(p.(out := p.out + WordBytes(HexVal(tok)))) else None
  {
    assert tok + "" == tok;
    SplitPlain(tok, ':');
  }

  // ----- the code -----

  /** Prefix, then zeros, then suffix; or, from a full buffer, zeros from colonp on. */
  lemma ShiftedIsExpand(s: seq<Byte>, t: seq<Byte>, colonp: nat, tp: nat)
    requires |s| == |t| == ADDRSZ && colonp <= tp <= ADDRSZ
    requires forall k :: 0 <= k < colonp ==> t[k] == s[k]
    requires forall k :: colonp <= k < ADDRSZ - (tp - colonp) ==> t[k] == 0
    requires forall k :: ADDRSZ - (tp - colonp) <= k < ADDRSZ ==> t[k] == if tp < ADDRSZ then s[k - (ADDRSZ - tp)] else 0
    ensures t == Expand(s[..tp], colonp)
  {
    if tp < ADDRSZ {
      assert t == s[..tp][..colonp] + Zeros(ADDRSZ - tp) + s[..tp][colonp..];
    } else {
      assert t == s[..tp][..colonp] + Zeros(ADDRSZ - colonp);
    }
  }

  /** The hand-written shift: endp[-i] = colonp[n - i]; colonp[n - i] = 0. */
  method ShiftRight(tmp: array<Byte>, colonp: nat, tp: nat)
    requires tmp.Length == ADDRSZ && colonp <= tp <= ADDRSZ
    requires forall k :: tp <= k < ADDRSZ ==> tmp[k] == 0
    modifies tmp
    ensures tmp[..] == Expand(old(tmp[..tp]), colonp)
  {
    var n := tp - colonp;
    var i := 1;
    while i <= n
      invariant 1 <= i <= n + 1
      invariant forall k :: 0 <= k < tp - (i - 1) ==> tmp[k] == old(tmp[k])
      invariant forall k :: tp - (i - 1) <= k < ADDRSZ - (i - 1) ==> tmp[k] == 0
      invariant forall k :: ADDRSZ - (i - 1) <= k < ADDRSZ ==>
                  tmp[k] == if tp < ADDRSZ then old(tmp[k - (ADDRSZ - tp)]) else 0
    {
      tmp[ADDRSZ - i] := tmp[colonp + n - i];
      tmp[colonp + n - i] := 0;
      i := i + 1;
    }
    ShiftedIsExpand(old(tmp[..]), tmp[..], colonp, tp);
  }

  method InetPton6(src: CString, dst: array<Byte>) returns (ok: bool)
    requires dst.Length >= ADDRSZ
    modifies dst
    ensures ok == Addr6(src).Some?
    ensures ok ==> dst[..] == Addr6(src).value + old(dst[ADDRSZ..])
    ensures !ok ==> dst[..] == old(dst[..])
  {
    var i := 0;
    if |src| > 0 && src[0] == ':' {
      i := 1;
      if |src| == 1 || src[1] != ':' {
        return false;
      }
    }
    var tmp := new Byte[ADDRSZ](_ => 0);
    ghost var goal := Groups(START, Split(src[i..], ':'));
    var accepted, tp, colonp := ScanGroups(src, i, tmp, goal);
    if !accepted {
      return false;
    }
    if colonp.Some? {
      ShiftRight(tmp, colonp.value, tp);
      tp := ADDRSZ;
    }
    if tp != ADDRSZ {
      return false;
    }
    assert tmp[..] == Addr6(src).value;
    forall k | 0 <= k < ADDRSZ { dst[k] := tmp[k]; }
    return true;
  }

  /** The token loop and the store of the last group; colonp <= tp <= endp at every step. */
  method ScanGroups(src: CString, start: nat, tmp: array<Byte>, ghost goal: Option<Parsed>)
    returns (ok: bool, tp: nat, colonp: Option<nat>)
    requires start <= |src| && tmp.Length == ADDRSZ && forall k :: 0 <= k < ADDRSZ ==> tmp[k] == 0
    requires goal == Groups(START, Split(src[start..], ':'))
    modifies tmp
    ensures ok == goal.Some?
    ensures ok ==> tp <= ADDRSZ && goal == Some(Parsed(tmp[..tp], colonp))
    ensures ok ==> forall k :: tp <= k < ADDRSZ ==> tmp[k] == 0
  {
    var i, curtok, val, sawXdigit := start, start, 0, false;
    tp, colonp := 0, None;
    ghost var p, tok, rest := START, "", src[start..];
    assert tok + rest == rest;
    while i < |src|
      invariant start <= curtok <= i <= |src| && tp <= ADDRSZ
      invariant rest == src[i..] && tok + rest == src[curtok..]
      invariant p.out == tmp[..tp] && p.colon == colonp
      invariant Scanned(goal, p, tok, rest)
      invariant val == HexVal(tok) && sawXdigit == (tok != "")
      invariant forall k :: tp <= k < ADDRSZ ==> tmp[k] == 0
    {
      var ch := src[i];
      i := i + 1;
      assert rest[0] == ch && rest[1..] == src[i..];
      if IsHex(ch) {
        StepHex(goal, p, tok, rest);
        val := val * 16 + HexDigit(ch);
        if val > 0xffff {
          return false, tp, colonp;
        }
        sawXdigit := true;
        tok, rest := tok + [ch], rest[1..];
      } else if ch == ':' {
        StepColon(goal, p, tok, rest);
        curtok := i;
        ok, tp, colonp := OnColon(tmp, tp, colonp, val, sawXdigit);
        if !ok {
          return;
        }
        p := Parsed(tmp[..tp], colonp);
        sawXdigit, val, tok, rest := false, 0, "", rest[1..];
      } else if ch == '.' {
        StepDot(goal, p, tok, rest);
        ok := StoreQuad(src, curtok, tmp, tp);
        return ok, if ok then tp + 4 else tp, colonp;
      } else {
        StepOther(goal, p, tok, rest);
        return false, tp, colonp;
      }
    }
    StepEnd(goal, p, tok);
    ok, tp := StoreLast(tmp, tp, val, sawXdigit);
  }

  /** A colon ends a group, or is the second of a "::". */
  method OnColon(tmp: array<Byte>, tp0: nat, colonp0: Option<nat>, val: nat, sawXdigit: bool)
    returns (ok: bool, tp: nat, colonp: Option<nat>)
    requires tp0 <= tmp.Length == ADDRSZ && val <= 0xffff && forall k :: tp0 <= k < ADDRSZ ==> tmp[k] == 0
    modifies tmp
    ensures ok == if sawXdigit then tp0 + 2 <= ADDRSZ else colonp0.None?
    ensures ok && sawXdigit ==> tp == tp0 + 2 && colonp == colonp0 && tmp[..tp] == old(tmp[..tp0]) + WordBytes(val)
    ensures ok && !sawXdigit ==> tp == tp0 && colonp == Some(tp0) && tmp[..tp] == old(tmp[..tp0])
    ensures ok ==> forall k :: tp <= k < ADDRSZ ==> tmp[k] == 0
  {
    tp, colonp := tp0, colonp0;
    if !sawXdigit {
      if colonp.Some? {
        return false, tp, colonp;
      }
      colonp := Some(tp);
    } else {
      if tp + 2 > ADDRSZ {
        return false, tp, colonp;
      }
      StoreWord(tmp, tp, val);
      tp := tp + 2;
    }
    ok := true;
  }

  /** The group still pending when the string ends. */
  method StoreLast(tmp: array<Byte>, tp0: nat, val: nat, sawXdigit: bool) returns (ok: bool, tp: nat)
    requires tp0 <= tmp.Length == ADDRSZ && val <= 0xffff && forall k :: tp0 <= k < ADDRSZ ==> tmp[k] == 0
    modifies tmp
    ensures ok == (sawXdigit ==> tp0 + 2 <= ADDRSZ)
    ensures ok && sawXdigit ==> tp == tp0 + 2 && tmp[..tp] == old(tmp[..tp0]) + WordBytes(val)
    ensures ok && !sawXdigit ==> tp == tp0 && tmp[..tp] == old(tmp[..tp0])
    ensures ok ==> forall k :: tp <= k < ADDRSZ ==> tmp[k] == 0
  {
    tp := tp0;
    if sawXdigit {
      if tp + 2 > ADDRSZ {
        return false, tp;
      }
      StoreWord(tmp, tp, val);
      tp := tp + 2;
    }
    ok := true;
  }

  /** ch == '.' && tp + INADDRSZ <= endp && inet_pton4(curtok, tp) > 0. */
  method StoreQuad(src: CString, curtok: nat, tmp: array<Byte>, tp: nat) returns (ok: bool)
    requires curtok <= |src| && tp <= tmp.Length == ADDRSZ
    modifies tmp
    ensures ok == (tp + 4 <= ADDRSZ && Quad(src[curtok..]).Some?)
    ensures ok ==> tmp[..tp + 4] == old(tmp[..tp]) + Quad(src[curtok..]).value
    ensures ok ==> forall k :: tp + 4 <= k < ADDRSZ ==> tmp[k] == old(tmp[k])
  {
    if tp + 4 > ADDRSZ {
      return false;
    }
    ok := InetPton4(src[curtok..], tmp, tp);
    if ok {
      assert tmp[..tp + 4] == old(tmp[..tp]) + Quad(src[curtok..]).value;
    }
  }

  method StoreWord(tmp: array<Byte>, tp: nat, val: nat)
    requires tp + 2 <= tmp.Length && val <= 0xffff
    modifies tmp
    ensures tmp[..tp + 2] == old(tmp[..tp]) + WordBytes(val)
    ensures forall k :: tp + 2 <= k < tmp.Length ==> tmp[k] == old(tmp[k])
  {
    tmp[tp] := val / 256;
    tmp[tp + 1] := val % 256;
  }
}
