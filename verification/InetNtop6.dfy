/** IPv6 address to text: inet_ntop6, and its round trip through inet_pton6. */
module InetNtop6 {
  import opened Basics
  import opened TextFields
  import opened DottedQuad
  import opened InetPton6

  const NWORDS := 8
  /** sizeof "ffff:ffff:ffff:ffff:ffff:ffff:255.255.255.255" */
  const TMPSZ := 46

  type Word = w: nat | w <= 0xffff

  datatype Run = Run(base: nat, len: nat)

  predicate ZeroRun(ws: seq<Word>, base: int, len: int) {
    0 <= base && 1 <= len && base + len <= |ws| && forall k :: base <= k < base + len ==> ws[k] == 0
  }

  /** r is the leftmost of the longest zero runs, or None if no run has two words (RFC 5952, section 4.2). */
  ghost predicate IsBest(ws: seq<Word>, r: Option<Run>) {
    match r
    case None => forall b, l :: ZeroRun(ws, b, l) ==> l < 2
    case Some(run) =>
      && run.len >= 2
      && ZeroRun(ws, run.base, run.len)
      && forall b, l :: ZeroRun(ws, b, l) ==> l < run.len || (l == run.len && run.base <= b)
  }

  lemma BestIsUnique(ws: seq<Word>, r: Option<Run>, r': Option<Run>)
    requires IsBest(ws, r) && IsBest(ws, r')
    ensures r == r'
  {
    if r.Some? { assert ZeroRun(ws, r.value.base, r.value.len); }
    if r'.Some? { assert ZeroRun(ws, r'.value.base, r'.value.len); }
  }

  /** A run is elided exactly when two neighbouring words are zero. */
  lemma ElidesExactly(ws: seq<Word>, r: Option<Run>)
    requires IsBest(ws, r)
    ensures r.Some? <==> exists i :: 0 <= i < |ws| - 1 && ws[i] == 0 && ws[i + 1] == 0
  {
    if r.Some? {
      assert ws[r.value.base] == 0 && ws[r.value.base + 1] == 0;
    }
    if i :| 0 <= i < |ws| - 1 && ws[i] == 0 && ws[i + 1] == 0 {
      assert ZeroRun(ws, i, 2);
    }
  }

  /** A zero run lies on one side of a non-zero word. */
  lemma RunMisses(ws: seq<Word>, b: int, l: int, k: nat)
    requires ZeroRun(ws, b, l) && k < |ws| && ws[k] != 0
    ensures k < b || b + l <= k
  {
  }

  /** The examples of sections 4.2.2 and 4.2.3 of RFC 5952: a single zero word is left alone. */
  lemma RfcSingleZero()
    ensures IsBest([0x2001, 0xdb8, 0, 1, 1, 1, 1, 1], None)
  {
    var ws: seq<Word> := [0x2001, 0xdb8, 0, 1, 1, 1, 1, 1];
    forall b, l | ZeroRun(ws, b, l) ensures l < 2 {
      RunMisses(ws, b, l, 0);
      RunMisses(ws, b, l, 1);
      RunMisses(ws, b, l, 3);
      RunMisses(ws, b, l, 4);
      RunMisses(ws, b, l, 5);
      RunMisses(ws, b, l, 6);
      RunMisses(ws, b, l, 7);
    }
  }

  /** The longest run is elided. */
  lemma RfcLongest()
    ensures IsBest([0x2001, 0, 0, 1, 0, 0, 0, 1], Some(Run(4, 3)))
  {
    var ws: seq<Word> := [0x2001, 0, 0, 1, 0, 0, 0, 1];
    forall b, l | ZeroRun(ws, b, l) ensures l < 3 || (l == 3 && 4 <= b) {
      RunMisses(ws, b, l, 0);
      RunMisses(ws, b, l, 3);
      RunMisses(ws, b, l, 7);
    }
  }

  /** The first of two runs of the same length is elided. */
  lemma RfcFirst()
    ensures IsBest([0x2001, 0xdb8, 0, 0, 1, 0, 0, 1], Some(Run(2, 2)))
  {
    var ws: seq<Word> := [0x2001, 0xdb8, 0, 0, 1, 0, 0, 1];
    forall b, l | ZeroRun(ws, b, l) ensures l < 2 || (l == 2 && 2 <= b) {
      RunMisses(ws, b, l, 0);
      RunMisses(ws, b, l, 1);
      RunMisses(ws, b, l, 4);
      RunMisses(ws, b, l, 7);
    }
  }

  function Words(a: seq<Byte>): (ws: seq<Word>)
    requires |a| == ADDRSZ
    ensures |ws| == NWORDS
  {
    seq(NWORDS, i requires 0 <= i < NWORDS => 256 * (a[2 * i] as int) + a[2 * i + 1])
  }

  function Bytes(ws: seq<Word>): (a: seq<Byte>)
    ensures |a| == 2 * |ws|
  {
    if ws == [] then [] else WordBytes(ws[0]) + Bytes(ws[1..])
  }

  lemma {:induction false} BytesAt(ws: seq<Word>, i: nat)
    requires i < |ws|
    ensures Bytes(ws)[2 * i] == ws[i] / 256 && Bytes(ws)[2 * i + 1] == ws[i] % 256
  {
    if i > 0 {
      BytesAt(ws[1..], i - 1);
    }
  }

  lemma BytesOfWords(a: seq<Byte>)
    requires |a| == ADDRSZ
    ensures Bytes(Words(a)) == a
  {
    var ws := Words(a);
    forall k | 0 <= k < ADDRSZ ensures Bytes(ws)[k] == a[k] {
      var i := k / 2;
      BytesAt(ws, i);
      WordSplits(a[2 * i], a[2 * i + 1]);
      assert k == 2 * i || k == 2 * i + 1;
    }
  }

  lemma WordSplits(hi: Byte, lo: Byte)
    ensures var w := 256 * (hi as int) + lo; w / 256 == hi && w % 256 == lo
  {
  }

  lemma {:induction false} BytesConcat(v: seq<Word>, ws: seq<Word>)
    ensures Bytes(v + ws) == Bytes(v) + Bytes(ws)
  {
    if v == [] {
      assert v + ws == ws;
    } else {
      var h, rest := WordBytes(v[0]), v[1..];
      BytesConcat(rest, ws);
      assert (v + ws)[1..] == rest + ws && (v + ws)[0] == v[0];
      BytesAssoc(h, Bytes(rest), Bytes(ws));
    }
  }

  lemma BytesAssoc(a: seq<Byte>, b: seq<Byte>, c: seq<Byte>)
    ensures a + (b + c) == (a + b) + c
  {
  }

  lemma {:induction false} BytesOfZeros(ws: seq<Word>)
    requires forall k :: 0 <= k < |ws| ==> ws[k] == 0
    ensures Bytes(ws) == Zeros(2 * |ws|)
  {
    if ws != [] {
      BytesOfZeros(ws[1..]);
    }
  }

  // ----- the text -----

  function HexWords(ws: seq<Word>): (fs: seq<string>)
    ensures |fs| == |ws| && forall i :: 0 <= i < |ws| ==> fs[i] == HexText(ws[i])
  {
    seq(|ws|, i requires 0 <= i < |ws| => HexText(ws[i]))
  }

  /** ::a.b.c.d and ::ffff:a.b.c.d are printed with their last four bytes as a dotted quad. */
  predicate Embedded(ws: seq<Word>, run: Run)
    requires |ws| == NWORDS
  {
    run.base == 0 && (run.len == 6 || (run.len == 5 && ws[5] == 0xffff))
  }

  /** What stands after the elided run. */
  function AfterRun(ws: seq<Word>, run: Run): (fs: seq<string>)
    requires |ws| == NWORDS && run.base + run.len <= NWORDS
    ensures |fs| >= 1
  {
    if Embedded(ws, run) then HexWords(ws[run.len..6]) + [QuadText(Bytes(ws[6..]))]
    else if run.base + run.len == NWORDS then [""]
    else HexWords(ws[run.base + run.len..])
  }

  /** The pieces between colons; an elided run is one empty piece. */
  function TextPieces(ws: seq<Word>, r: Option<Run>): (fs: seq<string>)
    requires |ws| == NWORDS && (r.Some? ==> r.value.base + r.value.len <= NWORDS)
    ensures |fs| >= 1
  {
    match r
    case None => HexWords(ws)
    case Some(run) => HexWords(ws[..run.base]) + [""] + AfterRun(ws, run)
  }

  function Lead(r: Option<Run>): string {
    if r.Some? && r.value.base == 0 then ":" else ""
  }

  function Text6(ws: seq<Word>, r: Option<Run>): string
    requires |ws| == NWORDS && (r.Some? ==> r.value.base + r.value.len <= NWORDS)
  {
    Lead(r) + Join(TextPieces(ws, r), ':')
  }

  // ----- round trip -----

  lemma HexWordIsGroup(w: Word)
    ensures IsGroup(HexText(w)) && FieldBytes(HexText(w)) == WordBytes(w)
    ensures ':' !in HexText(w)
  {
  }

  lemma {:induction false} HexWordsBytes(ws: seq<Word>)
    ensures AllBytes(HexWords(ws)) == Bytes(ws)
  {
    if ws != [] {
      HexWordIsGroup(ws[0]);
      HexWordsBytes(ws[1..]);
      assert HexWords(ws)[1..] == HexWords(ws[1..]);
    }
  }

  lemma QuadTextPiece(q: seq<Byte>)
    requires |q| == 4
    ensures Quad(QuadText(q)).Some? && FieldBytes(QuadText(q)) == q && ':' !in QuadText(q) && QuadText(q) != ""
  {
    QuadRoundTrip(q);
    QuadAlphabet(QuadText(q));
    JoinFour(DecText(q[0]), DecText(q[1]), DecText(q[2]), DecText(q[3]));
    assert QuadText(q)[|DecText(q[0])|] == '.';
  }

  lemma AllBytesOne(f: string)
    ensures AllBytes([f]) == FieldBytes(f)
  {
    assert AllBytes([f]) == FieldBytes(f) + AllBytes([f][1..]);
  }

  lemma HexPieces(ws: seq<Word>)
    ensures forall f :: f in HexWords(ws) ==> IsGroup(f) && ':' !in f
  {
    forall i | 0 <= i < |ws| ensures IsGroup(HexWords(ws)[i]) && ':' !in HexWords(ws)[i] {
      HexWordIsGroup(ws[i]);
    }
  }

  lemma EmbeddedBytes(v: seq<Word>, w: seq<Word>)
    requires |w| == 2
    ensures AllBytes(HexWords(v) + [QuadText(Bytes(w))]) == Bytes(v + w)
  {
    var q := QuadText(Bytes(w));
    var fs := HexWords(v) + [q];
    AllBytesPrefix(fs, |v|);
    assert fs[..|v|] == HexWords(v) && fs[|v|..] == [q];
    HexWordsBytes(v);
    QuadTextPiece(Bytes(w));
    AllBytesOne(q);
    BytesConcat(v, w);
  }

  lemma AfterRunEmbedded(ws: seq<Word>, run: Run)
    requires |ws| == NWORDS && Embedded(ws, run)
    ensures AllBytes(AfterRun(ws, run)) == Bytes(ws[run.base + run.len..])
  {
    EmbeddedBytes(ws[run.len..6], ws[6..]);
    assert ws[run.len..6] + ws[6..] == ws[run.len..];
  }

  /** The pieces after the run carry the words after the run, in whichever of the three forms. */
  lemma AfterRunBytes(ws: seq<Word>, run: Run)
    requires |ws| == NWORDS && run.base + run.len <= NWORDS
    ensures AllBytes(AfterRun(ws, run)) == Bytes(ws[run.base + run.len..])
  {
    if Embedded(ws, run) {
      AfterRunEmbedded(ws, run);
    } else if run.base + run.len == NWORDS {
      QuadNotEmpty();
      AllBytesOne("");
    } else {
      HexWordsBytes(ws[run.base + run.len..]);
    }
  }

  lemma AfterRunPieces(ws: seq<Word>, run: Run)
    requires |ws| == NWORDS && run.base + run.len <= NWORDS
    ensures Pieces(AfterRun(ws, run)) && NoElision(AfterRun(ws, run))
    ensures forall f :: f in AfterRun(ws, run) ==> ':' !in f
  {
    if Embedded(ws, run) {
      HexPieces(ws[run.len..6]);
      QuadTextPiece(Bytes(ws[6..]));
    } else if run.base + run.len < NWORDS {
      HexPieces(ws[run.base + run.len..]);
    }
  }

  lemma OneElision(pre: seq<string>, tail: seq<string>)
    requires |tail| >= 1 && Pieces(tail) && NoElision(tail) && forall i :: 0 <= i < |pre| ==> IsGroup(pre[i])
    ensures OnlyElision(pre + [""] + tail, |pre|) && Pieces(pre + [""] + tail)
  {
    var fs := pre + [""] + tail;
    assert forall i :: |pre| < i < |fs| ==> fs[i] == tail[i - |pre| - 1];
  }

  lemma ElidedPieces(ws: seq<Word>, run: Run)
    requires |ws| == NWORDS && ZeroRun(ws, run.base, run.len)
    ensures var fs := TextPieces(ws, Some(run));
            OnlyElision(fs, run.base) && Pieces(fs) && forall f :: f in fs ==> ':' !in f
  {
    var pre, tail := HexWords(ws[..run.base]), AfterRun(ws, run);
    AfterRunPieces(ws, run);
    HexPieces(ws[..run.base]);
    assert forall i :: 0 <= i < |pre| ==> pre[i] in pre;
    OneElision(pre, tail);
    assert forall f :: f in pre + [""] + tail <==> f in pre || f == "" || f in tail;
  }

  lemma ElidedBytes(ws: seq<Word>, run: Run)
    requires |ws| == NWORDS && ZeroRun(ws, run.base, run.len)
    ensures var fs := TextPieces(ws, Some(run));
            && AllBytes(fs[..run.base]) == Bytes(ws[..run.base])
            && AllBytes(fs) == Bytes(ws[..run.base]) + Bytes(ws[run.base + run.len..])
  {
    var b := run.base;
    var fs, tail := TextPieces(ws, Some(run)), AfterRun(ws, run);
    AfterRunBytes(ws, run);
    assert fs[..b] == HexWords(ws[..b]) && fs[b..] == [""] + tail;
    HexWordsBytes(ws[..b]);
    AllBytesPrefix(fs, b);
    assert AllBytes([""] + tail) == AllBytes(tail) by {
      QuadNotEmpty();
      assert ([""] + tail)[1..] == tail;
    }
  }

  /** The elided text is cut back into its pieces, whatever stands at its start. */
  lemma TextBody(ws: seq<Word>, r: Option<Run>)
    requires |ws| == NWORDS && (r.Some? ==> ZeroRun(ws, r.value.base, r.value.len))
    ensures Body(Text6(ws, r)) == Some(Join(TextPieces(ws, r), ':'))
    ensures Split(Join(TextPieces(ws, r), ':'), ':') == TextPieces(ws, r)
  {
    var fs := TextPieces(ws, r);
    var s := Join(fs, ':');
    HexWordIsGroup(ws[0]);
    match r {
      case None =>
        forall i | 0 <= i < |ws| ensures ':' !in fs[i] { HexWordIsGroup(ws[i]); }
        assert Text6(ws, r) == s && s[0] == fs[0][0];
      case Some(run) =>
        ElidedPieces(ws, run);
        if run.base == 0 {
          assert fs[0] == "" && s[0] == ':';
          assert (":" + s)[1..] == s;
        } else {
          assert Text6(ws, r) == s;
          assert fs[0] == HexText(ws[0]) && s[0] == fs[0][0];
        }
    }
    SplitJoin(fs, ':');
  }

  lemma ExpandGap(pre: seq<Byte>, post: seq<Byte>)
    requires |pre| + |post| < ADDRSZ
    ensures Expand(pre + post, |pre|) == pre + (Zeros(ADDRSZ - |pre| - |post|) + post)
  {
    var out := pre + post;
    assert out[..|pre|] == pre && out[|pre|..] == post;
  }

  lemma ThreeParts(ws: seq<Word>, pre: seq<Word>, mid: seq<Word>, post: seq<Word>)
    requires ws == pre + mid + post
    ensures Bytes(ws) == Bytes(pre) + (Bytes(mid) + Bytes(post))
  {
    assert ws == pre + (mid + post);
    BytesConcat(pre, mid + post);
    BytesConcat(mid, post);
  }

  /** Filling the gap with zeros is putting the elided words back. */
  lemma FillRun(ws: seq<Word>, run: Run)
    requires |ws| == NWORDS && ZeroRun(ws, run.base, run.len)
    ensures Expand(Bytes(ws[..run.base]) + Bytes(ws[run.base + run.len..]), 2 * run.base) == Bytes(ws)
  {
    var pre, mid, post := ws[..run.base], ws[run.base..run.base + run.len], ws[run.base + run.len..];
    assert ws == pre + mid + post;
    FillParts(pre, mid, post);
  }

  lemma FillParts(pre: seq<Word>, mid: seq<Word>, post: seq<Word>)
    requires |pre| + |mid| + |post| == NWORDS && |mid| >= 1 && forall k :: 0 <= k < |mid| ==> mid[k] == 0
    ensures Expand(Bytes(pre) + Bytes(post), 2 * |pre|) == Bytes(pre + mid + post)
  {
    ThreeParts(pre + mid + post, pre, mid, post);
    BytesOfZeros(mid);
    ExpandGap(Bytes(pre), Bytes(post));
  }

  lemma HexWordsPlain(ws: seq<Word>)
    requires |ws| >= 1
    ensures Pieces(HexWords(ws)) && NoElision(HexWords(ws))
  {
    var fs := HexWords(ws);
    HexPieces(ws);
    assert forall i :: 0 <= i < |fs| ==> fs[i] in fs;
  }

  lemma RoundTripPlain(ws: seq<Word>)
    requires |ws| == NWORDS
    ensures Addr6(Text6(ws, None)) == Some(Bytes(ws))
  {
    var fs := HexWords(ws);
    TextBody(ws, None);
    HexWordsPlain(ws);
    HexWordsBytes(ws);
    Addr6Plain(Text6(ws, None), fs);
  }

  lemma RoundTripElided(ws: seq<Word>, run: Run)
    requires |ws| == NWORDS && ZeroRun(ws, run.base, run.len)
    ensures Addr6(Text6(ws, Some(run))) == Some(Bytes(ws))
  {
    var fs := TextPieces(ws, Some(run));
    TextBody(ws, Some(run));
    ElidedPieces(ws, run);
    ElidedBytes(ws, run);
    Addr6Elided(Text6(ws, Some(run)), fs, run.base);
    FillRun(ws, run);
  }

  /** Parsing the text printed around any zero run, or around none, gives the words back. */
  lemma RoundTripWords(ws: seq<Word>, r: Option<Run>)
    requires |ws| == NWORDS && (r.Some? ==> ZeroRun(ws, r.value.base, r.value.len))
    ensures Addr6(Text6(ws, r)) == Some(Bytes(ws))
  {
    match r
    case None => RoundTripPlain(ws);
    case Some(run) => RoundTripElided(ws, run);
  }

  /**
    * inet_pton6 undoes inet_ntop6 on every sixteen-byte address; so two addresses never
    * share a text, and printing what was parsed from any accepted text parses back to it.
    */
  lemma RoundTrip(a: seq<Byte>, r: Option<Run>)
    requires |a| == ADDRSZ && IsBest(Words(a), r)
    ensures Addr6(Text6(Words(a), r)) == Some(a)
  {
    RoundTripWords(Words(a), r);
    BytesOfWords(a);
  }

  lemma PrinterInjective(a: seq<Byte>, r: Option<Run>, a': seq<Byte>, r': Option<Run>)
    requires |a| == |a'| == ADDRSZ && IsBest(Words(a), r) && IsBest(Words(a'), r')
    requires Text6(Words(a), r) == Text6(Words(a'), r')
    ensures a == a'
  {
    RoundTrip(a, r);
    RoundTrip(a', r');
  }

  /** Whatever accepted text an address came from, its printed form is a normal form. */
  lemma PrintAfterParseIdempotent(s: string, r: Option<Run>)
    requires Addr6(s).Some? && IsBest(Words(Addr6(s).value), r)
    ensures var t := Text6(Words(Addr6(s).value), r);
            && Addr6(t) == Addr6(s)
            && forall r' :: IsBest(Words(Addr6(t).value), r') ==> Text6(Words(Addr6(t).value), r') == t
  {
    var ws := Words(Addr6(s).value);
    RoundTrip(Addr6(s).value, r);
    forall r' | IsBest(ws, r') ensures r' == r { BestIsUnique(ws, r, r'); }
  }

  function FullWithElision(ws: seq<Word>): (fs: seq<string>)
    requires |ws| == NWORDS
    ensures |fs| == 9
  {
    HexWords(ws[..7]) + [""] + [HexText(ws[7])]
  }

  lemma FullWithElisionPieces(ws: seq<Word>)
    requires |ws| == NWORDS
    ensures var fs := FullWithElision(ws);
            && OnlyElision(fs, 7) && Pieces(fs)
            && Body(Join(fs, ':')) == Some(Join(fs, ':')) && Split(Join(fs, ':'), ':') == fs
  {
    var pre, tail := HexWords(ws[..7]), [HexText(ws[7])];
    var fs := FullWithElision(ws);
    HexPieces(ws[..7]);
    HexWordIsGroup(ws[7]);
    assert forall i :: 0 <= i < 7 ==> pre[i] in pre;
    OneElision(pre, tail);
    assert forall f :: f in fs <==> f in pre || f == "" || f in tail;
    SplitJoin(fs, ':');
    assert fs[0] in pre && Join(fs, ':')[0] == fs[0][0];
  }

  lemma FullWithElisionBytes(ws: seq<Word>)
    requires |ws| == NWORDS
    ensures var fs := FullWithElision(ws);
            AllBytes(fs[..7]) == Bytes(ws[..7]) && AllBytes(fs) == Bytes(ws[..7]) + WordBytes(ws[7])
  {
    var fs, x := FullWithElision(ws), HexText(ws[7]);
    assert fs[..7] == HexWords(ws[..7]) && fs[7..] == ["", x] && ["", x][1..] == [x];
    AllBytesPrefix(fs, 7);
    HexWordsBytes(ws[..7]);
    QuadNotEmpty();
    AllBytesOne(x);
    HexWordIsGroup(ws[7]);
  }

  /** "::" before the last group of a full address wipes that group. */
  lemma ElisionWipes(ws: seq<Word>)
    requires |ws| == NWORDS
    ensures Addr6(Join(FullWithElision(ws), ':')) == Some(Bytes(ws[..7]) + [0, 0])
  {
    var fs := FullWithElision(ws);
    FullWithElisionPieces(ws);
    FullWithElisionBytes(ws);
    Addr6Elided(Join(fs, ':'), fs, 7);
    var out := AllBytes(fs);
    assert out[..14] == Bytes(ws[..7]);
    assert Expand(out, 14) == Bytes(ws[..7]) + [0, 0];
  }

  lemma LastWord(ws: seq<Word>)
    requires |ws| == NWORDS
    ensures Bytes(ws) == Bytes(ws[..7]) + WordBytes(ws[7])
  {
    BytesConcat(ws[..7], ws[7..]);
    assert ws == ws[..7] + ws[7..];
  }

  /** So it is ignored exactly when that group is zero. */
  lemma ElisionBeforeLastGroup(ws: seq<Word>)
    requires |ws| == NWORDS
    ensures Addr6(Join(FullWithElision(ws), ':')) == Addr6(Join(HexWords(ws), ':')) <==> ws[7] == 0
  {
    ElisionWipes(ws);
    assert Addr6(Join(HexWords(ws), ':')) == Some(Bytes(ws)) by {
      RoundTripWords(ws, None);
      assert Text6(ws, None) == Join(HexWords(ws), ':');
    }
    LastWord(ws);
    var a, b := Bytes(ws[..7]) + [0, 0], Bytes(ws);
    assert a[14] == 0 && a[15] == 0 && b[14] == ws[7] / 256 && b[15] == ws[7] % 256;
    if ws[7] == 0 {
      assert WordBytes(ws[7]) == [0, 0];
    }
  }

  lemma SmallHex()
    ensures HexText(1) == "1" && HexText(2) == "2" && HexText(3) == "3" && HexText(4) == "4"
    ensures HexText(5) == "5" && HexText(6) == "6" && HexText(7) == "7" && HexText(8) == "8"
  {
  }

  lemma WitnessTexts(ws: seq<Word>)
    requires ws == [1, 2, 3, 4, 5, 6, 7, 8]
    ensures HexWords(ws) == ["1", "2", "3", "4", "5", "6", "7", "8"]
    ensures FullWithElision(ws) == ["1", "2", "3", "4", "5", "6", "7", "", "8"]
  {
    SmallHex();
  }

  /** 1:2:3:4:5:6:7::8, on which the comment at inet_pton.c:134 fails. */
  lemma ElisionInFullAddressWitness()
    ensures Addr6(Join(["1", "2", "3", "4", "5", "6", "7", "", "8"], ':')) !=
            Addr6(Join(["1", "2", "3", "4", "5", "6", "7", "8"], ':'))
  {
    var ws: seq<Word> := [1, 2, 3, 4, 5, 6, 7, 8];
    ElisionBeforeLastGroup(ws);
    WitnessTexts(ws);
  }

  // ----- the text as a C string -----

  lemma {:induction false} JoinAvoids(fs: seq<string>, c: char)
    requires |fs| >= 1 && c != ':' && forall f :: f in fs ==> c !in f
    ensures c !in Join(fs, ':')
  {
    if |fs| > 1 { JoinAvoids(fs[1..], c); }
  }

  lemma HexWordsNoNul(ws: seq<Word>)
    ensures forall f :: f in HexWords(ws) ==> '\0' !in f
  {
    var fs := HexWords(ws);
    forall i | 0 <= i < |fs| ensures '\0' !in fs[i] {
      assert AllHex(HexText(ws[i]));
    }
  }

  lemma QuadTextNoNul(q: seq<Byte>)
    requires |q| == 4
    ensures '\0' !in QuadText(q)
  {
    QuadRoundTrip(q);
    QuadAlphabet(QuadText(q));
  }

  lemma AfterRunNoNul(ws: seq<Word>, run: Run)
    requires |ws| == NWORDS && run.base + run.len <= NWORDS
    ensures forall f :: f in AfterRun(ws, run) ==> '\0' !in f
  {
    if Embedded(ws, run) {
      HexWordsNoNul(ws[run.len..6]);
      QuadTextNoNul(Bytes(ws[6..]));
    } else {
      HexWordsNoNul(ws[run.base + run.len..]);
    }
  }

  /** No NUL is printed, so the first one in the caller's buffer ends the text. */
  lemma TextNoNul(ws: seq<Word>, r: Option<Run>)
    requires |ws| == NWORDS && (r.Some? ==> r.value.base + r.value.len <= NWORDS)
    ensures '\0' !in Text6(ws, r)
  {
    match r {
      case None => HexWordsNoNul(ws);
      case Some(run) =>
        HexWordsNoNul(ws[..run.base]);
        AfterRunNoNul(ws, run);
    }
    JoinAvoids(TextPieces(ws, r), '\0');
  }

  // ----- which addresses are printed with a dotted quad -----

  /** ::ffff:a.b.c.d */
  predicate Mapped(a: seq<Byte>)
    requires |a| == ADDRSZ
  {
    a[..10] == Zeros(10) && a[10] == a[11] == 0xff
  }

  /** ::a.b.c.d, but not :: or ::1 or ::x */
  predicate Compatible(a: seq<Byte>)
    requires |a| == ADDRSZ
  {
    a[..12] == Zeros(12) && (a[12] != 0 || a[13] != 0)
  }

  lemma WordsAt(a: seq<Byte>, i: nat)
    requires |a| == ADDRSZ && i < NWORDS
    ensures Words(a)[i] == 256 * (a[2 * i] as int) + a[2 * i + 1]
    ensures Words(a)[i] == 0 <==> a[2 * i] == 0 && a[2 * i + 1] == 0
    ensures Words(a)[i] == 0xffff <==> a[2 * i] == 0xff && a[2 * i + 1] == 0xff
  {
  }

  lemma ZeroBytes(a: seq<Byte>, n: nat)
    requires |a| == ADDRSZ && n <= NWORDS
    ensures a[..2 * n] == Zeros(2 * n) <==> forall i :: 0 <= i < n ==> Words(a)[i] == 0
  {
    if a[..2 * n] == Zeros(2 * n) {
      forall i | 0 <= i < n ensures Words(a)[i] == 0 {
        WordsAt(a, i);
        assert a[..2 * n][2 * i] == 0 && a[..2 * n][2 * i + 1] == 0;
      }
    }
    if forall i :: 0 <= i < n ==> Words(a)[i] == 0 {
      forall k | 0 <= k < 2 * n ensures a[k] == 0 {
        var i := k / 2;
        WordsAt(a, i);
        assert Words(a)[i] == 0 && (k == 2 * i || k == 2 * i + 1);
      }
    }
  }

  /** The best run makes the printer use a quad exactly on those two kinds of address. */
  lemma EmbeddedBytesExactly(a: seq<Byte>, r: Option<Run>)
    requires |a| == ADDRSZ && IsBest(Words(a), r)
    ensures r.Some? && Embedded(Words(a), r.value) <==> Mapped(a) || Compatible(a)
    ensures Mapped(a) ==> r == Some(Run(0, 5))
    ensures Compatible(a) ==> r == Some(Run(0, 6))
  {
    var ws := Words(a);
    ZeroBytes(a, 5);
    ZeroBytes(a, 6);
    WordsAt(a, 5);
    WordsAt(a, 6);
    if Mapped(a) {
      assert ZeroRun(ws, 0, 5);
      RunFrom(ws, r, 5);
    } else if Compatible(a) {
      assert ZeroRun(ws, 0, 6);
      RunFrom(ws, r, 6);
    } else if r.Some? && Embedded(ws, r.value) {
      RunNotLonger(ws, r.value);
    }
  }

  /** A run of the first n words, stopped by a non-zero one, is the best when at most three words remain. */
  lemma RunFrom(ws: seq<Word>, r: Option<Run>, n: nat)
    requires |ws| == NWORDS && IsBest(ws, r) && 5 <= n < NWORDS && ZeroRun(ws, 0, n) && ws[n] != 0
    ensures r == Some(Run(0, n))
  {
    var run := r.value;
    assert run.len >= n && run.base + run.len <= NWORDS;
    assert !(run.base <= n < run.base + run.len);
  }

  /** The word after the best run is not zero. */
  lemma RunNotLonger(ws: seq<Word>, run: Run)
    requires IsBest(ws, Some(run)) && run.base + run.len < |ws|
    ensures ws[run.base + run.len] != 0
  {
    assert !ZeroRun(ws, run.base, run.len + 1);
  }

  lemma JoinTwo(x: string, y: string)
    ensures Join([x, y], ':') == x + ":" + y
  {
    assert [x, y][1..] == [y];
  }

  lemma JoinThree(x: string, y: string, z: string)
    ensures Join([x, y, z], ':') == x + ":" + (y + ":" + z)
  {
    assert [x, y, z][1..] == [y, z];
    JoinTwo(y, z);
  }

  lemma QuadForms(ws: seq<Word>, run: Run)
    requires |ws| == NWORDS && Embedded(ws, run)
    ensures var q := QuadText(Bytes(ws[6..]));
            Text6(ws, Some(run)) == if run.len == 6 then "::" + q else "::ffff:" + q
  {
    var q := QuadText(Bytes(ws[6..]));
    QuadPieces(ws, run);
    if run.len == 6 { CompatibleText(q); } else { MappedText(q); }
  }

  lemma CompatibleText(q: string)
    ensures ":" + Join(["", q], ':') == "::" + q
  {
    JoinTwo("", q);
    assert "" + ":" + q == ":" + q;
    ConcatAssoc(":", ":", q);
    assert ":" + ":" == "::";
  }

  lemma MappedText(q: string)
    ensures ":" + Join(["", "ffff", q], ':') == "::ffff:" + q
  {
    JoinThree("", "ffff", q);
    var x := "ffff" + ":" + q;
    assert "" + ":" + x == ":" + x;
    ConcatAssoc(":", ":", x);
    ConcatAssoc("::", "ffff" + ":", q);
    assert ":" + ":" == "::" && "::" + ("ffff" + ":") == "::ffff:";
  }

  lemma QuadPieces(ws: seq<Word>, run: Run)
    requires |ws| == NWORDS && Embedded(ws, run)
    ensures var q := QuadText(Bytes(ws[6..]));
            TextPieces(ws, Some(run)) == if run.len == 6 then ["", q] else ["", "ffff", q]
  {
    assert HexWords(ws[..0]) + [""] == [""];
    if run.len == 5 {
      AllOnesText();
      assert HexWords(ws[5..6]) == ["ffff"];
    }
  }

  lemma AllOnesText()
    ensures HexText(0xffff) == "ffff"
  {
    DigitCharTable(15);
    assert HexText(0xf) == "f";
    assert HexText(0xff) == "ff";
    assert HexText(0xfff) == "fff";
  }

  lemma HexWordsNoDot(ws: seq<Word>)
    ensures forall f :: f in HexWords(ws) ==> '.' !in f
  {
    var fs := HexWords(ws);
    forall i | 0 <= i < |fs| ensures '.' !in fs[i] {
      assert AllHex(HexText(ws[i]));
    }
  }

  lemma NoDotElsewhere(ws: seq<Word>, r: Option<Run>)
    requires |ws| == NWORDS && (r.Some? ==> r.value.base + r.value.len <= NWORDS && !Embedded(ws, r.value))
    ensures '.' !in Text6(ws, r)
  {
    match r {
      case None => HexWordsNoDot(ws);
      case Some(run) =>
        HexWordsNoDot(ws[..run.base]);
        HexWordsNoDot(ws[run.base + run.len..]);
    }
    JoinAvoids(TextPieces(ws, r), '.');
  }

  lemma QuadTextHasDot(q: seq<Byte>)
    requires |q| == 4
    ensures '.' in QuadText(q)
  {
    JoinFour(DecText(q[0]), DecText(q[1]), DecText(q[2]), DecText(q[3]));
    assert QuadText(q)[|DecText(q[0])|] == '.';
  }

  /**
    * A dotted quad is printed exactly for IPv4-mapped addresses and for those with twelve zero
    * bytes and one of the next two not zero; then the text is "::ffff:" or "::" and the quad.
    */
  lemma QuadPrinted(a: seq<Byte>, r: Option<Run>)
    requires |a| == ADDRSZ && IsBest(Words(a), r)
    ensures '.' in Text6(Words(a), r) <==> Mapped(a) || Compatible(a)
    ensures Mapped(a) ==> Text6(Words(a), r) == "::ffff:" + QuadText(a[12..])
    ensures Compatible(a) ==> Text6(Words(a), r) == "::" + QuadText(a[12..])
  {
    var ws := Words(a);
    EmbeddedBytesExactly(a, r);
    if Mapped(a) || Compatible(a) {
      QuadForms(ws, r.value);
      LastQuad(a);
      QuadTextHasDot(a[12..]);
    } else {
      NoDotElsewhere(ws, r);
    }
  }

  /** Without a run of two zero words, the text is the eight words in hexadecimal between colons. */
  lemma NothingElided(a: seq<Byte>, r: Option<Run>)
    requires |a| == ADDRSZ && IsBest(Words(a), r) && r.None?
    ensures Text6(Words(a), r) ==
            Join(seq(NWORDS, i requires 0 <= i < NWORDS => HexText(256 * (a[2 * i] as int) + a[2 * i + 1])), ':')
  {
    var fs := seq(NWORDS, i requires 0 <= i < NWORDS => HexText(256 * (a[2 * i] as int) + a[2 * i + 1]));
    forall i | 0 <= i < NWORDS ensures fs[i] == HexWords(Words(a))[i] { WordsAt(a, i); }
    assert fs == HexWords(Words(a));
  }

  // ----- the code -----

  /** Copy the bytes into words; the or of two disjoint bytes is their sum. */
  method FillWords(src: seq<Byte>) returns (words: array<Word>)
    requires |src| == ADDRSZ
    ensures fresh(words) && words[..] == Words(src)
  {
    words := new Word[NWORDS](_ => 0);
    var i := 0;
    while i < ADDRSZ
      invariant 0 <= i <= ADDRSZ && words.Length == NWORDS
      invariant forall k :: 0 <= k < i / 2 ==> words[k] == Words(src)[k]
      invariant i % 2 == 1 ==> words[i / 2] == 256 * (src[i - 1] as int)
      invariant forall k :: (i + 1) / 2 <= k < NWORDS ==> words[k] == 0
    {
      words[i / 2] := words[i / 2] + (src[i] as int) * (if i % 2 == 0 then 256 else 1);
      i := i + 1;
    }
  }

  /** Every zero run ending at or before `end` is no better than best. */
  ghost predicate BestBefore(ws: seq<Word>, end: int, best: Option<Run>) {
    && (best.Some? ==> ZeroRun(ws, best.value.base, best.value.len) && best.value.base + best.value.len <= end)
    && (forall b, l :: ZeroRun(ws, b, l) && b + l <= end ==>
          best.Some? && (l < best.value.len || (l == best.value.len && best.value.base <= b)))
  }

  /** cur is the maximal zero run that ends at i. */
  ghost predicate RunEndingAt(ws: seq<Word>, i: nat, cur: Option<Run>)
    requires i <= |ws|
  {
    match cur
    case None => i == 0 || ws[i - 1] != 0
    case Some(c) => c.base + c.len == i && ZeroRun(ws, c.base, c.len) && (c.base == 0 || ws[c.base - 1] != 0)
  }

  function Better(best: Option<Run>, cur: Run): Option<Run> {
    if best.None? || cur.len > best.value.len then Some(cur) else best
  }

  lemma CloseRun(ws: seq<Word>, i: nat, cur: Run, best: Option<Run>)
    requires i <= |ws| && RunEndingAt(ws, i, Some(cur)) && BestBefore(ws, cur.base, best)
    ensures BestBefore(ws, i, Better(best, cur))
  {
    var best' := Better(best, cur);
    forall b, l | ZeroRun(ws, b, l) && b + l <= i
      ensures l < best'.value.len || (l == best'.value.len && best'.value.base <= b)
    {
      assert cur.base == 0 || ws[cur.base - 1] != 0;
      assert b + l <= cur.base || cur.base <= b;
    }
  }

  method FindBestRun(words: array<Word>) returns (best: Option<Run>)
    requires words.Length == NWORDS
    ensures IsBest(words[..], best)
  {
    ghost var ws := words[..];
    best := None;
    var cur: Option<Run> := None;
    var i := 0;
    while i < NWORDS
      invariant 0 <= i <= NWORDS && ws == words[..]
      invariant RunEndingAt(ws, i, cur)
      invariant BestBefore(ws, if cur.Some? then cur.value.base else i, best)
    {
      assert ws[i] == words[i];
      if words[i] == 0 {
        cur := if cur.None? then Some(Run(i, 1)) else Some(cur.value.(len := cur.value.len + 1));
      } else {
        if cur.Some? {
          CloseRun(ws, i, cur.value, best);
          best := Better(best, cur.value);
          cur := None;
        }
        SkipNonZero(ws, i, best);
      }
      i := i + 1;
    }
    if cur.Some? {
      CloseRun(ws, i, cur.value, best);
      best := Better(best, cur.value);
    }
    if best.Some? && best.value.len < 2 {
      best := None;
    }
  }

  lemma SkipNonZero(ws: seq<Word>, i: nat, best: Option<Run>)
    requires i < |ws| && ws[i] != 0 && BestBefore(ws, i, best)
    ensures BestBefore(ws, i + 1, best)
  {
    forall b, l | ZeroRun(ws, b, l) && b + l <= i + 1 ensures b + l <= i {
      assert ws[i] != 0;
    }
  }

  /** The text after the first i words, following the three phases of the loop. */
  function Prefix6(ws: seq<Word>, r: Option<Run>, i: nat): string
    requires |ws| == NWORDS && i <= NWORDS && (r.Some? ==> r.value.base + r.value.len <= NWORDS)
  {
    if r.None? || i <= r.value.base then
      if i == 0 then "" else Join(HexWords(ws[..i]), ':')
    else
      var b, e := r.value.base, r.value.base + r.value.len;
      if i <= e then (if b == 0 then "" else Join(HexWords(ws[..b]), ':')) + ":"
      else Lead(r) + Join(HexWords(ws[..b]) + [""] + HexWords(ws[e..i]), ':')
  }

  predicate InRun(r: Option<Run>, i: int) {
    r.Some? && r.value.base <= i < r.value.base + r.value.len
  }

  lemma PrefixInRun(ws: seq<Word>, r: Option<Run>, i: nat)
    requires |ws| == NWORDS && i < NWORDS && InRun(r, i) && r.value.base + r.value.len <= NWORDS
    ensures Prefix6(ws, r, i + 1) == Prefix6(ws, r, i) + (if i == r.value.base then ":" else "")
  {
  }

  /** Before the run, or without one. */
  lemma PrefixWordBefore(ws: seq<Word>, r: Option<Run>, i: nat)
    requires |ws| == NWORDS && i < NWORDS && (r.Some? ==> i < r.value.base && r.value.base + r.value.len <= NWORDS)
    ensures Prefix6(ws, r, i + 1) == Prefix6(ws, r, i) + (if i != 0 then ":" else "") + HexText(ws[i])
  {
    assert HexWords(ws[..i + 1]) == HexWords(ws[..i]) + [HexText(ws[i])];
    if i != 0 { JoinSnoc(HexWords(ws[..i]), HexText(ws[i]), ':'); }
  }

  /** The text from the run on, before its closing colon. */
  function AfterText(ws: seq<Word>, run: Run, i: nat): string
    requires run.base + run.len <= i <= |ws|
  {
    Lead(Some(run)) + Join(HexWords(ws[..run.base]) + [""] + HexWords(ws[run.base + run.len..i]), ':')
  }

  lemma PrefixAfter(ws: seq<Word>, run: Run, i: nat)
    requires |ws| == NWORDS && run.len >= 1 && run.base + run.len <= i <= NWORDS
    ensures Prefix6(ws, Some(run), i) == AfterText(ws, run, i)
  {
    var fs := HexWords(ws[..run.base]) + [""];
    if i == run.base + run.len {
      assert fs + HexWords(ws[run.base + run.len..i]) == fs;
      JoinElision(HexWords(ws[..run.base]));
    }
  }

  /** After the run; the first word there closes the "::". */
  lemma PrefixWordAfter(ws: seq<Word>, run: Run, i: nat)
    requires |ws| == NWORDS && run.len >= 1 && run.base + run.len <= i < NWORDS
    ensures Prefix6(ws, Some(run), i + 1) == Prefix6(ws, Some(run), i) + ":" + HexText(ws[i])
  {
    calc {
      Prefix6(ws, Some(run), i + 1);
    == { PrefixAfter(ws, run, i + 1); }
      AfterText(ws, run, i + 1);
    == { AfterTextSnoc(ws, run, i); }
      AfterText(ws, run, i) + ":" + HexText(ws[i]);
    == { PrefixAfter(ws, run, i); }
      Prefix6(ws, Some(run), i) + ":" + HexText(ws[i]);
    }
  }

  lemma AfterTextSnoc(ws: seq<Word>, run: Run, i: nat)
    requires run.base + run.len <= i < |ws|
    ensures AfterText(ws, run, i + 1) == AfterText(ws, run, i) + ":" + HexText(ws[i])
  {
    var fs, e := HexWords(ws[..run.base]) + [""], run.base + run.len;
    PiecesSnoc(fs, ws, e, i);
    LeadSnoc(Lead(Some(run)), fs + HexWords(ws[e..i]), HexText(ws[i]));
  }

  lemma PiecesSnoc(fs: seq<string>, ws: seq<Word>, e: nat, i: nat)
    requires e <= i < |ws|
    ensures fs + HexWords(ws[e..i + 1]) == fs + HexWords(ws[e..i]) + [HexText(ws[i])]
  {
  }

  lemma LeadSnoc(lead: string, gs: seq<string>, x: string)
    requires |gs| >= 1
    ensures lead + Join(gs + [x], ':') == lead + Join(gs, ':') + ":" + x
  {
    JoinSnoc(gs, x, ':');
    Assoc(lead, Join(gs, ':'), ":", x);
  }

  lemma Assoc(a: string, b: string, c: string, d: string)
    ensures a + (b + c + d) == a + b + c + d
  {
  }

  lemma JoinElision(pre: seq<string>)
    ensures Join(pre + [""], ':') == if pre == [] then "" else Join(pre, ':') + ":"
  {
    if pre == [] {
      assert pre + [""] == [""];
    } else {
      JoinSnoc(pre, "", ':');
    }
  }

  /** All eight words printed, and the closing colon of a trailing run. */
  lemma PrefixWhole(ws: seq<Word>, r: Option<Run>)
    requires |ws| == NWORDS && (r.Some? ==> r.value.len >= 1 && r.value.base + r.value.len <= NWORDS)
    requires r.Some? ==> !Embedded(ws, r.value)
    ensures Text6(ws, r) == Prefix6(ws, r, NWORDS) +
                            (if r.Some? && r.value.base + r.value.len == NWORDS then ":" else "")
  {
    assert ws[..NWORDS] == ws;
    if r.Some? {
      PrefixAfter(ws, r.value, NWORDS);
      if r.value.base + r.value.len == NWORDS { TrailingRun(ws, r.value); }
    }
  }

  lemma TrailingRun(ws: seq<Word>, run: Run)
    requires |ws| == NWORDS && run.len >= 1 && run.base + run.len == NWORDS && !Embedded(ws, run)
    ensures Text6(ws, Some(run)) == AfterText(ws, run, NWORDS) + ":"
  {
    var gs, lead := HexWords(ws[..run.base]) + [""], Lead(Some(run));
    assert gs + HexWords(ws[NWORDS..NWORDS]) == gs;
    JoinSnoc(gs, "", ':');
    assert lead + (Join(gs, ':') + ":" + "") == lead + Join(gs, ':') + ":";
  }

  /** The embedded form stops after six words and appends the quad. */
  lemma PrefixEmbedded(ws: seq<Word>, run: Run)
    requires |ws| == NWORDS && Embedded(ws, run)
    ensures Text6(ws, Some(run)) == Prefix6(ws, Some(run), 6) + ":" + QuadText(Bytes(ws[6..]))
  {
    var pre, post, q := HexWords(ws[..run.base]) + [""], HexWords(ws[run.len..6]), QuadText(Bytes(ws[6..]));
    PrefixAfter(ws, run, 6);
    ConcatAssoc(pre, post, [q]);
    LeadSnoc(Lead(Some(run)), pre + post, q);
  }

  lemma {:induction false} JoinLength(fs: seq<string>)
    requires |fs| >= 1 && forall i :: 0 <= i < |fs| ==> |fs[i]| <= 4
    ensures |Join(fs, ':')| <= 5 * |fs| - 1
  {
    if |fs| > 1 {
      JoinLength(fs[1..]);
    }
  }

  /** Five characters a word, and at most ten before an embedded quad. */
  lemma PrefixLength(ws: seq<Word>, r: Option<Run>, i: nat)
    requires |ws| == NWORDS && i <= NWORDS && (r.Some? ==> r.value.len >= 2 && r.value.base + r.value.len <= NWORDS)
    ensures |Prefix6(ws, r, i)| <= 5 * i
    ensures r.Some? && Embedded(ws, r.value) && i <= 6 ==> |Prefix6(ws, r, i)| <= 10
  {
    if r.None? || i <= r.value.base {
      WordsLength(ws[..i]);
    } else if i <= r.value.base + r.value.len {
      WordsLength(ws[..r.value.base]);
    } else {
      AfterTextLength(ws, r.value, i);
    }
  }

  lemma WordsLength(ws: seq<Word>)
    ensures ws != [] ==> |Join(HexWords(ws), ':')| <= 5 * |ws| - 1
  {
    if ws != [] {
      HexWordsShort(ws);
      JoinLength(HexWords(ws));
    }
  }

  lemma AfterTextLength(ws: seq<Word>, run: Run, i: nat)
    requires run.base + run.len <= i <= |ws|
    ensures |AfterText(ws, run, i)| <= 5 * (run.base + 1 + i - (run.base + run.len))
  {
    var pre, post := HexWords(ws[..run.base]), HexWords(ws[run.base + run.len..i]);
    HexWordsShort(ws[..run.base]);
    HexWordsShort(ws[run.base + run.len..i]);
    ShortAround(pre, post);
    JoinLength(pre + [""] + post);
  }

  lemma HexWordsShort(ws: seq<Word>)
    ensures forall k :: 0 <= k < |ws| ==> |HexWords(ws)[k]| <= 4
  {
    forall k | 0 <= k < |ws| ensures |HexWords(ws)[k]| <= 4 { HexTextLength(ws[k]); }
  }

  lemma ShortAround(pre: seq<string>, post: seq<string>)
    requires (forall k :: 0 <= k < |pre| ==> |pre[k]| <= 4) && forall k :: 0 <= k < |post| ==> |post[k]| <= 4
    ensures forall k :: 0 <= k < |pre + [""] + post| ==> |(pre + [""] + post)[k]| <= 4
  {
  }

  /** sprintf into the buffer: the characters and their NUL must fit. */
  method Sprint(tmp: array<char>, tp: nat, s: string)
    requires tp + |s| + 1 <= tmp.Length
    modifies tmp
    ensures tmp[..tp + |s|] == old(tmp[..tp]) + s
  {
    var k := 0;
    while k < |s|
      invariant 0 <= k <= |s|
      invariant tmp[..tp + k] == old(tmp[..tp]) + s[..k]
    {
      tmp[tp + k] := s[k];
      assert tmp[..tp + k + 1] == tmp[..tp + k] + [s[k]];
      k := k + 1;
    }
    tmp[tp + |s|] := '\0';
    assert tmp[..tp + |s|] == old(tmp[..tp]) + s;
  }

  /** Is this the point where the rest is an encapsulated IPv4 address? */
  predicate QuadPoint(ws: seq<Word>, best: Option<Run>, i: nat)
    requires |ws| == NWORDS
  {
    i == 6 && best.Some? && Embedded(ws, best.value)
  }

  /** The characters one iteration of the formatting loop appends. */
  function Emitted(ws: seq<Word>, best: Option<Run>, i: nat): string
    requires |ws| == NWORDS && i < NWORDS
  {
    if InRun(best, i) then
      if i == best.value.base then ":" else ""
    else
      (if i != 0 then ":" else "") + (if QuadPoint(ws, best, i) then QuadText(Bytes(ws[6..])) else HexText(ws[i]))
  }

  ghost predicate GoodRun(best: Option<Run>) {
    best.Some? ==> best.value.len >= 2 && best.value.base + best.value.len <= NWORDS
  }

  lemma EmittedInRun(ws: seq<Word>, best: Option<Run>, i: nat)
    requires |ws| == NWORDS && i < NWORDS && GoodRun(best) && InRun(best, i)
    ensures Prefix6(ws, best, i) + Emitted(ws, best, i) == Prefix6(ws, best, i + 1)
  {
    PrefixInRun(ws, best, i);
  }

  lemma EmittedQuad(ws: seq<Word>, best: Option<Run>, i: nat)
    requires |ws| == NWORDS && i < NWORDS && GoodRun(best) && !InRun(best, i) && QuadPoint(ws, best, i)
    ensures Prefix6(ws, best, i) + Emitted(ws, best, i) == Text6(ws, best)
  {
    PrefixEmbedded(ws, best.value);
    Regroup(Prefix6(ws, best, 6), QuadText(Bytes(ws[6..])));
  }

  lemma Regroup(p: string, q: string)
    ensures p + (":" + q) == p + ":" + q && p + ("" + q) == p + "" + q
  {
  }

  lemma EmittedWord(ws: seq<Word>, best: Option<Run>, i: nat)
    requires |ws| == NWORDS && i < NWORDS && GoodRun(best) && !InRun(best, i) && !QuadPoint(ws, best, i)
    ensures Prefix6(ws, best, i) + Emitted(ws, best, i) == Prefix6(ws, best, i + 1)
  {
    Regroup(Prefix6(ws, best, i), HexText(ws[i]));
    if best.None? || i < best.value.base {
      PrefixWordBefore(ws, best, i);
    } else {
      PrefixWordAfter(ws, best.value, i);
    }
  }

  lemma EmittedStep(ws: seq<Word>, best: Option<Run>, i: nat)
    requires |ws| == NWORDS && i < NWORDS && GoodRun(best)
    ensures Prefix6(ws, best, i) + Emitted(ws, best, i) ==
            if QuadPoint(ws, best, i) then Text6(ws, best) else Prefix6(ws, best, i + 1)
  {
    if InRun(best, i) {
      EmittedInRun(ws, best, i);
    } else if QuadPoint(ws, best, i) {
      EmittedQuad(ws, best, i);
    } else {
      EmittedWord(ws, best, i);
    }
  }

  lemma EmittedFits(ws: seq<Word>, best: Option<Run>, i: nat)
    requires |ws| == NWORDS && i < NWORDS && GoodRun(best)
    ensures |Prefix6(ws, best, i)| + |Emitted(ws, best, i)| + 2 <= TMPSZ
  {
    PrefixLength(ws, best, i);
    HexTextLength(ws[i]);
  }

  /** The body of the formatting loop. */
  method FormatWord(src: seq<Byte>, words: array<Word>, best: Option<Run>, tmp: array<char>, i: nat, tp0: nat)
    returns (tp: nat, quad: bool)
    requires |src| == ADDRSZ && words.Length == NWORDS && words[..] == Words(src) && i < NWORDS
    requires tp0 + |Emitted(Words(src), best, i)| + 2 <= tmp.Length
    modifies tmp
    ensures tp == tp0 + |Emitted(Words(src), best, i)| && quad == (!InRun(best, i) && QuadPoint(Words(src), best, i))
    ensures tmp[..tp] == old(tmp[..tp0]) + Emitted(Words(src), best, i)
  {
    tp := tp0;
    if best.Some? && best.value.base <= i < best.value.base + best.value.len {
      if i == best.value.base {
        tmp[tp] := ':';
        tp := tp + 1;
      }
      return tp, false;
    }
    quad := i == 6 && best.Some? && best.value.base == 0 &&
    (best.value.len == 6 || (best.value.len == 5 && words[5] == 0xffff));
    LastQuad(src);
    tp := PutPiece(tmp, tp0, i, if quad then QuadText(src[12..]) else HexText(words[i]));
  }

  /** The separating colon, if any, and one sprintf. */
  method PutPiece(tmp: array<char>, tp0: nat, i: nat, piece: string) returns (tp: nat)
    requires tp0 + |piece| + 2 <= tmp.Length
    modifies tmp
    ensures tp == tp0 + |piece| + (if i != 0 then 1 else 0) <= tmp.Length
    ensures tmp[..tp] == old(tmp[..tp0]) + ((if i != 0 then ":" else "") + piece)
  {
    tp := tp0;
    if i != 0 {
      tmp[tp] := ':';
      tp := tp + 1;
    }
    Sprint(tmp, tp, piece);
    tp := tp + |piece|;
  }

  /** The text so far: the first i words, or all of it once the quad has been printed. */
  ghost predicate Formatted(ws: seq<Word>, best: Option<Run>, i: nat, quad: bool, text: string) {
    && |ws| == NWORDS && i <= NWORDS && GoodRun(best)
    && if quad then best.Some? && Embedded(ws, best.value) && text == Text6(ws, best)
       else text == Prefix6(ws, best, i) && (best.Some? && Embedded(ws, best.value) ==> i <= 6)
  }

  lemma FormattedStep(ws: seq<Word>, best: Option<Run>, i: nat, text: string)
    requires i < NWORDS && Formatted(ws, best, i, false, text)
    ensures |text| + |Emitted(ws, best, i)| + 2 <= TMPSZ
    ensures Formatted(ws, best, i + 1, !InRun(best, i) && QuadPoint(ws, best, i), text + Emitted(ws, best, i))
  {
    EmittedFits(ws, best, i);
    EmittedStep(ws, best, i);
  }

  lemma FormattedEnd(ws: seq<Word>, best: Option<Run>, i: nat, quad: bool, text: string)
    requires Formatted(ws, best, i, quad, text) && (quad || i == NWORDS)
    ensures Text6(ws, best) == text + (if best.Some? && best.value.base + best.value.len == NWORDS then ":" else "")
  {
    if !quad { PrefixWhole(ws, best); }
  }

  /** The formatting loop; every store lands inside the TMPSZ bytes of tmp. */
  method FormatWords(src: seq<Byte>, words: array<Word>, best: Option<Run>, tmp: array<char>) returns (tp: nat)
    requires |src| == ADDRSZ && words.Length == NWORDS && words[..] == Words(src) && tmp.Length == TMPSZ
    requires IsBest(words[..], best)
    modifies tmp
    ensures tp + 1 <= TMPSZ && tmp[..tp] == Text6(Words(src), best)
  {
    ghost var ws := Words(src);
    tp := 0;
    var i, quad := 0, false;
    assert tmp[..tp] == [];
    while i < NWORDS && !quad
      invariant 0 <= i <= NWORDS && words[..] == ws && tp + 2 <= TMPSZ
      invariant Formatted(ws, best, i, quad, tmp[..tp])
    {
      FormattedStep(ws, best, i, tmp[..tp]);
      tp, quad := FormatWord(src, words, best, tmp, i, tp);
      i := i + 1;
    }
    FormattedEnd(ws, best, i, quad, tmp[..tp]);
    if best.Some? && best.value.base + best.value.len == NWORDS {
      tmp[tp] := ':';
      tp := tp + 1;
    }
  }

  lemma LastQuad(src: seq<Byte>)
    requires |src| == ADDRSZ
    ensures Bytes(Words(src)[6..]) == src[12..]
  {
    BytesOfWords(src);
    var ws := Words(src);
    assert ws == ws[..6] + ws[6..];
    BytesConcat(ws[..6], ws[6..]);
  }

  method Strcpy(dst: array<char>, tmp: array<char>, tp: nat)
    requires dst != tmp && tp + 1 <= dst.Length && tp + 1 <= tmp.Length && tmp[tp] == '\0'
    modifies dst
    ensures dst[..] == old(tmp[..tp]) + ['\0'] + old(dst[tp + 1..])
  {
    forall k | 0 <= k <= tp { dst[k] := tmp[k]; }
  }

  /** Prints the canonical text, or reports ENOSPC exactly when text and NUL exceed size. */
  method InetNtop6(src: seq<Byte>, dst: array<char>, size: nat)
    returns (ok: bool, ghost text: string, ghost best: Option<Run>)
    requires |src| == ADDRSZ && size <= dst.Length
    modifies dst
    ensures IsBest(Words(src), best) && text == Text6(Words(src), best) && '\0' !in text
    ensures '.' in text <==> Mapped(src) || Compatible(src)
    ensures Mapped(src) ==> text == "::ffff:" + QuadText(src[12..])
    ensures Compatible(src) ==> text == "::" + QuadText(src[12..])
    ensures (ok <==> |text| + 1 <= size) && (size >= TMPSZ ==> ok)
    ensures ok ==> dst[..] == text + ['\0'] + old(dst[|text| + 1..])
    ensures !ok ==> dst[..] == old(dst[..])
  {
    var tmp := new char[TMPSZ];
    var tp;
    tp, best := Print(src, tmp);
    text := tmp[..tp];
    QuadPrinted(src, best);
    ok := CopyOut(tmp, tp, dst, size);
  }

  /** Everything up to the closing NUL. */
  method Print(src: seq<Byte>, tmp: array<char>) returns (tp: nat, ghost best: Option<Run>)
    requires |src| == ADDRSZ && tmp.Length == TMPSZ
    modifies tmp
    ensures tp + 1 <= TMPSZ && IsBest(Words(src), best)
    ensures tmp[..tp] == Text6(Words(src), best) && '\0' !in tmp[..tp]
  {
    var words := FillWords(src);
    var run := FindBestRun(words);
    tp := FormatWords(src, words, run, tmp);
    best := run;
    TextNoNul(Words(src), best);
  }

  /** The NUL, the check against size, and the copy. */
  method CopyOut(tmp: array<char>, tp: nat, dst: array<char>, size: nat) returns (ok: bool)
    requires dst != tmp && size <= dst.Length && tp + 1 <= tmp.Length
    modifies tmp, dst
    ensures ok == (tp + 1 <= size)
    ensures ok ==> dst[..] == old(tmp[..tp]) + ['\0'] + old(dst[tp + 1..])
    ensures !ok ==> dst[..] == old(dst[..])
  {
    tmp[tp] := '\0';
    ok := tp + 1 <= size;
    if ok {
      assert tmp[..tp] == old(tmp[..tp]);
      Strcpy(dst, tmp, tp);
    }
  }

  /** What a C program sees in the buffer: everything before the first NUL. */
  method CStringOf(a: array<char>) returns (s: CString)
    requires '\0' in a[..]
    ensures |s| < a.Length && s == a[..|s|] && a[|s|] == '\0'
  {
    var n := 0;
    while a[n] != '\0'
      invariant 0 <= n < a.Length && '\0' !in a[..n] && '\0' in a[n..]
      decreases a.Length - n
    {
      assert a[n..] == [a[n]] + a[n + 1..];
      n := n + 1;
    }
    s := a[..n];
  }

  lemma FirstNul(buf: seq<char>, text: string, s: string)
    requires '\0' !in text && '\0' !in s
    requires |text| < |buf| && buf[..|text|] == text && buf[|text|] == '\0'
    requires |s| < |buf| && buf[..|s|] == s && buf[|s|] == '\0'
    ensures s == text
  {
    assert forall k :: 0 <= k < |text| ==> buf[k] == text[k] && text[k] in text;
    assert forall k :: 0 <= k < |s| ==> buf[k] == s[k] && s[k] in s;
    assert |s| == |text|;
  }

  /**
    * Printing any address into a buffer of the caller's, of any size, and parsing the string
    * found there: whenever the printer does not report ENOSPC, and always from 46 bytes on, the
    * parser accepts and stores exactly the address that was printed.
    */
  method NtopThenPton(src: seq<Byte>, dst: array<char>, size: nat, out: array<Byte>) returns (printed: bool, parsed: bool)
    requires |src| == ADDRSZ && size <= dst.Length && out.Length == ADDRSZ
    modifies dst, out
    ensures size >= TMPSZ ==> printed
    ensures parsed == printed
    ensures parsed ==> out[..] == src
    ensures !parsed ==> out[..] == old(out[..]) && dst[..] == old(dst[..])
  {
    ghost var text, best;
    printed, text, best := InetNtop6(src, dst, size);
    if !printed {
      return false, false;
    }
    assert dst[|text|] == '\0' && dst[..|text|] == text;
    var s := CStringOf(dst);
    FirstNul(dst[..], text, s);
    RoundTrip(src, best);
    parsed := InetPton6.InetPton6(s, out);
  }
}
