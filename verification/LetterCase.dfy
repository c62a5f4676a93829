/** inet_pton6 reads upper- and lower-case digits alike. */
module LetterCase {
  import opened Basics
  import opened TextFields
  import opened DottedQuad
  import opened InetPton6

  /** A to F become a to f; everything else stays. */
  function LowerChar(c: char): char {
    if 'A' <= c <= 'F' then (c as int - 'A' as int + 'a' as int) as char else c
  }

  function Lower(s: string): (t: string)
    ensures |t| == |s| && forall i :: 0 <= i < |s| ==> t[i] == LowerChar(s[i])
  {
    seq(|s|, i requires 0 <= i < |s| => LowerChar(s[i]))
  }

  function LowerAll(fs: seq<string>): (gs: seq<string>)
    ensures |gs| == |fs| && forall i :: 0 <= i < |fs| ==> gs[i] == Lower(fs[i])
  {
    seq(|fs|, i requires 0 <= i < |fs| => Lower(fs[i]))
  }

  lemma LowerDigit(c: char)
    ensures IsHex(LowerChar(c)) <==> IsHex(c)
    ensures IsHex(c) ==> HexDigit(LowerChar(c)) == HexDigit(c)
    ensures IsDec(LowerChar(c)) <==> IsDec(c)
  {
  }

  /** Cutting at a separator that is not a letter commutes with folding. */
  lemma {:induction false} SplitLower(s: string, sep: char)
    requires !('A' <= sep <= 'F') && !('a' <= sep <= 'f')
    ensures Split(Lower(s), sep) == LowerAll(Split(s, sep))
  {
    if s != [] {
      SplitLower(s[1..], sep);
      assert Lower(s)[1..] == Lower(s[1..]);
      var rest := Split(s[1..], sep);
      if s[0] == sep {
        assert LowerAll([[]] + rest) == [[]] + LowerAll(rest);
      } else {
        LowerCons(s[0], rest);
      }
    } else {
      assert Lower(s) == [] && LowerAll([[]]) == [[]];
    }
  }

  lemma LowerCons(c: char, rest: seq<string>)
    requires |rest| >= 1
    ensures LowerAll([[c] + rest[0]] + rest[1..]) == [[LowerChar(c)] + LowerAll(rest)[0]] + LowerAll(rest)[1..]
  {
    assert Lower([c] + rest[0]) == [LowerChar(c)] + Lower(rest[0]);
  }

  lemma AllHexLower(f: string)
    ensures AllHex(Lower(f)) <==> AllHex(f)
    ensures AllDec(Lower(f)) <==> AllDec(f)
    ensures AllDec(f) ==> Lower(f) == f
  {
    var g := Lower(f);
    forall i | 0 <= i < |f| ensures (IsHex(g[i]) <==> IsHex(f[i])) && (IsDec(g[i]) <==> IsDec(f[i])) {
      LowerDigit(f[i]);
    }
  }

  lemma {:induction false} HexValLower(f: string)
    requires AllHex(f)
    ensures AllHex(Lower(f)) && HexVal(Lower(f)) == HexVal(f)
  {
    AllHexLower(f);
    if f != [] {
      var n := |f| - 1;
      HexValLower(f[..n]);
      assert Lower(f)[..n] == Lower(f[..n]);
      LowerDigit(f[n]);
    }
  }

  lemma GroupLower(f: string)
    ensures IsGroup(Lower(f)) <==> IsGroup(f)
    ensures IsGroup(f) ==> HexVal(Lower(f)) == HexVal(f)
    ensures Lower(f) == "" <==> f == ""
  {
    AllHexLower(f);
    if AllHex(f) { HexValLower(f); }
  }

  lemma QuadLower(f: string)
    ensures Quad(Lower(f)) == Quad(f)
  {
    SplitLower(f, '.');
    var fs, gs := Split(f, '.'), Split(Lower(f), '.');
    forall k | 0 <= k < |fs| ensures (IsOctet(gs[k]) <==> IsOctet(fs[k])) && (IsOctet(fs[k]) ==> gs[k] == fs[k]) {
      AllHexLower(fs[k]);
    }
  }

  lemma LastLower(p: Parsed, f: string)
    requires p.Valid()
    ensures LastField(p, Lower(f)) == LastField(p, f)
  {
    GroupLower(f);
    QuadLower(f);
  }

  lemma {:induction false} GroupsLower(p: Parsed, fs: seq<string>)
    requires p.Valid() && |fs| >= 1
    ensures Groups(p, LowerAll(fs)) == Groups(p, fs)
    decreases |fs|
  {
    var gs := LowerAll(fs);
    if |fs| == 1 {
      LastLower(p, fs[0]);
    } else {
      assert gs[1..] == LowerAll(fs[1..]);
      GroupLower(fs[0]);
      if fs[0] == "" {
        if p.colon.None? { GroupsLower(p.(colon := Some(|p.out|)), fs[1..]); }
      } else if IsGroup(fs[0]) && |p.out| + 2 <= ADDRSZ {
        GroupsLower(p.(out := p.out + WordBytes(HexVal(fs[0]))), fs[1..]);
      }
    }
  }

  lemma Addr6Lower(s: string)
    ensures Addr6(Lower(s)) == Addr6(s)
  {
    assert s != "" ==> Lower(s)[1..] == Lower(s[1..]);
    if Body(s).Some? {
      SplitLower(Body(s).value, ':');
      GroupsLower(START, Split(Body(s).value, ':'));
    }
  }

  /** Texts that differ only in the case of a to f are accepted alike, with the same address. */
  lemma CaseInsensitive(s: string, t: string)
    requires Lower(s) == Lower(t)
    ensures Addr6(s) == Addr6(t)
  {
    Addr6Lower(s);
    Addr6Lower(t);
  }
}
