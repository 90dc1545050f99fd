/** Deciphering undoes enciphering, up to blanks. */
module MorseDecode {
  import opened MorseTables
  import opened MorseCodec
  import opened MorseEncode

  // ---------- the tables inverted ----------

  lemma LetterFound(c: char)
    requires Encodable(c)
    ensures IsCode(Code(c)) && LetterFrom(Code(c), 0) == c as int - '!' as int
  {
    var i := c as int - '!' as int;
    CodeFacts(i);
    MorseInjective(i, LetterFrom(Code(c), 0));
  }

  lemma PlaceFound(t: string, i: nat)
    requires IsTable(t) && i < 26
    ensures PlaceOf(t, t[i], 0) == i
  {
  }

  /** A triple that is not all separators has one cipher letter, and that letter stands for it. */
  lemma TripleRead(t: string, s: string)
    requires IsTable(t) && |s| == 3 && AllSigns(s) && s != "xxx"
    ensures |CipherOne(t, s)| == 1 && CipherOne(t, s)[0] in t
    ensures Frac(PlaceOf(t, CipherOne(t, s)[0], 0)) == s
  {
    FracIsBase3(s[0], s[1], s[2]);
    var i := 9 * Digit(s[0]) + 3 * Digit(s[1]) + Digit(s[2]);
    assert s == [s[0], s[1], s[2]];
    PlaceFound(t, TripleFrom(s, 0));
  }

  // ---------- reading signs one at a time ----------

  predicate AllSigns(s: string) {
    forall k :: 0 <= k < |s| ==> IsSign(s[k])
  }

  predicate NoXxx(s: string) {
    forall k :: 0 <= k && k + 2 < |s| ==> s[k] != 'x' || s[k + 1] != 'x' || s[k + 2] != 'x'
  }

  /** The decoder sign by sign; k counts signs since the last cipher letter began, when a waiting gap is printed. */
  function Run(d: Reader, s: string, k: nat): Reader
    decreases |s|
  {
    if s == "" || !d.ok then d
    else Run(ReadSign(if k == 0 then PrintGap(d) else d, s[0]), s[1..], (k + 1) % 3)
  }

  lemma {:induction false} RunConcat(d: Reader, a: string, b: string, k: nat)
    requires k < 3
    ensures Run(d, a + b, k) == Run(Run(d, a, k), b, (k + |a|) % 3)
    decreases |a|
  {
    if a == "" {
      NoMore(b);
    } else {
      Front(a, b);
      if d.ok {
        RunConcat(ReadSign(if k == 0 then PrintGap(d) else d, a[0]), a[1..], b, (k + 1) % 3);
        NextPhase(k, |a|);
      } else {
        StoppedRun(d, b, (k + |a|) % 3);
      }
    }
  }

  lemma NextPhase(k: nat, n: nat)
    requires k < 3 && n > 0
    ensures ((k + 1) % 3 + (n - 1)) % 3 == (k + n) % 3
  {
  }

  lemma StoppedRun(d: Reader, s: string, k: nat)
    requires !d.ok
    ensures Run(d, s, k) == d
  {
  }

  /** Within a cipher letter no gap is printed early. */
  lemma {:induction false} RunWithin(d: Reader, s: string, k: nat)
    requires k > 0 && k + |s| <= 3
    ensures Run(d, s, k) == ReadSigns(d, s)
    decreases |s|
  {
    if !d.ok {
      StoppedReading(d, s);
    } else if s != "" {
      var e := ReadSign(d, s[0]);
      assert ReadSigns(d, s) == ReadSigns(e, s[1..]);
      assert Run(d, s, k) == Run(e, s[1..], (k + 1) % 3);
      if |s| == 1 {
        assert s[1..] == "";
      } else {
        RunWithin(ReadSign(d, s[0]), s[1..], k + 1);
      }
    }
  }

  lemma RunTriple(d: Reader, s: string)
    requires d.ok && |s| == 3
    ensures Run(d, s, 0) == ReadSigns(PrintGap(d), s)
  {
    RunWithin(ReadSign(PrintGap(d), s[0]), s[1..], 1);
  }

  lemma CipherOneRead(t: string, d: Reader, s: string, careful: bool)
    requires IsTable(t) && '\n' !in t && |s| == 3 && AllSigns(s) && s != "xxx"
    ensures |CipherOne(t, s)| == 1 && ReadChar(t, d, CipherOne(t, s)[0], careful) == Run(d, s, 0)
  {
    TripleRead(t, s);
    if d.ok {
      RunTriple(d, s);
    }
  }

  lemma {:induction false} ReadConcat(t: string, d: Reader, a: string, b: string, careful: bool)
    ensures ReadAll(t, d, a + b, careful) == ReadAll(t, ReadAll(t, d, a, careful), b, careful)
    decreases |a|
  {
    if a == "" {
      NoMore(b);
    } else {
      Front(a, b);
      ReadConcat(t, ReadChar(t, d, a[0], careful), a[1..], b, careful);
    }
  }

  lemma NoXxxSplit(s: string)
    requires NoXxx(s) && |s| >= 3
    ensures s[..3] != "xxx" && NoXxx(s[3..])
  {
    var b := s[3..];
    assert s[0] == s[..3][0] && s[1] == s[..3][1] && s[2] == s[..3][2];
    assert s[0] != 'x' || s[0 + 1] != 'x' || s[0 + 2] != 'x';
    forall k | 0 <= k && k + 2 < |b|
      ensures b[k] != 'x' || b[k + 1] != 'x' || b[k + 2] != 'x'
    {
      var m := k + 3;
      assert s[m] != 'x' || s[m + 1] != 'x' || s[m + 2] != 'x';
    }
  }

  /** Reading the cipher text of a stream is reading the stream. */
  lemma {:induction false} CipherRead(t: string, d: Reader, s: string, careful: bool)
    requires IsTable(t) && '\n' !in t && |s| % 3 == 0 && AllSigns(s) && NoXxx(s)
    ensures ReadAll(t, d, Cipher(t, s), careful) == Run(d, s, 0)
    decreases |s|
  {
    if s != "" {
      var a, b := s[..3], s[3..];
      NoXxxSplit(s);
      var e := Run(d, a, 0);
      CipherOneRead(t, d, a, careful);
      CipherRead(t, e, b, careful);
      CipherCons(t, a, b);
      ReadOn(t, d, CipherOne(t, a), Cipher(t, b), e, Run(e, b, 0), careful);
      RunOn(d, a, b, e, Run(e, b, 0));
      assert s == a + b;
    }
  }

  lemma ReadOn(t: string, d: Reader, c: string, rest: string, e: Reader, f: Reader, careful: bool)
    requires |c| == 1 && ReadChar(t, d, c[0], careful) == e && ReadAll(t, e, rest, careful) == f
    ensures ReadAll(t, d, c + rest, careful) == f
  {
    ReadStep(t, d, c, rest, careful);
  }

  lemma RunOn(d: Reader, a: string, b: string, e: Reader, f: Reader)
    requires |a| % 3 == 0 && Run(d, a, 0) == e && Run(e, b, 0) == f
    ensures Run(d, a + b, 0) == f
  {
    RunConcat(d, a, b, 0);
  }

  lemma CipherCons(t: string, a: string, b: string)
    requires |t| == 26 && |a| == 3
    ensures Cipher(t, a + b) == CipherOne(t, a) + Cipher(t, b)
  {
    assert (a + b)[..3] == a && (a + b)[3..] == b;
  }

  lemma ReadStep(t: string, d: Reader, c: string, rest: string, careful: bool)
    requires |c| == 1
    ensures ReadAll(t, d, c + rest, careful) == ReadAll(t, ReadChar(t, d, c[0], careful), rest, careful)
  {
    assert (c + rest)[0] == c[0] && (c + rest)[1..] == rest;
  }

  /** A group of signs is printed as the character that has it for its code; if there is none the program fails. */
  lemma GroupRead(out: string, group: string, gap: bool, c: char, careful: bool)
    requires group != "" && forall k :: 0 <= k < |group| ==> group[k] != 'x'
    ensures Encodable(c) && Code(c) == group ==>
              ReadSign(Reader(out, group, gap, true), 'x')
              == Reader(out + (if gap then " " else "") + [c], "", false, true)
    ensures (forall d :: Encodable(d) ==> Code(d) != group) ==>
              !ReadSign(Reader(out, group, gap, true), 'x').ok && !EndLine(Reader(out, group, gap, true), careful).ok
  {
    if Encodable(c) && Code(c) == group {
      RunLetterEnd(Reader(out, group, gap, true), c, 1);
      OneSign(Reader(out, group, gap, true), 1);
    }
    var i := LetterFrom(group, 0);
    if i < SEARCHED {
      var d := ('!' as int + i) as char;
      assert d as int - '!' as int == i && Encodable(d) && Code(d) == group;
    }
  }

  // ---------- the signs of a line ----------

  predicate Lettered(items: seq<Item>) {
    forall k :: 0 <= k < |items| ==> Encodable(items[k].letter)
  }

  /** No three separators in a row, and none at the end. */
  predicate Shaped(s: string) {
    AllSigns(s) && NoXxx(s) && (s != "" ==> s[|s| - 1] != 'x')
  }

  lemma CodeShape(c: char)
    requires Encodable(c)
    ensures Shaped(Code(c)) && Code(c) != "" && forall k :: 0 <= k < |Code(c)| ==> Code(c)[k] != 'x'
  {
    LetterFound(c);
  }

  lemma XsShape(a: string, n: nat)
    requires Shaped(a) && n <= 2
    ensures AllSigns(a + Xs(n)) && NoXxx(a + Xs(n))
  {
    var s := a + Xs(n);
    forall k | 0 <= k && k + 2 < |s|
      ensures s[k] != 'x' || s[k + 1] != 'x' || s[k + 2] != 'x'
    {
      if k + 2 < |a| {
        assert a[k] != 'x' || a[k + 1] != 'x' || a[k + 2] != 'x';
      } else {
        assert s[|a| - 1] != 'x' && k <= |a| - 1 <= k + 2;
      }
    }
  }

  lemma JoinShape(a: string, n: nat, b: string)
    requires Shaped(a) && n <= 2 && AllSigns(b) && b != "" && forall k :: 0 <= k < |b| ==> b[k] != 'x'
    ensures Shaped(a + Xs(n) + b)
  {
    XsShape(a, n);
    var u := a + Xs(n);
    var s := u + b;
    forall k | 0 <= k && k + 2 < |s|
      ensures s[k] != 'x' || s[k + 1] != 'x' || s[k + 2] != 'x'
    {
      if k + 2 < |u| {
        assert u[k] != 'x' || u[k + 1] != 'x' || u[k + 2] != 'x';
      } else {
        assert s[k + 2] == b[k + 2 - |u|];
      }
    }
  }

  lemma {:induction false} CoreShape(items: seq<Item>)
    requires Lettered(items)
    ensures Shaped(Core(items)) && (items != [] ==> Core(items) != "")
  {
    if items != [] {
      var n := |items| - 1;
      CodeShape(items[n].letter);
      CoreShape(items[..n]);
      var k := if n == 0 then 0 else if items[n].gap then 2 else 1;
      JoinShape(Core(items[..n]), k, Code(items[n].letter));
      assert Core(items) == Core(items[..n]) + Xs(k) + Code(items[n].letter) by {
        assert Xs(2) == "xx" && Xs(1) == "x" && Core(items[..n]) + Xs(0) == Core(items[..n]);
      }
    }
  }

  /** A cipher letter begins within n signs from phase k. */
  predicate Hits(n: nat, k: nat) {
    n > 0 && (k == 0 || k + n > 3)
  }

  lemma {:induction false} RunCode(d: Reader, s: string, k: nat)
    requires d.ok && k < 3 && forall j :: 0 <= j < |s| ==> s[j] != 'x'
    ensures Run(d, s, k) ==
            Reader(d.out + (if d.gap && Hits(|s|, k) then " " else ""), d.signs + s, d.gap && !Hits(|s|, k), true)
    decreases |s|
  {
    if s == "" {
      assert d.out + "" == d.out && d.signs + s == d.signs;
    } else {
      var e := ReadSign(if k == 0 then PrintGap(d) else d, s[0]);
      RunCode(e, s[1..], (k + 1) % 3);
      assert d.signs + [s[0]] + s[1..] == d.signs + s;
      assert e.out + "" == e.out;
    }
  }

  lemma OneSign(d: Reader, k: nat)
    requires d.ok
    ensures Run(d, "x", k) == ReadSign(if k == 0 then PrintGap(d) else d, 'x')
  {
    assert "x"[1..] == "";
  }

  /** A separator after a letter prints it, with the gap before it if that is still waiting. */
  lemma RunLetterEnd(d: Reader, c: char, k: nat)
    requires d.ok && Encodable(c) && d.signs == Code(c)
    ensures Run(d, "x", k) == Reader(d.out + (if d.gap then " " else "") + [c], "", false, true)
  {
    OneSign(d, k);
    LetterFound(c);
    NoMore(d.out);
    var g := PrintGap(d);
    assert g.out == d.out + if d.gap then " " else "";
    LetterPrinted(g, c, LetterFrom(g.signs, 0));
  }

  lemma LetterPrinted(g: Reader, c: char, i: nat)
    requires i == LetterFrom(g.signs, 0) == c as int - '!' as int && i < SEARCHED
    ensures PrintLetter(g) == g.(out := g.out + [c], signs := "")
  {
    assert ('!' as int + i) as char == c;
  }

  lemma RunGap(d: Reader, k: nat)
    requires d.ok && d.signs == "" && !d.gap
    ensures Run(d, "x", k) == d.(gap := true)
  {
    OneSign(d, k);
  }
}
