/** Texts that begin with a blank or a newline: the program puts a separator on the stream for it and goes on as if
    a letter had stood there. */
module MorseLead {
  import opened MorseTables
  import opened MorseCodec
  import opened Sequences
  import opened MorseEncode
  import opened MorseDecode
  import opened MorseRoundTrip

  // ---------- a line behind such a separator ----------

  /** The line begins with a letter. */
  predicate Starts(line: string) {
    line != "" && !Blank(line[0])
  }

  function LedStream(line: string): string {
    "xx" + Core(Items(line, true))
  }

  function CipherLed(t: string, line: string): string
    requires |t| == 26
  {
    Cipher(t, LedStream(line) + Xs(Padding(|LedStream(line)|)))
  }

  /** The gap before the last letter gets lost, the one before the first if there is but one. */
  predicate LedSwallowed(line: string) {
    var items := Items(line, true);
    && items != [] && items[|items| - 1].gap
    && |Code(items[|items| - 1].letter)| <= 2 && |LedStream(line)| % 3 == 0
  }

  /** What comes back for a line behind a separator: a space before it, and the line. */
  function ShownLed(line: string, careful: bool): string {
    var items := Items(line, true);
    var n := |items| - 1;
    if careful || !LedSwallowed(line) then " " + Squeezed(items)
    else (if n == 0 then "" else " " + Squeezed(items[..n])) + [items[n].letter]
  }

  // ---------- the same line behind a word of three signs ----------

  /** S, a gap, and the line: its signs are those of the led line behind one triple. */
  function Behind(items: seq<Item>): seq<Item> { [Item(false, 'S')] + items }

  lemma BehindItems(line: string)
    requires Starts(line)
    ensures Items("S " + line, false) == Behind(Items(line, true))
    ensures Items(line, true) != [] && Items(line, true)[0] == Item(true, line[0])
  {
    var s := "S " + line;
    assert s[0] == 'S' && s[1..] == " " + line;
    assert (" " + line)[0] == ' ' && (" " + line)[1..] == line;
  }

  lemma {:induction false} BehindCore(items: seq<Item>)
    requires items != [] && items[0].gap
    ensures Core(Behind(items)) == "..." + ("xx" + Core(items))
    decreases |items|
  {
    var n := |items| - 1;
    assert Behind(items) == Behind(items[..n]) + [items[n]] && items == items[..n] + [items[n]];
    if n == 0 {
      assert Behind([]) == [Item(false, 'S')] && items[..0] == [];
      BehindFirst(items[0]);
    } else {
      BehindCore(items[..n]);
      BehindNext(Behind(items[..n]), items[..n], items[n]);
    }
  }

  lemma BehindFirst(i: Item)
    requires i.gap
    ensures Core([Item(false, 'S')] + [i]) == "..." + ("xx" + Core([] + [i]))
  {
    CoreAppend([Item(false, 'S')], i);
    CoreAppend([], i);
    OneItem();
    NoMore(Code(i.letter));
    Assoc("...", "xx", Code(i.letter));
  }

  lemma BehindNext(before: seq<Item>, items: seq<Item>, i: Item)
    requires before != [] && items != [] && Core(before) == "..." + ("xx" + Core(items))
    ensures Core(before + [i]) == "..." + ("xx" + Core(items + [i]))
  {
    CoreAppend(before, i);
    CoreAppend(items, i);
    Append5("...", "xx", Core(items), if i.gap then "xx" else "x", Code(i.letter));
  }

  lemma OneItem()
    ensures Core([Item(false, 'S')]) == "..." && Squeezed([Item(false, 'S')]) == "S"
  {
    assert [Item(false, 'S')][..0] == [];
  }

  lemma SqueezedAppend(items: seq<Item>, i: Item)
    ensures Squeezed(items + [i]) == Squeezed(items) + (if items != [] && i.gap then " " else "") + [i.letter]
  {
    assert (items + [i])[..|items|] == items;
  }

  lemma {:induction false} BehindSqueezed(items: seq<Item>)
    requires items != [] && items[0].gap
    ensures Squeezed(Behind(items)) == "S" + (" " + Squeezed(items))
    decreases |items|
  {
    var n := |items| - 1;
    var i, before := items[n], Behind(items[..n]);
    assert Behind(items) == before + [i] && items == items[..n] + [i];
    SqueezedAppend(before, i);
    SqueezedAppend(items[..n], i);
    if n == 0 {
      assert before == [Item(false, 'S')];
      OneItem();
      assert Squeezed([]) + "" + [i.letter] == [i.letter];
      Assoc("S", " ", [i.letter]);
    } else {
      BehindSqueezed(items[..n]);
      Append5("S", " ", Squeezed(items[..n]), if i.gap then " " else "", [i.letter]);
    }
  }

  lemma Append5(a: string, b: string, c: string, d: string, e: string)
    ensures a + (b + c) + d + e == a + (b + (c + d + e))
  {
  }

  lemma Cancel(a: string, b: string, c: string)
    requires a + b == a + c
    ensures b == c
  {
    assert b == (a + b)[|a|..] && c == (a + c)[|a|..];
  }

  // ---------- enciphering ----------

  /** A triple at the front of the stream is printed first. */
  lemma {:induction false} TripleOff(t: string, a: string, s: string, last: bool, rest: string)
    requires |t| == 26 && |a| == 3
    ensures EncipherFrom(t, a + s, last, rest) == Cipher(t, a) + EncipherFrom(t, s, last, rest)
    decreases |rest|
  {
    if rest == "" {
      CipherConcat(t, a, s);
    } else {
      var c := rest[0];
      if !Plain(c) {
        CipherConcat(t, a, if last then s else s + "x");
        Assoc(a, s, "x");
      } else {
        var e := Emit(last, c);
        Assoc(a, s, e);
        if c == '\n' {
          CipherConcat(t, a, s + e);
          Assoc(Cipher(t, a), Cipher(t, s + e), "\n");
          Assoc(Cipher(t, a), Cipher(t, s + e) + "\n", EncipherFrom(t, "", true, rest[1..]));
        } else {
          TripleOff(t, a, s + e, Blank(c), rest[1..]);
        }
      }
    }
  }

  lemma StreamBehind()
    ensures Stream("S ") == "...xx"
  {
    assert "S "[0] == 'S' && "S "[1..] == " " && " "[0] == ' ' && " "[1..] == "";
    assert Items("S ", false) == [Item(false, 'S')] && [Item(false, 'S')][..0] == [];
    assert Core([Item(false, 'S')]) == "...";
  }

  lemma CipherBehind(t: string, line: string)
    requires |t| == 26 && Starts(line)
    ensures CipherLine(t, "S " + line) == Cipher(t, "...") + CipherLed(t, line)
  {
    BehindItems(line);
    BehindCore(Items(line, true));
    CipherTriple(t, "...", LedStream(line));
  }

  lemma CipherTriple(t: string, a: string, s: string)
    requires |t| == 26 && |a| == 3
    ensures Cipher(t, (a + s) + Xs(Padding(|a + s|))) == Cipher(t, a) + Cipher(t, s + Xs(Padding(|s|)))
  {
    PaddedTriple(a, s);
    CipherConcat(t, a, s + Xs(Padding(|s|)));
  }

  lemma PaddedTriple(a: string, s: string)
    requires |a| == 3
    ensures (a + s) + Xs(Padding(|a + s|)) == a + (s + Xs(Padding(|s|)))
  {
    assert Padding(|a + s|) == Padding(|s|);
    Assoc(a, s, Xs(Padding(|s|)));
  }

  /** A line whose first letter follows the separator. */
  lemma LedFrom(t: string, line: string, rest: string)
    requires |t| == 26 && IsLine(line) && Starts(line)
    ensures EncipherFrom(t, "x", false, line + "\n" + rest) == CipherLed(t, line) + "\n" + EncipherFrom(t, "", true, rest)
  {
    var todo := line + "\n" + rest;
    var c := line[0];
    assert todo[0] == c && Plain(c) && c != '\n' && !Blank(c);
    TripleOff(t, "...", "x", false, todo);
    assert "..." + "x" + Emit(false, c) == "...xx" + Emit(true, c);
    assert "..." + "x" == "...x" && "...x" + Emit(false, c) == "...xx" + Code(c);
    StreamBehind();
    LineFrom(t, "S ", line, rest);
    CipherBehind(t, line);
    LedSplit(Cipher(t, "..."), CipherLed(t, line), "\n", EncipherFrom(t, "", true, rest));
    Cancel(Cipher(t, "..."), EncipherFrom(t, "x", false, todo),
           CipherLed(t, line) + "\n" + EncipherFrom(t, "", true, rest));
  }

  lemma LedSplit(a: string, b: string, c: string, d: string)
    ensures (a + b) + c + d == a + (b + c + d)
  {
  }

  /** What the program prints for the lines that follow a separator at the start of the text. */
  function CipherAfter(t: string, lines: seq<string>): string
    requires |t| == 26
  {
    if lines != [] && Starts(lines[0]) then CipherLed(t, lines[0]) + "\n" + CipherLines(t, lines[1..])
    else CipherLines(t, lines)
  }

  lemma BlankCore(line: string, g: bool, h: bool)
    ensures Core(Items(line, g)) == Core(Items(line, h)) && Squeezed(Items(line, g)) == Squeezed(Items(line, h))
    ensures Swallowed(Items(line, g)) == Swallowed(Items(line, h))
    ensures Shown(Items(line, g), false) == Shown(Items(line, h), false)
  {
    FirstGap(Items(line, g), Items(line, h));
    SameButGap(line, g, h);
  }

  /** Items that differ at most in the first gap. */
  predicate Alike(a: seq<Item>, b: seq<Item>) {
    |a| == |b| && forall k :: 0 <= k < |a| ==> a[k].letter == b[k].letter && (k > 0 ==> a[k].gap == b[k].gap)
  }

  lemma SameButGap(line: string, g: bool, h: bool)
    ensures Alike(Items(line, g), Items(line, h))
  {
  }

  lemma {:induction false} FirstGap(a: seq<Item>, b: seq<Item>)
    ensures Alike(a, b) ==> Core(a) == Core(b) && Squeezed(a) == Squeezed(b)
    ensures Alike(a, b) && a != [] ==> Squeezed(a[..|a| - 1]) == Squeezed(b[..|b| - 1])
    decreases |a|
  {
    if Alike(a, b) && a != [] {
      FirstGap(a[..|a| - 1], b[..|b| - 1]);
    }
  }

  /** Behind the separator a line end fills up a triple that prints nothing. */
  lemma EmptyFrom(t: string, rest: string)
    requires |t| == 26
    ensures EncipherFrom(t, "x", false, "" + "\n" + rest) == CipherLine(t, "") + "\n" + EncipherFrom(t, "", true, rest)
  {
    var text := "" + "\n" + rest;
    assert text[0] == '\n' && text[1..] == rest;
    CipherXxx(t);
    assert "x" + Emit(false, '\n') == "xxx";
    assert CipherLine(t, "") == "";
  }

  /** So does another blank. */
  lemma BlankFrom(t: string, line: string, rest: string)
    requires |t| == 26 && IsLine(line) && line != "" && Blank(line[0])
    ensures EncipherFrom(t, "x", false, line + "\n" + rest)
         == CipherLine(t, line) + "\n" + EncipherFrom(t, "", true, rest)
  {
    var todo := line[1..] + "\n" + rest;
    BlankStep(t, line, rest);
    CipherXxx(t);
    TripleOff(t, "xxx", "", true, todo);
    NoMore("xxx");
    NoMore(EncipherFrom(t, "", true, todo));
    LineStart(t, line[1..], rest);
    BlankLine(t, line);
  }

  lemma LineStart(t: string, line: string, rest: string)
    requires |t| == 26 && IsLine(line)
    ensures EncipherFrom(t, "", true, line + "\n" + rest) == CipherLine(t, line) + "\n" + EncipherFrom(t, "", true, rest)
  {
    LineFrom(t, "", line, rest);
    NoMore(line);
  }

  lemma BlankLine(t: string, line: string)
    requires |t| == 26 && line != "" && Blank(line[0])
    ensures CipherLine(t, line) == CipherLine(t, line[1..])
  {
    BlankCore(line[1..], true, false);
  }

  lemma BlankStep(t: string, line: string, rest: string)
    requires |t| == 26 && line != "" && Blank(line[0])
    ensures EncipherFrom(t, "x", false, line + "\n" + rest) == EncipherFrom(t, "xxx", true, line[1..] + "\n" + rest)
  {
    var text := line + "\n" + rest;
    assert text[0] == line[0] && text[1..] == line[1..] + "\n" + rest;
    assert "x" + Emit(false, line[0]) == "xxx";
  }

  lemma AfterFrom(t: string, lines: seq<string>)
    requires |t| == 26 && lines != [] && forall k :: 0 <= k < |lines| ==> IsLine(lines[k])
    ensures EncipherFrom(t, "x", false, Unlines(lines)) == CipherAfter(t, lines)
  {
    var line, rest := lines[0], Unlines(lines[1..]);
    LinesFrom(t, lines[1..]);
    if Starts(line) {
      LedFrom(t, line, rest);
    } else if line == "" {
      EmptyFrom(t, rest);
    } else {
      BlankFrom(t, line, rest);
    }
  }

  // ---------- deciphering ----------

  function Onto(p: string, d: Reader): Reader { d.(out := p + d.out) }

  /** What was printed before has no influence. */
  lemma OntoSign(p: string, d: Reader, c: char, k: nat)
    ensures ReadSign(if k == 0 then PrintGap(Onto(p, d)) else Onto(p, d), c)
         == Onto(p, ReadSign(if k == 0 then PrintGap(d) else d, c))
  {
    Assoc(p, d.out, " ");
    var e := if k == 0 then PrintGap(d) else d;
    assert (if k == 0 then PrintGap(Onto(p, d)) else Onto(p, d)) == Onto(p, e);
    OntoLetter(p, e, c);
  }

  lemma OntoLetter(p: string, e: Reader, c: char)
    ensures ReadSign(Onto(p, e), c) == Onto(p, ReadSign(e, c))
  {
    Assoc(p, e.out, " ");
    OntoPrint(p, PrintGap(e));
  }

  lemma OntoPrint(p: string, e: Reader)
    ensures PrintLetter(Onto(p, e)) == Onto(p, PrintLetter(e))
  {
    var i := LetterFrom(e.signs, 0);
    if i < SEARCHED {
      Assoc(p, e.out, [('!' as int + i) as char]);
    }
  }

  lemma {:induction false} OntoRun(p: string, d: Reader, s: string, k: nat)
    ensures Run(Onto(p, d), s, k) == Onto(p, Run(d, s, k))
    decreases |s|
  {
    if s != "" && d.ok {
      var e := ReadSign(if k == 0 then PrintGap(d) else d, s[0]);
      OntoSign(p, d, s[0], k);
      OntoRun(p, e, s[1..], (k + 1) % 3);
      assert Run(d, s, k) == Run(e, s[1..], (k + 1) % 3);
      assert Run(Onto(p, d), s, k) == Run(Onto(p, e), s[1..], (k + 1) % 3);
    }
  }

  lemma OntoEnd(p: string, d: Reader, careful: bool)
    ensures EndLine(Onto(p, d), careful) == Onto(p, EndLine(d, careful))
  {
    var e := if careful then PrintGap(d) else d;
    Assoc(p, d.out, " ");
    OntoPrint(p, e);
    assert (if careful then PrintGap(Onto(p, d)) else Onto(p, d)) == Onto(p, e);
    var f := if d.signs == "" then d else PrintLetter(e);
    Assoc(p, f.out, "\n");
  }

  /** The signs of a led line, filled up to whole triples. */
  function LedSigns(line: string): string {
    LedStream(line) + Xs(Padding(|LedStream(line)|))
  }

  lemma LedShape(line: string)
    requires IsLine(line) && Starts(line)
    ensures Core(Behind(Items(line, true))) + Xs(Padding(|Core(Behind(Items(line, true)))|)) == "..." + LedSigns(line)
    ensures Lettered(Behind(Items(line, true)))
  {
    ItemsNonEmpty(line, true);
    BehindItems(line);
    BehindCore(Items(line, true));
    PaddedTriple("...", LedStream(line));
  }

  /** Reading two separators from the start leaves a gap waiting. */
  lemma TwoSeparators()
    ensures Run(Reader("", "", false, true), "xx", 0) == Reader("", "", true, true)
  {
    assert "xx"[0] == 'x' && "xx"[1..] == "x" && "x"[0] == 'x' && "x"[1..] == "";
  }

  /** Behind S they print it first. */
  lemma SThenSeparators(d: Reader)
    requires d == Reader("", "", false, true)
    ensures Run(d, "..." + "xx", 0) == Reader("S", "", true, true)
  {
    var items := [Item(false, 'S')];
    RunFirst("", items);
    OneItem();
    assert items[..0] == [] && "" + Squeezed([]) + "" == "";
    RunThrough(d, "...", Reader("", "...", false, true), 'S', true);
    assert "" + "" + ['S'] == "S";
  }

  /** What has been printed before apart, signs read the same from the same state and phase. */
  lemma SameAfter(d: Reader, a: string, b: string, g: Reader, p: string, v: string, careful: bool)
    requires Run(d, a, 0) == g && Run(d, b, 0) == Onto(p, g) && |a| % 3 == |b| % 3
    ensures Run(d, b + v, 0) == Onto(p, Run(d, a + v, 0))
    ensures EndLine(Run(d, b + v, 0), careful) == Onto(p, EndLine(Run(d, a + v, 0), careful))
  {
    var k := |a| % 3;
    RunThen(d, a, g, v, Run(g, v, k));
    OntoRun(p, g, v, k);
    RunThen(d, b, Onto(p, g), v, Onto(p, Run(g, v, k)));
    OntoEnd(p, Run(g, v, k), careful);
  }

  lemma LedSplits(line: string)
    ensures var v := Core(Items(line, true)) + Xs(Padding(|LedStream(line)|));
            LedSigns(line) == "xx" + v && "..." + LedSigns(line) == ("..." + "xx") + v
  {
    var v := Core(Items(line, true)) + Xs(Padding(|LedStream(line)|));
    Assoc("xx", Core(Items(line, true)), Xs(Padding(|LedStream(line)|)));
    Assoc("...", "xx", v);
  }

  lemma LedRun(line: string, careful: bool)
    requires IsLine(line) && Starts(line)
    ensures var e := Run(Reader("", "", false, true), LedSigns(line), 0);
            e.ok && EndLine(e, careful) == Reader(ShownLed(line, careful) + "\n", "", false, true)
  {
    var v := Core(Items(line, true)) + Xs(Padding(|LedStream(line)|));
    var d := Reader("", "", false, true);
    LedShape(line);
    RunLine("", Behind(Items(line, true)), careful);
    LedSplits(line);
    TwoSeparators();
    SThenSeparators(d);
    SameAfter(d, "xx", "..." + "xx", Reader("", "", true, true), "S", v, careful);
    LedShown(line, careful);
    LedEnds(Run(d, LedSigns(line), 0), line, careful);
  }

  lemma LedEnds(e: Reader, line: string, careful: bool)
    requires Onto("S", EndLine(e, careful)) == Reader("S" + (ShownLed(line, careful) + "\n"), "", false, true)
    ensures EndLine(e, careful) == Reader(ShownLed(line, careful) + "\n", "", false, true)
  {
    Cancel("S", EndLine(e, careful).out, ShownLed(line, careful) + "\n");
  }

  lemma BehindEnds(items: seq<Item>)
    requires items != []
    ensures var all := Behind(items);
            all[|all| - 1] == items[|items| - 1] && all[..|all| - 1] == Behind(items[..|items| - 1])
  {
  }

  lemma BehindParts(line: string)
    requires Starts(line)
    ensures var items := Items(line, true);
            items != [] && Squeezed(Behind(items)) == "S" + (" " + Squeezed(items))
            && (Swallowed(Behind(items)) <==> LedSwallowed(line))
  {
    var items := Items(line, true);
    BehindItems(line);
    BehindCore(items);
    BehindSqueezed(items);
    BehindEnds(items);
    assert |Core(Behind(items))| == 3 + |LedStream(line)|;
  }

  /** The line but for its last item, behind S. */
  lemma BehindFront(items: seq<Item>)
    requires items != [] && items[0].gap
    ensures Squeezed(Behind(items[..|items| - 1])) ==
            "S" + if |items| == 1 then "" else " " + Squeezed(items[..|items| - 1])
  {
    if |items| == 1 {
      assert Behind(items[..0]) == [Item(false, 'S')];
      OneItem();
      NoMore("S");
    } else {
      BehindSqueezed(items[..|items| - 1]);
    }
  }

  lemma LedShown(line: string, careful: bool)
    requires Starts(line)
    ensures "" + Shown(Behind(Items(line, true)), careful) + "\n" == "S" + (ShownLed(line, careful) + "\n")
  {
    var items := Items(line, true);
    BehindItems(line);
    BehindParts(line);
    BehindEnds(items);
    if !careful && LedSwallowed(line) {
      BehindFront(items);
      Assoc("S", if |items| == 1 then "" else " " + Squeezed(items[..|items| - 1]), [items[|items| - 1].letter]);
    }
    assert Shown(Behind(items), careful) == "S" + ShownLed(line, careful);
    Assoc("S", ShownLed(line, careful), "\n");
    NoMore(Shown(Behind(items), careful));
  }

  lemma LedSignsShape(line: string)
    requires IsLine(line) && Starts(line)
    ensures |LedSigns(line)| % 3 == 0 && AllSigns(LedSigns(line)) && NoXxx(LedSigns(line))
  {
    LedShape(line);
    PaddedSigns(Behind(Items(line, true)));
    SuffixShape("...", LedSigns(line));
    PaddedWhole(|LedStream(line)|);
  }

  lemma PaddedSigns(items: seq<Item>)
    requires Lettered(items)
    ensures AllSigns(Core(items) + Xs(Padding(|Core(items)|))) && NoXxx(Core(items) + Xs(Padding(|Core(items)|)))
  {
    CoreShape(items);
    XsShape(Core(items), Padding(|Core(items)|));
  }

  lemma PaddedWhole(n: nat)
    ensures (n + Padding(n)) % 3 == 0
  {
  }

  lemma SuffixShape(a: string, b: string)
    requires AllSigns(a + b) && NoXxx(a + b)
    ensures AllSigns(b) && NoXxx(b)
  {
    var s := a + b;
    forall k | 0 <= k && k + 2 < |b| ensures b[k] != 'x' || b[k + 1] != 'x' || b[k + 2] != 'x' {
      assert s[k + |a|] == b[k] && s[k + |a| + 1] == b[k + 1] && s[k + |a| + 2] == b[k + 2];
    }
    forall k | 0 <= k < |b| ensures IsSign(b[k]) {
      assert s[k + |a|] == b[k];
    }
  }

  lemma LedRead(t: string, line: string, rest: string, careful: bool)
    requires IsTable(t) && '\n' !in t && IsLine(line) && Starts(line)
    ensures ReadAll(t, START, CipherLed(t, line) + "\n" + rest, careful)
         == ReadAll(t, Reader(ShownLed(line, careful) + "\n", "", false, true), rest, careful)
  {
    LedSignsShape(line);
    CipherRead(t, START, LedSigns(line), careful);
    LedRun(line, careful);
    ReadLineEnd(t, START, CipherLed(t, line), rest, careful);
  }
}
