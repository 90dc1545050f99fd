/** Decipher after encipher: the round trip of the cipher, and exactly when the program as written completes it. */
module MorseRoundTrip {
  import opened MorseTables
  import opened MorseCodec
  import opened Sequences
  import opened MorseEncode
  import opened MorseDecode

  /** The last letter is read but not printed yet; g says whether a gap before it waits too. */
  function LastRead(out: string, items: seq<Item>, g: bool): Reader
    requires items != []
  {
    var n := |items| - 1;
    var space := if n > 0 && items[n].gap && !g then " " else "";
    Reader(out + Squeezed(items[..n]) + space, Code(items[n].letter), g, true)
  }

  /** A gap before the last letter still waits at its last sign: the letter lies within one cipher letter,
      behind the gap's separator. */
  predicate GapWaits(items: seq<Item>) {
    && |items| > 1 && items[|items| - 1].gap
    && var m := |Code(items[|items| - 1].letter)|; !Hits(m, (|Core(items)| - m) % 3)
  }

  lemma CoreLast(items: seq<Item>)
    requires |items| > 1
    ensures var n := |items| - 1;
            Core(items) == Core(items[..n]) + (if items[n].gap then "xx" else "x") + Code(items[n].letter)
  {
  }

  lemma Regroup5(a: string, b: string, x: string, y: string, c: string)
    ensures a + b + x + y + c == a + (b + (x + y) + c)
  {
    assert b + (x + y) + c == b + x + y + c;
  }

  lemma SqueezedLast(out: string, items: seq<Item>, g: bool)
    requires items != [] && (g ==> |items| > 1 && items[|items| - 1].gap)
    ensures LastRead(out, items, g).out + (if g then " " else "") + [items[|items| - 1].letter] == out + Squeezed(items)
  {
    var n := |items| - 1;
    var space := if n > 0 && items[n].gap && !g then " " else "";
    var late := if g then " " else "";
    assert space + late == if n > 0 && items[n].gap then " " else "";
    Regroup5(out, Squeezed(items[..n]), space, late, [items[n].letter]);
  }

  /** Separators between two letters: the first letter is printed, and two of them leave a gap waiting. */
  lemma RunSeparator(d: Reader, c: char, two: bool, k: nat)
    requires d.ok && Encodable(c) && d.signs == Code(c) && k < 3
    ensures Run(d, if two then "xx" else "x", k) == Reader(d.out + (if d.gap then " " else "") + [c], "", two, true)
  {
    RunLetterEnd(d, c, k);
    if two {
      RunConcat(d, "x", "x", k);
      assert "x" + "x" == "xx";
      RunGap(Run(d, "x", k), (k + 1) % 3);
    }
  }

  lemma {:induction false} RunCore(out: string, items: seq<Item>)
    requires items != [] && Lettered(items)
    ensures Run(Reader(out, "", false, true), Core(items), 0) == LastRead(out, items, GapWaits(items))
    decreases |items|
  {
    if |items| == 1 {
      RunFirst(out, items);
    } else {
      RunCore(out, items[..|items| - 1]);
      RunToLast(out, items);
      RunLast(out, items);
    }
  }

  lemma RunFirst(out: string, items: seq<Item>)
    requires |items| == 1 && Lettered(items)
    ensures Run(Reader(out, "", false, true), Core(items), 0) == LastRead(out, items, false)
  {
    var c := items[0].letter;
    CodeShape(c);
    RunCode(Reader(out, "", false, true), Code(c), 0);
    assert "" + Code(c) == Code(c) && items[..0] == [];
    assert out + Squeezed([]) + "" == out + "";
  }

  /** The separators before the last letter. */
  function LastGap(items: seq<Item>): string
    requires items != []
  {
    if items[|items| - 1].gap then "xx" else "x"
  }

  lemma RunThrough(d: Reader, s: string, e: Reader, c: char, two: bool)
    requires Run(d, s, 0) == e && e.ok && Encodable(c) && e.signs == Code(c)
    ensures Run(d, s + (if two then "xx" else "x"), 0) == Reader(e.out + (if e.gap then " " else "") + [c], "", two, true)
  {
    RunSeparator(e, c, two, |s| % 3);
    RunThen(d, s, e, if two then "xx" else "x", Reader(e.out + (if e.gap then " " else "") + [c], "", two, true));
  }

  lemma RunThen(d: Reader, a: string, e: Reader, b: string, f: Reader)
    requires Run(d, a, 0) == e && Run(e, b, |a| % 3) == f
    ensures Run(d, a + b, 0) == f
  {
    RunConcat(d, a, b, 0);
  }

  lemma RunToLast(out: string, items: seq<Item>)
    requires |items| > 1 && Lettered(items)
    requires var init := items[..|items| - 1];
             Run(Reader(out, "", false, true), Core(init), 0) == LastRead(out, init, GapWaits(init))
    ensures Run(Reader(out, "", false, true), Core(items[..|items| - 1]) + LastGap(items), 0)
         == Reader(out + Squeezed(items[..|items| - 1]), "", items[|items| - 1].gap, true)
  {
    var init := items[..|items| - 1];
    var g := GapWaits(init);
    SqueezedLast(out, init, g);
    RunThrough(Reader(out, "", false, true), Core(init), LastRead(out, init, g),
               init[|init| - 1].letter, items[|items| - 1].gap);
  }

  lemma RunOnto(d: Reader, s: string, e: Reader, c: char, g: bool)
    requires Run(d, s, 0) == e && e.ok && Encodable(c) && e.signs == "" && g == (e.gap && !Hits(|Code(c)|, |s| % 3))
    ensures Run(d, s + Code(c), 0) == Reader(e.out + (if e.gap && !g then " " else ""), Code(c), g, true)
  {
    CodeShape(c);
    var k := |s| % 3;
    RunConcat(d, s, Code(c), 0);
    assert Run(d, s + Code(c), 0) == Run(e, Code(c), k);
    RunCode(e, Code(c), k);
    assert e.signs + Code(c) == Code(c);
    assert (e.gap && Hits(|Code(c)|, k)) == (e.gap && !g);
  }

  lemma GapWaitsFrom(items: seq<Item>)
    requires |items| > 1
    ensures var before := Core(items[..|items| - 1]) + LastGap(items);
            Core(items) == before + Code(items[|items| - 1].letter) &&
            (GapWaits(items) <==> items[|items| - 1].gap && !Hits(|Code(items[|items| - 1].letter)|, |before| % 3))
  {
    CoreLast(items);
    var before := Core(items[..|items| - 1]) + LastGap(items);
    assert |Core(items)| - |Code(items[|items| - 1].letter)| == |before|;
  }

  lemma RunLast(out: string, items: seq<Item>)
    requires |items| > 1 && Lettered(items)
    requires Run(Reader(out, "", false, true), Core(items[..|items| - 1]) + LastGap(items), 0)
          == Reader(out + Squeezed(items[..|items| - 1]), "", items[|items| - 1].gap, true)
    ensures Run(Reader(out, "", false, true), Core(items), 0) == LastRead(out, items, GapWaits(items))
  {
    var n := |items| - 1;
    GapWaitsFrom(items);
    RunOnto(Reader(out, "", false, true), Core(items[..n]) + LastGap(items),
            Reader(out + Squeezed(items[..n]), "", items[n].gap, true), items[n].letter, GapWaits(items));
  }

  // ---------- the end of a line ----------

  /** The gap before the last letter gets lost: that letter alone is the last word, its code has one or two
      signs, and the line's signs fill the triples exactly. */
  predicate Swallowed(items: seq<Item>) {
    && |items| > 1 && items[|items| - 1].gap
    && |Code(items[|items| - 1].letter)| <= 2 && |Core(items)| % 3 == 0
  }

  /** What comes back for a line. */
  function Shown(items: seq<Item>, careful: bool): string {
    if !careful && Swallowed(items) then Squeezed(items[..|items| - 1]) + [items[|items| - 1].letter] else Squeezed(items)
  }

  lemma SwallowedWaits(items: seq<Item>)
    requires Lettered(items) && items != [] && |Core(items)| % 3 == 0
    ensures Swallowed(items) <==> GapWaits(items)
  {
    CodeShape(items[|items| - 1].letter);
    CoreShape(items);
    if |items| > 1 {
      CoreLast(items);
      WaitsWithin(|Code(items[|items| - 1].letter)|, |Core(items)|);
    }
  }

  lemma WaitsWithin(m: nat, n: nat)
    requires 1 <= m <= n && n % 3 == 0
    ensures !Hits(m, (n - m) % 3) <==> m <= 2
  {
  }

  lemma RunPadded(out: string, items: seq<Item>, careful: bool)
    requires Lettered(items) && items != []
    ensures EndLine(Run(Reader(out, "", false, true), Core(items) + Xs(Padding(|Core(items)|)), 0), careful)
         == Reader(out + Shown(items, careful) + "\n", "", false, true)
  {
    var g := GapWaits(items);
    RunCore(out, items);
    SqueezedLast(out, items, g);
    if |Core(items)| % 3 == 0 {
      SwallowedWaits(items);
      ShownLate(out, items, g, careful);
      EndUnread(Reader(out, "", false, true), Core(items), LastRead(out, items, g), items[|items| - 1].letter, careful);
    } else {
      EndPrinted(Reader(out, "", false, true), Core(items), LastRead(out, items, g), items[|items| - 1].letter, careful);
    }
  }

  lemma ShownLate(out: string, items: seq<Item>, g: bool, careful: bool)
    requires items != [] && (g <==> Swallowed(items))
    ensures LastRead(out, items, g).out + (if careful && g then " " else "") + [items[|items| - 1].letter]
         == out + Shown(items, careful)
  {
    SqueezedLast(out, items, g);
    if g && !careful {
      Regroup5(out, Squeezed(items[..|items| - 1]), "", "", [items[|items| - 1].letter]);
      assert Squeezed(items[..|items| - 1]) + ("" + "") == Squeezed(items[..|items| - 1]);
    }
  }

  lemma PaddingXs(n: nat)
    ensures Xs(Padding(n)) == if n % 3 == 0 then "" else if n % 3 == 1 then "xx" else "x"
  {
  }

  /** At least one separator after the last letter survives and prints it. */
  lemma EndPrinted(d: Reader, s: string, e: Reader, c: char, careful: bool)
    requires Run(d, s, 0) == e && e.ok && Encodable(c) && e.signs == Code(c) && |s| % 3 != 0
    ensures EndLine(Run(d, s + Xs(Padding(|s|)), 0), careful)
         == Reader(e.out + (if e.gap then " " else "") + [c] + "\n", "", false, true)
  {
    RunThrough(d, s, e, c, |s| % 3 == 1);
    PaddingXs(|s|);
  }

  /** The line ends on the last sign of its last letter, which the line end prints. */
  lemma EndUnread(d: Reader, s: string, e: Reader, c: char, careful: bool)
    requires Run(d, s, 0) == e && e.ok && Encodable(c) && e.signs == Code(c) && |s| % 3 == 0
    ensures EndLine(Run(d, s + Xs(Padding(|s|)), 0), careful)
         == Reader(e.out + (if careful && e.gap then " " else "") + [c] + "\n", "", false, true)
  {
    PaddingXs(|s|);
    NoMore(s);
    EndLetter(e, c, careful);
  }

  lemma EndLetter(e: Reader, c: char, careful: bool)
    requires e.ok && Encodable(c) && e.signs == Code(c)
    ensures EndLine(e, careful) == Reader(e.out + (if careful && e.gap then " " else "") + [c] + "\n", "", false, true)
  {
    LetterFound(c);
    NoMore(e.out);
    var g := if careful then PrintGap(e) else e;
    assert g.out == e.out + if careful && e.gap then " " else "";
    LetterPrinted(g, c, LetterFrom(g.signs, 0));
  }

  // ---------- squeezing ----------

  /** The gap before a line's first letter does not matter. */
  function Trimmed(items: seq<Item>): seq<Item> {
    if items == [] then [] else [Item(false, items[0].letter)] + items[1..]
  }

  lemma TrimmedLast(items: seq<Item>)
    requires |items| > 1
    ensures Trimmed(items) == Trimmed(items[..|items| - 1]) + [items[|items| - 1]]
  {
    var init := items[..|items| - 1];
    assert init[0] == items[0];
    assert items[1..] == init[1..] + [items[|items| - 1]];
  }

  lemma SqueezedOne(items: seq<Item>, i: Item)
    requires items != []
    ensures Squeezed(items + [i]) == Squeezed(items) + (if i.gap then " " else "") + [i.letter]
  {
    assert (items + [i])[..|items|] == items;
  }

  lemma {:induction false} SqueezedTrimmed(items: seq<Item>)
    ensures Squeezed(Trimmed(items)) == Squeezed(items)
    decreases |items|
  {
    if |items| > 1 {
      var n := |items| - 1;
      SqueezedTrimmed(items[..n]);
      TrimmedLast(items);
      SqueezedOne(Trimmed(items[..n]), items[n]);
    }
  }

  /** A squeezed line reads as the same letters with the same gaps. */
  lemma {:induction false} SqueezedReads(items: seq<Item>)
    requires Lettered(items)
    ensures Items(Squeezed(items), false) == Trimmed(items)
    ensures items != [] ==> Squeezed(items) != "" && !AfterBlank(Squeezed(items))
    decreases |items|
  {
    if items != [] {
      var n := |items| - 1;
      SqueezedReads(items[..n]);
      if n == 0 {
        FirstLetter(items);
      } else {
        LetterAfter(Squeezed(items[..n]), items[n].gap, items[n].letter);
        TrimmedLast(items);
      }
    }
  }

  lemma FirstLetter(items: seq<Item>)
    requires |items| == 1 && !Blank(items[0].letter)
    ensures Squeezed(items) == [items[0].letter] && Items(Squeezed(items), false) == Trimmed(items)
  {
    var c := items[0].letter;
    assert items[..0] == [] && Squeezed([]) == "";
    assert [c][1..] == "";
  }

  lemma LetterAfter(s: string, gap: bool, c: char)
    requires s != "" && !AfterBlank(s) && !Blank(c)
    ensures var more := s + (if gap then " " else "") + [c];
            Items(more, false) == Items(s, false) + [Item(gap, c)] && !AfterBlank(more)
  {
    if gap {
      ItemsAppend(s, false, ' ');
      ItemsAppend(s + " ", false, c);
      assert AfterBlank(s + " ");
      assert Items(s, false) + [] == Items(s, false);
    } else {
      NoMore(s);
      ItemsAppend(s, false, c);
    }
  }

  /** Squeezing a squeezed line changes nothing: it has no blank at either end and none beside another. */
  lemma SqueezedTwice(line: string)
    requires IsLine(line)
    ensures var s := Squeezed(Items(line, false)); Squeezed(Items(s, false)) == s && IsLine(s)
    ensures var s := Squeezed(Items(line, false)); Items(s, false) == Trimmed(Items(line, false))
  {
    ItemsLettered(line);
    SqueezedReads(Items(line, false));
    SqueezedTrimmed(Items(line, false));
    SqueezedLine(Items(line, false));
  }

  lemma {:induction false} SqueezedLine(items: seq<Item>)
    requires Lettered(items)
    ensures IsLine(Squeezed(items))
    decreases |items|
  {
    if items != [] {
      SqueezedLine(items[..|items| - 1]);
    }
  }

  // ---------- whole texts ----------

  /** What comes back for the lines of a text. */
  function ShownLines(lines: seq<string>, careful: bool): string {
    if lines == [] then "" else Shown(Items(lines[0], false), careful) + "\n" + ShownLines(lines[1..], careful)
  }

  function SqueezedLines(lines: seq<string>): string {
    if lines == [] then "" else Squeezed(Items(lines[0], false)) + "\n" + SqueezedLines(lines[1..])
  }

  lemma ItemsLettered(line: string)
    requires IsLine(line)
    ensures Lettered(Items(line, false))
  {
    ItemsNonEmpty(line, false);
  }

  lemma LineRead(t: string, out: string, line: string, rest: string, careful: bool)
    requires IsTable(t) && '\n' !in t && IsLine(line)
    ensures ReadAll(t, Reader(out, "", false, true), CipherLine(t, line) + "\n" + rest, careful)
         == ReadAll(t, Reader(out + Shown(Items(line, false), careful) + "\n", "", false, true), rest, careful)
  {
    var items := Items(line, false);
    ItemsLettered(line);
    RunLine(out, items, careful);
    LineRun(t, Reader(out, "", false, true), items, careful);
    ReadLineEnd(t, Reader(out, "", false, true), CipherLine(t, line), rest, careful);
  }

  lemma LineRun(t: string, d: Reader, items: seq<Item>, careful: bool)
    requires IsTable(t) && '\n' !in t && Lettered(items)
    ensures ReadAll(t, d, Cipher(t, Core(items) + Xs(Padding(|Core(items)|))), careful)
         == Run(d, Core(items) + Xs(Padding(|Core(items)|)), 0)
  {
    CoreShape(items);
    PaddedRead(t, d, Core(items), careful);
  }

  lemma PaddedRead(t: string, d: Reader, s: string, careful: bool)
    requires IsTable(t) && '\n' !in t && Shaped(s)
    ensures ReadAll(t, d, Cipher(t, s + Xs(Padding(|s|))), careful) == Run(d, s + Xs(Padding(|s|)), 0)
  {
    XsShape(s, Padding(|s|));
    CipherRead(t, d, s + Xs(Padding(|s|)), careful);
  }

  lemma ReadLineEnd(t: string, d: Reader, c: string, rest: string, careful: bool)
    requires ReadAll(t, d, c, careful).ok
    ensures ReadAll(t, d, c + "\n" + rest, careful)
         == ReadAll(t, EndLine(ReadAll(t, d, c, careful), careful), rest, careful)
  {
    ReadConcat(t, d, c, "\n" + rest, careful);
    Assoc(c, "\n", rest);
    ReadStep(t, ReadAll(t, d, c, careful), "\n", rest, careful);
  }

  lemma RunLine(out: string, items: seq<Item>, careful: bool)
    requires Lettered(items)
    ensures var e := Run(Reader(out, "", false, true), Core(items) + Xs(Padding(|Core(items)|)), 0);
            e.ok && EndLine(e, careful) == Reader(out + Shown(items, careful) + "\n", "", false, true)
  {
    if items == [] {
      assert Core(items) + Xs(0) == "" && out + "" == out;
    } else {
      RunPadded(out, items, careful);
    }
  }

  lemma {:induction false} LinesRead(t: string, out: string, lines: seq<string>, careful: bool)
    requires IsTable(t) && '\n' !in t && forall k :: 0 <= k < |lines| ==> IsLine(lines[k])
    ensures ReadAll(t, Reader(out, "", false, true), CipherLines(t, lines), careful)
         == Reader(out + ShownLines(lines, careful), "", false, true)
    decreases |lines|
  {
    if lines == [] {
      assert out + "" == out;
    } else {
      LineRead(t, out, lines[0], CipherLines(t, lines[1..]), careful);
      var shown := Shown(Items(lines[0], false), careful) + "\n";
      assert out + Shown(Items(lines[0], false), careful) + "\n" == out + shown;
      LinesRead(t, out + shown, lines[1..], careful);
      Assoc(out, shown, ShownLines(lines[1..], careful));
    }
  }

  lemma {:induction false} ShownCareful(lines: seq<string>)
    ensures ShownLines(lines, true) == SqueezedLines(lines)
    decreases |lines|
  {
    if lines != [] {
      ShownCareful(lines[1..]);
    }
  }

  lemma {:induction false} ShownLength(lines: seq<string>)
    ensures |ShownLines(lines, false)| <= |SqueezedLines(lines)|
    ensures |ShownLines(lines, false)| == |SqueezedLines(lines)| <==>
            forall k :: 0 <= k < |lines| ==> !Swallowed(Items(lines[k], false))
    ensures |ShownLines(lines, false)| == |SqueezedLines(lines)| ==> ShownLines(lines, false) == SqueezedLines(lines)
    decreases |lines|
  {
    if lines != [] {
      var rest := lines[1..];
      ShownLength(rest);
      var items := Items(lines[0], false);
      assert |Shown(items, false)| <= |Squeezed(items)|;
      assert |Shown(items, false)| == |Squeezed(items)| <==> !Swallowed(items);
      assert forall k :: 0 <= k < |rest| ==> rest[k] == lines[k + 1];
      assert (forall k :: 0 <= k < |lines| ==> !Swallowed(Items(lines[k], false))) <==>
        !Swallowed(items) && forall k :: 0 <= k < |rest| ==> !Swallowed(Items(rest[k], false)) by {
        forall k | 0 <= k < |lines| && !Swallowed(items) &&
                   forall j :: 0 <= j < |rest| ==> !Swallowed(Items(rest[j], false))
          ensures !Swallowed(Items(lines[k], false))
        {
          if k > 0 {
            assert rest[k - 1] == lines[k];
          }
        }
      }
    }
  }

  /** "S E" is the shortest such line. */
  lemma SwallowedExample()
    ensures Swallowed(Items("S E", false)) && Shown(Items("S E", false), false) == "SE"
    ensures Squeezed(Items("S E", false)) == "S E"
  {
    ExampleItems();
    ExampleSigns();
  }

  const EXAMPLE: seq<Item> := [Item(false, 'S'), Item(true, 'E')]

  lemma ExampleItems()
    ensures Items("S E", false) == EXAMPLE
  {
    assert "S E"[1..] == " E" && " E"[1..] == "E" && "E"[1..] == "";
    assert Items("E", true) == [Item(true, 'E')];
  }

  lemma ExampleSigns()
    ensures Core(EXAMPLE) == "...xx." && Squeezed(EXAMPLE) == "S E" && Squeezed(EXAMPLE[..1]) == "S"
  {
    assert EXAMPLE[..1] == [Item(false, 'S')] && EXAMPLE[..1][..0] == [];
    assert Core(EXAMPLE[..1]) == "..." && Code('E') == ".";
    assert Squeezed([]) == "" && Squeezed(EXAMPLE[..1]) == "S";
  }
}
