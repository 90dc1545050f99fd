/** What comes back for a text whose last line has no newline: its residue is dropped and no line end prints its
    last letter. */
module MorseOpen {
  import opened MorseTables
  import opened MorseCodec
  import opened Sequences
  import opened MorseEncode
  import opened MorseDecode
  import opened MorseRoundTrip
  import opened MorseLead
  import opened MorseText

  // ---------- enciphering ----------

  /** The whole triples of a stream. */
  function Cut(s: string): (r: string)
    ensures |r| % 3 == 0 && r <= s
  {
    s[..|s| - |s| % 3]
  }

  lemma CutTriple(a: string, s: string)
    requires |a| == 3
    ensures Cut(a + s) == a + Cut(s)
  {
  }

  lemma {:induction false} CipherCut(t: string, s: string)
    requires |t| == 26
    ensures Cipher(t, Cut(s)) == Cipher(t, s)
    decreases |s|
  {
    if |s| >= 3 {
      var a, b := s[..3], s[3..];
      assert s == a + b;
      CipherCut(t, b);
      CutTriple(a, b);
      CipherCons(t, a, b);
      CipherCons(t, a, Cut(b));
    }
  }

  lemma {:induction false} OpenFrom(t: string, line: string, more: string)
    requires |t| == 26 && IsLine(more)
    ensures EncipherFrom(t, Stream(line), AfterBlank(line), more) == Cipher(t, Stream(line + more))
    decreases |more|
  {
    if more == "" {
      NoMore(line);
    } else {
      var c := more[0];
      if Blank(c) {
        StreamBlank(line, c);
      } else {
        StreamLetter(line, c);
      }
      assert AfterBlank(line + [c]) == Blank(c) && c != '\n' && Plain(c);
      OpenFrom(t, line + [c], more[1..]);
      Regroup(line, more);
    }
  }

  lemma FromStart(t: string, line: string)
    requires |t| == 26 && IsLine(line)
    ensures EncipherFrom(t, "", true, line) == Cipher(t, Stream(line))
  {
    OpenFrom(t, "", line);
    NoMore(line);
  }

  lemma FirstLine(lines: seq<string>, more: string)
    requires lines != []
    ensures Unlines(lines) + more == lines[0] + "\n" + (Unlines(lines[1..]) + more)
  {
    Assoc(lines[0] + "\n", Unlines(lines[1..]), more);
  }

  lemma FirstCipher(t: string, lines: seq<string>, more: string)
    requires |t| == 26 && lines != []
    ensures CipherLines(t, lines) + more == CipherLine(t, lines[0]) + "\n" + (CipherLines(t, lines[1..]) + more)
  {
    Assoc(CipherLine(t, lines[0]) + "\n", CipherLines(t, lines[1..]), more);
  }

  lemma {:induction false} OpenLinesFrom(t: string, lines: seq<string>, last: string)
    requires |t| == 26 && IsLine(last) && forall k :: 0 <= k < |lines| ==> IsLine(lines[k])
    ensures EncipherFrom(t, "", true, Unlines(lines) + last) == CipherLines(t, lines) + Cipher(t, Stream(last))
    decreases |lines|
  {
    if lines == [] {
      FromStart(t, last);
      NoMore(last);
      NoMore(Cipher(t, Stream(last)));
    } else {
      OpenLinesFrom(t, lines[1..], last);
      FirstLine(lines, last);
      FirstCipher(t, lines, Cipher(t, Stream(last)));
      LineFrom(t, "", lines[0], Unlines(lines[1..]) + last);
      NoMore(lines[0]);
    }
  }

  /** The stream of an open line that starts behind a separator. */
  function OpenStream(line: string): string {
    if Starts(line) then LedStream(line) + (if AfterBlank(line) then "xx" else "") else Stream(line)
  }

  lemma BehindStream(line: string)
    requires Starts(line)
    ensures Stream("S " + line) == "..." + OpenStream(line)
  {
    BehindItems(line);
    BehindCore(Items(line, true));
    LastOf("S ", line);
    StreamOf("S " + line, "..." + LedStream(line));
    Assoc("...", LedStream(line), if AfterBlank(line) then "xx" else "");
  }

  lemma StreamOf(line: string, core: string)
    requires Items(line, false) != [] && Core(Items(line, false)) == core
    ensures Stream(line) == core + if AfterBlank(line) then "xx" else ""
  {
  }

  lemma LastOf(a: string, line: string)
    requires line != ""
    ensures (a + line)[|a + line| - 1] == line[|line| - 1]
  {
  }

  lemma LedOpenFrom(t: string, line: string)
    requires |t| == 26 && IsLine(line) && Starts(line)
    ensures EncipherFrom(t, "x", false, line) == Cipher(t, OpenStream(line))
  {
    TripleOff(t, "...", "x", false, line);
    OneBehind(t, line);
    OpenFrom(t, "S ", line);
    BehindStream(line);
    CipherConcat(t, "...", OpenStream(line));
    Cancel(Cipher(t, "..."), EncipherFrom(t, "x", false, line), Cipher(t, OpenStream(line)));
  }

  /** A letter goes on the stream behind S and one separator as it does behind S and a blank. */
  lemma OneBehind(t: string, line: string)
    requires |t| == 26 && IsLine(line) && Starts(line)
    ensures EncipherFrom(t, "..." + "x", false, line) == EncipherFrom(t, Stream("S "), AfterBlank("S "), line)
  {
    var c := line[0];
    assert Plain(c) && c != '\n' && !Blank(c);
    StreamBehind();
    XThenLetter(c);
  }

  lemma XThenLetter(c: char)
    requires Encodable(c)
    ensures "..." + "x" + Emit(false, c) == "...xx" + Emit(true, c)
  {
    assert !Blank(c);
    assert "..." + "x" + ("x" + Code(c)) == "...xx" + Code(c);
  }

  /** A blank at the start of a line does not matter. */
  lemma BlankStream(line: string)
    requires line != "" && Blank(line[0])
    ensures Stream(line) == Stream(line[1..])
    ensures Items(line, false) == [] <==> Items(line[1..], false) == []
    ensures Core(Items(line, false)) == Core(Items(line[1..], false))
    ensures Squeezed(Items(line, false)) == Squeezed(Items(line[1..], false))
  {
    BlankCore(line[1..], true, false);
    SameButGap(line[1..], true, false);
  }

  lemma OpenAfter(t: string, line: string)
    requires |t| == 26 && IsLine(line)
    ensures EncipherFrom(t, "x", false, line) == Cipher(t, OpenStream(line))
  {
    if Starts(line) {
      LedOpenFrom(t, line);
    } else if line != "" {
      assert "x" + Emit(false, line[0]) == "xxx";
      CipherXxx(t);
      TripleOff(t, "xxx", "", true, line[1..]);
      NoMore("xxx");
      FromStart(t, line[1..]);
      NoMore(Cipher(t, Stream(line[1..])));
      BlankStream(line);
    }
  }

  lemma OpenLinesAfter(t: string, lines: seq<string>, last: string)
    requires |t| == 26 && IsLine(last) && lines != [] && forall k :: 0 <= k < |lines| ==> IsLine(lines[k])
    ensures EncipherFrom(t, "x", false, Unlines(lines) + last) == CipherAfter(t, lines) + Cipher(t, Stream(last))
  {
    var line, rest := lines[0], Unlines(lines[1..]) + last;
    OpenLinesFrom(t, lines[1..], last);
    FirstLine(lines, last);
    if Starts(line) {
      LedFrom(t, line, rest);
      Assoc(CipherLed(t, line) + "\n", CipherLines(t, lines[1..]), Cipher(t, Stream(last)));
    } else {
      if line == "" {
        EmptyFrom(t, rest);
      } else {
        BlankFrom(t, line, rest);
      }
      FirstCipher(t, lines, Cipher(t, Stream(last)));
    }
  }

  predicate IsOpen(lines: seq<string>, last: string) {
    last != "" && IsLine(last) && forall k :: 0 <= k < |lines| ==> IsLine(lines[k])
  }

  /** The lines before the last one are enough to have the first line printed. */
  function CipherOpen(t: string, lines: seq<string>, last: string): string
    requires |t| == 26 && last != ""
  {
    if lines == [""] then Cipher(t, OpenStream(last))
    else if lines != [] then CipherText(t, lines) + Cipher(t, Stream(last))
    else if |last| == 1 then ""
    else Cipher(t, if Starts(last) then Stream(last) else OpenStream(last[1..]))
  }

  lemma FirstOn(t: string, text: string)
    requires |t| == 26 && |text| > 1 && Encodable(text[0])
    ensures Encipher(t, text) == EncipherFrom(t, "", true, text)
  {
    assert !Blank(text[0]) && "" + Emit(true, text[0]) == Code(text[0]);
  }

  lemma OpenOnly(t: string, last: string)
    requires |t| == 26 && IsOpen([], last)
    ensures Encipher(t, last) == CipherOpen(t, [], last)
  {
    if |last| > 1 {
      if Starts(last) {
        FromStart(t, last);
        FirstOn(t, last);
      } else {
        assert Plain(last[0]) && Code(last[0]) == "x";
        OpenAfter(t, last[1..]);
      }
    }
  }

  lemma OpenLetter(t: string, lines: seq<string>, last: string)
    requires |t| == 26 && IsOpen(lines, last) && lines != [] && Starts(lines[0])
    ensures Encipher(t, Unlines(lines) + last) == CipherOpen(t, lines, last)
  {
    var text := Unlines(lines) + last;
    FirstLine(lines, last);
    OpenLinesFrom(t, lines, last);
    assert |text| > 1 && text[0] == lines[0][0];
    FirstOn(t, text);
  }

  lemma OpenBehind(t: string, lines: seq<string>, last: string)
    requires |t| == 26 && IsOpen(lines, last) && lines != [] && !Starts(lines[0])
    ensures Encipher(t, Unlines(lines) + last) == CipherOpen(t, lines, last)
  {
    var rest := Tail(lines);
    TailText(lines);
    Front(Unlines(lines), last);
    assert Plain(Unlines(lines)[0]) && Code(Unlines(lines)[0]) == "x";
    if rest == [] {
      NoMore(last);
      assert lines == [""] + [];
      OpenAfter(t, last);
    } else {
      assert lines != [""];
      OpenLinesAfter(t, rest, last);
    }
  }

  lemma EncipherOpen(t: string, lines: seq<string>, last: string)
    requires |t| == 26 && IsOpen(lines, last)
    ensures Encipher(t, Unlines(lines) + last) == CipherOpen(t, lines, last)
  {
    if lines == [] {
      NoMore(last);
      OpenOnly(t, last);
    } else if Starts(lines[0]) {
      OpenLetter(t, lines, last);
    } else {
      OpenBehind(t, lines, last);
    }
  }

  // ---------- deciphering ----------

  /** Reading takes nothing back. */
  lemma {:induction false} RunGrows(d: Reader, s: string, k: nat)
    ensures d.out <= Run(d, s, k).out && (Run(d, s, k).ok ==> d.ok)
    decreases |s|
  {
    if s != "" && d.ok {
      RunGrows(ReadSign(if k == 0 then PrintGap(d) else d, s[0]), s[1..], (k + 1) % 3);
    }
  }

  lemma GrowsTo(d: Reader, a: string, b: string)
    requires a <= b
    ensures Run(d, a, 0).out <= Run(d, b, 0).out && (Run(d, b, 0).ok ==> Run(d, a, 0).ok)
  {
    assert b == a + b[|a|..];
    RunConcat(d, a, b[|a|..], 0);
    RunGrows(Run(d, a, 0), b[|a|..], |a| % 3);
  }

  /** All letters of an open line are printed: there are none, or blanks follow the last one and at least one of
      their separators is not dropped. */
  predicate Complete(line: string) {
    var items := Items(line, false);
    items == [] || (AfterBlank(line) && |Core(items)| % 3 != 0)
  }

  lemma CutStream(line: string)
    requires IsLine(line) && Items(line, false) != []
    ensures var core := Core(Items(line, false));
            if !Complete(line) then Cut(Stream(line)) <= core
            else Cut(Stream(line)) == core + if |core| % 3 == 1 then "xx" else "x"
  {
    var core := Core(Items(line, false));
    NoMore(core);
    if AfterBlank(line) {
      assert Stream(line) == core + "xx";
      CutTwo(core);
    }
  }

  lemma CutTwo(core: string)
    ensures Cut(core + "xx") == core + if |core| % 3 == 0 then "" else if |core| % 3 == 1 then "xx" else "x"
  {
    var s := core + "xx";
    assert s[..|core|] == core && s[..|core| + 1] == core + "x" && s[..|core| + 2] == core + "xx";
    NoMore(core);
  }

  /** What is printed of an open line is a beginning of the line squeezed, and all of it exactly if it is complete. */
  lemma OpenRun(out: string, line: string)
    requires IsLine(line)
    ensures var e := Run(Reader(out, "", false, true), Cut(Stream(line)), 0);
            var all := out + Squeezed(Items(line, false));
            e.ok && out <= e.out && e.out <= all && (e.out == all <==> Complete(line))
  {
    var d, items := Reader(out, "", false, true), Items(line, false);
    RunGrows(d, Cut(Stream(line)), 0);
    if items == [] {
      NoMore(out);
    } else {
      CutStream(line);
      ItemsLettered(line);
      if Complete(line) {
        CoreThrough(out, items, |Core(items)| % 3 == 1);
      } else {
        CoreUnread(out, items);
        GrowsTo(d, Cut(Stream(line)), Core(items));
      }
    }
  }

  /** A separator behind the last letter prints it. */
  lemma CoreThrough(out: string, items: seq<Item>, two: bool)
    requires items != [] && Lettered(items)
    ensures Run(Reader(out, "", false, true), Core(items) + (if two then "xx" else "x"), 0)
         == Reader(out + Squeezed(items), "", two, true)
  {
    var g := GapWaits(items);
    RunCore(out, items);
    SqueezedLast(out, items, g);
    RunThrough(Reader(out, "", false, true), Core(items), LastRead(out, items, g), items[|items| - 1].letter, two);
  }

  /** Without one it is not printed. */
  lemma CoreUnread(out: string, items: seq<Item>)
    requires items != [] && Lettered(items)
    ensures var e := Run(Reader(out, "", false, true), Core(items), 0);
            e.ok && e.out <= out + Squeezed(items) && |e.out| < |out + Squeezed(items)|
  {
    var g := GapWaits(items);
    RunCore(out, items);
    SqueezedLast(out, items, g);
    Longer(LastRead(out, items, g).out, if g then " " else "", [items[|items| - 1].letter]);
  }

  lemma Longer(a: string, b: string, c: string)
    requires c != ""
    ensures a <= a + b + c && |a| < |a + b + c|
  {
  }

  /** Behind a separator, what is printed of an open line that starts with a letter starts with a space. */
  lemma LedOpenRun(line: string)
    requires IsLine(line) && Starts(line)
    ensures var e := Run(START, Cut(OpenStream(line)), 0); e.ok && (e.out == "" || e.out[0] == ' ')
  {
    var u := Cut(OpenStream(line));
    var e := Run(START, u, 0);
    BehindStream(line);
    CutTriple("...", OpenStream(line));
    SignsLonger(line);
    BehindS(u);
    BehindLine(line);
    OpenRun("", "S " + line);
    BehindItems(line);
    BehindSqueezed(Items(line, true));
    SecondOf(e.out, Squeezed(Items(line, true)));
  }

  /** What two separators and more print is printed behind S too. */
  lemma BehindS(u: string)
    requires "xx" <= u
    ensures Run(START, "..." + u, 0) == Onto("S", Run(START, u, 0))
  {
    var v := u[2..];
    TwoSeparators();
    SThenSeparators(START);
    SameAfter(START, "xx", "..." + "xx", Reader("", "", true, true), "S", v, true);
    Assoc("...", "xx", v);
    assert u == "xx" + v;
  }

  lemma BehindLine(line: string)
    requires IsLine(line)
    ensures IsLine("S " + line)
  {
    var all := "S " + line;
    assert Encodable('S') by { assert "S"[0] == 'S'; }
    forall k | 0 <= k < |all| ensures Blank(all[k]) || Encodable(all[k]) {
      if k >= 2 { assert all[k] == line[k - 2]; }
    }
  }

  lemma SignsLonger(line: string)
    requires IsLine(line) && Starts(line)
    ensures "xx" <= Cut(OpenStream(line))
  {
    ItemsNonEmpty(line, true);
    CoreShape(Items(line, true));
    CutSome(Core(Items(line, true)), if AfterBlank(line) then "xx" else "");
  }

  lemma CutSome(core: string, more: string)
    requires core != ""
    ensures "xx" <= Cut("xx" + core + more)
  {
    var s := "xx" + core + more;
    assert |s| >= 3 && s[..2] == "xx";
  }

  lemma SecondOf(a: string, b: string)
    requires "S" + a <= "" + ("S" + (" " + b))
    ensures a == "" || a[0] == ' '
  {
    if a != "" {
      assert ("S" + a)[1] == a[0];
    }
  }

  lemma StreamShape(line: string)
    requires IsLine(line)
    ensures AllSigns(Stream(line)) && NoXxx(Stream(line))
  {
    var core := Core(Items(line, false));
    ItemsLettered(line);
    CoreShape(Items(line, false));
    XsShape(core, 0);
    XsShape(core, 2);
    assert core + Xs(0) == core + "" && core + Xs(2) == core + "xx";
  }

  lemma OpenShape(line: string)
    requires IsLine(line)
    ensures AllSigns(OpenStream(line)) && NoXxx(OpenStream(line))
  {
    if Starts(line) {
      BehindLine(line);
      BehindStream(line);
      StreamShape("S " + line);
      SuffixShape("...", OpenStream(line));
    } else {
      StreamShape(line);
    }
  }

  lemma CutShape(s: string)
    requires AllSigns(s) && NoXxx(s)
    ensures AllSigns(Cut(s)) && NoXxx(Cut(s))
  {
    var u := Cut(s);
    forall k | 0 <= k && k + 2 < |u| ensures u[k] != 'x' || u[k + 1] != 'x' || u[k + 2] != 'x' {
      assert s[k] != 'x' || s[k + 1] != 'x' || s[k + 2] != 'x';
    }
  }

  lemma CutRead(t: string, d: Reader, s: string, careful: bool)
    requires IsTable(t) && '\n' !in t && AllSigns(s) && NoXxx(s)
    ensures ReadAll(t, d, Cipher(t, s), careful) == Run(d, Cut(s), 0)
  {
    CipherCut(t, s);
    CutShape(s);
    CipherRead(t, d, Cut(s), careful);
  }

  // ---------- when it is the text ----------

  function SqueezedText(lines: seq<string>, last: string): string {
    SqueezedLines(lines) + Squeezed(Items(last, false))
  }

  /** An open text comes back squeezed exactly if its lines before the last one do and the last one is complete, and
      is not the only one and of one blank and a letter first. */
  ghost predicate KeptOpen(lines: seq<string>, last: string, careful: bool)
    requires last != ""
  {
    && Complete(last)
    && if lines != [] then Kept(lines, careful) else Starts(last) || !Starts(last[1..])
  }

  lemma ShownShorter(lines: seq<string>, careful: bool)
    ensures ShownLines(lines, careful) == SqueezedLines(lines)
         || |ShownLines(lines, careful)| < |SqueezedLines(lines)|
  {
    if careful {
      ShownCareful(lines);
    } else {
      ShownLength(lines);
    }
  }

  /** Lines that do not come back as they should come back shorter, or differ in the first character. */
  lemma BackApart(lines: seq<string>, careful: bool)
    requires IsText(lines) && lines != [""]
    ensures var b, all := Back(lines, careful), SqueezedLines(lines);
            b == all || |b| < |all| || (b != "" && all != "" && b[0] != all[0])
  {
    var rest := lines[1..];
    if Starts(lines[0]) {
      ShownShorter(lines, careful);
    } else if lines[0] == "" {
      assert rest != [] by { assert lines == [""] + rest; }
      assert SqueezedLines(lines) == Squeezed([]) + "\n" + SqueezedLines(rest);
      ShownShorter(rest, careful);
      if Starts(rest[0]) {
        assert IsLine(rest[0]);
        LedKept(rest[0], careful);
        assert Back(lines, careful)[0] == ShownLed(rest[0], careful)[0];
      }
    } else {
      assert Tail(lines)[0] == lines[0][1..] && Tail(lines)[1..] == rest;
      BlankApart(lines, careful);
    }
  }

  lemma BlankApart(lines: seq<string>, careful: bool)
    requires IsText(lines) && !Starts(lines[0]) && lines[0] != ""
    requires Tail(lines)[0] == lines[0][1..] && Tail(lines)[1..] == lines[1..]
    ensures var b, all := Back(lines, careful), SqueezedLines(lines);
            b == all || |b| < |all| || (b != "" && all != "" && b[0] != all[0])
  {
    var line := lines[0][1..];
    BlankCore(line, true, false);
    if Starts(line) {
      ShownShorter(lines[1..], careful);
      LedKept(line, careful);
      SqueezedStarts(line, true);
      assert ShownLed(line, careful) != Squeezed(Items(line, true)) ==> ShownLed(line, careful)[0] == ' ';
    } else {
      ShownShorter(lines, careful);
    }
  }

  /** The lines and the open line are right together exactly if both are. */
  lemma BothRight(b: string, out: string, s: string, all: string)
    requires b <= out && out <= b + s
    requires b == all || |b| < |all| || (b != "" && all != "" && b[0] != all[0])
    ensures out == all + s <==> b == all && out == b + s
  {
    if out == all + s && b != "" && all != "" {
      assert out[0] == b[0] && out[0] == all[0];
    }
  }

  lemma OpenLinesBack(t: string, lines: seq<string>, last: string, careful: bool)
    requires IsTable(t) && '\n' !in t && IsOpen(lines, last) && lines != [] && lines != [""]
    ensures var e := ReadAll(t, START, CipherText(t, lines) + Cipher(t, Stream(last)), careful);
            e.ok && (e.out == SqueezedText(lines, last) <==> KeptOpen(lines, last, careful))
  {
    BackRead(t, lines, careful);
    BackKept(lines, careful);
    ReadConcat(t, START, CipherText(t, lines), Cipher(t, Stream(last)), careful);
    StreamShape(last);
    var d := Reader(Back(lines, careful), "", false, true);
    CutRead(t, d, Stream(last), careful);
    OpenRun(d.out, last);
    BackApart(lines, careful);
    BothRight(d.out, Run(d, Cut(Stream(last)), 0).out, Squeezed(Items(last, false)), SqueezedLines(lines));
  }

  /** Behind a separator that is not printed. */
  lemma OpenAfterBack(t: string, line: string, careful: bool)
    requires IsTable(t) && '\n' !in t && IsLine(line)
    ensures var e := ReadAll(t, START, Cipher(t, OpenStream(line)), careful);
            e.ok && (Starts(line) ==> e.out == "" || e.out[0] == ' ')
    ensures var out, all := ReadAll(t, START, Cipher(t, OpenStream(line)), careful).out, Squeezed(Items(line, false));
            !Starts(line) ==> out <= all && (out == all <==> Complete(line))
  {
    OpenShape(line);
    CutRead(t, START, OpenStream(line), careful);
    if Starts(line) {
      LedOpenRun(line);
    } else {
      OpenRun("", line);
      NoMore(Squeezed(Items(line, false)));
    }
  }

  lemma OnlyLine(t: string, last: string, careful: bool)
    requires IsTable(t) && '\n' !in t && IsOpen([], last)
    ensures var e := ReadAll(t, START, CipherOpen(t, [], last), careful);
            e.ok && (e.out == SqueezedText([], last) <==> KeptOpen([], last, careful))
  {
    NoMore(Squeezed(Items(last, false)));
    if Starts(last) {
      SqueezedStarts(last, false);
      if |last| > 1 {
        StreamShape(last);
        CutRead(t, START, Stream(last), careful);
        OpenRun("", last);
      }
    } else {
      BlankStream(last);
      if last[1..] != "" {
        OnlyBehind(t, last, careful);
      }
    }
  }

  lemma OnlyBehind(t: string, last: string, careful: bool)
    requires IsTable(t) && '\n' !in t && IsOpen([], last) && !Starts(last) && last[1..] != ""
    ensures var e := ReadAll(t, START, Cipher(t, OpenStream(last[1..])), careful);
            e.ok && (e.out == Squeezed(Items(last, false)) <==> KeptOpen([], last, careful))
  {
    var line := last[1..];
    BlankStream(last);
    assert AfterBlank(last) == AfterBlank(line);
    OpenAfterBack(t, line, careful);
    if Starts(line) {
      SqueezedStarts(line, false);
    }
  }

  lemma NewlineMissing(out: string, s: string)
    requires out == "" || out[0] == ' ' || out <= s
    ensures out != "\n" + s
  {
    assert ("\n" + s)[0] == '\n';
  }

  lemma BehindNewline(t: string, last: string, careful: bool)
    requires IsTable(t) && '\n' !in t && IsOpen([""], last)
    ensures var e := ReadAll(t, START, CipherOpen(t, [""], last), careful);
            e.ok && (e.out == SqueezedText([""], last) <==> KeptOpen([""], last, careful))
  {
    OpenAfterBack(t, last, careful);
    assert [""][1..] == [];
    assert SqueezedLines([""]) == "\n";
    NewlineMissing(ReadAll(t, START, Cipher(t, OpenStream(last)), careful).out, Squeezed(Items(last, false)));
  }

  /** An open line that ends with a letter never comes back; with a blank behind it "A" does and "S" does not. */
  lemma OpenExamples()
    ensures !Complete("A") && Complete("A ") && !Complete("S ")
  {
    OneOpen('A', "A");
    OneOpen('A', "A ");
    OneOpen('S', "S ");
    assert Code('A') == ".-" && Code('S') == "...";
    assert "A "[1] == ' ' && "S "[1] == ' ' && !Blank("A"[0]);
  }

  lemma OneOpen(c: char, line: string)
    requires !Blank(c) && (line == [c] || line == [c] + " ")
    ensures Items(line, false) == [Item(false, c)] && Core(Items(line, false)) == Code(c)
  {
    assert line[1..] == "" || (line[1..] == " " && " "[1..] == "");
    assert Items(line[1..], false) == [];
    OneLetter([Item(false, c)]);
  }

  /** For every text of lines of letters and blanks whose last line has no newline: deciphering what the program
      prints succeeds, and gives the text squeezed if and only if it is kept. */
  lemma OpenRoundTrip(t: string, lines: seq<string>, last: string, careful: bool)
    requires IsTable(t) && '\n' !in t && IsOpen(lines, last)
    ensures var e := Decipher(t, Encipher(t, Unlines(lines) + last), careful);
            e.ok && (e.out == SqueezedText(lines, last) <==> KeptOpen(lines, last, careful))
  {
    EncipherOpen(t, lines, last);
    if lines == [] {
      OnlyLine(t, last, careful);
    } else if lines == [""] {
      BehindNewline(t, last, careful);
    } else {
      OpenLinesBack(t, lines, last, careful);
    }
  }
}
