/** What comes back for any newline-terminated text of lines of letters and blanks. */
module MorseText {
  import opened MorseTables
  import opened MorseCodec
  import opened MorseEncode
  import opened MorseDecode
  import opened MorseRoundTrip
  import opened MorseLead

  /** A text the cipher is for: lines of letters and blanks, each ended by a newline. */
  predicate IsText(lines: seq<string>) {
    lines != [] && forall k :: 0 <= k < |lines| ==> IsLine(lines[k])
  }

  /** The lines that follow the separator the text begins with. */
  function Tail(lines: seq<string>): seq<string>
    requires lines != [] && !Starts(lines[0])
  {
    if lines[0] == "" then lines[1..] else [lines[0][1..]] + lines[1..]
  }

  function CipherText(t: string, lines: seq<string>): string
    requires |t| == 26 && lines != []
  {
    if Starts(lines[0]) then CipherLines(t, lines) else CipherAfter(t, Tail(lines))
  }

  /** Every text is enciphered line by line; a first line behind a separator has two separators on its stream first. */
  lemma EncipherAny(t: string, lines: seq<string>)
    requires |t| == 26 && IsText(lines)
    ensures Encipher(t, Unlines(lines)) == CipherText(t, lines)
  {
    var text := Unlines(lines);
    if Starts(lines[0]) {
      EncipherLines(t, lines);
    } else {
      var rest := Tail(lines);
      TailText(lines);
      assert Plain(text[0]) && Code(text[0]) == "x";
      if rest != [] {
        assert |text| > 1;
        AfterFrom(t, rest);
      }
    }
  }

  lemma TailText(lines: seq<string>)
    requires IsText(lines) && !Starts(lines[0])
    ensures var text := Unlines(lines); var rest := Tail(lines);
            text != "" && (text[0] == '\n' || Blank(text[0])) && text[1..] == Unlines(rest)
            && (forall k :: 0 <= k < |rest| ==> IsLine(rest[k])) && (rest != [] ==> Unlines(rest) != "")
  {
    var text, rest := Unlines(lines), Tail(lines);
    if lines[0] == "" {
      assert text == "" + "\n" + Unlines(lines[1..]);
    } else {
      assert rest[1..] == lines[1..];
      assert text == lines[0] + "\n" + Unlines(lines[1..]);
      assert text[1..] == lines[0][1..] + "\n" + Unlines(lines[1..]);
    }
  }

  // ---------- what comes back ----------

  /** Behind a separator: the first line, if it starts with a letter, comes back with a space before it. */
  function ShownAfter(lines: seq<string>, careful: bool): string {
    if lines != [] && Starts(lines[0]) then ShownLed(lines[0], careful) + "\n" + ShownLines(lines[1..], careful)
    else ShownLines(lines, careful)
  }

  function Back(lines: seq<string>, careful: bool): string
    requires lines != []
  {
    if Starts(lines[0]) then ShownLines(lines, careful) else ShownAfter(Tail(lines), careful)
  }

  lemma AfterRead(t: string, lines: seq<string>, careful: bool)
    requires IsTable(t) && '\n' !in t && forall k :: 0 <= k < |lines| ==> IsLine(lines[k])
    ensures ReadAll(t, START, CipherAfter(t, lines), careful) == Reader(ShownAfter(lines, careful), "", false, true)
  {
    if lines != [] && Starts(lines[0]) {
      LedRead(t, lines[0], CipherLines(t, lines[1..]), careful);
      LinesRead(t, ShownLed(lines[0], careful) + "\n", lines[1..], careful);
    } else {
      LinesRead(t, "", lines, careful);
      NoMore(ShownLines(lines, careful));
    }
  }

  lemma BackRead(t: string, lines: seq<string>, careful: bool)
    requires IsTable(t) && '\n' !in t && IsText(lines)
    ensures ReadAll(t, START, CipherText(t, lines), careful) == Reader(Back(lines, careful), "", false, true)
  {
    if Starts(lines[0]) {
      LinesRead(t, "", lines, careful);
      NoMore(ShownLines(lines, careful));
    } else {
      TailText(lines);
      AfterRead(t, Tail(lines), careful);
    }
  }

  // ---------- when it is the text ----------

  /** No line from k on loses the gap before its last letter. */
  ghost predicate Whole(lines: seq<string>, careful: bool) {
    careful || forall k :: 0 <= k < |lines| ==> !Swallowed(Items(lines[k], false))
  }

  /** The text comes back squeezed: a text that begins with a newline never; one that begins with a single blank and
      a letter only, as written, if its first line is one letter of one sign; any other if no line is swallowed. */
  ghost predicate Kept(lines: seq<string>, careful: bool)
    requires lines != []
  {
    if Starts(lines[0]) then Whole(lines, careful)
    else if lines[0] == "" then false
    else if Starts(lines[0][1..]) then
      !careful && |Items(lines[0], false)| == 1 && |Code(lines[0][1])| == 1 && Whole(lines[1..], careful)
    else Whole(lines, careful)
  }

  lemma WholeShown(lines: seq<string>, careful: bool)
    ensures ShownLines(lines, careful) == SqueezedLines(lines) <==> Whole(lines, careful)
    ensures |ShownLines(lines, careful)| <= |SqueezedLines(lines)|
  {
    if careful {
      ShownCareful(lines);
    } else {
      ShownLength(lines);
    }
  }

  lemma SqueezedStarts(line: string, g: bool)
    requires Starts(line)
    ensures Items(line, g) != [] && Squeezed(Items(line, g)) != "" && Squeezed(Items(line, g))[0] == line[0]
  {
    FirstLetterStays(Items(line, g));
  }

  lemma {:induction false} FirstLetterStays(items: seq<Item>)
    requires items != []
    ensures Squeezed(items) != "" && Squeezed(items)[0] == items[0].letter
    decreases |items|
  {
    var n := |items| - 1;
    if n == 0 {
      assert Squeezed(items[..0]) == "";
    } else {
      FirstLetterStays(items[..n]);
    }
  }

  lemma OneSwallowed(line: string, items: seq<Item>, code: string)
    requires items == Items(line, true) && |items| == 1 && items[0].gap
    requires code == Code(items[0].letter) && code != ""
    ensures LedSwallowed(line) <==> |code| == 1
  {
    OneLetter(items);
    assert LedStream(line) == "xx" + code;
    OneInTriple(|code|);
  }

  lemma OneInTriple(m: nat)
    requires m > 0
    ensures m <= 2 && (2 + m) % 3 == 0 <==> m == 1
  {
  }

  /** A led line of one letter. */
  lemma LedOne(line: string, careful: bool)
    requires IsLine(line) && Starts(line) && |Items(line, true)| == 1
    ensures ShownLed(line, careful) == (if !careful && |Code(line[0])| == 1 then "" else " ") + [line[0]]
    ensures Squeezed(Items(line, true)) == [line[0]]
  {
    BehindItems(line);
    assert Items(line, true) == [Item(true, line[0])];
    CodeShape(line[0]);
    OneSwallowed(line, Items(line, true), Code(line[0]));
    OneLetter(Items(line, true));
    NoMore([line[0]]);
  }

  lemma LedMany(line: string, careful: bool)
    requires Starts(line) && |Items(line, true)| > 1
    ensures ShownLed(line, careful)[..1] == " "
  {
    var items := Items(line, true);
    if !careful && LedSwallowed(line) {
      SpaceFirst(Squeezed(items[..|items| - 1]), [items[|items| - 1].letter]);
    }
  }

  /** A led line comes back as the line itself only if it is one letter of one sign, as written. */
  lemma LedKept(line: string, careful: bool)
    requires IsLine(line) && Starts(line)
    ensures ShownLed(line, careful) == Squeezed(Items(line, true)) <==>
            !careful && |Items(line, true)| == 1 && |Code(line[0])| == 1
    ensures ShownLed(line, careful) != "" && ShownLed(line, careful)[0] != '\n'
    ensures ShownLed(line, careful) != Squeezed(Items(line, true)) ==> ShownLed(line, careful)[..1] == " "
  {
    var items := Items(line, true);
    SqueezedStarts(line, true);
    if |items| == 1 {
      LedOne(line, careful);
      assert (" " + [line[0]])[0] == ' ' && ("" + [line[0]])[0] == line[0];
    } else {
      LedMany(line, careful);
      assert ShownLed(line, careful)[0] == ShownLed(line, careful)[..1][0];
    }
  }

  lemma SpaceFirst(a: string, b: string)
    ensures (" " + a + b)[..1] == " " && (" " + a + b)[0] == ' '
  {
  }

  lemma OneLetter(items: seq<Item>)
    requires |items| == 1
    ensures Core(items) == Code(items[0].letter) && Squeezed(items) == [items[0].letter]
  {
    assert items[..0] == [];
    NoMore(Code(items[0].letter));
    assert Squeezed([]) + "" + [items[0].letter] == [items[0].letter];
  }

  lemma NewlineFirst(lines: seq<string>, careful: bool)
    requires IsText(lines) && lines[0] == ""
    ensures Back(lines, careful) != SqueezedLines(lines)
  {
    var rest := lines[1..];
    var all := SqueezedLines(lines);
    assert all == Squeezed([]) + "\n" + SqueezedLines(rest) && Squeezed([]) == "";
    assert all[0] == '\n' && |all| == 1 + |SqueezedLines(rest)|;
    WholeShown(rest, careful);
    if rest != [] && Starts(rest[0]) {
      LedKept(rest[0], careful);
      SqueezedStarts(rest[0], true);
      assert IsLine(rest[0]);
      assert Back(lines, careful)[0] == ShownLed(rest[0], careful)[0];
    }
  }

  lemma BlankFirst(lines: seq<string>, careful: bool)
    requires IsText(lines) && lines[0] != "" && !Starts(lines[0]) && Starts(lines[0][1..])
    ensures Back(lines, careful) == SqueezedLines(lines) <==> Kept(lines, careful)
  {
    var line, rest := lines[0][1..], lines[1..];
    assert Tail(lines)[0] == line && Tail(lines)[1..] == rest;
    assert Items(lines[0], false) == Items(line, true);
    WholeShown(rest, careful);
    LedKept(line, careful);
    SqueezedStarts(line, true);
    var led, own := ShownLed(line, careful), Squeezed(Items(line, true));
    assert Back(lines, careful) == led + "\n" + ShownLines(rest, careful);
    assert SqueezedLines(lines) == own + "\n" + SqueezedLines(rest);
    if led == own {
      SameHead(own + "\n", ShownLines(rest, careful), SqueezedLines(rest));
    } else {
      assert Back(lines, careful)[0] == led[..1][0] == ' ';
      assert SqueezedLines(lines)[0] == line[0];
    }
  }

  lemma SameHead(a: string, b: string, c: string)
    ensures a + b == a + c <==> b == c
  {
    if a + b == a + c { Cancel(a, b, c); }
  }

  lemma BlanksFirst(lines: seq<string>, careful: bool)
    requires IsText(lines) && lines[0] != "" && !Starts(lines[0]) && !Starts(lines[0][1..])
    ensures Back(lines, careful) == SqueezedLines(lines) <==> Whole(lines, careful)
  {
    var line, rest := lines[0][1..], lines[1..];
    assert Tail(lines)[0] == line && Tail(lines)[1..] == rest;
    BlankCore(line, true, false);
    assert Items(lines[0], false) == Items(line, true);
    assert ShownLines(Tail(lines), careful) == ShownLines(lines, careful);
    WholeShown(lines, careful);
  }

  /** For every text of lines of letters and blanks: what comes back, and exactly when that is the text squeezed. */
  lemma RoundTrip(t: string, lines: seq<string>, careful: bool)
    requires IsTable(t) && '\n' !in t && IsText(lines)
    ensures Decipher(t, Encipher(t, Unlines(lines)), careful) == Reader(Back(lines, careful), "", false, true)
    ensures Back(lines, careful) == SqueezedLines(lines) <==> Kept(lines, careful)
  {
    EncipherAny(t, lines);
    BackRead(t, lines, careful);
    BackKept(lines, careful);
  }

  lemma BackKept(lines: seq<string>, careful: bool)
    requires IsText(lines)
    ensures Back(lines, careful) == SqueezedLines(lines) <==> Kept(lines, careful)
  {
    if Starts(lines[0]) {
      WholeShown(lines, careful);
    } else if lines[0] == "" {
      NewlineFirst(lines, careful);
    } else if Starts(lines[0][1..]) {
      BlankFirst(lines, careful);
    } else {
      BlanksFirst(lines, careful);
    }
  }

  /** A leading newline turns into a space; of a leading blank one may stay and two do not. */
  lemma LeadExamples()
    ensures Back(["", "A"], true) == " A\n" && Back(["", ""], true) == "\n"
    ensures Back([" A"], true) == " A\n" && Back(["  A"], true) == "A\n"
  {
    assert Items("A", true) == [Item(true, 'A')] by { assert "A"[1..] == ""; }
    OneLetter([Item(true, 'A')]);
    assert Items("A", false) == [Item(false, 'A')] by { assert "A"[1..] == ""; }
    OneLetter([Item(false, 'A')]);
    assert ["", "A"][1..] == ["A"] && ["A"][1..] == [] && ["", ""][1..] == [""] && [""][1..] == [];
    assert " A"[1..] == "A" && "  A"[1..] == " A" && [" A"][1..] == [] && ["  A"][1..] == [];
    assert Items(" A", false) == [Item(true, 'A')];
    assert ["A"] + [] == ["A"] && [" A"] + [] == [" A"];
    assert ShownLed("A", true) + "\n" + "" == " A\n";
    assert Squeezed([]) + "\n" + "" == "\n";
  }
}
