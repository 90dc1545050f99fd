/** What the enciphered text says, line by line. */
module MorseEncode {
  import opened MorseTables
  import opened MorseCodec
  import opened Sequences

  lemma {:induction false} CipherConcat(t: string, a: string, b: string)
    requires |t| == 26 && |a| % 3 == 0
    ensures Cipher(t, a + b) == Cipher(t, a) + Cipher(t, b)
    decreases |a|
  {
    if a == "" {
      NoMore(b);
    } else {
      CipherConcat(t, a[3..], b);
      Triples(a, b);
      Assoc(CipherOne(t, a[..3]), Cipher(t, a[3..]), Cipher(t, b));
    }
  }

  lemma Triples(a: string, b: string)
    requires |a| >= 3
    ensures (a + b)[..3] == a[..3] && (a + b)[3..] == a[3..] + b
  {
  }

  lemma CipherXxx(t: string)
    requires |t| == 26
    ensures Cipher(t, "xxx") == ""
  {
    FracIsBase3('x', 'x', 'x');
    var i := TripleFrom("xxx", 0);
    if i < 26 {
      FracFacts(i);
    }
    assert "xxx"[..3] == "xxx" && "xxx"[3..] == "";
  }

  /** However many separators end a line, the letters' triples are all that is printed: the last
      separators fill up a triple or are dropped. */
  lemma CipherTail(t: string, s: string, k: nat)
    requires |t| == 26 && (k == 2 || k == 3 || (k == 1 && s == ""))
    ensures Cipher(t, s + Xs(k)) == Cipher(t, s + Xs(Padding(|s|)))
  {
    var n := Padding(|s|);
    if k == 1 {
      assert |s + Xs(k)| < 3 && |s + Xs(n)| < 3;
    } else {
      TailSplits(s, k, n);
      var full := s + Xs(n);
      assert |full| % 3 == 0 && k - n != 1 + 1 + 2;
      CipherConcat(t, full, Xs(k - n));
      CipherXs(t, k - n);
    }
  }

  lemma CipherXs(t: string, k: nat)
    requires |t| == 26 && k <= 3
    ensures Cipher(t, Xs(k)) == ""
  {
    if k == 3 {
      assert Xs(3) == "xxx";
      CipherXxx(t);
    }
  }

  lemma TailSplits(s: string, k: nat, n: nat)
    requires n == Padding(|s|) && 2 <= k <= 3
    ensures n <= k && s + Xs(k) == (s + Xs(n)) + Xs(k - n) && |s + Xs(n)| % 3 == 0
  {
    assert Xs(k) == Xs(n) + Xs(k - n);
  }

  // ---------- the stream of a line ----------

  /** The next character does not follow a letter of its line. */
  predicate AfterBlank(line: string) {
    line == "" || Blank(line[|line| - 1])
  }

  lemma {:induction false} ItemsAppend(line: string, gap: bool, c: char)
    ensures Items(line + [c], gap) ==
            Items(line, gap) + if Blank(c) then [] else [Item(if line == "" then gap else AfterBlank(line), c)]
    decreases |line|
  {
    if line == "" {
      assert (line + [c])[1..] == "";
    } else {
      assert (line + [c])[1..] == line[1..] + [c];
      ItemsAppend(line[1..], Blank(line[0]), c);
      assert line[1..] != "" ==> line[1..][|line[1..]| - 1] == line[|line| - 1];
    }
  }

  lemma {:induction false} ItemsNonEmpty(line: string, gap: bool)
    ensures !AfterBlank(line) ==> Items(line, gap) != []
    ensures forall k :: 0 <= k < |Items(line, gap)| ==>
              Items(line, gap)[k].letter in line && !Blank(Items(line, gap)[k].letter)
    decreases |line|
  {
    if line != "" {
      ItemsNonEmpty(line[1..], Blank(line[0]));
      assert line[1..] != "" ==> line[1..][|line[1..]| - 1] == line[|line| - 1];
    }
  }

  /** All signs that the part of a line read so far has put on the stream. */
  function Stream(line: string): string {
    Core(Items(line, false)) + if Items(line, false) != [] && AfterBlank(line) then "xx" else ""
  }

  lemma CoreAppend(items: seq<Item>, i: Item)
    ensures Core(items + [i]) ==
            (if items == [] then "" else Core(items) + (if i.gap then "xx" else "x")) + Code(i.letter)
  {
    assert (items + [i])[..|items|] == items;
  }

  lemma StreamBlank(line: string, c: char)
    requires Blank(c)
    ensures Stream(line + [c]) == Stream(line) + Emit(AfterBlank(line), c)
  {
    var items := Items(line, false);
    ItemsAppend(line, false, c);
    assert items + [] == items && AfterBlank(line + [c]);
    if !AfterBlank(line) {
      ItemsNonEmpty(line, false);
      assert Core(items) + "xx" == (Core(items) + "") + ("x" + "x");
    }
  }

  lemma StreamLetter(line: string, c: char)
    requires Encodable(c)
    ensures Stream(line + [c]) == Stream(line) + Emit(AfterBlank(line), c)
  {
    var items := Items(line, false);
    var i := Item(if line == "" then false else AfterBlank(line), c);
    ItemsAppend(line, false, c);
    CoreAppend(items, i);
    assert !AfterBlank(line + [c]);
    if items == [] {
      ItemsNonEmpty(line, false);
      NoMore(Code(c));
    } else if !i.gap {
      Assoc(Core(items), "x", Code(c));
    }
    NoMore(Core(items));
  }

  lemma StreamEnds(t: string, line: string)
    requires |t| == 26
    ensures Cipher(t, Stream(line) + Emit(AfterBlank(line), '\n')) == CipherLine(t, line)
  {
    var core := Core(Items(line, false));
    ItemsNonEmpty(line, false);
    if Items(line, false) == [] {
      assert Stream(line) + "x" == core + Xs(1);
      CipherTail(t, core, 1);
    } else if AfterBlank(line) {
      assert core + "xx" + "x" == core + Xs(3);
      CipherTail(t, core, 3);
    } else {
      assert core + "" + ("x" + "x") == core + Xs(2);
      CipherTail(t, core, 2);
    }
  }

  /** A line's cipher text: its letters' stream, filled up with separators, cut into triples. */
  function CipherLine(t: string, line: string): string
    requires |t| == 26
  {
    Cipher(t, Core(Items(line, false)) + Xs(Padding(|Core(Items(line, false))|)))
  }

  lemma {:induction false} LineFrom(t: string, line: string, more: string, rest: string)
    requires |t| == 26 && IsLine(more)
    ensures EncipherFrom(t, Stream(line), AfterBlank(line), more + "\n" + rest)
         == CipherLine(t, line + more) + "\n" + EncipherFrom(t, "", true, rest)
    decreases |more|
  {
    if more == "" {
      EndFrom(t, line, more, rest);
    } else {
      OneFrom(t, line, more, rest);
      LineFrom(t, line + [more[0]], more[1..], rest);
      Regroup(line, more);
    }
  }

  lemma Regroup(line: string, more: string)
    requires more != ""
    ensures line + [more[0]] + more[1..] == line + more
  {
  }

  lemma EndFrom(t: string, line: string, more: string, rest: string)
    requires |t| == 26 && more == ""
    ensures EncipherFrom(t, Stream(line), AfterBlank(line), more + "\n" + rest)
         == CipherLine(t, line + more) + "\n" + EncipherFrom(t, "", true, rest)
  {
    var todo := more + "\n" + rest;
    assert todo[0] == '\n' && todo[1..] == rest;
    assert line + more == line;
    StreamEnds(t, line);
  }

  lemma OneFrom(t: string, line: string, more: string, rest: string)
    requires |t| == 26 && IsLine(more) && more != ""
    ensures EncipherFrom(t, Stream(line), AfterBlank(line), more + "\n" + rest)
         == EncipherFrom(t, Stream(line + [more[0]]), AfterBlank(line + [more[0]]), more[1..] + "\n" + rest)
  {
    var c, todo := more[0], more + "\n" + rest;
    assert todo[0] == c && todo[1..] == more[1..] + "\n" + rest;
    if Blank(c) {
      StreamBlank(line, c);
    } else {
      StreamLetter(line, c);
    }
    assert AfterBlank(line + [c]) == Blank(c);
    assert c != '\n' && Plain(c);
  }

  // ---------- blanks and characters without a code ----------

  /** The text with every tab a space. */
  function Spaced(s: string): string {
    if s == "" then "" else [if s[0] == '\t' then ' ' else s[0]] + Spaced(s[1..])
  }

  /** Tabs are enciphered as spaces are. */
  lemma TabsAreSpaces(t: string, text: string)
    requires |t| == 26
    ensures Encipher(t, text) == Encipher(t, Spaced(text))
  {
    if text != "" {
      assert Spaced(text)[1..] == Spaced(text[1..]);
      TabsFrom(t, Code(text[0]), false, text[1..]);
    }
  }

  lemma {:induction false} TabsFrom(t: string, stream: string, last: bool, rest: string)
    requires |t| == 26
    ensures EncipherFrom(t, stream, last, rest) == EncipherFrom(t, stream, last, Spaced(rest))
    decreases |rest|
  {
    if rest != "" {
      var c := rest[0];
      var d := if c == '\t' then ' ' else c;
      assert Spaced(rest)[0] == d && Spaced(rest)[1..] == Spaced(rest[1..]);
      if Plain(c) {
        if c == '\n' {
          TabsFrom(t, "", true, rest[1..]);
        } else {
          TabsFrom(t, stream + Emit(last, c), Blank(c), rest[1..]);
        }
      }
    }
  }

  /** Whatever follows, the triples of a stream are printed first. */
  lemma {:induction false} CipherPrefix(t: string, a: string, b: string)
    requires |t| == 26
    ensures Cipher(t, a) <= Cipher(t, a + b)
    decreases |a|
  {
    if |a| >= 3 {
      Triples(a, b);
      CipherPrefix(t, a[3..], b);
    }
  }

  /** A character without a code ends the program: what follows it does not matter, what was printed before it is
      printed, and nothing that a letter in its place would not have made the program print as well. */
  lemma EncipherStops(t: string, p: string, c: char, q: string, d: char)
    requires |t| == 26 && p != "" && (forall k :: 0 <= k < |p| ==> Plain(p[k])) && !Plain(c) && Encodable(d)
    ensures Encipher(t, p + [c] + q) == Encipher(t, p + [c])
    ensures Encipher(t, p) <= Encipher(t, p + [c]) <= Encipher(t, p + [d])
  {
    var r := p[1..];
    assert (p + [c] + q)[1..] == r + [c] + q && (p + [c])[1..] == r + [c] && (p + [d])[1..] == r + [d];
    StopsFrom(t, Code(p[0]), false, r, c, q, d);
  }

  lemma {:induction false} StopsFrom(t: string, stream: string, last: bool, r: string, c: char, q: string, d: char)
    requires |t| == 26 && (forall k :: 0 <= k < |r| ==> Plain(r[k])) && !Plain(c) && Encodable(d)
    ensures EncipherFrom(t, stream, last, r + [c] + q) == EncipherFrom(t, stream, last, r + [c])
    ensures EncipherFrom(t, stream, last, r) <= EncipherFrom(t, stream, last, r + [c])
    ensures EncipherFrom(t, stream, last, r + [c]) <= EncipherFrom(t, stream, last, r + [d])
    decreases |r|
  {
    if r == "" {
      StopsHere(t, stream, last, c, q, d);
    } else {
      var e, rest := r[0], r[1..];
      var printed := if e == '\n' then Cipher(t, stream + Emit(last, e)) + "\n" else "";
      var s, l := if e == '\n' then "" else stream + Emit(last, e), e == '\n' || Blank(e);
      Onward(t, stream, last, r, "");
      Onward(t, stream, last, r, [c] + q);
      Onward(t, stream, last, r, [c]);
      Onward(t, stream, last, r, [d]);
      Assoc(r, [c], q);
      Assoc(rest, [c], q);
      StopsFrom(t, s, l, rest, c, q, d);
      InFront(printed, EncipherFrom(t, s, l, rest), EncipherFrom(t, s, l, rest + [c]), EncipherFrom(t, s, l, rest + [d]));
      NoMore(r);
      NoMore(rest);
    }
  }

  lemma InFront(p: string, a: string, b: string, c: string)
    requires a <= b <= c
    ensures p + a <= p + b <= p + c
  {
  }

  /** One turn, whatever follows. */
  lemma Onward(t: string, stream: string, last: bool, r: string, more: string)
    requires |t| == 26 && r != "" && Plain(r[0])
    ensures var e := r[0];
            EncipherFrom(t, stream, last, r + more) ==
            (if e == '\n' then Cipher(t, stream + Emit(last, e)) + "\n" else "")
            + EncipherFrom(t, if e == '\n' then "" else stream + Emit(last, e), e == '\n' || Blank(e), r[1..] + more)
  {
    assert (r + more)[0] == r[0] && (r + more)[1..] == r[1..] + more;
  }

  lemma StopsHere(t: string, stream: string, last: bool, c: char, q: string, d: char)
    requires |t| == 26 && !Plain(c) && Encodable(d)
    ensures EncipherFrom(t, stream, last, "" + [c] + q) == EncipherFrom(t, stream, last, "" + [c])
    ensures EncipherFrom(t, stream, last, "") <= EncipherFrom(t, stream, last, "" + [c])
    ensures EncipherFrom(t, stream, last, "" + [c]) <= EncipherFrom(t, stream, last, "" + [d])
  {
    var due := if last then stream else stream + "x";
    BadNext(t, stream, last, c, "" + [c] + q);
    BadNext(t, stream, last, c, "" + [c]);
    CipherPrefix(t, stream, "x");
    CipherPrefix(t, due, Code(d));
    LetterNext(t, stream, last, d);
  }

  lemma BadNext(t: string, stream: string, last: bool, c: char, rest: string)
    requires |t| == 26 && !Plain(c) && rest != "" && rest[0] == c
    ensures EncipherFrom(t, stream, last, rest) == Cipher(t, if last then stream else stream + "x")
  {
  }

  lemma LetterNext(t: string, stream: string, last: bool, d: char)
    requires |t| == 26 && Encodable(d)
    ensures EncipherFrom(t, stream, last, "" + [d]) == Cipher(t, (if last then stream else stream + "x") + Code(d))
  {
    var rest := "" + [d];
    assert rest[0] == d && rest[1..] == "" && !Blank(d) && d != '\n';
    assert stream + ("x" + Code(d)) == stream + "x" + Code(d);
  }

  // ---------- whole texts ----------

  function Unlines(lines: seq<string>): string {
    if lines == [] then "" else lines[0] + "\n" + Unlines(lines[1..])
  }

  function CipherLines(t: string, lines: seq<string>): string
    requires |t| == 26
  {
    if lines == [] then "" else CipherLine(t, lines[0]) + "\n" + CipherLines(t, lines[1..])
  }

  lemma {:induction false} LinesFrom(t: string, lines: seq<string>)
    requires |t| == 26 && forall k :: 0 <= k < |lines| ==> IsLine(lines[k])
    ensures EncipherFrom(t, "", true, Unlines(lines)) == CipherLines(t, lines)
    decreases |lines|
  {
    if lines != [] {
      var rest := Unlines(lines[1..]);
      LineFrom(t, "", lines[0], rest);
      assert Stream("") == "" && "" + lines[0] == lines[0];
      LinesFrom(t, lines[1..]);
    }
  }

  /** Every newline-terminated text whose first character has a code is enciphered line by line. */
  lemma EncipherLines(t: string, lines: seq<string>)
    requires |t| == 26 && lines != [] && forall k :: 0 <= k < |lines| ==> IsLine(lines[k])
    requires lines[0] != "" && Encodable(lines[0][0])
    ensures Encipher(t, Unlines(lines)) == CipherLines(t, lines)
  {
    var text := Unlines(lines);
    assert text[0] == lines[0][0] && |text| >= |lines[0]| + 1;
    LinesFrom(t, lines);
    assert "" + Emit(true, text[0]) == Code(text[0]);
  }
}
