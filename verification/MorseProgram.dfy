/** The two loops together: what the program prints, deciphered by the program. */
module MorseProgram {
  import opened MorseTables
  import opened MorseCodec
  import opened Sequences
  import opened MorseEncode
  import opened MorseDecode
  import opened MorseRoundTrip
  import opened MorseLead
  import opened MorseText
  import opened MorseOpen
  import MorseStream
  import opened MorseUnstream
  import opened KeyTable

  /** No seven signs in a row without a separator. */
  ghost predicate ShortRuns(s: string) {
    forall i, j :: 0 <= i <= j <= |s| && 'x' !in s[i..j] ==> j - i <= 6
  }

  lemma ShortOne(b: string)
    requires |b| <= 6
    ensures ShortRuns(b)
  {
  }

  lemma Within(s: string, i: nat, j: nat, m: nat)
    requires i <= m < j <= |s|
    ensures s[m] in s[i..j]
  {
    assert s[i..j][m - i] == s[m];
  }

  lemma SliceBehind(a: string, b: string, i: nat, j: nat)
    requires |a| <= i <= j <= |a| + |b|
    ensures (a + b)[i..j] == b[i - |a|..j - |a|]
  {
  }

  /** A separator keeps the runs around it apart. */
  lemma ShortJoin(a: string, sep: string, b: string)
    requires ShortRuns(a) && ShortRuns(b) && (sep == "x" || sep == "xx")
    ensures ShortRuns(a + sep + b)
  {
    var s := a + sep + b;
    forall i, j | 0 <= i <= j <= |s| && 'x' !in s[i..j]
      ensures j - i <= 6
    {
      assert s[|a|] == 'x';
      if j <= |a| {
        assert s[i..j] == a[i..j];
      } else if i >= |a| + |sep| {
        SliceBehind(a + sep, b, i, j);
      } else if i < j {
        Within(s, i, j, if i <= |a| then |a| else i);
      }
    }
  }

  lemma {:induction false} CoreShort(items: seq<Item>)
    requires Lettered(items)
    ensures ShortRuns(Core(items))
    decreases |items|
  {
    if items != [] {
      var n := |items| - 1;
      CodeShape(items[n].letter);
      LetterFound(items[n].letter);
      ShortOne(Code(items[n].letter));
      if n == 0 {
        NoMore(Code(items[n].letter));
      } else {
        CoreShort(items[..n]);
        CoreLast(items);
        ShortJoin(Core(items[..n]), LastGap(items), Code(items[n].letter));
      }
    }
  }

  lemma PaddedShort(items: seq<Item>)
    requires Lettered(items)
    ensures ShortRuns(Core(items) + Xs(Padding(|Core(items)|)))
  {
    CoreShort(items);
    var s := Core(items);
    PaddingXs(|s|);
    if |s| % 3 == 0 {
      NoMore(s);
    } else {
      ShortJoin(s, Xs(Padding(|s|)), "");
      NoMore(s + Xs(Padding(|s|)));
    }
  }

  /** The signs being read are the end of what has been read, and hold no separator. */
  ghost predicate Ends(signs: string, s: string) {
    |signs| <= |s| && s[|s| - |signs|..] == signs && 'x' !in signs
  }

  lemma {:induction false} SignsEnd(d: Reader, s: string, k: nat)
    requires d.ok && d.signs == "" && k < 3
    ensures Run(d, s, k).ok ==> Ends(Run(d, s, k).signs, s)
    decreases |s|
  {
    if s != "" {
      var n := |s| - 1;
      SignsEnd(d, s[..n], k);
      SignsStep(d, s[..n], s[n], k);
      assert s == s[..n] + [s[n]];
    }
  }

  lemma SignsStep(d: Reader, a: string, c: char, k: nat)
    requires k < 3 && (Run(d, a, k).ok ==> Ends(Run(d, a, k).signs, a))
    ensures Run(d, a + [c], k).ok ==> Ends(Run(d, a + [c], k).signs, a + [c])
  {
    var e, m := Run(d, a, k), (k + |a|) % 3;
    RunConcat(d, a, [c], k);
    if e.ok {
      SignAdded(e, a, c, m);
    } else {
      StoppedRun(e, [c], m);
    }
  }

  lemma SignAdded(e: Reader, s: string, c: char, k: nat)
    requires e.ok && Ends(e.signs, s)
    ensures Run(e, [c], k).ok ==> Ends(Run(e, [c], k).signs, s + [c])
  {
    assert [c][1..] == "";
    assert (s + [c])[|s| - |e.signs|..] == e.signs + [c];
    assert (s + [c])[|s| + 1..] == "";
  }

  lemma SignsShort(d: Reader, s: string, p: nat)
    requires d.ok && d.signs == "" && ShortRuns(s) && p <= |s|
    ensures Run(d, s[..p], 0).ok ==> |Run(d, s[..p], 0).signs| <= 6
  {
    SignsEnd(d, s[..p], 0);
    var e := Run(d, s[..p], 0);
    if e.ok {
      assert s[p - |e.signs|..p] == s[..p][p - |e.signs|..];
    }
  }

  // ---------- the decipher buffer never runs full on enciphered text ----------

  lemma {:induction false} ModestStream(t: string, d: Reader, u: string, p: nat, rest: string, careful: bool)
    requires IsTable(t) && '\n' !in t && d.ok && d.signs == "" && p <= |u| && p % 3 == |u| % 3 == 0
    requires AllSigns(u) && NoXxx(u) && ShortRuns(u)
    requires Modest(t, Run(d, u, 0), rest, careful)
    ensures Modest(t, Run(d, u[..p], 0), Cipher(t, u[p..]) + rest, careful)
    decreases |u| - p
  {
    if p == |u| {
      assert u[..p] == u;
      NoMore(rest);
    } else {
      SignsShort(d, u, p);
      ModestStream(t, d, u, p + 3, rest, careful);
      NextCipher(t, u, p, rest);
      NextTriple(t, d, u, p, careful);
    }
  }

  /** The three signs from p on are no separators only. */
  lemma TripleAt(u: string, p: nat)
    requires p + 3 <= |u| && AllSigns(u) && NoXxx(u)
    ensures AllSigns(u[p..p + 3]) && u[p..p + 3] != "xxx"
  {
    var a := u[p..p + 3];
    assert u[p] != 'x' || u[p + 1] != 'x' || u[p + 2] != 'x';
    assert a[0] == u[p] && a[1] == u[p + 1] && a[2] == u[p + 2];
  }

  lemma NextCipher(t: string, u: string, p: nat, rest: string)
    requires IsTable(t) && p + 3 <= |u| && AllSigns(u) && NoXxx(u)
    ensures var s := Cipher(t, u[p..]) + rest; var c := CipherOne(t, u[p..p + 3]);
            |c| == 1 && s != "" && s[0] == c[0] && s[1..] == Cipher(t, u[p + 3..]) + rest
  {
    var a, b := u[p..p + 3], u[p + 3..];
    TripleAt(u, p);
    TripleRead(t, a);
    assert u[p..] == a + b;
    CipherCons(t, a, b);
    Assoc(CipherOne(t, a), Cipher(t, b), rest);
    OneFront(CipherOne(t, a), Cipher(t, b) + rest);
  }

  lemma OneFront(c: string, rest: string)
    requires |c| == 1
    ensures (c + rest)[0] == c[0] && (c + rest)[1..] == rest
  {
  }

  lemma NextTriple(t: string, d: Reader, u: string, p: nat, careful: bool)
    requires IsTable(t) && '\n' !in t && p + 3 <= |u| && p % 3 == 0 && AllSigns(u) && NoXxx(u)
    ensures var c := CipherOne(t, u[p..p + 3]);
            |c| == 1 && ReadChar(t, Run(d, u[..p], 0), c[0], careful) == Run(d, u[..p + 3], 0)
  {
    var a, e := u[p..p + 3], Run(d, u[..p], 0);
    TripleAt(u, p);
    CipherOneRead(t, e, a, careful);
    RunOn(d, u[..p], a, e, Run(e, a, 0));
    assert u[..p + 3] == u[..p] + a;
  }

  lemma ModestLine(t: string, out: string, line: string, rest: string, careful: bool)
    requires IsTable(t) && '\n' !in t && IsLine(line)
    requires Modest(t, Reader(out + Shown(Items(line, false), careful) + "\n", "", false, true), rest, careful)
    ensures Modest(t, Reader(out, "", false, true), CipherLine(t, line) + "\n" + rest, careful)
  {
    var items := Items(line, false);
    ItemsLettered(line);
    RunLine(out, items, careful);
    ModestItems(t, Reader(out, "", false, true), items, rest, careful);
    Assoc(CipherLine(t, line), "\n", rest);
  }

  lemma ModestItems(t: string, d: Reader, items: seq<Item>, rest: string, careful: bool)
    requires IsTable(t) && '\n' !in t && d.ok && d.signs == "" && Lettered(items)
    requires var e := Run(d, Core(items) + Xs(Padding(|Core(items)|)), 0);
             e.ok && Modest(t, EndLine(e, careful), rest, careful)
    ensures Modest(t, d, Cipher(t, Core(items) + Xs(Padding(|Core(items)|))) + ("\n" + rest), careful)
  {
    PaddedShape(items);
    PaddedShort(items);
    ModestUpTo(t, d, Core(items) + Xs(Padding(|Core(items)|)), rest, careful);
  }

  lemma PaddedShape(items: seq<Item>)
    requires Lettered(items)
    ensures var u := Core(items) + Xs(Padding(|Core(items)|)); |u| % 3 == 0 && AllSigns(u) && NoXxx(u)
  {
    CoreShape(items);
    XsShape(Core(items), Padding(|Core(items)|));
    PaddedLength(|Core(items)|);
  }

  lemma PaddedLength(n: nat)
    ensures (n + Padding(n)) % 3 == 0
  {
  }

  lemma ModestUpTo(t: string, d: Reader, u: string, rest: string, careful: bool)
    requires IsTable(t) && '\n' !in t && d.ok && d.signs == "" && |u| % 3 == 0
    requires AllSigns(u) && NoXxx(u) && ShortRuns(u) && Run(d, u, 0).ok
    requires Modest(t, EndLine(Run(d, u, 0), careful), rest, careful)
    ensures Modest(t, d, Cipher(t, u) + ("\n" + rest), careful)
  {
    assert u[..|u|] == u && u[..0] == "" && u[0..] == u;
    SignsShort(d, u, |u|);
    ModestEnd(t, Run(d, u, 0), rest, careful);
    ModestStream(t, d, u, 0, "\n" + rest, careful);
  }

  lemma ModestEnd(t: string, e: Reader, rest: string, careful: bool)
    requires e.ok && |e.signs| <= 6 && Modest(t, EndLine(e, careful), rest, careful)
    ensures Modest(t, e, "\n" + rest, careful)
  {
    Front("\n", rest);
    NoMore(rest);
  }

  lemma {:induction false} ModestLines(t: string, out: string, lines: seq<string>, careful: bool)
    requires IsTable(t) && '\n' !in t && forall k :: 0 <= k < |lines| ==> IsLine(lines[k])
    ensures Modest(t, Reader(out, "", false, true), CipherLines(t, lines), careful)
    decreases |lines|
  {
    if lines != [] {
      ModestLines(t, out + Shown(Items(lines[0], false), careful) + "\n", lines[1..], careful);
      ModestLine(t, out, lines[0], CipherLines(t, lines[1..]), careful);
    }
  }

  /** A led line keeps to the same bounds. */
  lemma ModestLed(t: string, line: string, rest: string, careful: bool)
    requires IsTable(t) && '\n' !in t && IsLine(line) && Starts(line)
    requires Modest(t, Reader(ShownLed(line, careful) + "\n", "", false, true), rest, careful)
    ensures Modest(t, START, CipherLed(t, line) + "\n" + rest, careful)
  {
    LedRun(line, careful);
    LedSignsShape(line);
    LedShape(line);
    PaddedShort(Behind(Items(line, true)));
    ShortSuffix("...", LedSigns(line));
    ModestUpTo(t, START, LedSigns(line), rest, careful);
    Assoc(CipherLed(t, line), "\n", rest);
  }

  lemma ShortSuffix(a: string, b: string)
    requires ShortRuns(a + b)
    ensures ShortRuns(b)
  {
    forall i, j | 0 <= i <= j <= |b| && 'x' !in b[i..j] ensures j - i <= 6 {
      assert (a + b)[|a| + i..|a| + j] == b[i..j];
    }
  }

  lemma ModestText(t: string, lines: seq<string>, careful: bool)
    requires IsTable(t) && '\n' !in t && IsText(lines)
    ensures Modest(t, START, CipherText(t, lines), careful)
  {
    if Starts(lines[0]) {
      ModestLines(t, "", lines, careful);
    } else {
      TailText(lines);
      var rest := Tail(lines);
      if rest != [] && Starts(rest[0]) {
        ModestLines(t, ShownLed(rest[0], careful) + "\n", rest[1..], careful);
        ModestLed(t, rest[0], CipherLines(t, rest[1..]), careful);
      } else {
        ModestLines(t, "", rest, careful);
      }
    }
  }

  // ---------- nor on a text without a last newline ----------

  lemma {:induction false} ModestConcat(t: string, d: Reader, a: string, b: string, careful: bool)
    requires Modest(t, d, a, careful) && Modest(t, ReadAll(t, d, a, careful), b, careful)
    ensures Modest(t, d, a + b, careful)
    decreases |a|
  {
    if a == "" {
      NoMore(b);
    } else {
      Front(a, b);
      if d.ok {
        ModestConcat(t, ReadChar(t, d, a[0], careful), a[1..], b, careful);
      }
    }
  }

  lemma ShortPrefix(a: string, b: string)
    requires ShortRuns(a) && b <= a
    ensures ShortRuns(b)
  {
    forall i, j | 0 <= i <= j <= |b| && 'x' !in b[i..j] ensures j - i <= 6 {
      assert b[i..j] == a[i..j];
    }
  }

  lemma ModestCut(t: string, d: Reader, s: string, careful: bool)
    requires IsTable(t) && '\n' !in t && d.ok && d.signs == "" && AllSigns(s) && NoXxx(s) && ShortRuns(s)
    ensures Modest(t, d, Cipher(t, s), careful)
  {
    var u := Cut(s);
    CipherCut(t, s);
    CutShape(s);
    ShortPrefix(s, u);
    assert u[..|u|] == u && u[..0] == "" && u[0..] == u;
    SignsShort(d, u, |u|);
    ModestStream(t, d, u, 0, "", careful);
    NoMore(Cipher(t, u));
  }

  lemma StreamShort(line: string)
    requires IsLine(line)
    ensures ShortRuns(Stream(line))
  {
    var items := Items(line, false);
    ItemsLettered(line);
    CoreShort(items);
    if items != [] && AfterBlank(line) {
      ShortJoin(Core(items), "xx", "");
      NoMore(Core(items) + "xx");
    } else {
      NoMore(Core(items));
    }
  }

  lemma OpenShort(line: string)
    requires IsLine(line)
    ensures ShortRuns(OpenStream(line))
  {
    if Starts(line) {
      BehindLine(line);
      BehindStream(line);
      StreamShort("S " + line);
      ShortSuffix("...", OpenStream(line));
    } else {
      StreamShort(line);
    }
  }

  lemma ModestOpen(t: string, lines: seq<string>, last: string, careful: bool)
    requires IsTable(t) && '\n' !in t && IsOpen(lines, last)
    ensures Modest(t, START, CipherOpen(t, lines, last), careful)
  {
    StreamShape(last);
    StreamShort(last);
    if lines == [] || lines == [""] {
      var line := if lines == [""] then last else last[1..];
      OpenShape(line);
      OpenShort(line);
      ModestCut(t, START, OpenStream(line), careful);
      ModestCut(t, START, Stream(last), careful);
    } else {
      ModestText(t, lines, careful);
      BackRead(t, lines, careful);
      ModestCut(t, Reader(Back(lines, careful), "", false, true), Stream(last), careful);
      ModestConcat(t, START, CipherText(t, lines), Cipher(t, Stream(last)), careful);
    }
  }

  // ---------- encrypting and decrypting with a key ----------

  const ALPHABET := "ABCDEFGHIJKLMNOPQRSTUVWXYZ"

  lemma TableOfKey(key: string)
    requires Drawn(key, ALPHABET)
    ensures IsTable(key + Minus(ALPHABET, key)) && '\n' !in key + Minus(ALPHABET, key)
  {
    TableIsPermutation(key, ALPHABET);
    LettersOnly(key + Minus(ALPHABET, key));
  }

  lemma LettersOnly(table: string)
    requires multiset(table) == multiset(ALPHABET) && |table| == |ALPHABET|
    ensures |table| == 26 && '\n' !in table
  {
    if '\n' in table {
      assert '\n' in multiset(table);
      assert '\n' in multiset(ALPHABET);
      InAlphabet('\n');
    }
  }

  lemma InAlphabet(c: char)
    requires c in ALPHABET
    ensures 'A' <= c <= 'Z'
  {
  }

  lemma {:induction false} UnlinesInRange(lines: seq<string>)
    requires forall k :: 0 <= k < |lines| ==> IsLine(lines[k])
    ensures forall i :: 0 <= i < |Unlines(lines)| ==> Plain(Unlines(lines)[i])
    decreases |lines|
  {
    if lines != [] {
      UnlinesInRange(lines[1..]);
    }
  }

  lemma {:induction false} CipherLetters(t: string, s: string)
    requires |t| == 26
    ensures forall i :: 0 <= i < |Cipher(t, s)| ==> Cipher(t, s)[i] in t
    decreases |s|
  {
    if |s| >= 3 {
      CipherLetters(t, s[3..]);
    }
  }

  /** What is printed are letters of the table and newlines. */
  lemma {:induction false} PrintedLetters(t: string, stream: string, last: bool, rest: string)
    requires |t| == 26
    ensures forall i :: 0 <= i < |EncipherFrom(t, stream, last, rest)| ==>
              EncipherFrom(t, stream, last, rest)[i] == '\n' || EncipherFrom(t, stream, last, rest)[i] in t
    decreases |rest|
  {
    if rest == "" {
      CipherLetters(t, stream);
    } else {
      var c := rest[0];
      if !Plain(c) {
        CipherLetters(t, if last then stream else stream + "x");
      } else if c == '\n' {
        CipherLetters(t, stream + Emit(last, c));
        PrintedLetters(t, "", true, rest[1..]);
      } else {
        PrintedLetters(t, stream + Emit(last, c), Blank(c), rest[1..]);
      }
    }
  }

  /** The text the program is given: lines, and what stands behind the last newline. */
  function Text(lines: seq<string>, last: string): string { Unlines(lines) + last }

  lemma TextInRange(lines: seq<string>, last: string)
    requires IsLine(last) && forall k :: 0 <= k < |lines| ==> IsLine(lines[k])
    ensures forall i :: 0 <= i < |Text(lines, last)| ==> Plain(Text(lines, last)[i])
  {
    UnlinesInRange(lines);
  }

  /** What comes back is modest to read, and right or wrong as proved for both kinds of text. */
  lemma ComesBack(t: string, lines: seq<string>, last: string, careful: bool)
    requires IsTable(t) && '\n' !in t && (IsOpen(lines, last) || (last == "" && IsText(lines)))
    ensures var c := Encipher(t, Text(lines, last));
            Modest(t, START, c, careful) && Decipher(t, c, careful).ok
    ensures var out := Decipher(t, Encipher(t, Text(lines, last)), careful).out;
            if last != "" then out == SqueezedText(lines, last) <==> KeptOpen(lines, last, careful)
            else out == Back(lines, careful) && (out == SqueezedLines(lines) <==> Kept(lines, careful))
  {
    if last == "" {
      NoMore(Unlines(lines));
      EncipherAny(t, lines);
      ModestText(t, lines, careful);
      RoundTrip(t, lines, careful);
    } else {
      EncipherOpen(t, lines, last);
      ModestOpen(t, lines, last, careful);
      OpenRoundTrip(t, lines, last, careful);
    }
  }

  /** A run of the program with -e and a run with -d on what it printed, under the same key: for every text of letters,
      blanks and newlines exactly when it comes back squeezed, and if it ends with a newline what comes back. */
  method ThereAndBack(key: string, lines: seq<string>, last: string, careful: bool) returns (back: string)
    requires Drawn(key, ALPHABET) && (IsOpen(lines, last) || (last == "" && IsText(lines)))
    ensures last == "" ==> back == Back(lines, careful) && (back == SqueezedLines(lines) <==> Kept(lines, careful))
    ensures last != "" ==> (back == SqueezedText(lines, last) <==> KeptOpen(lines, last, careful))
  {
    var fm_key := new char[27];
    GenerateMorseTable(key, ALPHABET, fm_key);
    var t := fm_key[..26];
    TableOfKey(key);
    var text := Text(lines, last);
    TextInRange(lines, last);
    var ok, cipher := MorseStream.EncryptText(t, text);
    if |text| > 1 {
      PrintedLetters(t, Code(text[0]), false, text[1..]);
    }
    ComesBack(t, lines, last, careful);
    var ok', out := DecryptText(t, cipher, careful);
    back := out;
  }
}
