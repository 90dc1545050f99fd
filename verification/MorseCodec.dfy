/** The fractionated Morse cipher in batch form, its decoder as a machine over signs, and what comes back. */
module MorseCodec {
  import opened MorseTables

  // ---------- enciphering ----------

  predicate IsTable(t: string) {
    |t| == 26 && forall i, j :: 0 <= i < j < 26 ==> t[i] != t[j]
  }

  /** The first entry of fractionated_table from i on that equals s; 26 if there is none. */
  function TripleFrom(s: string, i: nat): (r: nat)
    requires i <= 26
    ensures i <= r <= 26 && (r < 26 ==> Frac(r) == s)
    ensures forall k :: i <= k < r ==> Frac(k) != s
    decreases 26 - i
  {
    if i == 26 || Frac(i) == s then i else TripleFrom(s, i + 1)
  }

  /** The cipher letter of one triple; nothing is printed for a triple the table does not have. */
  function CipherOne(t: string, s: string): string
    requires |t| == 26
  {
    if TripleFrom(s, 0) < 26 then [t[TripleFrom(s, 0)]] else ""
  }

  /** The stream cut into triples; the residue is dropped. */
  function Cipher(t: string, s: string): string
    requires |t| == 26
  {
    if |s| < 3 then "" else CipherOne(t, s[..3]) + Cipher(t, s[3..])
  }

  predicate Blank(c: char) {
    c == ' ' || c == '\t'
  }

  /** Characters with a Morse code. */
  predicate Encodable(c: char) {
    '!' <= c <= 'z' && Morse(c as int - '!' as int) != ""
  }

  /** These are letters, digits and thirteen marks. */
  lemma EncodableChars(c: char)
    ensures Encodable(c) <==>
            'A' <= c <= 'Z' || '0' <= c <= '9' || ',' <= c <= '.' || '\'' <= c <= ')'
            || c == '!' || c == '"' || c == ':' || c == ';' || c == '=' || c == '?' || c == '@'
  {
    if '!' <= c <= 'z' {
      var i := c as int - '!' as int;
      assert c == ('!' as int + i) as char;
    }
  }

  function Code(c: char): string {
    if Blank(c) || c == '\n' then "x" else Morse(c as int - '!' as int)
  }

  /** What one character adds to the stream of its line; last says that the one before was blank or a line start. */
  function Emit(last: bool, c: char): string {
    if !last then "x" + Code(c) else if Blank(c) then "" else Code(c)
  }

  predicate Plain(c: char) {
    c == '\n' || Blank(c) || Encodable(c)
  }

  /** The output for rest when the current line has put stream together so far. A character without a code
      ends the program; by then a separator due before it has been added. */
  function EncipherFrom(t: string, stream: string, last: bool, rest: string): string
    requires |t| == 26
    decreases |rest|
  {
    if rest == "" then Cipher(t, stream)
    else
      var c := rest[0];
      if !Plain(c) then Cipher(t, if last then stream else stream + "x")
      else if c == '\n' then Cipher(t, stream + Emit(last, c)) + "\n" + EncipherFrom(t, "", true, rest[1..])
      else EncipherFrom(t, stream + Emit(last, c), Blank(c), rest[1..])
  }

  /** The first character is put on the stream as if nothing had to be separated from it;
      a text of one character ends before anything is printed. */
  function Encipher(t: string, text: string): string
    requires |t| == 26
  {
    if |text| <= 1 || !Plain(text[0]) then "" else EncipherFrom(t, Code(text[0]), false, text[1..])
  }

  // ---------- deciphering ----------

  /** What has been printed, the signs of the letter being read, and whether a word gap waits to be printed. */
  datatype Reader = Reader(out: string, signs: string, gap: bool, ok: bool)

  /** The first entry of morse_table from i on that equals s; 89 if there is none. */
  function LetterFrom(s: string, i: nat): (r: nat)
    requires i <= SEARCHED
    ensures i <= r <= SEARCHED && (r < SEARCHED ==> Morse(r) == s)
    ensures forall k :: i <= k < r ==> Morse(k) != s
    decreases SEARCHED - i
  {
    if i == SEARCHED || Morse(i) == s then i else LetterFrom(s, i + 1)
  }

  function PrintGap(d: Reader): Reader {
    if d.gap then d.(out := d.out + " ", gap := false) else d
  }

  /** Prints the letter whose signs have been read; signs that are no letter end the program. */
  function PrintLetter(d: Reader): Reader {
    var i := LetterFrom(d.signs, 0);
    if i < SEARCHED then d.(out := d.out + [('!' as int + i) as char], signs := "") else d.(ok := false)
  }

  function ReadSign(d: Reader, c: char): Reader {
    if !d.ok then d
    else if c != 'x' then d.(signs := d.signs + [c])
    else if d.signs == "" then d.(gap := true)
    else PrintLetter(PrintGap(d))
  }

  function ReadSigns(d: Reader, s: string): Reader
    decreases |s|
  {
    if s == "" then d else ReadSigns(ReadSign(d, s[0]), s[1..])
  }

  lemma {:induction false} StoppedReading(d: Reader, s: string)
    requires !d.ok
    ensures ReadSigns(d, s) == d
    decreases |s|
  {
    if s != "" {
      StoppedReading(d, s[1..]);
    }
  }

  /** The place of c in the table. */
  function PlaceOf(t: string, c: char, i: nat): (r: nat)
    requires i <= |t|
    ensures i <= r <= |t| && (r < |t| ==> t[r] == c) && forall k :: i <= k < r ==> t[k] != c
    decreases |t| - i
  {
    if i == |t| || t[i] == c then i else PlaceOf(t, c, i + 1)
  }

  /** A line end prints the letter still being read; careful prints a waiting gap before it,
      which the program as written does not. */
  function EndLine(d: Reader, careful: bool): Reader {
    var e := if d.signs == "" then d else PrintLetter(if careful then PrintGap(d) else d);
    if e.ok then Reader(e.out + "\n", "", false, true) else e.(signs := "")
  }

  function ReadChar(t: string, d: Reader, c: char, careful: bool): Reader {
    if !d.ok then d
    else if c == '\n' then EndLine(d, careful)
    else ReadSigns(PrintGap(d), Frac(PlaceOf(t, c, 0)))
  }

  function ReadAll(t: string, d: Reader, s: string, careful: bool): Reader
    decreases |s|
  {
    if s == "" then d else ReadAll(t, ReadChar(t, d, s[0], careful), s[1..], careful)
  }

  const START: Reader := Reader("", "", false, true)

  function Decipher(t: string, s: string, careful: bool): Reader {
    ReadAll(t, START, s, careful)
  }

  // ---------- lines ----------

  /** A letter of a line, and whether blanks stand between it and the one before. */
  datatype Item = Item(gap: bool, letter: char)

  function Items(line: string, gap: bool): seq<Item> {
    if line == "" then []
    else if Blank(line[0]) then Items(line[1..], true)
    else [Item(gap, line[0])] + Items(line[1..], false)
  }

  predicate IsLine(line: string) {
    forall k :: 0 <= k < |line| ==> Blank(line[k]) || Encodable(line[k])
  }

  /** The signs of a line: an x between letters, two between words. */
  function Core(items: seq<Item>): string {
    if items == [] then ""
    else
      var n := |items| - 1;
      var before := if n == 0 then "" else Core(items[..n]) + (if items[n].gap then "xx" else "x");
      before + Code(items[n].letter)
  }

  /** The line with every run of blanks between letters made one space, and none at its ends. */
  function Squeezed(items: seq<Item>): string {
    if items == [] then ""
    else
      var n := |items| - 1;
      Squeezed(items[..n]) + (if n > 0 && items[n].gap then " " else "") + [items[n].letter]
  }

  function Xs(n: nat): string {
    seq(n, _ => 'x')
  }

  /** Separators up to the next multiple of three. */
  function Padding(n: nat): nat {
    (3 - n % 3) % 3
  }

  // ---------- strings ----------

  lemma Front(a: string, b: string)
    requires a != ""
    ensures (a + b)[0] == a[0] && (a + b)[1..] == a[1..] + b
  {
  }

  lemma NoMore(a: string)
    ensures a + "" == a && "" + a == a
  {
  }
}
