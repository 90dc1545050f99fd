/** The constant tables of the fractionated Morse cipher and the facts its inverse rests on. */
module MorseTables {

  /** Entry i of morse_table is the code of the character i places after '!'; "" where there is none. */
  function Morse(i: int): string {
    match i
    case 0 => "-.-.--"
    case 1 => ".-..-."
    case 6 => ".----."
    case 7 => "-.--."
    case 8 => "-.--.-"
    case 11 => "--..--"
    case 12 => "-....-"
    case 13 => ".-.-.-"
    case 15 => "-----"
    case 16 => ".----"
    case 17 => "..---"
    case 18 => "...--"
    case 19 => "....-"
    case 20 => "....."
    case 21 => "-...."
    case 22 => "--..."
    case 23 => "---.."
    case 24 => "----."
    case 25 => "---..."
    case 26 => "-.-.-."
    case 28 => "-...-"
    case 30 => "..--.."
    case 31 => ".--.-."
    case 32 => ".-"
    case 33 => "-..."
    case 34 => "-.-."
    case 35 => "-.."
    case 36 => "."
    case 37 => "..-."
    case 38 => "--."
    case 39 => "...."
    case 40 => ".."
    case 41 => ".---"
    case 42 => "-.-"
    case 43 => ".-.."
    case 44 => "--"
    case 45 => "-."
    case 46 => "---"
    case 47 => ".--."
    case 48 => "--.-"
    case 49 => ".-."
    case 50 => "..."
    case 51 => "-"
    case 52 => "..-"
    case 53 => "...-"
    case 54 => ".--"
    case 55 => "-..-"
    case 56 => "-.--"
    case 57 => "--.."
    case _ => ""
  }

  const SEARCHED := 89     // 'z' - '!', how far the decoder looks

  /** Entry i of fractionated_table. */
  function Frac(i: int): string {
    match i
    case 0 => "..."
    case 1 => "..-"
    case 2 => "..x"
    case 3 => ".-."
    case 4 => ".--"
    case 5 => ".-x"
    case 6 => ".x."
    case 7 => ".x-"
    case 8 => ".xx"
    case 9 => "-.."
    case 10 => "-.-"
    case 11 => "-.x"
    case 12 => "--."
    case 13 => "---"
    case 14 => "--x"
    case 15 => "-x."
    case 16 => "-x-"
    case 17 => "-xx"
    case 18 => "x.."
    case 19 => "x.-"
    case 20 => "x.x"
    case 21 => "x-."
    case 22 => "x--"
    case 23 => "x-x"
    case 24 => "xx."
    case 25 => "xx-"
    case _ => ""
  }

  // ---------- Morse codes tell letters apart ----------

  function Bit(c: char): nat {
    if c == '-' then 1 else 0
  }

  /** A code of up to six signs read as a binary number behind a leading one. */
  function Value(s: string): nat {
    if |s| == 1 then 2 + Bit(s[0])
    else if |s| == 2 then 4 + 2 * Bit(s[0]) + Bit(s[1])
    else if |s| == 3 then 8 + 4 * Bit(s[0]) + 2 * Bit(s[1]) + Bit(s[2])
    else if |s| == 4 then 16 + 8 * Bit(s[0]) + 4 * Bit(s[1]) + 2 * Bit(s[2]) + Bit(s[3])
    else if |s| == 5 then 32 + 16 * Bit(s[0]) + 8 * Bit(s[1]) + 4 * Bit(s[2]) + 2 * Bit(s[3]) + Bit(s[4])
    else if |s| == 6 then 64 + 32 * Bit(s[0]) + 16 * Bit(s[1]) + 8 * Bit(s[2]) + 4 * Bit(s[3]) + 2 * Bit(s[4]) + Bit(s[5])
    else 0
  }

  /** The entry whose code has this value. */
  function EntryOf(v: nat): int {
    match v
    case 2 => 36
    case 3 => 51
    case 4 => 40
    case 5 => 32
    case 6 => 45
    case 7 => 44
    case 8 => 50
    case 9 => 52
    case 10 => 49
    case 11 => 54
    case 12 => 35
    case 13 => 42
    case 14 => 38
    case 15 => 46
    case 16 => 39
    case 17 => 53
    case 18 => 37
    case 20 => 43
    case 22 => 47
    case 23 => 41
    case 24 => 33
    case 25 => 55
    case 26 => 34
    case 27 => 56
    case 28 => 57
    case 29 => 48
    case 32 => 20
    case 33 => 19
    case 35 => 18
    case 39 => 17
    case 47 => 16
    case 48 => 21
    case 49 => 28
    case 54 => 7
    case 56 => 22
    case 60 => 23
    case 62 => 24
    case 63 => 15
    case 76 => 30
    case 82 => 1
    case 85 => 13
    case 90 => 31
    case 94 => 6
    case 97 => 12
    case 106 => 26
    case 107 => 0
    case 109 => 8
    case 115 => 11
    case 120 => 25
    case _ => -1
  }

  /** Codes have one to six signs, all dots and dashes. */
  predicate IsCode(s: string) {
    1 <= |s| <= 6 && forall k :: 0 <= k < |s| ==> s[k] == '.' || s[k] == '-'
  }

  lemma CodeFacts(i: int)
    requires Morse(i) != ""
    ensures IsCode(Morse(i)) && 0 <= i < SEARCHED && EntryOf(Value(Morse(i))) == i
  {
    if i < 22 {
      MarkFacts(i);
    } else if i < 40 {
      MiddleFacts(i);
    } else {
      LetterFacts(i);
    }
  }

  lemma MarkFacts(i: int)
    requires Morse(i) != "" && i < 22
    ensures IsCode(Morse(i)) && 0 <= i && EntryOf(Value(Morse(i))) == i
  {
  }

  lemma MiddleFacts(i: int)
    requires Morse(i) != "" && 22 <= i < 40
    ensures IsCode(Morse(i)) && EntryOf(Value(Morse(i))) == i
  {
  }

  lemma LetterFacts(i: int)
    requires Morse(i) != "" && 40 <= i
    ensures IsCode(Morse(i)) && i < SEARCHED && EntryOf(Value(Morse(i))) == i
  {
  }

  /** No two characters share a code. */
  lemma MorseInjective(i: int, j: int)
    requires Morse(i) != "" && Morse(i) == Morse(j)
    ensures i == j
  {
    CodeFacts(i);
    CodeFacts(j);
  }

  function CodeOf(c: char): string { Morse(c as int - '!' as int) }

  /** The letters have the codes of the international alphabet. */
  lemma LetterCodes()
    ensures CodeOf('A') == ".-" && CodeOf('B') == "-..." && CodeOf('C') == "-.-." && CodeOf('D') == "-.."
    ensures CodeOf('E') == "." && CodeOf('F') == "..-." && CodeOf('G') == "--." && CodeOf('H') == "...."
    ensures CodeOf('I') == ".." && CodeOf('J') == ".---" && CodeOf('K') == "-.-" && CodeOf('L') == ".-.."
    ensures CodeOf('M') == "--" && CodeOf('N') == "-." && CodeOf('O') == "---" && CodeOf('P') == ".--."
    ensures CodeOf('Q') == "--.-" && CodeOf('R') == ".-." && CodeOf('S') == "..." && CodeOf('T') == "-"
    ensures CodeOf('U') == "..-" && CodeOf('V') == "...-" && CodeOf('W') == ".--" && CodeOf('X') == "-..-"
    ensures CodeOf('Y') == "-.--" && CodeOf('Z') == "--.."
  {
  }

  /** A digit up to five has as many dots first and then dashes, a digit from six on and zero as many dashes as it is
      above five and then dots. */
  lemma DigitCodes(n: nat)
    requires n < 10
    ensures var s := CodeOf(('0' as int + n) as char);
            |s| == 5 && forall k :: 0 <= k < 5 ==>
              s[k] == if n == 0 then '-' else if n <= 5 then (if k < n then '.' else '-')
                      else (if k < n - 5 then '-' else '.')
  {
  }

  // ---------- triples ----------

  function Digit(c: char): nat {
    if c == '.' then 0 else if c == '-' then 1 else 2
  }

  predicate IsSign(c: char) {
    c == '.' || c == '-' || c == 'x'
  }

  /** fractionated_table lists the triples over '.', '-', 'x' in order, all but "xxx". */
  lemma FracIsBase3(a: char, b: char, c: char)
    requires IsSign(a) && IsSign(b) && IsSign(c)
    ensures var i := 9 * Digit(a) + 3 * Digit(b) + Digit(c);
            if a == b == c == 'x' then i == 26 && Frac(i) == "" else i < 26 && Frac(i) == [a, b, c]
  {
  }

  lemma FracFacts(i: nat)
    requires i < 26
    ensures |Frac(i)| == 3 && IsSign(Frac(i)[0]) && IsSign(Frac(i)[1]) && IsSign(Frac(i)[2])
    ensures 9 * Digit(Frac(i)[0]) + 3 * Digit(Frac(i)[1]) + Digit(Frac(i)[2]) == i
  {
  }

  lemma FracInjective(i: nat, j: nat)
    requires i < 26 && j < 26 && Frac(i) == Frac(j)
    ensures i == j
  {
    FracFacts(i);
    FracFacts(j);
  }
}
