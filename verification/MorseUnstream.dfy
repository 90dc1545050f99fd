/** The decipher loop of the program: cipher letters become signs in a buffer, and letters are cut off it. */
module MorseUnstream {
  import opened MorseTables
  import opened MorseCodec
  import opened Sequences
  import opened MorseStream

  /** getindex: where the first separator stands, or -1. */
  method FindX(buffer: array<char>, ghost s: string) returns (index: int)
    requires Contains(buffer, s)
    ensures index == -1 ==> 'x' !in s
    ensures index != -1 ==> 0 <= index < |s| && s[index] == 'x' && 'x' !in s[..index]
  {
    var i := 0;
    while i < buffer.Length && buffer[i] != 'x'
      invariant i <= buffer.Length
      invariant forall k :: 0 <= k < i ==> buffer[k] != 'x'
    {
      i := i + 1;
    }
    if i == buffer.Length {
      index := -1;
      assert forall k :: 0 <= k < |s| ==> s[k] == buffer[k];
    } else {
      index := i;
      assert forall k :: 0 <= k < |s| ==> s[k] == buffer[k];
    }
  }

  /** The string up to the first zero of the buffer is s. */
  ghost predicate Begins(buffer: array<char>, s: string)
    reads buffer
  {
    |s| < buffer.Length && buffer[..|s|] == s && buffer[|s|] == '\0' && NoZero(s)
  }

  /** The comparison loop: both strings end together. */
  method SameSigns(buffer: array<char>, code: string, ghost s: string) returns (equal: bool)
    requires Begins(buffer, s) && s != "" && NoZero(code)
    ensures equal <==> s == code
  {
    var j := 0;
    equal := false;
    while j < |code| && buffer[j] != '\0'
      invariant j <= |code| && j <= |s| && s[..j] == code[..j]
      invariant j == |s| ==> |code| > |s|
      decreases |code| - j
    {
      assert buffer[j] == s[j];
      if buffer[j] != code[j] {
        return;
      }
      assert s[..j + 1] == s[..j] + [s[j]] && code[..j + 1] == code[..j] + [code[j]];
      if buffer[j + 1] == '\0' && j + 1 == |code| {
        assert |s| == j + 1 && s[..j + 1] == s && code[..j + 1] == code;
        equal := true;
        return;
      }
      j := j + 1;
    }
  }

  /** The search through morse_table. */
  method FindLetter(buffer: array<char>, ghost s: string) returns (i: nat)
    requires Begins(buffer, s) && s != ""
    ensures i == LetterFrom(s, 0)
  {
    i := 0;
    while i < SEARCHED
      invariant i <= SEARCHED && LetterFrom(s, 0) == LetterFrom(s, i)
    {
      if Morse(i) != "" {
        CodeFacts(i);
      }
      var equal := SameSigns(buffer, Morse(i), s);
      if equal {
        return;
      }
      i := i + 1;
    }
  }

  /** Cuts the first n + 1 signs off the buffer, the last of which has been zeroed. */
  method CutOff(buffer: array<char>, n: nat, ghost s: string)
    requires n < |s| <= buffer.Length && NoZero(s)
    requires forall k :: 0 <= k < buffer.Length ==> buffer[k] == if k < |s| && k != n then s[k] else '\0'
    modifies buffer
    ensures Contains(buffer, s[n + 1..])
  {
    var count := n + 1;
    while count < buffer.Length && buffer[count] != '\0'
      invariant n < count <= |s|
    {
      count := count + 1;
    }
    ghost var rest := s[n + 1..];
    for j := 0 to count
      invariant forall k :: 0 <= k < j ==> buffer[k] == if k < |rest| then rest[k] else '\0'
      invariant forall k :: j <= k < buffer.Length ==> buffer[k] == if k < |s| && k != n then s[k] else '\0'
    {
      if j + n + 1 < count {
        buffer[j] := buffer[n + 1 + j];
      } else {
        buffer[j] := '\0';
      }
    }
  }

  // ---------- one cipher character ----------

  lemma {:induction false} ReadPlain(d: Reader, u: string, f: string)
    requires d.ok && 'x' !in u
    ensures ReadSigns(d, u + f) == ReadSigns(d.(signs := d.signs + u), f)
    decreases |u|
  {
    if u == "" {
      NoMore(f);
      NoMore(d.signs);
    } else {
      Front(u, f);
      ReadPlain(ReadSign(d, u[0]), u[1..], f);
      Assoc(d.signs, [u[0]], u[1..]);
      assert u == [u[0]] + u[1..];
    }
  }

  /** The first separator in the buffer at n: the signs before it end a letter, or there are none and a gap begins. */
  lemma ReadToX(d: Reader, s: string, n: nat)
    requires d.ok && d.signs == "" && n < |s| && s[n] == 'x' && 'x' !in s[..n]
    ensures ReadSigns(d, s) ==
            ReadSigns(if n == 0 then d.(gap := true) else PrintLetter(PrintGap(d.(signs := s[..n]))), s[n + 1..])
  {
    assert s == s[..n] + s[n..];
    ReadPlain(d, s[..n], s[n..]);
    NoMore(s[..n]);
    assert s[n..][0] == 'x' && s[n..][1..] == s[n + 1..];
  }

  /** Prints the letter, or notes the gap, that the separator at index ends; false if the signs are no letter. */
  method TakeLetter(buffer: array<char>, out: string, gap: bool, index: nat, ghost s: string)
    returns (ok: bool, more: string, waits: bool)
    requires Contains(buffer, s) && |s| < buffer.Length && index < |s| && s[index] == 'x' && 'x' !in s[..index]
    modifies buffer
    ensures if ok then ReadSigns(Reader(out, "", gap, true), s)
                     == ReadSigns(Reader(more, "", waits, true), s[index + 1..])
            else ReadSigns(Reader(out, "", gap, true), s) == Reader(more, s[..index], waits, false)
    ensures ok ==> Contains(buffer, s[index + 1..])
  {
    ReadToX(Reader(out, "", gap, true), s, index);
    ok, more, waits := true, out, gap;
    buffer[index] := '\0';
    if index == 0 {
      waits := true;
    } else {
      if waits {
        more := more + " ";
        waits := false;
      }
      var i := FindLetter(buffer, s[..index]);
      if i == SEARCHED {
        StoppedReading(Reader(more, s[..index], false, false), s[index + 1..]);
        return false, more, waits;
      }
      more := more + [('!' as int + i) as char];
    }
    CutOff(buffer, index, s);
  }

  /** Prints letter after letter off the buffer until no separator is left in it. */
  method PrintLetters(buffer: array<char>, out: string, gap: bool, ghost s: string)
    returns (ok: bool, more: string, waits: bool, ghost left: string)
    requires Contains(buffer, s) && |s| < buffer.Length
    modifies buffer
    ensures Reader(more, left, waits, ok) == ReadSigns(Reader(out, "", gap, true), s)
    ensures ok ==> Contains(buffer, left)
  {
    ok, more, waits, left := true, out, gap, s;
    ghost var target := ReadSigns(Reader(out, "", gap, true), s);
    var index := FindX(buffer, left);
    while index != -1
      invariant Contains(buffer, left) && |left| < buffer.Length && ok
      invariant ReadSigns(Reader(more, "", waits, true), left) == target
      invariant index == -1 ==> 'x' !in left
      invariant index != -1 ==> 0 <= index < |left| && left[index] == 'x' && 'x' !in left[..index]
      decreases |left|, if index == -1 then 0 else 1
    {
      ok, more, waits := TakeLetter(buffer, more, waits, index, left);
      if !ok {
        left := left[..index];
        return;
      }
      left := left[index + 1..];
      index := FindX(buffer, left);
    }
    NoMore(left);
    ReadPlain(Reader(more, "", waits, true), left, "");
  }

  /** decryptmorse: the triple of one cipher letter goes into the buffer. */
  method DecryptMorse(buffer: array<char>, t: string, c: char, ghost s: string)
    requires |t| == 26 && c in t && Contains(buffer, s) && |s| + 3 <= buffer.Length
    modifies buffer
    ensures Contains(buffer, s + Frac(PlaceOf(t, c, 0)))
  {
    var index := 0;
    while index < |t| && t[index] != c
      invariant index <= |t| && PlaceOf(t, c, 0) == PlaceOf(t, c, index)
    {
      index := index + 1;
    }
    assert index < |t|;
    FracFacts(index);
    Append(buffer, Frac(index), s);
  }

  /** The cells before the first zero. */
  method Count(buffer: array<char>, ghost s: string) returns (count: nat)
    requires Contains(buffer, s)
    ensures count == |s|
  {
    count := 0;
    while count < buffer.Length && buffer[count] != '\0'
      invariant count <= |s|
    {
      count := count + 1;
    }
  }

  lemma EndLineIs(out: string, s: string, gap: bool, careful: bool)
    requires s != ""
    ensures var i := LetterFrom(s, 0); var shown := if careful && gap then out + " " else out;
            EndLine(Reader(out, s, gap, true), careful) ==
            if i < SEARCHED then Reader(shown + [('!' as int + i) as char] + "\n", "", false, true)
            else Reader(shown, "", gap && !careful, false)
  {
  }

  /** A line end: the letter still in the buffer is printed; careful prints a waiting gap first, the program
      as written does not. */
  method FinishLine(buffer: array<char>, out: string, gap: bool, careful: bool, ghost s: string)
    returns (ok: bool, more: string)
    requires Contains(buffer, s) && |s| < buffer.Length
    modifies buffer
    ensures EndLine(Reader(out, s, gap, true), careful) == Reader(more, "", if ok then false else gap && !careful, ok)
    ensures ok ==> Contains(buffer, "")
  {
    ok, more := true, out;
    if s != "" {
      EndLineIs(out, s, gap, careful);
    }
    var count := Count(buffer, s);
    if count > 0 {
      if careful && gap {
        more := more + " ";
      }
      var i := FindLetter(buffer, s);
      if i < SEARCHED {
        more := more + [('!' as int + i) as char];
      } else {
        ok := false;
      }
      Clear(buffer, s);
      if !ok {
        return;
      }
    }
    more := more + "\n";
  }

  /** One turn of the decipher loop. */
  method DecryptNext(buffer: array<char>, t: string, c: char, out: string, gap: bool, careful: bool, ghost s: string)
    returns (ok: bool, more: string, waits: bool, ghost left: string)
    requires |t| == 26 && (c == '\n' || c in t) && Contains(buffer, s) && |s| + 3 < buffer.Length && 'x' !in s
    modifies buffer
    ensures Reader(more, left, waits, ok) == ReadChar(t, Reader(out, s, gap, true), c, careful)
    ensures ok ==> Contains(buffer, left)
  {
    if c == '\n' {
      ok, more := FinishLine(buffer, out, gap, careful, s);
      waits, left := if ok then false else gap && !careful, "";
    } else {
      more := out;
      if gap {
        more := more + " ";
      }
      DecryptMorse(buffer, t, c, s);
      var f := Frac(PlaceOf(t, c, 0));
      FracFacts(PlaceOf(t, c, 0));
      ReadPlain(Reader(more, "", false, true), s, f);
      NoMore(s);
      ok, more, waits, left := PrintLetters(buffer, more, false, s + f);
    }
  }

  /** The buffer has room for a triple and its end at every cipher character. */
  ghost predicate Modest(t: string, d: Reader, s: string, careful: bool)
    decreases |s|
  {
    d.ok ==> |d.signs| <= 253 && (s == "" || Modest(t, ReadChar(t, d, s[0], careful), s[1..], careful))
  }

  lemma {:induction false} NoXLeft(d: Reader, s: string)
    requires 'x' !in d.signs
    ensures 'x' !in ReadSigns(d, s).signs
    decreases |s|
  {
    if s != "" {
      NoXLeft(ReadSign(d, s[0]), s[1..]);
    }
  }

  lemma NoXAfter(t: string, d: Reader, c: char, careful: bool)
    requires 'x' !in d.signs
    ensures 'x' !in ReadChar(t, d, c, careful).signs
  {
    NoXLeft(PrintGap(d), Frac(PlaceOf(t, c, 0)));
  }

  lemma {:induction false} StoppedText(t: string, d: Reader, s: string, careful: bool)
    requires !d.ok
    ensures ReadAll(t, d, s, careful) == d
    decreases |s|
  {
    if s != "" {
      StoppedText(t, d, s[1..], careful);
    }
  }

  /** The decipher loop: what it prints and whether it ends well are those of the sign machine. */
  method DecryptText(t: string, s: string, careful: bool) returns (ok: bool, out: string)
    requires |t| == 26 && (forall i :: 0 <= i < |s| ==> s[i] == '\n' || s[i] in t)
    requires Modest(t, START, s, careful)
    ensures ok == Decipher(t, s, careful).ok && out == Decipher(t, s, careful).out
  {
    var buffer := new char[257](_ => '\0');
    var gap := false;
    ok, out := true, "";
    ghost var signs := "";
    assert buffer[..0] == "" && Contains(buffer, "");
    assert s[0..] == s;
    for i := 0 to |s|
      invariant ok && Contains(buffer, signs) && 'x' !in signs
      invariant Modest(t, Reader(out, signs, gap, true), s[i..], careful)
      invariant ReadAll(t, Reader(out, signs, gap, true), s[i..], careful) == Decipher(t, s, careful)
    {
      ghost var d := Reader(out, signs, gap, true);
      assert s[i..][0] == s[i] && s[i..][1..] == s[i + 1..];
      NoXAfter(t, d, s[i], careful);
      ok, out, gap, signs := DecryptNext(buffer, t, s[i], out, gap, careful, signs);
      if !ok {
        StoppedText(t, Reader(out, signs, gap, ok), s[i + 1..], careful);
        return;
      }
    }
    assert s[|s|..] == "";
  }
}
