/** The cipher as the program runs it: a small buffer that is filled, emptied by triples and shifted in place. */
module MorseStream {
  import opened MorseTables
  import opened MorseCodec
  import opened Sequences
  import opened MorseEncode

  /** The buffer is the string s, ended and filled up by zeros. */
  ghost predicate Contains(buffer: array<char>, s: string)
    reads buffer
  {
    && |s| <= buffer.Length && buffer[..|s|] == s
    && (forall i :: |s| <= i < buffer.Length ==> buffer[i] == '\0')
    && (forall i :: 0 <= i < |s| ==> s[i] != '\0')
  }

  predicate NoZero(s: string) {
    forall i :: 0 <= i < |s| ==> s[i] != '\0'
  }

  /** What is left of a stream when its triples are gone. */
  function Rest(s: string): string {
    s[|s| - |s| % 3..]
  }

  /** Puts signs into the zeros of the buffer, as far as there are any. */
  method Append(buffer: array<char>, signs: string, ghost s: string)
    requires Contains(buffer, s) && NoZero(signs)
    modifies buffer
    ensures Contains(buffer, if |s| + |signs| <= buffer.Length then s + signs else (s + signs)[..buffer.Length])
  {
    var i, j := 0, 0;
    while j < |signs| && i < buffer.Length
      invariant i <= buffer.Length && j <= |signs|
      invariant j == (if i < |s| then 0 else i - |s|)
      invariant Contains(buffer, s + signs[..j])
    {
      if buffer[i] == '\0' {
        assert signs[..j + 1] == signs[..j] + [signs[j]];
        buffer[i] := signs[j];
        j := j + 1;
      }
      i := i + 1;
    }
    assert j == |signs| ==> signs[..j] == signs;
  }

  /** encryptmorse: false for a character without a code. */
  method EncryptMorse(buffer: array<char>, c: char, ghost s: string) returns (ok: bool)
    requires Contains(buffer, s) && |s| + 6 <= buffer.Length
    requires Blank(c) || c == '\n' || '!' <= c <= 'z'
    modifies buffer
    ensures ok == Plain(c) && Contains(buffer, if ok then s + Code(c) else s)
  {
    if Blank(c) || c == '\n' {
      Append(buffer, "x", s);
      ok := true;
    } else {
      ok := Morse(c as int - '!' as int) != "";
      if ok {
        CodeFacts(c as int - '!' as int);
        Append(buffer, Morse(c as int - '!' as int), s);
      }
    }
  }

  method SameTriple(buffer: array<char>, f: string) returns (equal: bool)
    requires buffer.Length >= 3 && |f| == 3
    ensures equal <==> buffer[..3] == f
  {
    equal := true;
    for j := 0 to 3
      invariant equal <==> forall k :: 0 <= k < j ==> buffer[k] == f[k]
    {
      if buffer[j] != f[j] {
        equal := false;
      }
    }
  }

  /** The entry of fractionated_table that stands in the first three cells; 26 if none does. */
  method FindTriple(buffer: array<char>, t: string, ghost s: string) returns (i: nat)
    requires |t| == 26 && Contains(buffer, s) && |s| >= 3
    ensures i == TripleFrom(s[..3], 0)
  {
    i := 0;
    while i < |t|
      invariant i <= 26 && TripleFrom(s[..3], 0) == TripleFrom(s[..3], i)
    {
      FracFacts(i);
      var equal := SameTriple(buffer, Frac(i));
      assert buffer[..3] == s[..3];
      if equal {
        return;
      }
      i := i + 1;
    }
  }

  /** Moves everything three cells down. */
  method Shift(buffer: array<char>, ghost s: string)
    requires Contains(buffer, s) && 3 <= |s| && buffer.Length >= 3
    modifies buffer
    ensures Contains(buffer, s[3..])
  {
    ghost var was := buffer[..];
    for j := 0 to buffer.Length
      invariant forall k :: 0 <= k < j ==> buffer[k] == if k + 3 < buffer.Length then was[k + 3] else '\0'
      invariant forall k :: j <= k < buffer.Length ==> buffer[k] == was[k]
    {
      if j + 3 < buffer.Length {
        buffer[j] := buffer[3 + j];
      } else {
        buffer[j] := '\0';
      }
    }
  }

  /** One turn of the loop: the triple in front is printed and leaves the buffer. */
  method PrintTriple(buffer: array<char>, t: string, out: string, ghost r: string) returns (more: string)
    requires |t| == 26 && Contains(buffer, r) && buffer.Length == 8 && |r| >= 3
    modifies buffer
    ensures Contains(buffer, r[3..]) && more == out + CipherOne(t, r[..3])
  {
    var i := FindTriple(buffer, t, r);
    NoMore(out);
    more := out + if i < 26 then [t[i]] else "";
    Shift(buffer, r);
  }

  /** bufferencrypt: prints the cipher letters of all whole triples and keeps the rest. */
  method BufferEncrypt(buffer: array<char>, t: string, ghost s: string) returns (out: string)
    requires |t| == 26 && Contains(buffer, s) && buffer.Length == 8
    modifies buffer
    ensures out == Cipher(t, s) && Contains(buffer, Rest(s)) && |Rest(s)| <= 2
  {
    out := "";
    ghost var r := s;
    while buffer[2] != '\0'
      invariant Contains(buffer, r) && Rest(r) == Rest(s) && out + Cipher(t, r) == Cipher(t, s)
      decreases |r|
    {
      ReadyTriple(t, r, out);
      out := PrintTriple(buffer, t, out, r);
      r := r[3..];
    }
    NoMore(out);
    RestShort(s);
    RestShort(r);
  }

  lemma ReadyTriple(t: string, r: string, out: string)
    requires |t| == 26 && |r| >= 3
    ensures Rest(r[3..]) == Rest(r)
    ensures out + CipherOne(t, r[..3]) + Cipher(t, r[3..]) == out + Cipher(t, r)
  {
    RestStep(r);
    Assoc(out, CipherOne(t, r[..3]), Cipher(t, r[3..]));
  }

  lemma RestStep(r: string)
    requires |r| >= 3
    ensures Rest(r[3..]) == Rest(r)
  {
    var q := |r| - |r| % 3;
    assert |r[3..]| - |r[3..]| % 3 == q - 3;
    assert r[3..][q - 3..] == r[q..];
  }

  lemma RestShort(r: string)
    ensures |Rest(r)| <= 2 && (|r| <= 2 ==> Rest(r) == r)
  {
  }

  // ---------- the encrypt loop ----------

  /** The first p signs of the line's stream have been printed after done, the others are in the buffer. */
  ghost predicate Printed(buffer: array<char>, t: string, out: string, done: string, stream: string, p: nat)
    reads buffer
  {
    && |t| == 26 && p <= |stream| && p % 3 == 0
    && Contains(buffer, stream[p..]) && out == done + Cipher(t, stream[..p])
  }

  /** One call of bufferencrypt. */
  method Print(buffer: array<char>, t: string, out: string, ghost done: string, ghost stream: string, ghost p: nat)
    returns (more: string, ghost q: nat)
    requires Printed(buffer, t, out, done, stream, p) && buffer.Length == 8
    modifies buffer
    ensures Printed(buffer, t, more, done, stream, q) && |stream| - q <= 2 && more == done + Cipher(t, stream)
  {
    var o := BufferEncrypt(buffer, t, stream[p..]);
    more := out + o;
    q := |stream| - |stream| % 3;
    PrintedAll(t, done, stream, p, q);
    assert more == done + Cipher(t, stream[..q]);
    assert Contains(buffer, stream[q..]);
  }

  lemma CipherAt(t: string, s: string, p: nat)
    requires |t| == 26 && p <= |s| && p % 3 == 0
    ensures Cipher(t, s[..p]) + Cipher(t, s[p..]) == Cipher(t, s)
  {
    CipherConcat(t, s[..p], s[p..]);
    assert s == s[..p] + s[p..];
  }

  lemma WholePart(t: string, s: string, q: nat)
    requires |t| == 26 && q <= |s| <= q + 2 && q % 3 == 0
    ensures Cipher(t, s[..q]) == Cipher(t, s)
  {
    CipherAt(t, s, q);
    NoMore(Cipher(t, s[..q]));
  }

  lemma PrintedAll(t: string, done: string, stream: string, p: nat, q: nat)
    requires |t| == 26 && p <= |stream| && p % 3 == 0 && q == |stream| - |stream| % 3
    ensures q % 3 == 0 && q <= |stream| <= q + 2 && Rest(stream[p..]) == stream[q..]
    ensures Cipher(t, stream[..q]) == Cipher(t, stream)
    ensures done + Cipher(t, stream[..p]) + Cipher(t, stream[p..]) == done + Cipher(t, stream)
  {
    WholePart(t, stream, q);
    CipherAt(t, stream, p);
    Assoc(done, Cipher(t, stream[..p]), Cipher(t, stream[p..]));
    RestFrom(stream, p);
  }

  lemma RestFrom(s: string, p: nat)
    requires p <= |s| && p % 3 == 0
    ensures Rest(s[p..]) == s[|s| - |s| % 3..]
  {
    var q := |s| - |s| % 3;
    assert (|s| - p) % 3 == |s| % 3 && p <= q;
    assert s[p..][q - p..] == s[q..];
  }

  /** Signs added at the end of the stream are added at the end of what the buffer holds. */
  lemma StreamTail(t: string, s: string, e: string, p: nat)
    requires p <= |s|
    ensures (s + e)[p..] == s[p..] + e && (s + e)[..p] == s[..p]
  {
  }

  /** What encryptmorse and the separator before it do to the line's stream. */
  method Emitted(buffer: array<char>, t: string, out: string, last: bool, c: char,
                 ghost done: string, ghost stream: string, ghost p: nat)
    returns (ok: bool, more: string, ghost q: nat)
    requires Printed(buffer, t, out, done, stream, p) && buffer.Length == 8
    requires |stream| - p <= (if last then 2 else 6) && (Blank(c) || c == '\n' || '!' <= c <= 'z')
    modifies buffer
    ensures ok == Plain(c)
    ensures if ok then Printed(buffer, t, more, done, stream + Emit(last, c), q) && |stream + Emit(last, c)| - q <= 8
            else if last then more == out else more == done + Cipher(t, stream + "x")
  {
    more, q := out, p;
    if last {
      if Blank(c) {
        ok := true;
        NoMore(stream);
      } else {
        StreamTail(t, stream, Code(c), p);
        ok := EncryptMorse(buffer, c, stream[p..]);
      }
    } else {
      StreamTail(t, stream, "x", p);
      Append(buffer, "x", stream[p..]);
      more, q := Print(buffer, t, out, done, stream + "x", p);
      StreamTail(t, stream + "x", Code(c), q);
      Assoc(stream, "x", Code(c));
      ok := EncryptMorse(buffer, c, (stream + "x")[q..]);
    }
  }

  /** At a line end what the buffer still holds is thrown away. */
  method Clear(buffer: array<char>, ghost s: string)
    requires Contains(buffer, s)
    modifies buffer
    ensures Contains(buffer, "")
  {
    var i := 0;
    while i < buffer.Length && buffer[i] != '\0'
      invariant i <= |s|
      invariant forall k :: 0 <= k < buffer.Length ==> buffer[k] == if k < i || k >= |s| then '\0' else s[k]
    {
      buffer[i] := '\0';
      i := i + 1;
    }
  }

  /** The characters the program can look up: blanks, the line end, and what morse_table covers. */
  predicate InRange(text: string) {
    forall i :: 0 <= i < |text| ==> Blank(text[i]) || text[i] == '\n' || '!' <= text[i] <= 'z'
  }

  /** One turn of the loop: a character is put on the stream, whole triples are printed, and a line end
      is printed and empties the buffer. */
  method EncryptNext(buffer: array<char>, t: string, out: string, last: bool, c: char,
                     ghost done: string, ghost stream: string, ghost p: nat)
    returns (ok: bool, more: string, next: bool, ghost done': string, ghost stream': string, ghost q: nat)
    requires Printed(buffer, t, out, done, stream, p) && buffer.Length == 8
    requires |stream| - p <= (if last then 2 else 6) && (Blank(c) || c == '\n' || '!' <= c <= 'z')
    modifies buffer
    ensures ok == Plain(c)
    ensures ok ==> Printed(buffer, t, more, done', stream', q) && |stream'| - q <= 2 && next == (c == '\n' || Blank(c))
    ensures ok && c != '\n' ==> done' == done && stream' == stream + Emit(last, c)
    ensures ok && c == '\n' ==> done' == done + Cipher(t, stream + Emit(last, c)) + "\n" && stream' == ""
    ensures !ok ==> more == if last then out else done + Cipher(t, stream + "x")
  {
    ok, more, q := Emitted(buffer, t, out, last, c, done, stream, p);
    next, done', stream' := Blank(c), done, stream;
    if ok {
      stream' := stream + Emit(last, c);
      more, q := Print(buffer, t, more, done, stream', q);
      if c == '\n' {
        more := more + "\n";
        Clear(buffer, stream'[q..]);
        next, done', stream', q := true, more, "", 0;
        NoMore(more);
      }
    }
  }

  ghost predicate AllPlain(text: string, n: nat) {
    n <= |text| && forall k :: 0 <= k < n ==> Plain(text[k])
  }

  lemma OnePlain(text: string, n: nat)
    requires n < |text| && AllPlain(text, n)
    ensures Plain(text[n]) ==> AllPlain(text, n + 1)
    ensures !Plain(text[n]) ==> exists k :: 0 <= k < |text| && !Plain(text[k])
  {
  }

  /** The encrypt loop of the program: all text goes through the eight cells, and what is printed is the
      batch form. ok is false when it stops at a character without a code. */
  method EncryptText(t: string, text: string) returns (ok: bool, out: string)
    requires |t| == 26 && text != "" && InRange(text)
    ensures out == Encipher(t, text)
    ensures ok <==> forall i :: 0 <= i < |text| ==> Plain(text[i])
  {
    var buffer := new char[8](_ => '\0');
    out := "";
    assert buffer[..0] == "" && Contains(buffer, "");
    ok := EncryptMorse(buffer, text[0], "");
    if !ok {
      return;
    }
    ghost var done, stream, p := "", Code(text[0]), 0;
    var last := false;
    StartStream(t, text[0]);
    for i := 1 to |text|
      invariant Printed(buffer, t, out, done, stream, p) && |stream| - p <= (if last then 2 else 6)
      invariant i == 1 ==> out == "" && !last
      invariant i > 1 ==> out == done + Cipher(t, stream)
      invariant AllPlain(text, i)
      invariant |text| > 1 ==> Encipher(t, text) == done + EncipherFrom(t, stream, last, text[i..])
    {
      ghost var rest := text[i..];
      assert rest[0] == text[i] && rest[1..] == text[i + 1..];
      ghost var due := done + Cipher(t, if last then stream else stream + "x");
      assert last ==> out == due;
      EncipherStep(t, done, stream, last, rest);
      assert !Plain(text[i]) ==> Encipher(t, text) == due;
      ok, out, last, done, stream, p := EncryptNext(buffer, t, out, last, text[i], done, stream, p);
      if !ok {
        assert out == due;
        return;
      }
      OnePlain(text, i);
      WholePart(t, stream, p);
    }
    assert text[|text|..] == "";
    assert |text| > 1 ==> Encipher(t, text) == done + Cipher(t, stream);
  }

  lemma StartStream(t: string, c: char)
    requires |t| == 26 && Plain(c)
    ensures |Code(c)| <= 6 && "" + Code(c) == Code(c) && Code(c)[0..] == Code(c)
    ensures Cipher(t, Code(c)[..0]) == ""
  {
    if c != '\n' && !Blank(c) {
      CodeFacts(c as int - '!' as int);
    }
  }

  lemma EncipherStep(t: string, done: string, stream: string, last: bool, rest: string)
    requires |t| == 26 && rest != ""
    ensures done + EncipherFrom(t, stream, last, rest) ==
            if !Plain(rest[0]) then done + Cipher(t, if last then stream else stream + "x")
            else if rest[0] == '\n' then
              (done + Cipher(t, stream + Emit(last, rest[0])) + "\n") + EncipherFrom(t, "", true, rest[1..])
            else done + EncipherFrom(t, stream + Emit(last, rest[0]), Blank(rest[0]), rest[1..])
  {
    var c := rest[0];
    if c == '\n' {
      var a, b := Cipher(t, stream + Emit(last, c)), EncipherFrom(t, "", true, rest[1..]);
      Assoc(done, a, "\n");
      Assoc(done, a + "\n", b);
    }
  }
}
