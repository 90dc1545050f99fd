/** UTF-8 as in section 3 of RFC 3629: one code point as one to four bytes, and sequences of them. */
module Utf8 {

  type Byte = b: nat | b < 0x100
  type CodePoint = c: nat | c < 0x110000

  /** What the bits of four bytes can spell. */
  type Spelled = c: nat | c < 0x200000

  predicate Scalar(c: CodePoint) { c < 0xD800 || 0xE000 <= c }

  // ---------- one code point ----------

  function Size(c: CodePoint): (n: nat)
    ensures 1 <= n <= 4
  {
    if c <= 0x7F then 1 else if c <= 0x7FF then 2 else if c <= 0xFFFF then 3 else 4
  }

  /** The bit fields of the standard as digits in base 64. */
  function Encode(c: CodePoint): (g: seq<Byte>)
    ensures |g| == Size(c)
  {
    var c1, c2, c3 := c / 0x40, c / 0x40 / 0x40, c / 0x40 / 0x40 / 0x40;
    if c <= 0x7F then [c]
    else if c <= 0x7FF then [0xC0 + c1, 0x80 + c % 0x40]
    else if c <= 0xFFFF then [0xE0 + c2, 0x80 + c1 % 0x40, 0x80 + c % 0x40]
    else [0xF0 + c3, 0x80 + c2 % 0x40, 0x80 + c1 % 0x40, 0x80 + c % 0x40]
  }

  /** How many bytes follow a lead byte, by its top five, four or three bits. */
  function Remaining(lead: Byte): (n: nat)
    ensures n <= 3
  {
    if lead / 8 == 0x1E then 3 else if lead / 16 == 0xE then 2 else if lead / 32 == 0x6 then 1 else 0
  }

  /** The low bits of a byte. */
  function Low(b: Byte, m: nat): (r: nat)
    requires m > 0
    ensures r < m
  {
    b % m
  }

  function Decode(g: seq<Byte>): (c: Spelled)
    requires 1 <= |g| <= 4
  {
    match |g|
    case 1 => g[0]
    case 2 => 0x40 * Low(g[0], 0x20) + Low(g[1], 0x40)
    case 3 => 0x1000 * Low(g[0], 0x10) + 0x40 * Low(g[1], 0x40) + Low(g[2], 0x40)
    case _ => 0x40000 * Low(g[0], 0x08) + 0x1000 * Low(g[1], 0x40) + 0x40 * Low(g[2], 0x40) + Low(g[3], 0x40)
  }

  lemma LowOf(lead: nat, m: nat, v: nat)
    requires v < m && lead + v < 0x100
    requires || (lead == 0x80 && m == 0x40)
             || (lead == 0xC0 && m == 0x20)
             || (lead == 0xE0 && m == 0x10)
             || (lead == 0xF0 && m == 0x08)
    ensures Low(lead + v, m) == v
  {
  }

  /** c put together from its digits. */
  lemma Digits(c: CodePoint)
    ensures c == 0x40 * (c / 0x40) + c % 0x40
    ensures c / 0x40 == 0x40 * (c / 0x40 / 0x40) + c / 0x40 % 0x40
    ensures c / 0x40 / 0x40 == 0x40 * (c / 0x40 / 0x40 / 0x40) + c / 0x40 / 0x40 % 0x40
    ensures c / 0x40 / 0x40 / 0x40 < 0x08
  {
  }

  lemma LeadTellsSize(c: CodePoint)
    ensures Remaining(Encode(c)[0]) + 1 == |Encode(c)|
  {
    Digits(c);
  }

  lemma DecodeEncode(c: CodePoint)
    ensures Decode(Encode(c)) == c
  {
    var c1, c2, c3 := c / 0x40, c / 0x40 / 0x40, c / 0x40 / 0x40 / 0x40;
    Digits(c);
    LowOf(0x80, 0x40, c % 0x40);
    LowOf(0x80, 0x40, c1 % 0x40);
    LowOf(0x80, 0x40, c2 % 0x40);
    if c1 < 0x20 { LowOf(0xC0, 0x20, c1); }
    if c2 < 0x10 { LowOf(0xE0, 0x10, c2); }
    LowOf(0xF0, 0x08, c3);
  }

  /** c after n shifts by six bits. */
  function Shifted(c: nat, n: nat): nat { if n == 0 then c else Shifted(c, n - 1) / 0x40 }

  lemma Shifts(c: nat)
    ensures Shifted(c, 0) == c
    ensures Shifted(c, 1) == c / 0x40
    ensures Shifted(c, 2) == c / 0x40 / 0x40
    ensures Shifted(c, 3) == c / 0x40 / 0x40 / 0x40
  {
  }

  /** The encoder's loop, from the last byte to the first, produces the digits. */
  method Continuation(c: CodePoint, bytes: array<Byte>, size: nat) returns (rest: nat)
    requires 2 <= size <= bytes.Length
    modifies bytes
    ensures rest == Shifted(c, size - 1)
    ensures forall j :: 0 < j < size ==> bytes[j] == 0x80 + Shifted(c, size - 1 - j) % 0x40
  {
    rest := c;
    var i := size - 1;
    while i > 0
      invariant 0 <= i < size
      invariant rest == Shifted(c, size - 1 - i)
      invariant forall j :: i < j < size ==> bytes[j] == 0x80 + Shifted(c, size - 1 - j) % 0x40
    {
      bytes[i] := 0x80 + rest % 0x40;
      rest := rest / 0x40;
      i := i - 1;
    }
  }

  method EncodeGlyph(c: CodePoint) returns (g: seq<Byte>)
    ensures g == Encode(c)
  {
    var size := if c <= 0x7F then 1 else if c <= 0x7FF then 2 else if c <= 0xFFFF then 3 else 4;
    if size == 1 {
      return [c];
    }
    var bytes := new Byte[4](i => 0);
    var rest := Continuation(c, bytes, size);
    bytes[0] := match size case 2 => 0xC0 + rest % 0x20 case 3 => 0xE0 + rest % 0x10 case _ => 0xF0 + rest % 0x08;
    g := bytes[..size];
    Assembled(c, g);
  }

  /** The lead bits over the top digit, then the digits with their continuation bits. */
  lemma Assembled(c: CodePoint, g: seq<Byte>)
    requires |g| == Size(c) > 1
    requires g[0] == match |g| case 2 => 0xC0 + Shifted(c, 1) % 0x20
                               case 3 => 0xE0 + Shifted(c, 2) % 0x10
                               case _ => 0xF0 + Shifted(c, 3) % 0x08
    requires forall j :: 0 < j < |g| ==> g[j] == 0x80 + Shifted(c, |g| - 1 - j) % 0x40
    ensures g == Encode(c)
  {
    var n := |g|;
    Shifts(c);
    TopDigit(c);
    assert g[n - 1] == 0x80 + Shifted(c, 0) % 0x40;
    if n == 2 {
      Same(g, [0xC0 + c / 0x40, 0x80 + c % 0x40]);
    } else if n == 3 {
      assert g[1] == 0x80 + Shifted(c, 1) % 0x40;
      Same(g, [0xE0 + c / 0x40 / 0x40, 0x80 + c / 0x40 % 0x40, 0x80 + c % 0x40]);
    } else {
      assert g[2] == 0x80 + Shifted(c, 1) % 0x40 && g[1] == 0x80 + Shifted(c, 2) % 0x40;
      Same(g, [0xF0 + c / 0x40 / 0x40 / 0x40, 0x80 + c / 0x40 / 0x40 % 0x40, 0x80 + c / 0x40 % 0x40, 0x80 + c % 0x40]);
    }
  }

  lemma Same(g: seq<nat>, e: seq<nat>)
    requires |g| == |e| <= 4 && (|g| > 0 ==> g[0] == e[0]) && (|g| > 1 ==> g[1] == e[1])
    requires (|g| > 2 ==> g[2] == e[2]) && (|g| > 3 ==> g[3] == e[3])
    ensures g == e
  {
  }

  /** The top digit fits beside the lead bits. */
  lemma TopDigit(c: CodePoint)
    ensures Size(c) == 2 ==> (c / 0x40) % 0x20 == c / 0x40
    ensures Size(c) == 3 ==> (c / 0x40 / 0x40) % 0x10 == c / 0x40 / 0x40
    ensures Size(c) == 4 ==> (c / 0x40 / 0x40 / 0x40) % 0x08 == c / 0x40 / 0x40 / 0x40
  {
    Digits(c);
  }

  // ---------- sequences ----------

  function ToUtf8(cs: seq<CodePoint>): seq<Byte> {
    if cs == [] then [] else Encode(cs[0]) + ToUtf8(cs[1..])
  }

  /** What a buffer of four bytes holds after the next glyph of s has been read into it, and how many bytes the
      glyph should have; at the end of the input the bytes that are missing stay as they were. */
  function Filled(s: seq<Byte>, buf: seq<Byte>): (b: seq<Byte>)
    requires s != [] && |buf| == 4
    ensures |b| == 4
  {
    var n := Remaining(s[0]) + 1;
    var got := if n <= |s| then n else |s|;
    s[..got] + buf[got..]
  }

  /** The code points read from any bytes, by lead bytes, through a buffer that holds buf at first. */
  function Decoded(s: seq<Byte>, buf: seq<Byte>): (cs: seq<Spelled>)
    requires |buf| == 4
    decreases |s|
  {
    if s == [] then []
    else
      var n := Remaining(s[0]) + 1;
      [Decode(Filled(s, buf)[..n])] + Decoded(if n <= |s| then s[n..] else [], Filled(s, buf))
  }

  /** What is read from an encoding is what was encoded, whatever the buffer held. */
  lemma {:induction false} DecodedUtf8(cs: seq<CodePoint>, buf: seq<Byte>)
    requires |buf| == 4
    ensures Decoded(ToUtf8(cs), buf) == cs
    decreases |cs|
  {
    if cs != [] {
      var g, rest := Encode(cs[0]), ToUtf8(cs[1..]);
      DecodeEncode(cs[0]);
      LeadTellsSize(cs[0]);
      assert (g + rest)[..|g|] == g && (g + rest)[|g|..] == rest;
      assert Filled(g + rest, buf)[..|g|] == g;
      DecodedUtf8(cs[1..], Filled(g + rest, buf));
    }
  }

  /** Different sequences have different encodings. */
  lemma Injective(a: seq<CodePoint>, b: seq<CodePoint>)
    requires ToUtf8(a) == ToUtf8(b)
    ensures a == b
  {
    DecodedUtf8(a, [0, 0, 0, 0]);
    DecodedUtf8(b, [0, 0, 0, 0]);
  }

  /** No encoding is the beginning of another. */
  lemma PrefixFree(x: CodePoint, y: CodePoint)
    requires Encode(x) <= Encode(y)
    ensures x == y
  {
    DecodeEncode(x);
    DecodeEncode(y);
    LeadTellsSize(x);
    LeadTellsSize(y);
    assert Encode(x)[0] == Encode(y)[0];
  }

  // ---------- which byte strings are encodings ----------

  predicate IsTail(b: Byte) { 0x80 <= b <= 0xBF }

  /** The syntax of section 4 of RFC 3629. */
  predicate WellFormed(g: seq<Byte>) {
    match |g|
    case 1 => g[0] <= 0x7F
    case 2 => 0xC2 <= g[0] <= 0xDF && IsTail(g[1])
    case 3 =>
      && IsTail(g[1]) && IsTail(g[2])
      && ( || (g[0] == 0xE0 && 0xA0 <= g[1])
           || 0xE1 <= g[0] <= 0xEC
           || (g[0] == 0xED && g[1] <= 0x9F)
           || 0xEE <= g[0] <= 0xEF)
    case 4 =>
      && IsTail(g[1]) && IsTail(g[2]) && IsTail(g[3])
      && ( || (g[0] == 0xF0 && 0x90 <= g[1])
           || 0xF1 <= g[0] <= 0xF3
           || (g[0] == 0xF4 && g[1] <= 0x8F))
    case _ => false
  }

  /** The encodings of scalar values are well formed. */
  lemma EncodeWellFormed(c: CodePoint)
    requires Scalar(c)
    ensures WellFormed(Encode(c))
  {
    Digits(c);
  }

  /** And there are no other well-formed byte strings: each is the encoding of what it decodes to. */
  lemma WellFormedIsEncoding(g: seq<Byte>)
    requires WellFormed(g)
    ensures Decode(g) < 0x110000 && Scalar(Decode(g)) && Encode(Decode(g)) == g
  {
    if |g| == 2 {
      TwoBytes(g, g[0] - 0xC0, g[1] - 0x80);
    } else if |g| == 3 {
      ThreeBytes(g, g[0] - 0xE0, g[1] - 0x80, g[2] - 0x80);
    } else if |g| == 4 {
      FourBytes(g, g[0] - 0xF0, g[1] - 0x80, g[2] - 0x80, g[3] - 0x80);
    }
  }

  /** The last digit of a number in base 64. */
  lemma LastDigit(high: nat, low: nat)
    requires low < 0x40
    ensures (0x40 * high + low) / 0x40 == high && (0x40 * high + low) % 0x40 == low
  {
  }

  lemma LowIs(b: Byte, lead: nat, m: nat, v: nat)
    requires b == lead + v && v < m
    requires || (lead == 0x80 && m == 0x40)
             || (lead == 0xC0 && m == 0x20)
             || (lead == 0xE0 && m == 0x10)
             || (lead == 0xF0 && m == 0x08)
    ensures Low(b, m) == v
  {
    LowOf(lead, m, v);
  }

  lemma TwoBytes(g: seq<Byte>, a: nat, b: nat)
    requires WellFormed(g) && |g| == 2 && g == [0xC0 + a, 0x80 + b]
    ensures Decode(g) < 0x110000 && Scalar(Decode(g)) && Encode(Decode(g)) == g
  {
    LowIs(g[0], 0xC0, 0x20, a);
    LowIs(g[1], 0x80, 0x40, b);
    LastDigit(a, b);
    assert Decode(g) == 0x40 * a + b;
  }

  lemma ThreeBytes(g: seq<Byte>, a: nat, b: nat, c: nat)
    requires WellFormed(g) && |g| == 3 && g == [0xE0 + a, 0x80 + b, 0x80 + c]
    ensures Decode(g) < 0x110000 && Scalar(Decode(g)) && Encode(Decode(g)) == g
  {
    LowIs(g[0], 0xE0, 0x10, a);
    LowIs(g[1], 0x80, 0x40, b);
    LowIs(g[2], 0x80, 0x40, c);
    LastDigit(0x40 * a + b, c);
    LastDigit(a, b);
    assert Decode(g) == 0x40 * (0x40 * a + b) + c;
  }

  lemma FourBytes(g: seq<Byte>, a: nat, b: nat, c: nat, d: nat)
    requires WellFormed(g) && |g| == 4 && g == [0xF0 + a, 0x80 + b, 0x80 + c, 0x80 + d]
    ensures Decode(g) < 0x110000 && Scalar(Decode(g)) && Encode(Decode(g)) == g
  {
    LowIs(g[0], 0xF0, 0x08, a);
    LowIs(g[1], 0x80, 0x40, b);
    LowIs(g[2], 0x80, 0x40, c);
    LowIs(g[3], 0x80, 0x40, d);
    LastDigit(0x40 * (0x40 * a + b) + c, d);
    LastDigit(0x40 * a + b, c);
    LastDigit(a, b);
    assert Decode(g) == 0x40 * (0x40 * (0x40 * a + b) + c) + d;
  }

  /** Lead and continuation bytes that the decoder reads as c, however many they are. */
  predicate Spells(g: seq<Byte>, c: CodePoint) {
    && 1 <= |g| <= 4 && Remaining(g[0]) + 1 == |g| && (|g| == 1 ==> g[0] <= 0x7F)
    && (forall i :: 0 < i < |g| ==> IsTail(g[i])) && Decode(g) == c
  }

  /** No shorter byte string spells the code point. */
  lemma Shortest(g: seq<Byte>, c: CodePoint)
    requires Spells(g, c)
    ensures Spells(Encode(c), c) && |Encode(c)| <= |g|
  {
    DecodeEncode(c);
    LeadTellsSize(c);
    Digits(c);
  }

  /** ASCII text is its own encoding. */
  lemma {:induction false} AsciiIsItself(cs: seq<CodePoint>)
    requires forall c :: c in cs ==> c < 0x80
    ensures ToUtf8(cs) == cs
    decreases |cs|
  {
    if cs != [] {
      var rest := cs[1..];
      assert forall c :: c in rest ==> c in cs;
      AsciiIsItself(rest);
      assert cs[0] in cs && cs == [cs[0]] + rest;
    }
  }

  /** How many bytes follow, for every byte that may stand first. */
  lemma RemainingRanges(lead: Byte)
    ensures Remaining(lead) == if 0xC0 <= lead <= 0xDF then 1 else if 0xE0 <= lead <= 0xEF then 2
                               else if 0xF0 <= lead <= 0xF7 then 3 else 0
  {
  }

  // ---------- order ----------

  /** Lexicographic order. */
  predicate Less(a: seq<nat>, b: seq<nat>) {
    b != [] && (a == [] || a[0] < b[0] || (a[0] == b[0] && Less(a[1..], b[1..])))
  }

  lemma {:induction false} LessAfter(p: seq<nat>, a: seq<nat>, b: seq<nat>)
    ensures Less(p + a, p + b) <==> Less(a, b)
    decreases |p|
  {
    if p == [] {
      assert p + a == a && p + b == b;
    } else {
      assert (p + a)[1..] == p[1..] + a && (p + b)[1..] == p[1..] + b;
      LessAfter(p[1..], a, b);
    }
  }

  lemma {:induction false} LessOneWay(a: seq<nat>, b: seq<nat>)
    requires Less(a, b)
    ensures !Less(b, a)
    decreases |a|
  {
    if a != [] && a[0] == b[0] {
      LessOneWay(a[1..], b[1..]);
    }
  }

  /** Whatever follows, the smaller code point comes first: the encodings differ before either ends. */
  lemma EncodeLess(x: CodePoint, y: CodePoint, s: seq<nat>, t: seq<nat>)
    requires x < y
    ensures Less(Encode(x) + s, Encode(y) + t)
  {
    var a, b := Encode(x), Encode(y);
    var i := FirstDifference(x, y);
    var p: seq<nat> := a[..i];
    assert a == p + a[i..] && b == p + b[i..];
    assert a + s == p + (a[i..] + s) && b + t == p + (b[i..] + t);
    LessAfter(p, a[i..] + s, b[i..] + t);
  }

  /** Of two numbers in base 64 the smaller one has the smaller front, or the same front and the smaller last digit. */
  lemma FrontOrLast(x: nat, y: nat)
    requires x < y
    ensures x / 0x40 <= y / 0x40 && (x / 0x40 == y / 0x40 ==> x % 0x40 < y % 0x40)
  {
  }

  lemma SizeGrows(x: CodePoint, y: CodePoint)
    requires x < y
    ensures Size(x) <= Size(y) && (Size(x) < Size(y) ==> Encode(x)[0] < Encode(y)[0])
  {
    TopDigit(x);
    TopDigit(y);
    Digits(x);
    Digits(y);
  }

  lemma DifferAt(a: seq<nat>, b: seq<nat>, i: nat)
    requires |a| == |b| <= 4 && i < |a| && a[i] < b[i]
    requires (i > 0 ==> a[0] == b[0]) && (i > 1 ==> a[1] == b[1]) && (i > 2 ==> a[2] == b[2])
    ensures a[..i] == b[..i] && a[i] < b[i]
  {
  }

  lemma FirstDifference(x: CodePoint, y: CodePoint) returns (i: nat)
    requires x < y
    ensures i < |Encode(x)| && i < |Encode(y)|
    ensures Encode(x)[..i] == Encode(y)[..i] && Encode(x)[i] < Encode(y)[i]
  {
    var x1, x2, x3 := x / 0x40, x / 0x40 / 0x40, x / 0x40 / 0x40 / 0x40;
    var y1, y2, y3 := y / 0x40, y / 0x40 / 0x40, y / 0x40 / 0x40 / 0x40;
    var n := Size(x);
    SizeGrows(x, y);
    if n != Size(y) || n == 1 {
      i := 0;
    } else {
      FrontOrLast(x, y);
      if x1 < y1 { FrontOrLast(x1, y1); }
      if x2 < y2 { FrontOrLast(x2, y2); }
      i := if x1 == y1 then n - 1 else if x2 == y2 then n - 2 else if x3 == y3 then n - 3 else 0;
      DifferAt(Encode(x), Encode(y), i);
    }
  }

  /** The byte order of encodings is the order of the code points. */
  lemma {:induction false} OrderKept(a: seq<CodePoint>, b: seq<CodePoint>)
    ensures Less(ToUtf8(a), ToUtf8(b)) <==> Less(a, b)
    decreases |a|
  {
    if a == [] || b == [] {
      assert a != [] ==> ToUtf8(a) != [];
      assert b != [] ==> ToUtf8(b) != [];
    } else if a[0] == b[0] {
      LessAfter(Encode(a[0]), ToUtf8(a[1..]), ToUtf8(b[1..]));
      OrderKept(a[1..], b[1..]);
    } else if a[0] < b[0] {
      EncodeLess(a[0], b[0], ToUtf8(a[1..]), ToUtf8(b[1..]));
    } else {
      EncodeLess(b[0], a[0], ToUtf8(b[1..]), ToUtf8(a[1..]));
      LessOneWay(ToUtf8(b), ToUtf8(a));
    }
  }
}
