/** UTF-16 as in sections 2.1 and 2.2 of RFC 2781, its two byte orders, and the decoding loop of the transcoder. */
module Utf16 {

  import opened Utf8

  type Unit = u: nat | u < 0x10000

  const BOM: CodePoint := 0xFEFF

  datatype Order = BigEndian | LittleEndian

  // ---------- one code point ----------

  function Glyph(c: Spelled): (g: seq<Unit>)
    ensures |g| == if c >= 0x10000 then 2 else 1
  {
    if c >= 0x10000 then [0xD800 + (c - 0x10000) / 0x400, 0xDC00 + (c - 0x10000) % 0x400] else [c]
  }

  /** strict: the bounds themselves are left out, as utf.c has it. */
  predicate IsUpper(u: Unit, strict: bool) {
    if strict then 0xD800 < u < 0xDBFF else 0xD800 <= u <= 0xDBFF
  }

  predicate IsLower(u: Unit) { 0xDC00 <= u <= 0xDFFF }

  function BitOr(x: nat, y: nat): nat {
    if x == 0 then y else if y == 0 then x else 2 * BitOr(x / 2, y / 2) + if x % 2 == 1 || y % 2 == 1 then 1 else 0
  }

  function Pow2(n: nat): nat { if n == 0 then 1 else 2 * Pow2(n - 1) }

  lemma {:induction false} OrBounds(x: nat, y: nat, n: nat)
    requires x < Pow2(n) && y < Pow2(n)
    ensures y <= BitOr(x, y) < Pow2(n)
    decreases n
  {
    if x != 0 && y != 0 {
      OrBounds(x / 2, y / 2, n - 1);
    }
  }

  /** Bits that do not overlap add up. */
  lemma {:induction false} OrAdds(a: nat, y: nat, n: nat)
    requires y < Pow2(n)
    ensures BitOr(a * Pow2(n), y) == a * Pow2(n) + y
    decreases n
  {
    if n > 0 && a > 0 && y > 0 {
      OrHalf(a, n);
      OrAdds(a, y / 2, n - 1);
    }
  }

  function BitAt(x: nat, n: nat): nat { if n == 0 then x % 2 else BitAt(x / 2, n - 1) }

  /** A bit is set if it is set in one of the two. */
  lemma {:induction false} OrBits(x: nat, y: nat, n: nat)
    ensures BitAt(BitOr(x, y), n) == if BitAt(x, n) == 1 || BitAt(y, n) == 1 then 1 else 0
    decreases n
  {
    if x == 0 {
      ZeroBits(n);
      BitIs(y, n);
    } else if y == 0 {
      ZeroBits(n);
      BitIs(x, n);
    } else if n > 0 {
      OrBits(x / 2, y / 2, n - 1);
    }
  }

  lemma {:induction false} ZeroBits(n: nat)
    ensures BitAt(0, n) == 0
  {
    if n > 0 { ZeroBits(n - 1); }
  }

  lemma {:induction false} BitIs(x: nat, n: nat)
    ensures BitAt(x, n) <= 1
    decreases n
  {
    if n > 0 { BitIs(x / 2, n - 1); }
  }

  lemma OrHalf(a: nat, n: nat)
    requires n > 0
    ensures a * Pow2(n) == 2 * (a * Pow2(n - 1)) && a * Pow2(n) / 2 == a * Pow2(n - 1) && a * Pow2(n) % 2 == 0
  {
  }

  lemma Powers()
    ensures Pow2(10) == 0x400 && Pow2(20) == 0x10_0000 && Pow2(32) == 0x1_0000_0000
  {
    assert Pow2(5) == 32 && Pow2(10) == 32 * Pow2(5);
    assert Pow2(15) == 32 * Pow2(10) && Pow2(20) == 32 * Pow2(15);
    assert Pow2(25) == 32 * Pow2(20) && Pow2(30) == 32 * Pow2(25);
  }

  /** The high bits of the upper unit or-ed with the offset of the lower one, which is negative in 32 bits if the lower
      unit is below its range. Whatever the lower unit is, a code point above it comes out. */
  function Joined(upper: Unit, lower: Unit): (c: CodePoint)
    requires 0xD800 <= upper <= 0xDBFF
    ensures c > lower
    ensures IsLower(lower) ==> c == (upper - 0xD800) * 0x400 + (lower - 0xDC00) + 0x10000
  {
    var high := (upper - 0xD800) * 0x400;
    Powers();
    if lower >= 0xDC00 then
      OrBounds(high, lower - 0xDC00, 20);
      JoinAdds(upper, lower);
      BitOr(high, lower - 0xDC00) + 0x10000
    else
      OrBounds(high, lower - 0xDC00 + 0x1_0000_0000, 32);
      BitOr(high, lower - 0xDC00 + 0x1_0000_0000) + 0x10000 - 0x1_0000_0000
  }

  lemma JoinAdds(upper: Unit, lower: Unit)
    requires 0xD800 <= upper <= 0xDBFF
    ensures IsLower(lower) ==>
              BitOr((upper - 0xD800) * 0x400, lower - 0xDC00) == (upper - 0xD800) * 0x400 + (lower - 0xDC00)
  {
    Powers();
    if IsLower(lower) {
      OrAdds(upper - 0xD800, lower - 0xDC00, 10);
    }
  }

  function ToCodePoint(upper: Unit, lower: Unit, strict: bool): (c: CodePoint) {
    if IsUpper(upper, strict) then Joined(upper, lower) else lower
  }

  lemma GlyphPair(c: CodePoint)
    requires c >= 0x10000
    ensures |Glyph(c)| == 2 && IsUpper(Glyph(c)[0], false) && IsLower(Glyph(c)[1])
    ensures ToCodePoint(Glyph(c)[0], Glyph(c)[1], false) == c
    ensures Glyph(c)[0] == 0xD800 <==> c <= 0x103FF
    ensures Glyph(c)[0] == 0xDBFF <==> 0x10FC00 <= c
  {
  }

  /** One unit is the code point itself, and pairs are in the order of their code points. */
  lemma GlyphOrder(x: CodePoint, y: CodePoint)
    requires x < y
    ensures x < 0x10000 ==> Glyph(x) == [x]
    ensures x >= 0x10000 ==> Less(Glyph(x), Glyph(y))
  {
    if x >= 0x10000 && Glyph(x)[0] == Glyph(y)[0] {
      assert Glyph(x)[1..] == [Glyph(x)[1]] && Glyph(y)[1..] == [Glyph(y)[1]];
    }
  }

  /** The surrogate ranges are exactly the units that pairs are made of. */
  lemma Surrogates(u: Unit)
    ensures IsUpper(u, false) <==> exists c: CodePoint :: c >= 0x10000 && Glyph(c)[0] == u
    ensures IsLower(u) <==> exists c: CodePoint :: c >= 0x10000 && Glyph(c)[1] == u
  {
    if IsUpper(u, false) {
      assert Glyph((u - 0xD800) * 0x400 + 0x10000)[0] == u;
    }
    if IsLower(u) {
      assert Glyph(u - 0xDC00 + 0x10000)[1] == u;
    }
  }

  // ---------- sequences ----------

  function ToUtf16(cs: seq<Spelled>): seq<Unit> {
    if cs == [] then [] else Glyph(cs[0]) + ToUtf16(cs[1..])
  }

  /** Every unit taken for an upper surrogate is followed by a lower one. */
  predicate Paired(us: seq<Unit>, strict: bool)
    decreases |us|
  {
    us == [] ||
    if IsUpper(us[0], strict) then |us| >= 2 && IsLower(us[1]) && Paired(us[2..], strict) else Paired(us[1..], strict)
  }

  /** The lower unit in the buffer when the input ends before it: the big-endian loop turns it round all the same. */
  function AtEnd(lower: Unit, order: Order): Unit {
    if order == BigEndian then lower % 0x100 * 0x100 + lower / 0x100 else lower
  }

  /** The code points the loop writes, given what the buffer's lower unit holds. A U+FEFF is read but not written, and
      then the buffer is not cleared. */
  function Written(us: seq<Unit>, lower: Unit, strict: bool, order: Order): (cs: seq<CodePoint>)
    decreases |us|
  {
    if us == [] then []
    else if IsUpper(us[0], strict) then
      var l := if |us| > 1 then us[1] else AtEnd(lower, order);
      var rest := if |us| > 1 then us[2..] else [];
      if l == BOM then Written(rest, BOM, strict, order)
      else [ToCodePoint(us[0], l, strict)] + Written(rest, 0, strict, order)
    else if us[0] == BOM then Written(us[1..], BOM, strict, order)
    else [ToCodePoint(lower, us[0], strict)] + Written(us[1..], 0, strict, order)
  }

  function NoBom(cs: seq<CodePoint>): (r: seq<CodePoint>)
    ensures forall c :: c in r <==> c in cs && c != BOM
  {
    if cs == [] then [] else (if cs[0] == BOM then [] else [cs[0]]) + NoBom(cs[1..])
  }

  ghost predicate Scalars(cs: seq<CodePoint>) { forall c :: c in cs ==> Scalar(c) }

  lemma Cons(c: CodePoint, rest: seq<Unit>)
    requires Scalar(c)
    ensures c < 0x10000 ==> (Glyph(c) + rest)[0] == c && (Glyph(c) + rest)[1..] == rest
    ensures c >= 0x10000 ==> (Glyph(c) + rest)[..2] == Glyph(c) && (Glyph(c) + rest)[2..] == rest
    ensures c >= 0x10000 ==> (Glyph(c) + rest)[1..][1..] == rest
  {
  }

  lemma {:induction false} WrittenClean(cs: seq<CodePoint>, lower: Unit, order: Order)
    requires Scalars(cs) && !IsUpper(lower, false)
    ensures Written(ToUtf16(cs), lower, false, order) == NoBom(cs)
    decreases |cs|
  {
    if cs != [] {
      var c := cs[0];
      assert Scalar(c);
      Cons(c, ToUtf16(cs[1..]));
      WrittenClean(cs[1..], if c == BOM then BOM else 0, order);
      if c >= 0x10000 { GlyphPair(c); }
    }
  }

  /** A unit left in the buffer that cannot spoil the first code point: it is no upper surrogate, or is overwritten. */
  predicate Harmless(cs: seq<CodePoint>, lower: Unit, strict: bool) {
    !IsUpper(lower, strict) || cs == [] || cs[0] == BOM || cs[0] >= 0x10000
  }

  /** What the buffer held matters for the first unit alone, and only if that is neither U+FEFF nor an upper surrogate. */
  lemma StaleFirst(us: seq<Unit>, lower: Unit, strict: bool, order: Order)
    requires us != [] && (IsUpper(us[0], strict) ==> |us| > 1)
    ensures IsUpper(us[0], strict) || us[0] == BOM || !IsUpper(lower, strict) ==>
              Written(us, lower, strict, order) == Written(us, 0, strict, order)
    ensures !IsUpper(us[0], strict) && us[0] != BOM && IsUpper(lower, strict) ==>
              var w := Written(us, lower, strict, order);
              w != [] && w[0] > us[0] && Written(us, 0, strict, order) == [us[0]] + w[1..]
  {
  }

  /** Decoding the encoding of scalar values leaves them, without U+FEFF, exactly if what the buffer held is harmless. */
  lemma WrittenUtf16(cs: seq<CodePoint>, lower: Unit, order: Order)
    requires Scalars(cs)
    ensures Written(ToUtf16(cs), lower, false, order) == NoBom(cs) <==> Harmless(cs, lower, false)
  {
    WrittenClean(cs, 0, order);
    if cs != [] {
      assert Scalar(cs[0]);
      Cons(cs[0], ToUtf16(cs[1..]));
      if cs[0] >= 0x10000 { GlyphPair(cs[0]); }
      StaleFirst(ToUtf16(cs), lower, false, order);
    }
  }

  /** All texts come out right exactly if the buffer does not hold an upper surrogate before it is first written. */
  lemma StaleIff(lower: Unit, order: Order)
    ensures (forall cs: seq<CodePoint> :: Scalars(cs) ==> Written(ToUtf16(cs), lower, false, order) == NoBom(cs))
       <==> !IsUpper(lower, false)
  {
    forall cs: seq<CodePoint> | Scalars(cs)
      ensures Written(ToUtf16(cs), lower, false, order) == NoBom(cs) <==> Harmless(cs, lower, false)
    {
      WrittenUtf16(cs, lower, order);
    }
    var one: seq<CodePoint> := [0x41];
    assert Scalars(one) && (Harmless(one, lower, false) <==> !IsUpper(lower, false));
  }

  /** Every unit taken for an upper surrogate is followed by a lower one. */
  lemma {:induction false} PairedUtf16(cs: seq<CodePoint>)
    requires Scalars(cs)
    ensures Paired(ToUtf16(cs), false)
    decreases |cs|
  {
    if cs != [] {
      assert Scalar(cs[0]);
      Cons(cs[0], ToUtf16(cs[1..]));
      PairedUtf16(cs[1..]);
      if cs[0] >= 0x10000 { GlyphPair(cs[0]); }
    }
  }

  // ---------- the bounds as written ----------

  /** The code points whose upper surrogate is one of the two bounds. */
  predicate Edge(c: CodePoint) { 0x10000 <= c <= 0x103FF || 0x10FC00 <= c }

  /** What the strict test makes of scalar values: an edge comes out as its two surrogates. */
  function Torn(cs: seq<CodePoint>): seq<CodePoint> {
    if cs == [] then []
    else
      (if cs[0] == BOM then [] else if Edge(cs[0]) then [Glyph(cs[0])[0], Glyph(cs[0])[1]] else [cs[0]])
      + Torn(cs[1..])
  }

  lemma {:induction false} WrittenStrict(cs: seq<CodePoint>, lower: Unit, order: Order)
    requires Scalars(cs) && !IsUpper(lower, true)
    ensures Written(ToUtf16(cs), lower, true, order) == Torn(cs)
    decreases |cs|
  {
    if cs != [] {
      var c := cs[0];
      assert Scalar(c);
      Cons(c, ToUtf16(cs[1..]));
      WrittenStrict(cs[1..], if c == BOM then BOM else 0, order);
      if c >= 0x10000 {
        GlyphPair(c);
        if Edge(c) { EdgeWritten(Glyph(c)[0], Glyph(c)[1], ToUtf16(cs[1..]), lower, order); }
      }
    }
  }

  /** Neither of the two units counts as an upper surrogate. */
  lemma EdgeWritten(u: Unit, v: Unit, rest: seq<Unit>, lower: Unit, order: Order)
    requires (u == 0xD800 || u == 0xDBFF) && IsLower(v) && !IsUpper(lower, true)
    ensures Written([u, v] + rest, lower, true, order) == [u, v] + Written(rest, 0, true, order)
  {
    var us := [u, v] + rest;
    assert us[1..] == [v] + rest && us[1..][1..] == rest;
    assert [u] + ([v] + Written(rest, 0, true, order)) == [u, v] + Written(rest, 0, true, order);
  }

  lemma {:induction false} TornIff(cs: seq<CodePoint>)
    requires Scalars(cs)
    ensures Torn(cs) == NoBom(cs) <==> forall c :: c in cs ==> !Edge(c)
    decreases |cs|
  {
    if c :| c in cs && Edge(c) {
      var u := TornHasSurrogate(cs, c);
      assert u !in NoBom(cs);
    } else {
      TornEqual(cs);
    }
  }

  lemma {:induction false} TornEqual(cs: seq<CodePoint>)
    requires forall c :: c in cs ==> !Edge(c)
    ensures Torn(cs) == NoBom(cs)
    decreases |cs|
  {
    if cs != [] { TornEqual(cs[1..]); }
  }

  lemma {:induction false} TornHasSurrogate(cs: seq<CodePoint>, c: CodePoint) returns (u: CodePoint)
    requires c in cs && Edge(c)
    ensures u in Torn(cs) && !Scalar(u)
    decreases |cs|
  {
    if cs[0] == c {
      GlyphPair(c);
      u := Glyph(c)[0];
      assert Torn(cs)[0] == u;
    } else {
      u := TornHasSurrogate(cs[1..], c);
      assert u in Torn(cs[1..]);
    }
  }

  /** The second half of a torn first code point. */
  lemma TornSecond(cs: seq<CodePoint>) returns (u: CodePoint)
    requires cs != [] && Edge(cs[0])
    ensures Torn(cs) != [] && u in Torn(cs)[1..] && !Scalar(u)
  {
    GlyphPair(cs[0]);
    u := Glyph(cs[0])[1];
    assert Torn(cs)[1] == u && Torn(cs)[1..][0] == u;
  }

  /** A spoiled first unit is not made good by the strict bounds. */
  lemma SpoiledStrict(cs: seq<CodePoint>, lower: Unit, order: Order)
    requires Scalars(cs) && cs != [] && IsUpper(lower, true)
    requires cs[0] != BOM && (cs[0] < 0x10000 || Edge(cs[0]))
    ensures Written(ToUtf16(cs), lower, true, order) != NoBom(cs)
  {
    var us := ToUtf16(cs);
    assert Scalar(cs[0]);
    Cons(cs[0], ToUtf16(cs[1..]));
    if cs[0] >= 0x10000 { GlyphPair(cs[0]); }
    StaleFirst(us, lower, true, order);
    WrittenStrict(cs, 0, order);
    var w := Written(us, lower, true, order);
    if Edge(cs[0]) {
      var u := TornSecond(cs);
      assert Torn(cs)[1..] == w[1..];
      assert u in w && u !in NoBom(cs);
    } else {
      assert NoBom(cs)[0] == cs[0];
    }
  }

  /** As written, the round trip keeps exactly the sequences without such code points, from a harmless buffer. */
  lemma StrictRoundTrip(cs: seq<CodePoint>, lower: Unit, order: Order)
    requires Scalars(cs)
    ensures ToUtf8(Written(ToUtf16(cs), lower, true, order)) == ToUtf8(NoBom(cs)) <==>
            (forall c :: c in cs ==> !Edge(c)) && Harmless(cs, lower, true)
  {
    WrittenStrict(cs, 0, order);
    TornIff(cs);
    var w := Written(ToUtf16(cs), lower, true, order);
    if ToUtf8(w) == ToUtf8(NoBom(cs)) { Injective(w, NoBom(cs)); }
    if cs != [] {
      if IsUpper(lower, true) && cs[0] != BOM && (cs[0] < 0x10000 || Edge(cs[0])) {
        SpoiledStrict(cs, lower, order);
        assert cs[0] in cs;
      } else {
        assert Scalar(cs[0]);
        Cons(cs[0], ToUtf16(cs[1..]));
        if cs[0] >= 0x10000 { GlyphPair(cs[0]); }
        StaleFirst(ToUtf16(cs), lower, true, order);
      }
    }
  }

  // ---------- bytes ----------

  function Pair(u: Unit, order: Order): (b: seq<Byte>)
    ensures |b| == 2
  {
    if order == BigEndian then [u / 0x100, u % 0x100] else [u % 0x100, u / 0x100]
  }

  function Bytes(us: seq<Unit>, order: Order): (b: seq<Byte>)
    ensures |b| == 2 * |us| && |b| % 2 == 0
  {
    if us == [] then [] else Pair(us[0], order) + Bytes(us[1..], order)
  }

  function FromPair(a: Byte, b: Byte, order: Order): Unit {
    if order == BigEndian then a * 0x100 + b else b * 0x100 + a
  }

  function Units(s: seq<Byte>, order: Order): (us: seq<Unit>)
    requires |s| % 2 == 0
    ensures 2 * |us| == |s|
  {
    if s == [] then [] else [FromPair(s[0], s[1], order)] + Units(s[2..], order)
  }

  lemma {:induction false} UnitsBytes(us: seq<Unit>, order: Order)
    ensures Units(Bytes(us, order), order) == us
    decreases |us|
  {
    if us != [] {
      UnitsBytes(us[1..], order);
      var p, rest := Pair(us[0], order), Bytes(us[1..], order);
      assert (p + rest)[2..] == rest;
      assert (p + rest)[0] == p[0] && (p + rest)[1] == p[1];
    }
  }

  /** Big-endian bytes are in the order of the units: the high byte comes first. */
  lemma {:induction false} BigEndianOrder(a: seq<Unit>, b: seq<Unit>)
    ensures Less(Bytes(a, BigEndian), Bytes(b, BigEndian)) <==> Less(a, b)
    decreases |a|
  {
    if a == [] || b == [] {
      assert a != [] ==> Bytes(a, BigEndian) != [];
      assert b != [] ==> Bytes(b, BigEndian) != [];
    } else if a[0] == b[0] {
      LessAfter(Pair(a[0], BigEndian), Bytes(a[1..], BigEndian), Bytes(b[1..], BigEndian));
      BigEndianOrder(a[1..], b[1..]);
    } else if a[0] < b[0] {
      PairLess(a[0], b[0], Bytes(a[1..], BigEndian), Bytes(b[1..], BigEndian));
    } else {
      PairLess(b[0], a[0], Bytes(b[1..], BigEndian), Bytes(a[1..], BigEndian));
      LessOneWay(Bytes(b, BigEndian), Bytes(a, BigEndian));
    }
  }

  lemma PairLess(x: Unit, y: Unit, s: seq<Byte>, t: seq<Byte>)
    requires x < y
    ensures Less(Pair(x, BigEndian) + s, Pair(y, BigEndian) + t)
  {
    var p, q := Pair(x, BigEndian) + s, Pair(y, BigEndian) + t;
    assert p[0] == x / 0x100 && q[0] == y / 0x100;
    if p[0] == q[0] {
      assert p[1..][0] == x % 0x100 && q[1..][0] == y % 0x100;
    }
  }

  /** An upper surrogate at the end is joined with the two bytes the buffer has in memory, lower byte first, as if they
      had been read from the input in its order. */
  lemma LoneUpper(u: Unit, lower: Unit, strict: bool, order: Order)
    requires IsUpper(u, strict)
    ensures var b := Pair(lower, LittleEndian);
            var l := FromPair(b[0], b[1], order);
            Written([u], lower, strict, order) == if l == BOM then [] else [Joined(u, l)]
  {
    assert Written([], BOM, strict, order) == [] && Written([], 0, strict, order) == [];
  }

  /** Every pair of bytes turned round. */
  function Swapped(s: seq<Byte>): (r: seq<Byte>)
    requires |s| % 2 == 0
    ensures |r| == |s|
  {
    if s == [] then [] else [s[1], s[0]] + Swapped(s[2..])
  }

  lemma {:induction false} SwappedBytes(us: seq<Unit>)
    ensures Swapped(Bytes(us, LittleEndian)) == Bytes(us, BigEndian)
    ensures Swapped(Bytes(us, BigEndian)) == Bytes(us, LittleEndian)
    decreases |us|
  {
    if us != [] {
      SwappedBytes(us[1..]);
      var p, rest := Pair(us[0], LittleEndian), Bytes(us[1..], LittleEndian);
      var q, last := Pair(us[0], BigEndian), Bytes(us[1..], BigEndian);
      assert (p + rest)[2..] == rest && (q + last)[2..] == last;
      assert [(p + rest)[1], (p + rest)[0]] == q && [(q + last)[1], (q + last)[0]] == p;
    }
  }
}
