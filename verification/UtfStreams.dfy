/** The transcoder's loops over a file body, and what going there and back, or by way of the other order, gives. */
module UtfStreams {

  import opened Utf8
  import opened Utf16
  import opened Sequences

  // ---------- appending ----------

  lemma {:induction false} BytesAppend(a: seq<Unit>, b: seq<Unit>, order: Order)
    ensures Bytes(a + b, order) == Bytes(a, order) + Bytes(b, order)
    decreases |a|
  {
    if a == [] {
      assert a + b == b;
    } else {
      assert (a + b)[1..] == a[1..] + b;
      BytesAppend(a[1..], b, order);
    }
  }

  // ---------- UTF-8 to UTF-16 ----------

  method WriteGlyph(c: Spelled, order: Order) returns (b: seq<Byte>)
    ensures b == Bytes(Glyph(c), order)
  {
    if c >= 0x10000 {
      var upper, lower := (c - 0x10000) / 0x400 + 0xD800, (c - 0x10000) % 0x400 + 0xDC00;
      b := Pair(upper, order) + Pair(lower, order);
      assert Glyph(c)[1..] == [lower] && Bytes([lower], order) == Pair(lower, order) + [];
    } else {
      b := Pair(c, order);
      assert b + [] == b;
    }
  }

  /** The buffer with these bytes written from at on. */
  function Overlaid(buf: seq<Byte>, at: nat, bytes: seq<Byte>): (b: seq<Byte>)
    requires at + |bytes| <= |buf|
    ensures |b| == |buf|
  {
    buf[..at] + bytes + buf[at + |bytes|..]
  }

  lemma OverlaidTwice(buf: seq<Byte>, a: seq<Byte>, b: seq<Byte>)
    requires |a| + |b| <= |buf|
    ensures Overlaid(Overlaid(buf, 0, a), |a|, b) == Overlaid(buf, 0, a + b)
  {
  }

  /** read: up to n bytes into the buffer, fewer at the end of the input. */
  method ReadInto(buf: array<Byte>, at: nat, n: nat, input: seq<Byte>, pos: nat) returns (got: nat)
    requires at + n <= buf.Length && pos <= |input|
    modifies buf
    ensures got == if pos + n <= |input| then n else |input| - pos
    ensures buf[..] == Overlaid(old(buf[..]), at, input[pos..pos + got])
  {
    got := if pos + n <= |input| then n else |input| - pos;
    ghost var was := buf[..];
    for j := 0 to got
      invariant forall k :: 0 <= k < buf.Length ==> buf[k] == if at <= k < at + j then input[pos + k - at] else was[k]
    {
      buf[at + j] := input[pos + j];
    }
    ghost var want := Overlaid(was, at, input[pos..pos + got]);
    assert forall k :: 0 <= k < buf.Length ==> buf[k] == want[k];
  }

  /** One glyph through the buffer: its first byte, and as many as that asks for. */
  method ReadGlyph(buf: array<Byte>, input: seq<Byte>, pos: nat) returns (n: nat, next: nat)
    requires buf.Length == 4 && pos < |input|
    modifies buf
    ensures n == Remaining(input[pos]) + 1 && next == if pos + n <= |input| then pos + n else |input|
    ensures buf[..] == Filled(input[pos..], old(buf[..]))
  {
    ghost var was := buf[..];
    var _ := ReadInto(buf, 0, 1, input, pos);
    ReadFirst(was, input, pos);
    assert buf[0] == buf[..][0];
    n := Remaining(buf[0]) + 1;
    next := pos + 1;
    if n == 1 {
      OneFilled(was, input, pos);
    } else {
      var got := ReadInto(buf, 1, n - 1, input, next);
      next := next + got;
      RestFilled(was, input, pos, n, got);
    }
  }

  lemma ReadFirst(was: seq<Byte>, input: seq<Byte>, pos: nat)
    requires |was| == 4 && pos < |input|
    ensures Overlaid(was, 0, input[pos..pos + 1])[0] == input[pos]
  {
  }

  lemma OneFilled(was: seq<Byte>, input: seq<Byte>, pos: nat)
    requires |was| == 4 && pos < |input| && Remaining(input[pos]) == 0
    ensures Overlaid(was, 0, input[pos..pos + 1]) == Filled(input[pos..], was)
  {
    assert input[pos..][..1] == input[pos..pos + 1];
    FilledIs(input[pos..], was, input[pos..pos + 1]);
  }

  lemma RestFilled(was: seq<Byte>, input: seq<Byte>, pos: nat, n: nat, got: nat)
    requires |was| == 4 && pos < |input| && n == Remaining(input[pos]) + 1
    requires got == if pos + n <= |input| then n - 1 else |input| - pos - 1
    ensures Overlaid(Overlaid(was, 0, input[pos..pos + 1]), 1, input[pos + 1..pos + 1 + got]) == Filled(input[pos..], was)
  {
    var bytes := input[pos..pos + 1] + input[pos + 1..pos + 1 + got];
    OverlaidTwice(was, input[pos..pos + 1], input[pos + 1..pos + 1 + got]);
    assert input[pos..pos + 1] == [input[pos]];
    OneMore(input, pos, got);
    assert input[pos..][..|input| - pos] == input[pos..];
    FilledIs(input[pos..], was, bytes);
  }

  lemma OneMore(input: seq<Byte>, pos: nat, got: nat)
    requires pos + 1 + got <= |input|
    ensures [input[pos]] + input[pos + 1..pos + 1 + got] == input[pos..][..1 + got]
  {
  }

  lemma FilledIs(s: seq<Byte>, buf: seq<Byte>, bytes: seq<Byte>)
    requires s != [] && |buf| == 4
    requires var n := Remaining(s[0]) + 1; bytes == if n <= |s| then s[..n] else s
    ensures Filled(s, buf) == Overlaid(buf, 0, bytes)
  {
  }

  lemma DecodedStep(s: seq<Byte>, buf: seq<Byte>)
    requires s != [] && |buf| == 4
    ensures var n := Remaining(s[0]) + 1;
            Decoded(s, buf) == [Decode(Filled(s, buf)[..n])] + Decoded(if n <= |s| then s[n..] else [], Filled(s, buf))
  {
  }

  lemma BytesCons(c: Spelled, cs: seq<Spelled>, order: Order)
    ensures Bytes(ToUtf16([c] + cs), order) == Bytes(Glyph(c), order) + Bytes(ToUtf16(cs), order)
  {
    assert ([c] + cs)[1..] == cs;
    BytesAppend(Glyph(c), ToUtf16(cs), order);
  }

  /** What is still to be written. */
  ghost function Ahead(s: seq<Byte>, buf: seq<Byte>, order: Order): seq<Byte>
    requires |buf| == 4
  {
    Bytes(ToUtf16(Decoded(s, buf)), order)
  }

  /** One turn of the loop: a glyph through the buffer, and the bytes of its units. */
  method NextGlyph(buf: array<Byte>, input: seq<Byte>, pos: nat, order: Order) returns (b: seq<Byte>, next: nat)
    requires buf.Length == 4 && pos < |input|
    modifies buf
    ensures pos < next <= |input|
    ensures Ahead(input[pos..], old(buf[..]), order) == b + Ahead(input[next..], buf[..], order)
  {
    ghost var s := input[pos..];
    DecodedStep(s, buf[..]);
    var n;
    n, next := ReadGlyph(buf, input, pos);
    var c := Decode(buf[..n]);
    b := WriteGlyph(c, order);
    assert input[next..] == if n <= |s| then s[n..] else [];
    assert buf[..n] == buf[..][..n];
    BytesCons(c, Decoded(input[next..], buf[..]), order);
  }

  lemma Marks()
    ensures Pair(BOM, BigEndian) == [0xFE, 0xFF] && Pair(BOM, LittleEndian) == [0xFF, 0xFE]
  {
  }

  lemma MarkFirst(mark: seq<Byte>, body: seq<Byte>)
    requires |mark| == 2
    ensures (mark + body)[..2] == mark
  {
  }

  /** The body in, the mark and the body out; stale is what the buffer of four bytes holds at first. */
  method FromUtf8(input: seq<Byte>, order: Order, stale: seq<Byte>) returns (out: seq<Byte>)
    requires |stale| == 4
    ensures out == Pair(BOM, order) + Bytes(ToUtf16(Decoded(input, stale)), order)
    ensures out[..2] == if order == BigEndian then [0xFE, 0xFF] else [0xFF, 0xFE]
  {
    out := Pair(BOM, order);
    var buf := new Byte[4](i requires 0 <= i < 4 => stale[i]);
    assert buf[..] == stale;
    var pos := 0;
    assert input[0..] == input;
    while pos < |input|
      invariant 0 <= pos <= |input|
      invariant out + Ahead(input[pos..], buf[..], order) == Pair(BOM, order) + Ahead(input, stale, order)
      decreases |input| - pos
    {
      var b;
      b, pos := NextGlyph(buf, input, pos, order);
      Assoc(out, b, Ahead(input[pos..], buf[..], order));
      out := out + b;
    }
    assert out + [] == out;
    MarkFirst(Pair(BOM, order), Ahead(input, stale, order));
    Marks();
  }

  // ---------- UTF-16 to UTF-8 ----------

  lemma UnitsStep(s: seq<Byte>, order: Order)
    requires |s| % 2 == 0 && |s| >= 2
    ensures Units(s, order)[0] == FromPair(s[0], s[1], order) && Units(s, order)[1..] == Units(s[2..], order)
  {
  }

  lemma TwoUnits(s: seq<Byte>, order: Order)
    requires |s| % 2 == 0 && |s| >= 4
    ensures Units(s, order)[1] == FromPair(s[2], s[3], order) && Units(s, order)[2..] == Units(s[4..], order)
  {
    var us := Units(s, order);
    UnitsStep(s, order);
    UnitsStep(s[2..], order);
    assert us[1..][1..] == us[2..] && s[2..][2..] == s[4..];
  }

  lemma Utf8Cons(c: CodePoint, rest: seq<CodePoint>)
    ensures ToUtf8([c] + rest) == Encode(c) + ToUtf8(rest)
  {
    assert ([c] + rest)[1..] == rest;
  }

  /** The bytes still to be written. */
  ghost function Rest(s: seq<Byte>, order: Order, strict: bool, lower: Unit): seq<Byte>
    requires |s| % 2 == 0
  {
    ToUtf8(Written(Units(s, order), lower, strict, order))
  }

  /** One turn's output: nothing for U+FEFF in the lower unit, which then stays. */
  ghost predicate Turn(s: seq<Byte>, order: Order, strict: bool, lower: Unit, up: Unit, low: Unit, rest: seq<Byte>)
    requires |s| % 2 == 0 && |rest| % 2 == 0
  {
    Rest(s, order, strict, lower) ==
      if low == BOM then Rest(rest, order, strict, BOM)
      else Encode(ToCodePoint(up, low, strict)) + Rest(rest, order, strict, 0)
  }

  lemma TurnPair(s: seq<Byte>, order: Order, strict: bool, lower: Unit)
    requires |s| % 2 == 0 && |s| >= 4 && IsUpper(FromPair(s[0], s[1], order), strict)
    ensures Turn(s, order, strict, lower, FromPair(s[0], s[1], order), FromPair(s[2], s[3], order), s[4..])
  {
    var us := Units(s, order);
    UnitsStep(s, order);
    TwoUnits(s, order);
    if us[1] != BOM {
      Utf8Cons(ToCodePoint(us[0], us[1], strict), Written(us[2..], 0, strict, order));
    }
  }

  lemma TurnEnd(s: seq<Byte>, order: Order, strict: bool, lower: Unit)
    requires |s| == 2 && IsUpper(FromPair(s[0], s[1], order), strict)
    ensures Turn(s, order, strict, lower, FromPair(s[0], s[1], order), AtEnd(lower, order), [])
  {
    var us := Units(s, order);
    UnitsStep(s, order);
    var l := AtEnd(lower, order);
    assert Units([], order) == [] && Written([], 0, strict, order) == [] && Written([], BOM, strict, order) == [];
    if l != BOM {
      Utf8Cons(ToCodePoint(us[0], l, strict), []);
    }
  }

  lemma TurnUnit(s: seq<Byte>, order: Order, strict: bool, lower: Unit)
    requires |s| % 2 == 0 && s != [] && !IsUpper(FromPair(s[0], s[1], order), strict)
    ensures Turn(s, order, strict, lower, lower, FromPair(s[0], s[1], order), s[2..])
  {
    var us := Units(s, order);
    UnitsStep(s, order);
    if us[0] != BOM {
      Utf8Cons(ToCodePoint(lower, us[0], strict), Written(us[1..], 0, strict, order));
    }
  }

  /** The two units in the buffer after one turn's reads, and the bytes left. */
  function Taken(s: seq<Byte>, order: Order, strict: bool, lower: Unit): (r: (Unit, Unit, seq<Byte>))
    requires |s| % 2 == 0 && s != []
    ensures |r.2| % 2 == 0
  {
    var u := FromPair(s[0], s[1], order);
    if !IsUpper(u, strict) then (lower, u, s[2..])
    else if |s| >= 4 then (u, FromPair(s[2], s[3], order), s[4..])
    else (u, AtEnd(lower, order), [])
  }

  lemma TakenTurn(s: seq<Byte>, order: Order, strict: bool, lower: Unit)
    requires |s| % 2 == 0 && s != []
    ensures var (up, low, rest) := Taken(s, order, strict, lower); Turn(s, order, strict, lower, up, low, rest)
  {
    if !IsUpper(FromPair(s[0], s[1], order), strict) {
      TurnUnit(s, order, strict, lower);
    } else if |s| >= 4 {
      TurnPair(s, order, strict, lower);
    } else {
      TurnEnd(s, order, strict, lower);
    }
  }

  /** What is taken, told by the places in the input. */
  lemma TakenAt(input: seq<Byte>, at: nat, order: Order, strict: bool, lower: Unit, u: Unit)
    requires at + 2 <= |input| && (|input| - at) % 2 == 0 && u == FromPair(input[at], input[at + 1], order)
    ensures Taken(input[at..], order, strict, lower) ==
            if !IsUpper(u, strict) then (lower, u, input[at + 2..])
            else if at + 4 <= |input| then (u, FromPair(input[at + 2], input[at + 3], order), input[at + 4..])
            else (u, AtEnd(lower, order), [])
  {
    var s := input[at..];
    assert s[0] == input[at] && s[1] == input[at + 1] && s[2..] == input[at + 2..];
    if at + 4 <= |input| {
      assert s[2] == input[at + 2] && s[3] == input[at + 3] && s[4..] == input[at + 4..];
    }
  }

  /** One turn of the loop up to the write: one or two units into the buffer, the one alone into its lower half. */
  method ReadUnits(input: seq<Byte>, at: nat, order: Order, strict: bool, lower: Unit)
    returns (up: Unit, low: Unit, pos: nat)
    requires at < |input| && (|input| - at) % 2 == 0
    ensures at < pos <= |input| && (|input| - pos) % 2 == 0
    ensures (up, low, input[pos..]) == Taken(input[at..], order, strict, lower)
  {
    up, low := FromPair(input[at], input[at + 1], order), lower;
    pos := at + 2;
    TakenAt(input, at, order, strict, lower, up);
    if IsUpper(up, strict) {
      if pos < |input| {
        low := FromPair(input[pos], input[pos + 1], order);
        pos := pos + 2;
      } else {
        low := AtEnd(low, order);
        assert input[pos..] == [];
      }
    } else {
      up, low := low, up;
    }
  }

  /** stale is what the buffer's lower unit holds before it is first written. */
  method FromUtf16(input: seq<Byte>, order: Order, strict: bool, stale: Unit) returns (out: seq<Byte>)
    requires |input| % 2 == 0
    ensures out == ToUtf8(Written(Units(input, order), stale, strict, order))
  {
    out := [];
    var pos := 0;
    var upper: Unit, lower := 0, stale;
    assert input[0..] == input;
    while pos < |input|
      invariant 0 <= pos <= |input| && (|input| - pos) % 2 == 0
      invariant out + Rest(input[pos..], order, strict, lower) == Rest(input, order, strict, stale)
      decreases |input| - pos
    {
      TakenTurn(input[pos..], order, strict, lower);
      upper, lower, pos := ReadUnits(input, pos, order, strict, lower);
      if lower != BOM {
        var g := EncodeGlyph(ToCodePoint(upper, lower, strict));
        Assoc(out, g, Rest(input[pos..], order, strict, 0));
        out := out + g;
        upper, lower := 0, 0;
      }
    }
    assert out + [] == out;
  }

  lemma DropMark(mark: seq<Byte>, body: seq<Byte>)
    requires |mark| == 2
    ensures (mark + body)[2..] == body
  {
  }

  /** The first program's output behind the mark, where the second one starts to read. */
  method BodyOf(input: seq<Byte>, order: Order, glyph: seq<Byte>, ghost cs: seq<CodePoint>) returns (body: seq<Byte>)
    requires input == ToUtf8(cs) && |glyph| == 4
    ensures body == Bytes(ToUtf16(cs), order)
  {
    var there := FromUtf8(input, order, glyph);
    DecodedUtf8(cs, glyph);
    DropMark(Pair(BOM, order), Bytes(ToUtf16(cs), order));
    body := there[2..];
  }

  /** UTF-8 to UTF-16 of either order and back gives the input without U+FEFF, exactly if what the second program's
      buffer held cannot spoil the first unit. */
  method ThereAndBack(input: seq<Byte>, order: Order, glyph: seq<Byte>, stale: Unit, ghost cs: seq<CodePoint>)
    returns (out: seq<Byte>)
    requires Scalars(cs) && input == ToUtf8(cs) && |glyph| == 4
    ensures out == ToUtf8(NoBom(cs)) <==> Harmless(cs, stale, false)
  {
    var body := BodyOf(input, order, glyph, cs);
    UnitsBytes(ToUtf16(cs), order);
    WrittenUtf16(cs, stale, order);
    out := FromUtf16(body, order, false, stale);
    if out == ToUtf8(NoBom(cs)) {
      Injective(Written(ToUtf16(cs), stale, false, order), NoBom(cs));
    }
  }

  // ---------- little-endian to big-endian ----------

  /** utf.c's test for a lower surrogate. */
  predicate IsLowerAsWritten(u: Unit) { 0xDC00 < u < 0xDFFF }

  /** What the loop of utf16le.c writes. It asks for a second unit if the unit just read is an upper surrogate or, as
      written, if the unit last left in the buffer looks like a lower one; at the end of the file the buffer's old
      second unit is written. */
  function SwapLoop(s: seq<Byte>, lower: Unit, asWritten: bool): (r: seq<Byte>)
    requires |s| % 2 == 0
    decreases |s|
  {
    if s == [] then []
    else if if asWritten then !IsLowerAsWritten(lower) else !IsUpper(FromPair(s[0], s[1], LittleEndian), false) then
      [s[1], s[0]] + SwapLoop(s[2..], lower, asWritten)
    else if |s| == 2 then [s[1], s[0]] + Pair(lower, BigEndian)
    else [s[1], s[0], s[3], s[2]] + SwapLoop(s[4..], FromPair(s[2], s[3], BigEndian), asWritten)
  }

  method Reverse(a: array<Byte>, at: nat)
    requires at + 2 <= a.Length
    modifies a
    ensures a[..] == old(a[..])[at := old(a[at + 1])][at + 1 := old(a[at])]
  {
    a[at], a[at + 1] := a[at + 1], a[at];
  }

  lemma SwapStep(s: seq<Byte>, lower: Unit, asWritten: bool)
    requires |s| % 2 == 0 && s != []
    ensures var more := if asWritten then IsLowerAsWritten(lower) else IsUpper(FromPair(s[0], s[1], LittleEndian), false);
            SwapLoop(s, lower, asWritten) ==
            if !more then [s[1], s[0]] + SwapLoop(s[2..], lower, asWritten)
            else if |s| == 2 then [s[1], s[0]] + Pair(lower, BigEndian) + SwapLoop([], lower, asWritten)
            else [s[1], s[0], s[3], s[2]] + SwapLoop(s[4..], FromPair(s[2], s[3], BigEndian), asWritten)
  {
  }

  lemma SwapTail(s: seq<Byte>, lower: Unit, lower': Unit, asWritten: bool)
    requires s == []
    ensures SwapLoop(s, lower, asWritten) == SwapLoop(s, lower', asWritten)
  {
  }

  /** The buffer's second unit. */
  function Second(buf: seq<Byte>): Unit
    requires |buf| == 4
  {
    FromPair(buf[2], buf[3], LittleEndian)
  }

  lemma SecondPair(buf: seq<Byte>)
    requires |buf| == 4
    ensures Pair(Second(buf), BigEndian) == [buf[3], buf[2]]
    ensures FromPair(buf[2], buf[3], BigEndian) == FromPair(buf[3], buf[2], LittleEndian)
  {
  }

  /** The part of one turn after the first unit is in the buffer and turned round: the second unit, if asked for. */
  method SwapSecond(buf: array<Byte>, input: seq<Byte>, at: nat) returns (pos: nat)
    requires buf.Length == 4 && at <= |input| && (|input| - at) % 2 == 0
    modifies buf
    ensures at <= pos <= |input|
    ensures pos == if at < |input| then at + 2 else at
    ensures buf[0] == old(buf[0]) && buf[1] == old(buf[1])
    ensures if at < |input| then buf[2] == input[at + 1] && buf[3] == input[at]
            else buf[2] == old(buf[3]) && buf[3] == old(buf[2])
  {
    pos := at;
    if at < |input| {
      buf[2], buf[3] := input[at], input[at + 1];
      pos := at + 2;
    }
    Reverse(buf, 2);
  }

  /** One turn of the loop: one or two units through the four bytes of the buffer. */
  method SwapTurn(buf: array<Byte>, input: seq<Byte>, at: nat, asWritten: bool) returns (pos: nat, piece: seq<Byte>)
    requires buf.Length == 4 && at < |input| && (|input| - at) % 2 == 0
    modifies buf
    ensures at < pos <= |input| && (|input| - pos) % 2 == 0
    ensures SwapLoop(input[at..], Second(old(buf[..])), asWritten) ==
            piece + SwapLoop(input[pos..], Second(buf[..]), asWritten)
  {
    ghost var s, lower := input[at..], Second(buf[..]);
    SwapStep(s, lower, asWritten);
    SecondPair(buf[..]);
    buf[0], buf[1] := input[at], input[at + 1];
    pos := at + 2;
    var more := if asWritten then IsLowerAsWritten(FromPair(buf[2], buf[3], LittleEndian))
                else IsUpper(FromPair(buf[0], buf[1], LittleEndian), false);
    Reverse(buf, 0);
    if more {
      pos := SwapSecond(buf, input, pos);
      piece := buf[..4];
      if pos == at + 4 {
        assert input[pos..] == s[4..];
        assert piece == [s[1], s[0], s[3], s[2]];
      } else {
        assert piece == [s[1], s[0]] + Pair(lower, BigEndian);
        SwapTail(input[pos..], lower, Second(buf[..]), asWritten);
      }
    } else {
      piece := buf[..2];
      assert input[pos..] == s[2..];
      assert piece == [s[1], s[0]];
    }
  }

  method SwapToBigEndian(input: seq<Byte>, stale: Unit, asWritten: bool) returns (out: seq<Byte>)
    requires |input| % 2 == 0
    ensures out == Pair(BOM, BigEndian) + SwapLoop(input, stale, asWritten)
    ensures out[..2] == [0xFE, 0xFF]
  {
    out := Pair(BOM, BigEndian);
    var buf := new Byte[4](i => 0);
    buf[2], buf[3] := stale % 0x100, stale / 0x100;
    var pos := 0;
    while pos < |input|
      invariant 0 <= pos <= |input| && (|input| - pos) % 2 == 0
      invariant out + SwapLoop(input[pos..], Second(buf[..]), asWritten)
             == Pair(BOM, BigEndian) + SwapLoop(input, stale, asWritten)
      decreases |input| - pos
    {
      var piece;
      pos, piece := SwapTurn(buf, input, pos, asWritten);
      Assoc(out, piece, SwapLoop(input[pos..], Second(buf[..]), asWritten));
      out := out + piece;
    }
    assert out + [] == out;
    MarkFirst(Pair(BOM, BigEndian), SwapLoop(input, stale, asWritten));
    Marks();
  }

  /** With the unit just read tested, every unit of a well-formed body is turned round. */
  lemma {:induction false} SwapTurns(s: seq<Byte>, lower: Unit)
    requires |s| % 2 == 0 && Paired(Units(s, LittleEndian), false)
    ensures SwapLoop(s, lower, false) == Swapped(s)
    decreases |s|
  {
    if s != [] {
      var us := Units(s, LittleEndian);
      UnitsStep(s, LittleEndian);
      if IsUpper(us[0], false) {
        TwoUnits(s, LittleEndian);
        assert s[2..][2..] == s[4..];
        SwapTurns(s[4..], FromPair(s[2], s[3], BigEndian));
      } else {
        SwapTurns(s[2..], lower);
      }
    }
  }

  /** With either test every unit of any body is turned round; at most one unit more comes out at the end. */
  lemma {:induction false} SwapsAll(s: seq<Byte>, lower: Unit, asWritten: bool)
    requires |s| % 2 == 0
    ensures Swapped(s) <= SwapLoop(s, lower, asWritten) && |SwapLoop(s, lower, asWritten)| <= |s| + 2
    decreases |s|
  {
    if s != [] {
      SwapStep(s, lower, asWritten);
      SwapsAll(s[2..], lower, asWritten);
      assert [s[1], s[0]] + Swapped(s[2..]) == Swapped(s);
      if |s| >= 4 {
        SwapsAll(s[4..], FromPair(s[2], s[3], BigEndian), asWritten);
        assert s[2..][2..] == s[4..];
        assert [s[1], s[0], s[3], s[2]] + Swapped(s[4..]) == Swapped(s);
      }
    }
  }

  lemma {:induction false} NeverAsks(s: seq<Byte>, lower: Unit)
    requires |s| % 2 == 0 && !IsLowerAsWritten(lower)
    ensures SwapLoop(s, lower, true) == Swapped(s)
    decreases |s|
  {
    if s != [] { NeverAsks(s[2..], lower); }
  }

  /** As written, all bodies are turned round right exactly if the buffer does not happen to hold what looks like a
      lower surrogate before the first read; otherwise a body of one unit comes out as two. */
  lemma AsWrittenSwaps(stale: Unit)
    ensures (forall s: seq<Byte> :: |s| % 2 == 0 ==> SwapLoop(s, stale, true) == Swapped(s))
       <==> !(0xDC00 < stale < 0xDFFF)
  {
    if IsLowerAsWritten(stale) {
      var s: seq<Byte> := [0x41, 0];
      assert |SwapLoop(s, stale, true)| == 4;
    } else {
      forall s: seq<Byte> | |s| % 2 == 0 ensures SwapLoop(s, stale, true) == Swapped(s) {
        NeverAsks(s, stale);
      }
    }
  }

  lemma TurnedRound(cs: seq<CodePoint>, stale: Unit)
    requires Scalars(cs)
    ensures SwapLoop(Bytes(ToUtf16(cs), LittleEndian), stale, false) == Bytes(ToUtf16(cs), BigEndian)
  {
    PairedUtf16(cs);
    UnitsBytes(ToUtf16(cs), LittleEndian);
    SwapTurns(Bytes(ToUtf16(cs), LittleEndian), stale);
    SwappedBytes(ToUtf16(cs));
  }

  /** UTF-8 to little-endian, then turned round, is UTF-8 to big-endian, whatever the buffers held. */
  method ByWayOfLittleEndian(input: seq<Byte>, glyph: seq<Byte>, stale: Unit, ghost cs: seq<CodePoint>)
    returns (out: seq<Byte>)
    requires Scalars(cs) && input == ToUtf8(cs) && |glyph| == 4
    ensures out == Pair(BOM, BigEndian) + Bytes(ToUtf16(cs), BigEndian)
  {
    var body := BodyOf(input, LittleEndian, glyph, cs);
    TurnedRound(cs, stale);
    out := SwapToBigEndian(body, stale, false);
  }
}
