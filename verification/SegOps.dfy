/** What sf_malloc, sf_free and sf_realloc do to the blocks and the lists. */
module SegOps {
  import opened SegSpec

  /** What sf_malloc and sf_realloc answer: a payload, NULL after a free, or NULL with sf_errno set. */
  datatype Reply = Got(at: nat) | Released | Invalid | NoMemory

  /** Units of a block for this request: payload and two tags, rounded up. */
  function Units(size: nat): nat {
    (size + 31) / 16
  }

  // ---------- the search ----------

  ghost predicate AllKnown(a: Abs, l: seq<nat>) {
    forall k :: 0 <= k < |l| ==> l[k] in a.blocks
  }

  /** The first block on the list that is big enough, or NULL. */
  ghost function FindIn(a: Abs, l: seq<nat>, r: nat): (s: int)
    requires AllKnown(a, l)
    ensures s == NULL ==> forall k :: 0 <= k < |l| ==> a.blocks[l[k]].size < r
    ensures s != NULL ==> s in l && a.blocks[s].size >= r
  {
    if l == [] then NULL
    else if a.blocks[l[0]].size >= r then l[0]
    else FindIn(a, l[1..], r)
  }

  /** The k-th block of the list is big enough, and those before it are not. */
  ghost predicate FirstAt(a: Abs, l: seq<nat>, r: nat, k: nat)
    requires AllKnown(a, l)
  {
    k < |l| && a.blocks[l[k]].size >= r && forall j :: 0 <= j < k ==> a.blocks[l[j]].size < r
  }

  /** The search of one list stops at the first block that will do. */
  lemma {:induction false} FindsFirst(a: Abs, l: seq<nat>, r: nat)
    requires AllKnown(a, l) && FindIn(a, l, r) != NULL
    ensures exists k: nat :: FirstAt(a, l, r, k) && l[k] == FindIn(a, l, r)
    decreases |l|
  {
    if a.blocks[l[0]].size >= r {
      assert FirstAt(a, l, r, 0);
    } else {
      var rest := l[1..];
      FindsFirst(a, rest, r);
      var k: nat :| FirstAt(a, rest, r, k) && rest[k] == FindIn(a, rest, r);
      assert forall j :: 0 < j <= k ==> a.blocks[l[j]] == a.blocks[rest[j - 1]];
      assert FirstAt(a, l, r, k + 1);
    }
  }

  /** The lists are tried upwards from i; a list whose bound does not exceed the request is skipped. */
  ghost function FindFit(a: Abs, r: nat, i: nat): (s: int)
    requires i <= 4 && |a.lists| == 4 && forall j :: 0 <= j < 4 ==> AllKnown(a, a.lists[j])
    decreases 4 - i
  {
    if i == 4 then NULL
    else if ListMax(i) > 16 * r && FindIn(a, a.lists[i], r) != NULL then FindIn(a, a.lists[i], r)
    else FindFit(a, r, i + 1)
  }

  lemma ListsKnown(a: Abs, x: int)
    requires Listed(a, x)
    ensures forall j :: 0 <= j < 4 ==> AllKnown(a, a.lists[j])
  {
    forall j, k | 0 <= j < 4 && 0 <= k < |a.lists[j]|
      ensures a.lists[j][k] in a.blocks
    {
      assert a.lists[j][k] in a.lists[j];
      assert BelongsOn(a, j, a.lists[j][k], x);
    }
  }

  /** A block the search may hand out: free, large enough, and on a list that is not skipped. */
  ghost predicate Usable(a: Abs, s: nat, r: nat) {
    s in a.blocks && a.blocks[s].Free? && a.blocks[s].size >= r && ListMax(Bin(a.blocks[s].size)) > 16 * r
  }

  /** The search fails only when nothing is usable, and takes from the lowest list that can serve. */
  lemma FitIsFirst(a: Abs, r: nat)
    requires Inv(a) && forall j :: 0 <= j < 4 ==> AllKnown(a, a.lists[j])
    ensures FindFit(a, r, 0) == NULL <==> forall s: nat :: !Usable(a, s, r)
    ensures FindFit(a, r, 0) != NULL ==>
              FindFit(a, r, 0) >= 0 && Usable(a, FindFit(a, r, 0), r) &&
              forall s: nat :: Usable(a, s, r) ==> Bin(a.blocks[FindFit(a, r, 0)].size) <= Bin(a.blocks[s].size)
  {
    FitFrom(a, r, 0);
    forall s: nat | Usable(a, s, r)
      ensures Bin(a.blocks[s].size) < 4
    {
      assert Whole(a, s);
    }
  }

  /** The block a request is served from: on the lowest list that can serve, the first one that is big enough. */
  ghost predicate Chosen(a: Abs, s: nat, r: nat) {
    && Usable(a, s, r) && |a.lists| == 4 && Bin(a.blocks[s].size) < 4
    && (forall t: nat :: Usable(a, t, r) ==> Bin(a.blocks[s].size) <= Bin(a.blocks[t].size))
    && AllKnown(a, a.lists[Bin(a.blocks[s].size)])
    && exists k: nat :: FirstAt(a, a.lists[Bin(a.blocks[s].size)], r, k) && a.lists[Bin(a.blocks[s].size)][k] == s
  }

  lemma FitIsChosen(a: Abs, r: nat)
    requires Inv(a) && (forall j :: 0 <= j < 4 ==> AllKnown(a, a.lists[j])) && FindFit(a, r, 0) != NULL
    ensures Chosen(a, FindFit(a, r, 0), r)
  {
    FitIsFirst(a, r);
    var i := FitFound(a, r, 0);
    FindsFirst(a, a.lists[i], r);
    assert BelongsOn(a, i, FindFit(a, r, 0), NULL);
  }

  lemma FitFound(a: Abs, r: nat, i: nat) returns (j: nat)
    requires i <= 4 && |a.lists| == 4 && (forall j :: 0 <= j < 4 ==> AllKnown(a, a.lists[j])) && FindFit(a, r, i) != NULL
    ensures j < 4 && FindIn(a, a.lists[j], r) == FindFit(a, r, i) && FindFit(a, r, i) in a.lists[j]
    decreases 4 - i
  {
    if ListMax(i) > 16 * r && FindIn(a, a.lists[i], r) != NULL {
      j := i;
    } else {
      j := FitFound(a, r, i + 1);
    }
  }

  /** The bound of a list is tested strictly: of the large enough free blocks exactly those are passed over
      that fit without a byte to spare and fill their list's range to the last byte. */
  lemma PassedOver(a: Abs, s: nat, size: nat)
    requires Inv(a) && s in a.blocks && a.blocks[s].Free? && a.blocks[s].size >= Units(size)
    ensures !Usable(a, s, Units(size)) <==> a.blocks[s].size == Units(size) && 16 * Units(size) in {128, 512, 2048}
  {
    assert Whole(a, s);
  }

  lemma {:induction false} FitFrom(a: Abs, r: nat, i: nat)
    requires i <= 4 && Listed(a, NULL) && forall j :: 0 <= j < 4 ==> AllKnown(a, a.lists[j])
    ensures FindFit(a, r, i) == NULL ==>
              forall s: nat :: Usable(a, s, r) ==> Bin(a.blocks[s].size) < i || Bin(a.blocks[s].size) >= 4
    ensures FindFit(a, r, i) != NULL ==>
              FindFit(a, r, i) >= 0 && Usable(a, FindFit(a, r, i), r) && Bin(a.blocks[FindFit(a, r, i)].size) >= i &&
              forall s: nat :: Usable(a, s, r) && i <= Bin(a.blocks[s].size) < 4 ==>
                Bin(a.blocks[FindFit(a, r, i)].size) <= Bin(a.blocks[s].size)
    decreases 4 - i
  {
    if i < 4 {
      FitFrom(a, r, i + 1);
      var f := FindIn(a, a.lists[i], r);
      if f != NULL {
        assert BelongsOn(a, i, f, NULL);
      }
      forall s: nat | Usable(a, s, r) && Bin(a.blocks[s].size) == i
        ensures ListMax(i) > 16 * r && f != NULL
      {
        assert BelongsOn(a, i, s, NULL);
        assert s in a.lists[i];
      }
    }
  }

  // ---------- taking a block ----------

  /** A remainder of one unit is absorbed: a free block needs two. */
  function TakenUnits(n: nat, r: nat): nat {
    if n == r + 1 then n else r
  }

  /** first in place of the block at s, and second behind it when first is shorter. */
  ghost function Split(a: Abs, s: nat, first: Block, second: Block): Abs
    requires s in a.blocks
  {
    a.(blocks := if first.size == a.blocks[s].size then a.blocks[s := first]
                 else a.blocks[s := first][s + first.size := second])
  }

  ghost predicate Splits(a: Abs, s: nat, first: Block, second: Block) {
    && Tiled(a) && s in a.blocks && 2 <= first.size
    && (first.size == a.blocks[s].size || (2 <= second.size && first.size + second.size == a.blocks[s].size))
  }

  lemma SplitWhole(a: Abs, s: nat, first: Block, second: Block, t: nat)
    requires Splits(a, s, first, second) && t in Split(a, s, first, second).blocks
    ensures Whole(Split(a, s, first, second), t)
  {
    assert Whole(a, s);
    assert t in a.blocks ==> Whole(a, t);
  }

  lemma SplitApart(a: Abs, s: nat, first: Block, second: Block, t: nat, u: nat)
    requires Splits(a, s, first, second) && t < u
    requires t in Split(a, s, first, second).blocks && u in Split(a, s, first, second).blocks
    ensures Before(Split(a, s, first, second), t, u)
  {
    assert t in a.blocks && u in a.blocks ==> Before(a, t, u);
    assert u in a.blocks && s < u ==> Before(a, s, u);
    assert t in a.blocks && t < s ==> Before(a, t, s);
    assert t in a.blocks && s < t ==> Before(a, s, t);
  }

  lemma SplitTiled(a: Abs, s: nat, first: Block, second: Block)
    requires Splits(a, s, first, second)
    ensures Tiled(Split(a, s, first, second))
  {
    var b := Split(a, s, first, second);
    forall t | t in b.blocks
      ensures Whole(b, t)
    {
      SplitWhole(a, s, first, second, t);
    }
    forall t, u | t in b.blocks && u in b.blocks && t < u
      ensures Before(b, t, u)
    {
      SplitApart(a, s, first, second, t, u);
    }
  }

  /** Nothing but the block at s starts within it. */
  lemma NothingWithin(a: Abs, s: nat)
    requires Tiled(a) && s in a.blocks
    ensures forall t :: t in a.blocks && s < t ==> s + a.blocks[s].size <= t
  {
    assert forall t :: t in a.blocks && s < t ==> Before(a, s, t);
  }

  /** What the request needs of a block of n units. */
  function Claim(n: nat, size: nat): Block {
    var m := TakenUnits(n, Units(size));
    Used(m, 16 * m != size + 16, size)
  }

  ghost function TakeCore(a: Abs, s: nat, size: nat): Abs
    requires s in a.blocks && a.blocks[s].size >= Units(size)
  {
    var n := a.blocks[s].size;
    var c := Claim(n, size);
    Split(a, s, c, Free(n - c.size)).(lists := KeepAll(a.lists, s, s + n))
  }

  ghost function Take(a: Abs, s: nat, size: nat): Abs
    requires |a.lists| == 4 && s in a.blocks && Units(size) <= a.blocks[s].size <= 15 * PAGE
  {
    var n := a.blocks[s].size;
    var m := TakenUnits(n, Units(size));
    if n == m then TakeCore(a, s, size) else Insert(TakeCore(a, s, size), s + m)
  }

  /** The offset of the free remainder, if there is one. */
  function Remainder(n: nat, s: nat, size: nat): int {
    if TakenUnits(n, Units(size)) == n then NULL else s + TakenUnits(n, Units(size))
  }

  /** Of n units as few as hold the request and its tags, or one more if otherwise a single one would be left. */
  predicate Measured(n: nat, b: Block, size: nat) {
    && b.Used? && b.requested == size && size + 16 <= 16 * b.size <= 16 * n
    && (16 * b.size < size + 32 || (b.size == n && 16 * (n - 1) < size + 32))
  }

  lemma ClaimFits(n: nat, size: nat)
    requires Units(size) <= n && size >= 1
    ensures 2 <= Claim(n, size).size <= n && Tight(Claim(n, size)) && Measured(n, Claim(n, size), size)
    ensures Claim(n, size).size == n || Claim(n, size).size + 2 <= n
  {
  }

  lemma TakeTiled(a: Abs, s: nat, size: nat)
    requires Tiled(a) && s in a.blocks && Units(size) <= a.blocks[s].size && size >= 1
    ensures Tiled(TakeCore(a, s, size))
  {
    var n := a.blocks[s].size;
    ClaimFits(n, size);
    SplitTiled(a, s, Claim(n, size), Free(n - Claim(n, size).size));
    SameBlocks(Split(a, s, Claim(n, size), Free(n - Claim(n, size).size)), TakeCore(a, s, size));
  }

  lemma TakeListed(a: Abs, s: nat, size: nat)
    requires Inv(a) && s in a.blocks && a.blocks[s].Free? && Units(size) <= a.blocks[s].size && size >= 1
    ensures Listed(TakeCore(a, s, size), Remainder(a.blocks[s].size, s, size))
  {
    var b, n := TakeCore(a, s, size), a.blocks[s].size;
    ClaimFits(n, size);
    forall i | 0 <= i < 4
      ensures NoDup(b.lists[i])
    {
      KeepNoDup(a.lists[i], s, s + n);
    }
    NothingWithin(a, s);
    forall i, t: nat | 0 <= i < 4
      ensures t in b.lists[i] <==> BelongsOn(b, i, t, Remainder(n, s, size))
    {
      KeepMembers(a.lists[i], s, s + n);
      assert t in a.lists[i] <==> BelongsOn(a, i, t, NULL);
    }
  }

  lemma TakeLive(a: Abs, s: nat, size: nat)
    requires Inv(a) && s in a.blocks && a.blocks[s].Free? && Units(size) <= a.blocks[s].size && size >= 1
    ensures s !in Live(a) && s in TakeCore(a, s, size).blocks
    ensures Live(TakeCore(a, s, size)) == Live(a)[s := TakeCore(a, s, size).blocks[s]]
    ensures forall t :: t in TakeCore(a, s, size).blocks ==> Tight(TakeCore(a, s, size).blocks[t])
  {
    var b, n := TakeCore(a, s, size), a.blocks[s].size;
    ClaimFits(n, size);
    NothingWithin(a, s);
    forall t | t in b.blocks
      ensures Tight(b.blocks[t])
    {
      assert t in a.blocks ==> Tight(a.blocks[t]);
    }
  }

  /** A tight block for the request goes live; nothing else does, and the heap keeps its size. */
  lemma TakeInv(a: Abs, s: nat, size: nat)
    requires Inv(a) && s in a.blocks && a.blocks[s].Free? && size >= 1
    requires Units(size) <= a.blocks[s].size <= 15 * PAGE
    ensures Inv(Take(a, s, size)) && Take(a, s, size).end == a.end && s !in Live(a)
    ensures Adds(a, Take(a, s, size), s, size) && Taken(a, Take(a, s, size), s, size)
  {
    ClaimFits(a.blocks[s].size, size);
    TakeTaken(a, s, size);
    TakeTiled(a, s, size);
    TakeListed(a, s, size);
    TakeLive(a, s, size);
    var x := Remainder(a.blocks[s].size, s, size);
    if x != NULL {
      InsertInv(TakeCore(a, s, size), x);
    }
  }

  /** b has exactly one live block more than a, at s, for this request. */
  ghost predicate Adds(a: Abs, b: Abs, s: nat, size: nat) {
    && s in Live(b) && Live(b)[s].requested == size && Tight(Live(b)[s])
    && Live(b) == Live(a)[s := Live(b)[s]]
  }

  /** Outside of [lo, hi) the two heaps have the same blocks, and these stand in the same order on the lists. */
  ghost predicate SameElsewhere(a: Abs, b: Abs, lo: nat, hi: nat) {
    && |a.lists| == |b.lists| == 4 && (forall i :: 0 <= i < 4 ==> Keep(b.lists[i], lo, hi) == Keep(a.lists[i], lo, hi))
    && (forall t: nat :: t < lo || hi <= t ==> (t in b.blocks <==> t in a.blocks))
    && (forall t: nat :: (t < lo || hi <= t) && t in a.blocks ==> b.blocks[t] == a.blocks[t])
  }

  /** The free block at s is at the head of its list. */
  ghost predicate AtHead(a: Abs, s: nat) {
    && s in a.blocks && a.blocks[s].Free? && Bin(a.blocks[s].size) < |a.lists|
    && Head(a.lists[Bin(a.blocks[s].size)]) == s
  }

  function Head(l: seq<nat>): int {
    if l == [] then NULL else l[0]
  }

  /** The request has been cut from the free block at s, what remains of it is a free block at the head of its list,
      and the rest of the heap is as it was. */
  ghost predicate Taken(a: Abs, b: Abs, s: nat, size: nat) {
    && s in a.blocks && a.blocks[s].Free? && s in b.blocks && b.end == a.end
    && var n := a.blocks[s].size;
       && Measured(n, b.blocks[s], size) && SameElsewhere(a, b, s, s + n)
       && (b.blocks[s].size < n ==>
             AtHead(b, s + b.blocks[s].size) && b.blocks[s + b.blocks[s].size] == Free(n - b.blocks[s].size))
  }

  lemma TakeTaken(a: Abs, s: nat, size: nat)
    requires Inv(a) && s in a.blocks && a.blocks[s].Free? && size >= 1
    requires Units(size) <= a.blocks[s].size <= 15 * PAGE
    ensures Taken(a, Take(a, s, size), s, size)
  {
    var n, b := a.blocks[s].size, Take(a, s, size);
    ClaimFits(n, size);
    NothingWithin(a, s);
    forall i | 0 <= i < 4 ensures Keep(b.lists[i], s, s + n) == Keep(a.lists[i], s, s + n) {
      KeepTwice(a.lists[i], s, s + n);
    }
  }

  lemma KeepTwice(l: seq<nat>, lo: nat, hi: nat)
    requires lo <= hi
    ensures Keep(Keep(l, lo, hi), lo, hi) == Keep(l, lo, hi)
    ensures forall s: nat :: lo <= s < hi ==> Keep([s] + Keep(l, lo, hi), lo, hi) == Keep(l, lo, hi)
  {
    var k := Keep(l, lo, hi);
    KeepMembers(l, lo, hi);
    assert forall j :: 0 <= j < |k| ==> k[j] in k;
    KeepSame(k, lo, hi);
    forall s: nat | lo <= s < hi ensures Keep([s] + k, lo, hi) == k {
      assert ([s] + k)[1..] == k;
    }
  }

  /** b has the block at s more than a: sf_sbrk has been asked only if nothing in a could serve, and then the block
      has been taken from the one that is to be chosen. */
  ghost predicate Serves(a: Abs, b: Abs, s: nat, size: nat) {
    && Adds(a, b, s, size)
    && exists c :: Grown(a, c) && Chosen(c, s, Units(size)) && Taken(c, b, s, size)
                   && (c.end > a.end ==> forall t: nat :: !Usable(a, t, Units(size)))
  }

  // ---------- merging with free neighbours ----------

  /** Where the run of free blocks that starts at p ends. */
  ghost function RunEnd(a: Abs, p: nat): nat
    requires Tiled(a) && Boundary(a, p) && p <= a.end
    decreases a.end - p
  {
    if p in a.blocks && a.blocks[p].Free? then
      assert Whole(a, p);
      RunEnd(a, p + a.blocks[p].size)
    else
      p
  }

  /** The run is maximal: all of it is free and what follows it is not. */
  lemma {:induction false} RunEndMaximal(a: Abs, p: nat)
    requires Tiled(a) && Boundary(a, p) && p <= a.end
    ensures p <= RunEnd(a, p) <= a.end && Boundary(a, RunEnd(a, p))
    ensures RunEnd(a, p) == a.end || RunEnd(a, p) in Live(a)
    ensures forall t :: t in a.blocks && p <= t < RunEnd(a, p) ==> a.blocks[t].Free?
    decreases a.end - p
  {
    if p in a.blocks && a.blocks[p].Free? {
      assert Whole(a, p);
      NothingWithin(a, p);
      RunEndMaximal(a, p + a.blocks[p].size);
    }
  }

  lemma RunEndIs(a: Abs, p: nat, q: nat)
    requires Tiled(a) && Boundary(a, p) && p <= q <= a.end && (q == a.end || q in Live(a))
    requires forall t :: t in a.blocks && p <= t < q ==> a.blocks[t].Free?
    ensures RunEnd(a, p) == q
  {
    RunEndMaximal(a, p);
  }

  /** Where the run of free blocks that reaches the heap end starts, looking from p upwards. */
  ghost function TailStart(a: Abs, p: nat): (b: nat)
    requires Tiled(a) && Boundary(a, p) && p <= a.end
    ensures p <= b <= a.end && Boundary(a, b)
    ensures forall t :: t in a.blocks && b <= t ==> a.blocks[t].Free?
    ensures b == p || UsedBefore(a, b)
    decreases a.end - p
  {
    if p == a.end then
      assert forall t :: t in a.blocks ==> Whole(a, t);
      p
    else
      assert Whole(a, p);
      NothingWithin(a, p);
      var q := p + a.blocks[p].size;
      var b := TailStart(a, q);
      if b != q then b
      else if a.blocks[p].Free? then p
      else assert UsedBefore(a, q) by { assert q == p + a.blocks[p].size; } q
  }

  ghost predicate UsedBefore(a: Abs, b: nat) {
    exists t :: t in a.blocks && a.blocks[t].Used? && t + a.blocks[t].size == b
  }

  lemma TailIsUnique(a: Abs, b: nat)
    requires Tiled(a) && Boundary(a, b) && b <= a.end && Boundary(a, 0)
    requires forall t :: t in a.blocks && b <= t ==> a.blocks[t].Free?
    requires b == 0 || UsedBefore(a, b)
    ensures TailStart(a, 0) == b
  {
    var c := TailStart(a, 0);
    assert c in a.blocks ==> Whole(a, c);
    assert b in a.blocks ==> Whole(a, b);
    assert forall t :: t in a.blocks && c in a.blocks && t < c ==> Before(a, t, c);
    assert forall t :: t in a.blocks && b in a.blocks && t < b ==> Before(a, t, b);
  }

  /** c is a with some pages more: the free end of the heap is one block that reaches to the new end and stands at
      the head of its list, and everything below it is as it was. */
  ghost predicate Grown(a: Abs, c: Abs) {
    && Inv(a) && Inv(c) && Live(c) == Live(a) && c.end >= a.end && (c.end == a.end ==> c == a)
    && (c.end > a.end ==>
          var lo := TailStart(a, 0);
          AtHead(c, lo) && c.blocks[lo] == Free(c.end - lo) && SameElsewhere(a, c, lo, 15 * PAGE))
  }

  // ---------- sf_malloc ----------

  /** A fresh page, merged with every free block at the end of the heap. */
  ghost function Grow(a: Abs): (b: Abs)
    requires Inv(a) && a.end + PAGE <= 15 * PAGE
    ensures Inv(b) && Live(b) == Live(a) && b.end == a.end + PAGE
  {
    var lo := TailStart(a, 0);
    FuseInv(a, lo, a.end + PAGE, a.end + PAGE);
    assert lo !in Live(a);
    Fuse(a, lo, a.end + PAGE, a.end + PAGE)
  }

  /** Search, and on failure grow by a page and start again; limit is the number of pages sf_sbrk can give. */
  ghost function Serve(a: Abs, size: nat, limit: nat): (Abs, Reply)
    requires Inv(a) && 1 <= size <= MAX_REQUEST && limit <= 15
    decreases limit * PAGE - a.end
  {
    ListsKnown(a, NULL);
    var s := FindFit(a, Units(size), 0);
    if s != NULL then
      FitIsFirst(a, Units(size));
      assert Whole(a, s);
      (Take(a, s, size), Got(s))
    else if a.end + PAGE > limit * PAGE then
      (a, NoMemory)
    else
      Serve(Grow(a), size, limit)
  }

  ghost function Malloc(a: Abs, size: nat, limit: nat): (Abs, Reply)
    requires Inv(a) && 1 <= limit <= 15
  {
    if size == 0 || size > MAX_REQUEST then (a, Invalid)
    else Serve(if a.end == 0 then Grow(a) else a, size, limit)
  }

  lemma {:induction false} ServeInv(a: Abs, size: nat, limit: nat)
    requires Inv(a) && 1 <= size <= MAX_REQUEST && limit <= 15
    ensures Inv(Serve(a, size, limit).0)
    ensures match Serve(a, size, limit).1
            case Got(s) => s !in Live(a) && Serves(a, Serve(a, size, limit).0, s, size)
            case NoMemory => Refused(a, Serve(a, size, limit).0, size, limit)
            case _ => false
    ensures a.end <= limit * PAGE ==> Serve(a, size, limit).0.end <= limit * PAGE
    decreases limit * PAGE - a.end
  {
    ListsKnown(a, NULL);
    FitIsFirst(a, Units(size));
    var s := FindFit(a, Units(size), 0);
    if s != NULL {
      assert Whole(a, s);
      TakeInv(a, s, size);
      FitIsChosen(a, Units(size));
      assert Grown(a, a);
    } else if a.end + PAGE <= limit * PAGE {
      ServeInv(Grow(a), size, limit);
      GrownMore(a, size, limit);
    }
  }

  /** All pages there are have been asked for, and no free block can serve. */
  ghost predicate Refused(a: Abs, b: Abs, size: nat, limit: nat) {
    Grown(a, b) && b.end + PAGE > limit * PAGE && forall t: nat :: !Usable(b, t, Units(size))
  }

  /** What holds for the heap with a page more holds for the heap. */
  lemma GrownMore(a: Abs, size: nat, limit: nat)
    requires Inv(a) && 1 <= size <= MAX_REQUEST && limit <= 15 && a.end + PAGE <= limit * PAGE
    requires forall t: nat :: !Usable(a, t, Units(size))
    ensures forall b, s :: Serves(Grow(a), b, s, size) ==> Serves(a, b, s, size)
    ensures forall b :: Refused(Grow(a), b, size, limit) ==> Refused(a, b, size, limit)
  {
    var g := Grow(a);
    forall b, s | Serves(g, b, s, size) ensures Serves(a, b, s, size) {
      var c :| Grown(g, c) && Chosen(c, s, Units(size)) && Taken(c, b, s, size)
               && (c.end > g.end ==> forall t: nat :: !Usable(g, t, Units(size)));
      GrownTwice(a, c);
    }
    forall b | Refused(g, b, size, limit) ensures Refused(a, b, size, limit) {
      GrownTwice(a, b);
    }
  }

  lemma GrownTwice(a: Abs, c: Abs)
    requires Inv(a) && a.end + PAGE <= 15 * PAGE && Grown(Grow(a), c)
    ensures Grown(a, c)
  {
    GrowMergesTail(a);
  }

  /** sf_malloc keeps the invariant and adds at most one live block, at a place that was not live. */
  lemma MallocInv(a: Abs, size: nat, limit: nat)
    requires Inv(a) && 1 <= limit <= 15
    ensures Inv(Malloc(a, size, limit).0)
    ensures match Malloc(a, size, limit).1
            case Got(s) => s !in Live(a) && Serves(a, Malloc(a, size, limit).0, s, size)
            case NoMemory => Refused(a, Malloc(a, size, limit).0, size, limit)
            case _ => Malloc(a, size, limit).0 == a
    ensures Malloc(a, size, limit).1.Invalid? <==> size == 0 || size > 4 * 4096
    ensures !Malloc(a, size, limit).1.Released?
    ensures a.end <= limit * PAGE ==> Malloc(a, size, limit).0.end <= limit * PAGE
  {
    if 1 <= size <= MAX_REQUEST {
      ServeInv(if a.end == 0 then Grow(a) else a, size, limit);
      if a.end == 0 {
        assert forall t :: t in a.blocks ==> Whole(a, t);
        GrownMore(a, size, limit);
      }
    }
  }

  // ---------- how many pages ----------

  /** Pages that hold a block for this request: at most five. */
  function PagesFor(size: nat): nat {
    (Units(size) + PAGE - 1) / PAGE
  }

  /** The free space at the end of the heap. */
  ghost function Tail(a: Abs): nat
    requires Tiled(a)
  {
    a.end - TailStart(a, 0)
  }

  /** After growing, the whole tail is one block, a page larger than the tail was. */
  lemma GrowMergesTail(a: Abs)
    requires Inv(a) && a.end + PAGE <= 15 * PAGE
    ensures TailStart(Grow(a), 0) == TailStart(a, 0) && Tail(Grow(a)) == Tail(a) + PAGE
    ensures TailStart(a, 0) in Grow(a).blocks && Grow(a).blocks[TailStart(a, 0)] == Free(Tail(a) + PAGE)
    ensures Grown(a, Grow(a))
  {
    var b, lo := Grow(a), TailStart(a, 0);
    GrowBelow(a);
    assert b.blocks.Keys == (set t | t in a.blocks && t < lo) + {lo} by {
      forall t | t in a.blocks
        ensures t < a.end
      {
        assert Whole(a, t);
      }
    }
    if lo != 0 {
      var t :| t in a.blocks && a.blocks[t].Used? && t + a.blocks[t].size == lo;
      assert t in b.blocks && b.blocks[t] == a.blocks[t];
      assert UsedBefore(b, lo);
    }
    TailIsUnique(b, lo);
  }

  lemma GrowBelow(a: Abs)
    requires Inv(a) && a.end + PAGE <= 15 * PAGE
    ensures AtHead(Grow(a), TailStart(a, 0)) && SameElsewhere(a, Grow(a), TailStart(a, 0), 15 * PAGE)
  {
    var lo, end := TailStart(a, 0), a.end + PAGE;
    forall t | t in a.blocks ensures t < a.end {
      assert Whole(a, t);
    }
    FuseInv(a, lo, end, end);
    FuseElsewhere(a, lo, end, end, 15 * PAGE);
  }

  /** Merging changes nothing outside of what is merged. */
  lemma FuseElsewhere(a: Abs, lo: nat, mid: nat, end: nat, hi: nat)
    requires |a.lists| == 4 && lo < mid <= hi && Bin(mid - lo) < 4 && forall t: nat :: mid <= t < hi ==> t !in a.blocks
    ensures AtHead(Fuse(a, lo, mid, end), lo) && SameElsewhere(a, Fuse(a, lo, mid, end), lo, hi)
  {
    var b := Fuse(a, lo, mid, end);
    forall i | 0 <= i < 4 ensures Keep(b.lists[i], lo, hi) == Keep(a.lists[i], lo, hi) {
      KeepFused(a.lists[i], lo, mid, hi);
    }
  }

  /** Keeping less of what is kept, whether or not the new block is put in front of it. */
  lemma KeepFused(l: seq<nat>, lo: nat, mid: nat, hi: nat)
    requires lo < mid <= hi
    ensures Keep(Keep(l, lo, mid), lo, hi) == Keep(l, lo, hi) == Keep([lo] + Keep(l, lo, mid), lo, hi)
  {
    var k := Keep(l, lo, mid);
    KeepWider(l, lo, mid, hi);
    assert ([lo] + k)[1..] == k;
  }

  lemma {:induction false} KeepWider(l: seq<nat>, lo: nat, mid: nat, hi: nat)
    requires lo <= mid <= hi
    ensures Keep(Keep(l, lo, mid), lo, hi) == Keep(l, lo, hi)
    decreases |l|
  {
    if l != [] {
      KeepWider(l[1..], lo, mid, hi);
      var rest := Keep(l[1..], lo, mid);
      if !(lo <= l[0] < mid) {
        assert ([l[0]] + rest)[1..] == rest;
      }
    }
  }

  /** With k whole pages in one block at the end, sf_malloc asks for the missing pages at most,
      and is refused only when sf_sbrk is. */
  lemma {:induction false} ServePages(a: Abs, size: nat, limit: nat, k: nat)
    requires Inv(a) && 1 <= size <= MAX_REQUEST && limit <= 15 && a.end > 0
    requires k > 0 ==> TailStart(a, 0) in a.blocks && a.blocks[TailStart(a, 0)].size >= k * PAGE
    ensures Serve(a, size, limit).0.end <= a.end + PAGE * (if k < PagesFor(size) then PagesFor(size) - k else 0)
    ensures a.end + PAGE * (if k < PagesFor(size) then PagesFor(size) - k else 0) <= limit * PAGE ==>
              Serve(a, size, limit).1.Got?
    decreases limit * PAGE - a.end
  {
    ListsKnown(a, NULL);
    FitIsFirst(a, Units(size));
    if k >= PagesFor(size) {
      assert Whole(a, TailStart(a, 0));
      assert Usable(a, TailStart(a, 0), Units(size));
    }
    var s := FindFit(a, Units(size), 0);
    if s != NULL {
      assert Whole(a, s);
      TakeInv(a, s, size);
    } else {
      if a.end + PAGE <= limit * PAGE {
        GrowMergesTail(a);
        assert k > 0 ==> Whole(a, TailStart(a, 0));
        ServePages(Grow(a), size, limit, k + 1);
      }
    }
  }

  /** One call asks sf_sbrk for no more pages than would hold the request alone, at most five,
      and when that many are left it succeeds. */
  lemma MallocPages(a: Abs, size: nat, limit: nat)
    requires Inv(a) && 1 <= limit <= 15 && 1 <= size <= MAX_REQUEST
    ensures PagesFor(size) <= 5
    ensures Malloc(a, size, limit).0.end <= a.end + PAGE * PagesFor(size)
    ensures a.end + PAGE * PagesFor(size) <= limit * PAGE ==> Malloc(a, size, limit).1.Got?
  {
    if a.end == 0 {
      GrowMergesTail(a);
      ServePages(Grow(a), size, limit, 1);
    } else {
      ServePages(a, size, limit, 0);
    }
  }

  // ---------- sf_free ----------

  /** How far a block being freed reaches: over every free block behind it. */
  ghost function Reach(a: Abs, s: nat): (e: nat)
    requires Inv(a) && s in Live(a)
    ensures Fusible(a, s, e, a.end)
    ensures e == a.end || e in Live(a)
  {
    assert Whole(a, s);
    NothingWithin(a, s);
    RunEndMaximal(a, s + a.blocks[s].size);
    RunEnd(a, s + a.blocks[s].size)
  }

  lemma FuseBehind(a: Abs, lo: nat, hi: nat)
    requires |a.lists| == 4 && lo < hi && Bin(hi - lo) < 4
    ensures lo in Fuse(a, lo, hi, a.end).blocks && Fuse(a, lo, hi, a.end).blocks[lo] == Free(hi - lo)
    ensures hi in Live(a) ==> hi in Live(Fuse(a, lo, hi, a.end))
  {
  }

  /** sf_free takes exactly the block at s out of the live ones, keeps the heap's size, and leaves a free
      block at s with a live block or the heap end behind it. */
  ghost function Release(a: Abs, s: nat): (b: Abs)
    requires Inv(a) && s in Live(a)
    ensures Inv(b) && b.end == a.end && Live(b) == Live(a) - {s}
    ensures s in b.blocks && b.blocks[s].Free?
    ensures s + b.blocks[s].size == a.end || s + b.blocks[s].size in Live(b)
  {
    var e := Reach(a, s);
    FuseInv(a, s, e, a.end);
    FuseBehind(a, s, e);
    Fuse(a, s, e, a.end)
  }

  /** Outside of the merged block nothing changes, and it stands at the head of its list. */
  lemma ReleaseRest(a: Abs, s: nat)
    requires Inv(a) && s in Live(a)
    ensures AtHead(Release(a, s), s) && SameElsewhere(a, Release(a, s), s, s + Release(a, s).blocks[s].size)
  {
    var e := Reach(a, s);
    FuseInv(a, s, e, a.end);
    FuseBehind(a, s, e);
    FuseElsewhere(a, s, e, a.end, e);
  }

  lemma ReleaseTo(a: Abs, s: nat, q: nat)
    requires Inv(a) && s in Live(a) && Fusible(a, s, q, a.end) && s + a.blocks[s].size <= q
    requires q == a.end || q in Live(a)
    ensures Bin(q - s) < 4 && Release(a, s) == Fuse(a, s, q, a.end)
  {
    assert Whole(a, s);
    RunEndIs(a, s + a.blocks[s].size, q);
    assert Reach(a, s) == q;
  }

  // ---------- sf_realloc ----------

  /** A live block that asks for all it has, as sf_realloc dresses a remainder up for sf_free. */
  function Spare(n: nat): Block {
    Used(n, false, if n == 0 then 0 else 16 * n - 16)
  }

  /** The block at s cut down to the request; what remains is live for the moment. */
  ghost function Cut(a: Abs, s: nat, size: nat): Abs
    requires s in a.blocks && Units(size) <= a.blocks[s].size
  {
    var n := a.blocks[s].size;
    var c := Claim(n, size);
    Split(a, s, c, Spare(n - c.size))
  }

  lemma CutListed(a: Abs, s: nat, size: nat)
    requires Inv(a) && s in Live(a) && Units(size) <= a.blocks[s].size && size >= 1
    ensures Listed(Cut(a, s, size), NULL)
  {
    var b := Cut(a, s, size);
    NothingWithin(a, s);
    ClaimFits(a.blocks[s].size, size);
    forall i, t: nat | 0 <= i < 4
      ensures t in b.lists[i] <==> BelongsOn(b, i, t, NULL)
    {
      assert t in a.lists[i] <==> BelongsOn(a, i, t, NULL);
    }
  }

  lemma CutLive(a: Abs, s: nat, size: nat)
    requires Inv(a) && s in Live(a) && Units(size) <= a.blocks[s].size && size >= 1
    ensures s in Live(Cut(a, s, size))
    ensures forall t :: t in Cut(a, s, size).blocks ==> Tight(Cut(a, s, size).blocks[t])
    ensures var x := Remainder(a.blocks[s].size, s, size);
            Live(Cut(a, s, size)) - {x} == Live(a)[s := Claim(a.blocks[s].size, size)] && x !in Live(a) && x != s &&
            (x != NULL ==> x in Live(Cut(a, s, size)))
  {
    var b, n := Cut(a, s, size), a.blocks[s].size;
    NothingWithin(a, s);
    ClaimFits(n, size);
    forall t | t in b.blocks
      ensures Tight(b.blocks[t])
    {
      assert t in a.blocks ==> Tight(a.blocks[t]);
    }
  }

  lemma CutInv(a: Abs, s: nat, size: nat)
    requires Inv(a) && s in Live(a) && Units(size) <= a.blocks[s].size && size >= 1
    ensures Inv(Cut(a, s, size)) && s in Live(Cut(a, s, size))
    ensures var x := Remainder(a.blocks[s].size, s, size);
            Live(Cut(a, s, size)) - {x} == Live(a)[s := Claim(a.blocks[s].size, size)] && x !in Live(a) && x != s &&
            (x != NULL ==> x in Live(Cut(a, s, size)))
  {
    var n := a.blocks[s].size;
    ClaimFits(n, size);
    var c := Claim(n, size);
    SplitTiled(a, s, c, Spare(n - c.size));
    CutListed(a, s, size);
    CutLive(a, s, size);
  }

  /** The live blocks after sf_realloc: moved to a new place when the old one is too small, otherwise
      resized where it is; released for size 0; on failure unchanged. */
  ghost predicate Resized(a: Abs, s: nat, size: nat, b: Abs, r: Reply)
    requires s in a.blocks
  {
    match r
    case Got(p) =>
      && p in Live(b) && Live(b)[p].requested == size && Tight(Live(b)[p])
      && Live(b) == (Live(a) - {s})[p := Live(b)[p]]
      && (if 16 * a.blocks[s].size < size + 16 then p !in Live(a)
          else p == s && Measured(a.blocks[s].size, Live(b)[s], size))
    case Released => Live(b) == Live(a) - {s} && size == 0
    case _ => Live(b) == Live(a) && size > 0
  }

  lemma MoveFrom(a: Abs, s: nat, size: nat, b: Abs, r: Reply)
    requires s in Live(a) && 16 * a.blocks[s].size < size + 16 && size > 0
    requires Inv(b) && !r.Released?
    requires if r.Got? then r.at !in Live(a) && Serves(a, b, r.at, size) else Live(b) == Live(a)
    ensures s in Live(b) && Resized(a, s, size, if r.Got? then Release(b, s) else b, r)
  {
    if r.Got? {
      AddedBeside(a, b, s, r.at, size);
    }
  }

  lemma AddedBeside(a: Abs, b: Abs, s: nat, p: nat, size: nat)
    requires s in Live(a) && p !in Live(a) && Inv(b) && Adds(a, b, p, size)
    ensures s in Live(b) && p in Live(Release(b, s)) && Live(Release(b, s))[p] == Live(b)[p]
    ensures Live(Release(b, s)) == (Live(a) - {s})[p := Live(b)[p]]
  {
    assert s in Live(a)[p := Live(b)[p]];
    var l, x := Live(a), Live(b)[p];
    assert l[p := x] - {s} == (l - {s})[p := x];
  }

  /** A new block, and the old one released once the new one is there. */
  ghost function Move(a: Abs, s: nat, size: nat, limit: nat): (r: (Abs, Reply))
    requires Inv(a) && s in Live(a) && 1 <= limit <= 15 && 16 * a.blocks[s].size < size + 16 && size > 0
    ensures Inv(r.0) && Resized(a, s, size, r.0, r.1)
  {
    MallocInv(a, size, limit);
    var b, r := Malloc(a, size, limit).0, Malloc(a, size, limit).1;
    MoveFrom(a, s, size, b, r);
    if r.Got? then (Release(b, s), r) else (b, r)
  }

  /** c has the new block at p besides the old one at s, which is then released. */
  ghost predicate Replaced(a: Abs, c: Abs, b: Abs, s: nat, p: nat, size: nat) {
    Inv(c) && s in Live(c) && Serves(a, c, p, size) && b == Release(c, s)
  }

  /** The new block is one that sf_malloc would hand out, and the old one is released after that. */
  lemma MoveServes(a: Abs, s: nat, size: nat, limit: nat)
    requires Inv(a) && s in Live(a) && 1 <= limit <= 15 && 16 * a.blocks[s].size < size + 16 && size > 0
    ensures var r := Move(a, s, size, limit);
            match r.1
            case Got(p) => exists c :: Replaced(a, c, r.0, s, p, size)
            case NoMemory => Refused(a, r.0, size, limit)
            case _ => r.0 == a && size > 4 * 4096
  {
    MallocInv(a, size, limit);
    var b, r := Malloc(a, size, limit).0, Malloc(a, size, limit).1;
    MoveFrom(a, s, size, b, r);
    if r.Got? {
      assert Replaced(a, b, Release(b, s), s, r.at, size);
    }
  }

  /** The block cut to size, and what it no longer needs released. */
  ghost function Shrink(a: Abs, s: nat, size: nat): (b: Abs)
    requires Inv(a) && s in Live(a) && 16 * a.blocks[s].size >= size + 16 && size > 0
    ensures Inv(b) && b.end == a.end && Resized(a, s, size, b, Got(s))
  {
    CutInv(a, s, size);
    ClaimFits(a.blocks[s].size, size);
    var x := Remainder(a.blocks[s].size, s, size);
    if x == NULL then Cut(a, s, size) else Release(Cut(a, s, size), x)
  }

  /** The block at s has been cut: a free block behind it is merged with what follows, and the rest stays as it is. */
  ghost predicate Trimmed(a: Abs, b: Abs, s: nat)
    requires s in a.blocks && s in b.blocks
  {
    var n, x := a.blocks[s].size, s + b.blocks[s].size;
    if x == s + n then SameElsewhere(a, b, s, s + n) && b.lists == a.lists
    else AtHead(b, x) && x + b.blocks[x].size >= s + n && SameElsewhere(a, b, s, x + b.blocks[x].size)
         && (x + b.blocks[x].size == a.end || x + b.blocks[x].size in Live(b))
  }

  lemma ShrinkRest(a: Abs, s: nat, size: nat)
    requires Inv(a) && s in Live(a) && 16 * a.blocks[s].size >= size + 16 && size > 0
    ensures Trimmed(a, Shrink(a, s, size), s)
  {
    var n, c := a.blocks[s].size, Cut(a, s, size);
    ClaimFits(n, size);
    CutInv(a, s, size);
    if Remainder(n, s, size) == NULL {
      CutWhole(a, s, size, c);
    } else {
      CutReleased(a, s, size, s + Claim(n, size).size, c);
    }
  }

  lemma CutWhole(a: Abs, s: nat, size: nat, c: Abs)
    requires Inv(a) && s in Live(a) && Units(size) <= a.blocks[s].size && size >= 1 && c == Cut(a, s, size)
    requires Remainder(a.blocks[s].size, s, size) == NULL
    ensures s in c.blocks && Trimmed(a, c, s)
  {
  }

  lemma CutReleased(a: Abs, s: nat, size: nat, x: nat, c: Abs)
    requires Inv(a) && s in Live(a) && Units(size) <= a.blocks[s].size && size >= 1 && c == Cut(a, s, size)
    requires Inv(c) && x in Live(c) && x == s + Claim(a.blocks[s].size, size).size < s + a.blocks[s].size
    ensures s in Release(c, x).blocks && Trimmed(a, Release(c, x), s)
  {
    SpareSize(a, s, size, x);
    ReleaseAll(c, x, s + a.blocks[s].size);
    CutTrims(a, c, Release(c, x), s, size, x);
  }

  lemma CutTrims(a: Abs, c: Abs, b: Abs, s: nat, size: nat, x: nat)
    requires Inv(a) && s in Live(a) && Units(size) <= a.blocks[s].size && size >= 1 && AtHead(b, x)
    requires x == s + Claim(a.blocks[s].size, size).size < s + a.blocks[s].size <= x + b.blocks[x].size
    requires c == Cut(a, s, size) && SameElsewhere(c, b, x, x + b.blocks[x].size)
    requires x + b.blocks[x].size == a.end || x + b.blocks[x].size in Live(b)
    ensures s in b.blocks && Trimmed(a, b, s)
  {
    CutRest(a, s, size, b, x);
    CutEnds(a, b, s, x, Claim(a.blocks[s].size, size));
  }

  lemma SpareSize(a: Abs, s: nat, size: nat, x: nat)
    requires s in a.blocks && Units(size) <= a.blocks[s].size && size >= 1
    requires x == s + Claim(a.blocks[s].size, size).size < s + a.blocks[s].size
    ensures x in Cut(a, s, size).blocks && x + Cut(a, s, size).blocks[x].size == s + a.blocks[s].size
    ensures Cut(a, s, size).end == a.end
  {
  }

  lemma CutEnds(a: Abs, b: Abs, s: nat, x: nat, c: Block)
    requires s in a.blocks && s in b.blocks && b.blocks[s] == c && x == s + c.size < s + a.blocks[s].size && AtHead(b, x)
    requires x + b.blocks[x].size >= s + a.blocks[s].size && SameElsewhere(a, b, s, x + b.blocks[x].size)
    requires x + b.blocks[x].size == a.end || x + b.blocks[x].size in Live(b)
    ensures Trimmed(a, b, s)
  {
  }

  lemma CutRest(a: Abs, s: nat, size: nat, b: Abs, x: nat)
    requires Inv(a) && s in Live(a) && Units(size) <= a.blocks[s].size && size >= 1
    requires x == s + Claim(a.blocks[s].size, size).size < s + a.blocks[s].size && x in b.blocks
    requires x + b.blocks[x].size >= s + a.blocks[s].size
    requires SameElsewhere(Cut(a, s, size), b, x, x + b.blocks[x].size)
    ensures s in b.blocks && b.blocks[s] == Claim(a.blocks[s].size, size)
    ensures SameElsewhere(a, b, s, x + b.blocks[x].size)
  {
    var c, e := Cut(a, s, size), x + b.blocks[x].size;
    assert s in c.blocks && c.lists == a.lists;
    forall i | 0 <= i < 4 ensures Keep(b.lists[i], s, e) == Keep(a.lists[i], s, e) {
      KeepInner(b.lists[i], a.lists[i], s, x, e);
    }
  }

  lemma KeepInner(l: seq<nat>, m: seq<nat>, lo: nat, mid: nat, hi: nat)
    requires lo <= mid <= hi && Keep(l, mid, hi) == Keep(m, mid, hi)
    ensures Keep(l, lo, hi) == Keep(m, lo, hi)
  {
    KeepComposeDown(l, lo, mid, hi);
    KeepComposeDown(m, lo, mid, hi);
  }

  lemma ReleaseAll(c: Abs, x: nat, e: nat)
    requires Inv(c) && x in Live(c) && x + c.blocks[x].size == e
    ensures var b := Release(c, x);
            AtHead(b, x) && e <= x + b.blocks[x].size && SameElsewhere(c, b, x, x + b.blocks[x].size)
  {
    ReleaseRest(c, x);
    ReleaseCovers(c, x);
  }

  lemma ReleaseCovers(a: Abs, s: nat)
    requires Inv(a) && s in Live(a)
    ensures s + Release(a, s).blocks[s].size >= s + a.blocks[s].size
  {
    assert Whole(a, s);
    NothingWithin(a, s);
    RunEndMaximal(a, s + a.blocks[s].size);
  }

  ghost function Resize(a: Abs, s: nat, size: nat, limit: nat): (r: (Abs, Reply))
    requires Inv(a) && s in Live(a) && 1 <= limit <= 15
    ensures Inv(r.0) && Resized(a, s, size, r.0, r.1)
  {
    if size == 0 then (Release(a, s), Released)
    else if 16 * a.blocks[s].size < size + 16 then Move(a, s, size, limit)
    else (Shrink(a, s, size), Got(s))
  }

  // ---------- whole runs ----------

  datatype Call = MallocCall(size: nat) | FreeCall(at: nat) | ReallocCall(at: nat, size: nat)

  /** A call with a pointer that is not live aborts the program, so what follows it does not happen. */
  ghost function Run(a: Abs, calls: seq<Call>, limit: nat): Abs
    requires Inv(a) && 1 <= limit <= 15
    decreases |calls|
  {
    if calls == [] then a
    else match calls[0]
      case MallocCall(size) =>
        MallocInv(a, size, limit);
        Run(Malloc(a, size, limit).0, calls[1..], limit)
      case FreeCall(s) =>
        if s !in Live(a) then a else
        Run(Release(a, s), calls[1..], limit)
      case ReallocCall(s, size) =>
        if s !in Live(a) then a else
        Run(Resize(a, s, size, limit).0, calls[1..], limit)
  }

  const EMPTY: Abs := Abs(0, map[], [[], [], [], []])

  /** Every heap a program can reach satisfies the invariant. */
  lemma {:induction false} ReachableInv(a: Abs, calls: seq<Call>, limit: nat)
    requires Inv(a) && 1 <= limit <= 15
    ensures Inv(EMPTY)
    ensures Inv(Run(a, calls, limit))
    decreases |calls|
  {
    if calls != [] {
      match calls[0]
      case MallocCall(size) =>
        MallocInv(a, size, limit);
        ReachableInv(Malloc(a, size, limit).0, calls[1..], limit);
      case FreeCall(s) =>
        if s in Live(a) {
          ReachableInv(Release(a, s), calls[1..], limit);
        }
      case ReallocCall(s, size) =>
        if s in Live(a) {
          ReachableInv(Resize(a, s, size, limit).0, calls[1..], limit);
        }
    }
  }

  /** Stepping from header to header by the size each one gives. */
  ghost function Walk(a: Abs, p: nat): seq<nat>
    requires Tiled(a) && Boundary(a, p) && p <= a.end
    decreases a.end - p
  {
    if p == a.end then [] else
    assert Whole(a, p);
    [p] + Walk(a, p + a.blocks[p].size)
  }

  ghost function Sum(a: Abs, l: seq<nat>): nat
    requires AllKnown(a, l)
  {
    if l == [] then 0 else a.blocks[l[0]].size + Sum(a, l[1..])
  }

  /** The walk from the heap start meets every block, and the sizes it meets add up to the heap. */
  lemma {:induction false} WalkTiles(a: Abs, p: nat)
    requires Tiled(a) && Boundary(a, p) && p <= a.end
    ensures forall t :: t in Walk(a, p) <==> t in a.blocks && p <= t
    ensures AllKnown(a, Walk(a, p)) && Sum(a, Walk(a, p)) == a.end - p
    decreases a.end - p
  {
    if p == a.end {
      assert forall t :: t in a.blocks ==> Whole(a, t);
    } else {
      assert Whole(a, p);
      var q := p + a.blocks[p].size;
      WalkTiles(a, q);
      assert Walk(a, p)[1..] == Walk(a, q);
      NothingWithin(a, p);
    }
  }
}
