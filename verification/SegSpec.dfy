/** The segregated-free-list allocator seen from outside: which blocks tile the heap
    and which free blocks stand on which list. Sizes and offsets count 16-byte units. */
module SegSpec {

  const NULL := -1
  const PAGE: nat := 256            // units in PAGE_SZ = 4096 bytes
  const MAX_REQUEST: nat := 16384   // four pages, in bytes

  datatype Block = Free(size: nat) | Used(size: nat, padded: bool, requested: nat)

  /** blocks is keyed by the offset of the block's header. */
  datatype Abs = Abs(end: nat, blocks: map<nat, Block>, lists: seq<seq<nat>>)

  /** The inclusive upper bound of each list in bytes; LIST_4_MAX is -1 stored in a uint16_t. */
  function ListMax(i: nat): nat {
    if i == 0 then 128 else if i == 1 then 512 else if i == 2 then 2048 else 65535
  }

  /** The list a free block of this size belongs to; 4 would be past the array. */
  function Bin(size: nat): nat {
    if 16 * size <= 128 then 0 else if 16 * size <= 512 then 1
    else if 16 * size <= 2048 then 2 else if 16 * size <= 65535 then 3 else 4
  }

  // ---------- the invariant ----------

  /** The block at s has room for its tags and links, and the next block or the heap end follows it. */
  predicate Whole(a: Abs, s: nat)
    requires s in a.blocks
  {
    a.blocks[s].size >= 2 && s + a.blocks[s].size <= a.end && Boundary(a, s + a.blocks[s].size)
  }

  /** The block at s ends where the one at t starts, or earlier. */
  predicate Before(a: Abs, s: nat, t: nat)
    requires s in a.blocks
  {
    s + a.blocks[s].size <= t
  }

  ghost predicate Tiled(a: Abs) {
    && a.end % PAGE == 0 && a.end <= 15 * PAGE
    && (a.end > 0 ==> 0 in a.blocks)
    && (forall s {:trigger Whole(a, s)} :: s in a.blocks ==> Whole(a, s))
    && (forall s, t {:trigger Before(a, s, t)} :: s in a.blocks && t in a.blocks && s < t ==> Before(a, s, t))
  }

  predicate Boundary(a: Abs, p: nat) {
    p == a.end || p in a.blocks
  }

  /** A live block records its request, and is marked padded exactly when it is larger than it must be. */
  predicate Tight(b: Block) {
    b.Used? ==>
      && 1 <= b.requested && b.requested + 16 <= 16 * b.size < b.requested + 48
      && (b.padded <==> b.requested + 16 != 16 * b.size)
  }

  ghost predicate NoDup(l: seq<nat>) {
    forall j, k :: 0 <= j < k < |l| ==> l[j] != l[k]
  }

  predicate BelongsOn(a: Abs, i: nat, s: nat, x: int) {
    s in a.blocks && a.blocks[s].Free? && Bin(a.blocks[s].size) == i && s != x
  }

  /** Every free block except x is on exactly one list, the one covering its size, exactly once;
      nothing else is on a list. */
  ghost predicate Listed(a: Abs, x: int) {
    && |a.lists| == 4
    && (forall i :: 0 <= i < 4 ==> NoDup(a.lists[i]))
    && (forall i, s :: 0 <= i < 4 ==> (s in a.lists[i] <==> BelongsOn(a, i, s, x)))
  }

  ghost predicate InvExcept(a: Abs, x: int) {
    && Tiled(a)
    && (forall s {:trigger Tight(a.blocks[s])} :: s in a.blocks ==> Tight(a.blocks[s]))
    && Listed(a, x)
  }

  ghost predicate Inv(a: Abs) {
    InvExcept(a, NULL)
  }

  /** The allocations the program holds. */
  ghost function Live(a: Abs): map<nat, Block> {
    a.blocks - (set s | s in a.blocks && a.blocks[s].Free?)
  }

  // ---------- list surgery ----------

  /** l without the offsets in [lo, hi). */
  function Keep(l: seq<nat>, lo: nat, hi: nat): seq<nat> {
    if l == [] then []
    else if lo <= l[0] < hi then Keep(l[1..], lo, hi)
    else [l[0]] + Keep(l[1..], lo, hi)
  }

  function KeepAll(lists: seq<seq<nat>>, lo: nat, hi: nat): (r: seq<seq<nat>>)
    ensures |r| == |lists|
  {
    seq(|lists|, i requires 0 <= i < |lists| => Keep(lists[i], lo, hi))
  }

  lemma {:induction false} KeepMembers(l: seq<nat>, lo: nat, hi: nat)
    ensures forall s :: s in Keep(l, lo, hi) <==> s in l && !(lo <= s < hi)
  {
    if l != [] {
      KeepMembers(l[1..], lo, hi);
      assert l == [l[0]] + l[1..];
    }
  }

  lemma {:induction false} KeepNoDup(l: seq<nat>, lo: nat, hi: nat)
    requires NoDup(l)
    ensures NoDup(Keep(l, lo, hi))
  {
    if l != [] {
      var rest := l[1..];
      assert forall k :: 0 <= k < |rest| ==> rest[k] == l[k + 1];
      KeepNoDup(rest, lo, hi);
      KeepMembers(rest, lo, hi);
      assert l[0] !in Keep(rest, lo, hi);
    }
  }

  lemma {:induction false} KeepSame(l: seq<nat>, lo: nat, hi: nat)
    requires forall j :: 0 <= j < |l| ==> !(lo <= l[j] < hi)
    ensures Keep(l, lo, hi) == l
  {
    if l != [] {
      KeepSame(l[1..], lo, hi);
    }
  }

  lemma {:induction false} KeepCompose(l: seq<nat>, lo: nat, mid: nat, hi: nat)
    requires lo <= mid <= hi
    ensures Keep(Keep(l, lo, mid), mid, hi) == Keep(l, lo, hi)
  {
    if l != [] {
      KeepCompose(l[1..], lo, mid, hi);
      var rest := Keep(l[1..], lo, mid);
      if !(lo <= l[0] < mid) {
        assert Keep(l, lo, mid) == [l[0]] + rest;
        assert ([l[0]] + rest)[1..] == rest;
      }
    }
  }

  lemma {:induction false} KeepComposeDown(l: seq<nat>, lo: nat, mid: nat, hi: nat)
    requires lo <= mid <= hi
    ensures Keep(Keep(l, mid, hi), lo, mid) == Keep(l, lo, hi)
  {
    if l != [] {
      KeepComposeDown(l[1..], lo, mid, hi);
      var rest := Keep(l[1..], mid, hi);
      if !(mid <= l[0] < hi) {
        assert Keep(l, mid, hi) == [l[0]] + rest;
        assert ([l[0]] + rest)[1..] == rest;
      }
    }
  }

  /** Dropping the only element of the range is cutting it out of the sequence. */
  lemma {:induction false} KeepCut(l: seq<nat>, k: nat, lo: nat, hi: nat)
    requires k < |l| && lo <= l[k] < hi
    requires forall j :: 0 <= j < |l| && j != k ==> !(lo <= l[j] < hi)
    ensures Keep(l, lo, hi) == l[..k] + l[k + 1..]
  {
    if k == 0 {
      KeepSame(l[1..], lo, hi);
    } else {
      KeepCut(l[1..], k - 1, lo, hi);
      assert l[1..][k - 1 + 1..] == l[k + 1..];
      assert l[..k] == [l[0]] + l[1..][..k - 1];
    }
  }

  // ---------- the steps ----------

  function Insert(a: Abs, s: nat): Abs
    requires |a.lists| == 4 && s in a.blocks && Bin(a.blocks[s].size) < 4
  {
    var i := Bin(a.blocks[s].size);
    a.(lists := a.lists[i := [s] + a.lists[i]])
  }

  /** One free block in place of everything in [lo, hi); it is on no list yet. */
  ghost function FuseCore(a: Abs, lo: nat, hi: nat, end: nat): Abs
    requires lo < hi
  {
    Abs(end, (a.blocks - (set t | t in a.blocks && lo <= t < hi))[lo := Free(hi - lo)], KeepAll(a.lists, lo, hi))
  }

  ghost function Fuse(a: Abs, lo: nat, hi: nat, end: nat): Abs
    requires lo < hi && |a.lists| == 4 && Bin(hi - lo) < 4
  {
    Insert(FuseCore(a, lo, hi, end), lo)
  }

  /** [lo, hi) is a run of whole blocks, free after the first, possibly ending in fresh pages. */
  ghost predicate Fusible(a: Abs, lo: nat, hi: nat, end: nat) {
    && a.end <= end <= 15 * PAGE && end % PAGE == 0
    && Boundary(a, lo) && lo + 2 <= hi <= end
    && (hi <= a.end ==> Boundary(a, hi) && end == a.end)
    && (hi > a.end ==> hi == end)
    && (forall t :: t in a.blocks && lo < t < hi ==> a.blocks[t].Free?)
  }

  lemma FuseTiled(a: Abs, lo: nat, hi: nat, end: nat)
    requires Tiled(a) && Fusible(a, lo, hi, end)
    ensures Tiled(FuseCore(a, lo, hi, end))
  {
    assert lo in a.blocks ==> Whole(a, lo);
    forall s | s in FuseCore(a, lo, hi, end).blocks
      ensures Whole(FuseCore(a, lo, hi, end), s)
    {
      FuseWhole(a, lo, hi, end, s);
    }
    forall s, t | s in FuseCore(a, lo, hi, end).blocks && t in FuseCore(a, lo, hi, end).blocks && s < t
      ensures Before(FuseCore(a, lo, hi, end), s, t)
    {
      FuseApart(a, lo, hi, end, s, t);
    }
  }

  lemma FuseWhole(a: Abs, lo: nat, hi: nat, end: nat, s: nat)
    requires Tiled(a) && Fusible(a, lo, hi, end) && s in FuseCore(a, lo, hi, end).blocks
    ensures Whole(FuseCore(a, lo, hi, end), s)
  {
    if s != lo {
      assert Whole(a, s);
      assert lo != a.end ==> Whole(a, lo);
      assert lo != a.end && s < lo ==> Before(a, s, lo);
    }
  }

  lemma FuseApart(a: Abs, lo: nat, hi: nat, end: nat, s: nat, t: nat)
    requires Tiled(a) && Fusible(a, lo, hi, end)
    requires s in FuseCore(a, lo, hi, end).blocks && t in FuseCore(a, lo, hi, end).blocks && s < t
    ensures Before(FuseCore(a, lo, hi, end), s, t)
  {
    if s != lo {
      assert Whole(a, s);
      assert t in a.blocks ==> Before(a, s, t);
    }
  }

  lemma FuseListed(a: Abs, lo: nat, hi: nat, end: nat)
    requires Listed(a, NULL) && lo < hi
    requires forall t :: t in a.blocks && lo < t < hi ==> a.blocks[t].Free?
    ensures Listed(FuseCore(a, lo, hi, end), lo)
  {
    var b := FuseCore(a, lo, hi, end);
    forall i | 0 <= i < 4
      ensures NoDup(b.lists[i])
    {
      KeepNoDup(a.lists[i], lo, hi);
    }
    forall i, s: nat | 0 <= i < 4
      ensures s in b.lists[i] <==> BelongsOn(b, i, s, lo)
    {
      KeepMembers(a.lists[i], lo, hi);
      assert s in a.lists[i] <==> BelongsOn(a, i, s, NULL);
    }
  }

  lemma InsertListed(a: Abs, s: nat)
    requires Listed(a, s) && s in a.blocks && a.blocks[s].Free? && Bin(a.blocks[s].size) < 4
    ensures Listed(Insert(a, s), NULL)
  {
    var b, n := Insert(a, s), Bin(a.blocks[s].size);
    assert s !in a.lists[n] by {
      assert !BelongsOn(a, n, s, s);
    }
    forall i | 0 <= i < 4
      ensures NoDup(b.lists[i])
    {
      assert NoDup(a.lists[i]);
    }
    forall i, t: nat | 0 <= i < 4
      ensures t in b.lists[i] <==> BelongsOn(b, i, t, NULL)
    {
      assert t in a.lists[i] <==> BelongsOn(a, i, t, s);
    }
  }

  lemma FuseRest(a: Abs, lo: nat, hi: nat, end: nat)
    requires Inv(a) && Fusible(a, lo, hi, end)
    ensures forall s :: s in FuseCore(a, lo, hi, end).blocks ==> Tight(FuseCore(a, lo, hi, end).blocks[s])
    ensures Live(FuseCore(a, lo, hi, end)) == Live(a) - {lo}
  {
    var b := FuseCore(a, lo, hi, end);
    forall s | s in b.blocks
      ensures Tight(b.blocks[s])
    {
      assert s != lo ==> Tight(a.blocks[s]);
    }
  }

  lemma FuseCoreInv(a: Abs, lo: nat, hi: nat, end: nat)
    requires Inv(a) && Fusible(a, lo, hi, end)
    ensures InvExcept(FuseCore(a, lo, hi, end), lo)
    ensures Live(FuseCore(a, lo, hi, end)) == Live(a) - {lo}
  {
    FuseTiled(a, lo, hi, end);
    FuseListed(a, lo, hi, end);
    FuseRest(a, lo, hi, end);
  }

  /** The tiling does not depend on the lists. */
  lemma SameBlocks(a: Abs, b: Abs)
    requires a.end == b.end && a.blocks == b.blocks && Tiled(a)
    ensures Tiled(b)
  {
    forall s | s in b.blocks
      ensures Whole(b, s)
    {
      assert Whole(a, s);
    }
    forall s, t | s in b.blocks && t in b.blocks && s < t
      ensures Before(b, s, t)
    {
      assert Before(a, s, t);
    }
  }

  lemma InsertInv(a: Abs, s: nat)
    requires InvExcept(a, s) && s in a.blocks && a.blocks[s].Free?
    ensures Bin(a.blocks[s].size) < 4
    ensures Inv(Insert(a, s)) && Live(Insert(a, s)) == Live(a)
  {
    assert Whole(a, s);
    InsertListed(a, s);
    SameBlocks(a, Insert(a, s));
    assert forall t :: t in a.blocks ==> Tight(a.blocks[t]);
  }

  lemma FuseInv(a: Abs, lo: nat, hi: nat, end: nat)
    requires Inv(a) && Fusible(a, lo, hi, end)
    ensures Bin(hi - lo) < 4
    ensures Inv(Fuse(a, lo, hi, end))
    ensures Live(Fuse(a, lo, hi, end)) == Live(a) - {lo}
  {
    FuseCoreInv(a, lo, hi, end);
    InsertInv(FuseCore(a, lo, hi, end), lo);
  }
}
