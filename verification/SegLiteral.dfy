/** Lines of sfmm.c as they stand, where the model departs from them, and exactly when they do what the heap needs. */
module SegLiteral {

  import opened SegSpec
  import opened SegOps
  import SegAllocator

  // ---------- merging a fresh page backwards ----------

  lemma PreviousThere(a: Abs, b: nat)
    requires Tiled(a) && 0 < b <= a.end && Boundary(a, b)
    ensures exists p :: p in a.blocks && p < b && p + a.blocks[p].size == b
  {
    var p := SegAllocator.EndingAt(a, b);
  }

  /** The block that ends at b, found by the footer before it. */
  ghost function Previous(a: Abs, b: nat): (p: nat)
    requires Tiled(a) && 0 < b <= a.end && Boundary(a, b)
    ensures p in a.blocks && p < b && p + a.blocks[p].size == b
  {
    PreviousThere(a, b);
    var p :| p in a.blocks && p < b && p + a.blocks[p].size == b;
    p
  }

  /** The backward loop from b: it takes the block before b if that is free and not the first of the heap. */
  ghost function BackLoop(a: Abs, b: nat): (lo: nat)
    requires Tiled(a) && 0 < b <= a.end && Boundary(a, b)
    decreases b
  {
    var p := Previous(a, b);
    if p > 0 && a.blocks[p].Free? then BackLoop(a, p) else b
  }

  /** Where the loop stops: every block from lo on is free, and the block before lo is in use
      or is the first of the heap, which the strict comparison leaves alone. */
  ghost predicate StopsAt(a: Abs, lo: nat) {
    && 0 < lo <= a.end && Boundary(a, lo)
    && (forall t :: t in a.blocks && lo <= t ==> a.blocks[t].Free?)
    && (UsedBefore(a, lo) || (0 in a.blocks && a.blocks[0].size == lo))
  }

  lemma {:induction false} LoopStops(a: Abs, b: nat)
    requires Tiled(a) && 0 < b <= a.end && Boundary(a, b)
    requires forall t :: t in a.blocks && b <= t ==> a.blocks[t].Free?
    ensures StopsAt(a, BackLoop(a, b))
    decreases b
  {
    var p := Previous(a, b);
    if p > 0 && a.blocks[p].Free? {
      forall t | t in a.blocks && p <= t ensures a.blocks[t].Free? {
        assert p < t < b ==> Before(a, p, t);
      }
      LoopStops(a, p);
    }
  }

  /** The loop gathers the whole free tail exactly if something is allocated. */
  lemma GrowsRight(a: Abs)
    requires Inv(a) && a.end > 0
    ensures BackLoop(a, a.end) == TailStart(a, 0) <==> Live(a) != map[]
  {
    forall t | t in a.blocks ensures t < a.end {
      assert Whole(a, t);
    }
    LoopStops(a, a.end);
    StopsRight(a, BackLoop(a, a.end));
  }

  lemma StopsRight(a: Abs, lo: nat)
    requires Inv(a) && a.end > 0 && StopsAt(a, lo)
    ensures lo == TailStart(a, 0) <==> Live(a) != map[]
  {
    var c := TailStart(a, 0);
    if UsedBefore(a, lo) {
      TailIsUnique(a, lo);
      var t :| t in a.blocks && a.blocks[t].Used? && t + a.blocks[t].size == lo;
      assert t in Live(a);
    } else {
      assert forall t :: t in a.blocks && 0 < t ==> Before(a, 0, t);
      assert a.blocks[0].Free?;
      assert forall t :: t in a.blocks ==> a.blocks[t].Free?;
      assert !UsedBefore(a, c);
      assert Live(a) == map[];
    }
  }

  /** A heap of one free page, asked for 4096 bytes: the page that would make room is not merged with it, and
      another is needed. */
  lemma IdleHeapExample()
    ensures var a := Abs(PAGE, map[0 := Free(PAGE)], [[], [], [], [0]]);
            Inv(a) && BackLoop(a, PAGE) == PAGE
            && var b := Fuse(a, PAGE, 2 * PAGE, 2 * PAGE);
               Inv(b) && (forall s: nat :: !Usable(b, s, Units(4096)))
               && exists s: nat :: Usable(Grow(a), s, Units(4096))
  {
    var a := Abs(PAGE, map[0 := Free(PAGE)], [[], [], [], [0]]);
    assert forall i, s: nat :: 0 <= i < 4 ==> (s in a.lists[i] <==> BelongsOn(a, i, s, NULL));
    assert Whole(a, 0);
    FuseInv(a, PAGE, 2 * PAGE, 2 * PAGE);
    var b := Fuse(a, PAGE, 2 * PAGE, 2 * PAGE);
    assert b.blocks == map[0 := Free(PAGE), PAGE := Free(PAGE)];
    GrowMergesTail(a);
    assert TailStart(a, 0) == 0;
    assert Usable(Grow(a), 0, Units(4096));
  }

  // ---------- unlinking an absorbed block ----------

  /** A block without predecessor is taken off the list of the size it has after the merge: that list's head
      becomes its successor. */
  ghost function Unlinked(a: Abs, s: nat, merged: nat): seq<seq<nat>>
    requires |a.lists| == 4 && s in a.blocks && Bin(a.blocks[s].size) < 4 && Bin(merged) < 4
  {
    var l := a.lists[Bin(a.blocks[s].size)];
    if l != [] && l[0] == s then a.lists[Bin(merged) := l[1..]] else KeepAll(a.lists, s, s + 1)
  }

  /** This takes the block off the lists exactly if it is not at the head of its list, or stays in the range of
      that list when it grows. */
  lemma UnlinksRight(a: Abs, s: nat, merged: nat)
    requires Inv(a) && s in a.blocks && a.blocks[s].Free? && Bin(merged) < 4
    ensures Bin(a.blocks[s].size) < 4 && a.lists[Bin(a.blocks[s].size)] != []
    ensures Unlinked(a, s, merged) == KeepAll(a.lists, s, s + 1) <==>
            a.lists[Bin(a.blocks[s].size)][0] != s || Bin(merged) == Bin(a.blocks[s].size)
  {
    assert Whole(a, s);
    var i := Bin(a.blocks[s].size);
    var l := a.lists[i];
    assert BelongsOn(a, i, s, NULL);
    assert s in l;
    if l[0] == s {
      KeepMembers(l, s, s + 1);
      if Bin(merged) == i {
        KeepHead(l);
        forall j | 0 <= j < 4 && j != i ensures Keep(a.lists[j], s, s + 1) == a.lists[j] {
          assert !BelongsOn(a, j, s, NULL);
          assert s !in a.lists[j];
          KeepSame(a.lists[j], s, s + 1);
        }
        assert Unlinked(a, s, merged) == KeepAll(a.lists, s, s + 1);
      } else {
        assert Unlinked(a, s, merged)[i] == l;
      }
    }
  }

  lemma KeepHead(l: seq<nat>)
    requires l != [] && NoDup(l)
    ensures Keep(l, l[0], l[0] + 1) == l[1..]
  {
    KeepSame(l[1..], l[0], l[0] + 1);
  }

  // ---------- an exact fit ----------

  /** sf_realloc as written leaves a block that fits exactly alone. This is what it promises, a block that records
      the new request, exactly if the request is the old one; otherwise it records a smaller one, and a later move
      to a larger block copies only so many bytes. */
  lemma ExactFit(a: Abs, s: nat, size: nat)
    requires Inv(a) && s in Live(a) && 16 * a.blocks[s].size == size + 16
    ensures Resized(a, s, size, a, Got(s)) <==> a.blocks[s].requested == size
    ensures a.blocks[s].requested <= size
  {
    assert Tight(a.blocks[s]);
    assert (Live(a) - {s})[s := Live(a)[s]] == Live(a);
  }
}
