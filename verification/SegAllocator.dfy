/** sf_malloc, sf_free and sf_realloc on the memory itself. */
module SegAllocator {
  import opened SegSpec
  import opened SegOps
  import opened SegHeap

  /** seg_free_list[i].max < size is tried from the smallest list up. */
  method BinOf(size: nat) returns (i: nat)
    requires 16 * size <= 65535
    ensures i < 4 && 16 * size <= ListMax(i) && (i > 0 ==> ListMax(i - 1) < 16 * size)
    ensures i == Bin(size)
  {
    i := 0;
    while ListMax(i) < 16 * size
      invariant i <= Bin(size)
      decreases 4 - i
    {
      i := i + 1;
    }
  }

  lemma LiveSameTrans(a: Abs, b: Abs, x: int, m0: seq<Word>, m1: seq<Word>, m2: seq<Word>)
    requires LiveSame(a, x, m0, m1) && LiveSame(b, x, m1, m2) && |m0| <= |m1| <= |m2|
    requires forall t :: t in Live(a) && t != x ==> t in Live(b) && Live(b)[t] == Live(a)[t]
    ensures LiveSame(a, x, m0, m2)
  {
    forall t | t in Live(a) && t != x
      ensures SameBlock(a, t, m0, m2)
    {
      assert SameBlock(a, t, m0, m1) && SameBlock(b, t, m1, m2);
      assert forall w :: InBlock(a, t, w) <==> InBlock(b, t, w);
    }
  }

  /** What the search reads at the k-th block of list i. */
  lemma ListStep(mem: seq<Word>, heads: seq<int>, a: Abs, i: nat, k: nat)
    requires Inv(a) && Holds(mem, heads, a, NULL) && i < 4 && k < |a.lists[i]|
    ensures a.lists[i][k] in a.blocks && LinkOk(mem, a.lists[i], k)
    ensures TagAt(mem, 2 * a.lists[i][k], false, a.blocks[a.lists[i][k]].size)
  {
    assert a.lists[i][k] in a.lists[i];
    assert BelongsOn(a, i, a.lists[i][k], NULL) && LinkOk(mem, a.lists[i], k);
    assert TagsOk(mem, a.lists[i][k], a.blocks[a.lists[i][k]]);
  }

  /** Where a free block stands on its list, and that its words and its neighbours' are readable there. */
  lemma ListedAt(mem: seq<Word>, heads: seq<int>, a: Abs, x: int, p: nat) returns (i: nat, k: nat)
    requires InvExcept(a, x) && Holds(mem, heads, a, x) && p in a.blocks && a.blocks[p].Free? && p != x
    ensures i == Bin(a.blocks[p].size) < 4 && k < |a.lists[i]| && a.lists[i][k] == p
    ensures 2 * p + 2 < |mem| && TagAt(mem, 2 * p, false, a.blocks[p].size)
    ensures mem[2 * p + 1] == Link(Next(a.lists[i], k)) && mem[2 * p + 2] == Link(Prev(a.lists[i], k))
    ensures k > 0 ==> 2 * a.lists[i][k - 1] + 2 < |mem|
    ensures k + 1 < |a.lists[i]| ==> 2 * a.lists[i][k + 1] + 2 < |mem|
    ensures 2 <= a.blocks[p].size && 16 * a.blocks[p].size <= 65535
    ensures heads[i] == Head(a.lists[i])
  {
    i := Bin(a.blocks[p].size);
    assert Whole(a, p) && BelongsOn(a, i, p, x) && TagsOk(mem, p, a.blocks[p]);
    k :| 0 <= k < |a.lists[i]| && a.lists[i][k] == p;
    assert LinkOk(mem, a.lists[i], k);
    assert k > 0 ==> LinkOk(mem, a.lists[i], k - 1);
    assert k + 1 < |a.lists[i]| ==> LinkOk(mem, a.lists[i], k + 1);
  }

  class Heap {
    var mem: seq<Word>
    var heads: seq<int>
    const limit: nat
    ghost var abs: Abs

    ghost predicate Valid()
      reads this
    {
      1 <= limit <= 15 && Inv(abs) && Holds(mem, heads, abs, NULL)
    }

    constructor (limit: nat)
      requires 1 <= limit <= 15
      ensures Valid() && this.limit == limit && abs == EMPTY
    {
      this.limit := limit;
      mem := [];
      heads := [NULL, NULL, NULL, NULL];
      abs := EMPTY;
    }

    /** Writes one word of the block at x, which is on no list. */
    method Poke(w: nat, v: Word, ghost x: nat)
      requires InvExcept(abs, x) && x in abs.blocks && Holds(mem, heads, abs, x) && InBlock(abs, x, w)
      modifies this`mem
      ensures w < |old(mem)| && mem == old(mem)[w := v]
      ensures Holds(mem, heads, abs, x) && LiveSame(abs, x, old(mem), mem)
    {
      assert Whole(abs, x);
      mem := mem[w := v];
      WriteInside(old(mem), mem, heads, abs, x);
    }

    /** Makes the neighbours of a block of this size on its list each other's neighbours. */
    method Bypass(next: int, prev: int, size: nat)
      requires |heads| == 4 && 16 * size <= 65535
      requires next != NULL ==> 0 <= next && 2 * next + 2 < |mem|
      requires prev != NULL ==> 0 <= prev && 2 * prev + 1 < |mem|
      modifies this`mem, this`heads
      ensures |mem| == |old(mem)|
      ensures forall w :: 0 <= w < |mem| ==>
                mem[w] == (if prev != NULL && w == 2 * prev + 1 then Link(next)
                           else if next != NULL && w == 2 * next + 2 then Link(prev)
                           else old(mem)[w])
      ensures heads == if prev == NULL then old(heads)[Bin(size) := next] else old(heads)
    {
      if prev != NULL {
        mem := mem[2 * prev + 1 := Link(next)];
      } else {
        var j := BinOf(size);
        heads := heads[j := next];
        if heads[j] != NULL {
          mem := mem[2 * heads[j] + 2 := Link(NULL)];
        }
      }
      if next != NULL {
        mem := mem[2 * next + 2 := Link(prev)];
      }
    }

    /** Takes the free block at p off its list. */
    method Unlink(p: nat, ghost x: int)
      requires InvExcept(abs, x) && Holds(mem, heads, abs, x) && p in abs.blocks && abs.blocks[p].Free? && p != x
      modifies this
      ensures abs == Off(old(abs), p) && Holds(mem, heads, abs, x)
      ensures forall t :: t in abs.blocks && (abs.blocks[t].Used? || t == x || t == p) ==>
                SameBlock(abs, t, old(mem), mem)
      ensures |mem| == |old(mem)| && TagAt(mem, 2 * p, false, abs.blocks[p].size)
      ensures LiveSame(old(abs), NULL, old(mem), mem)
    {
      ghost var i, k := ListedAt(mem, heads, abs, x, p);
      ghost var l := abs.lists[i];
      Bypass(mem[2 * p + 1].to, mem[2 * p + 2].to, mem[2 * p].size);
      UnlinkHolds(old(mem), mem, old(heads), abs, x, i, k);
      assert SameBlock(abs, p, old(mem), mem) && InBlock(abs, p, 2 * p);
      abs := Off(abs, p);
    }

    /** Puts the free block at s, whose tags are in place, at the head of its list. */
    method InsertHead(s: nat)
      requires 1 <= limit <= 15 && InvExcept(abs, s) && s in abs.blocks && abs.blocks[s].Free?
      requires Holds(mem, heads, abs, s) && TagsOk(mem, s, abs.blocks[s])
      modifies this
      ensures Bin(old(abs).blocks[s].size) < 4 && abs == Insert(old(abs), s)
      ensures Valid() && LiveSame(old(abs), NULL, old(mem), mem) && |mem| == |old(mem)|
    {
      assert Whole(abs, s);
      InsertInv(abs, s);
      ghost var i := Bin(abs.blocks[s].size);
      ghost var l := abs.lists[i];
      assert l != [] ==> l[0] in l && BelongsOn(abs, i, l[0], s) && LinkOk(mem, l, 0);
      var j := BinOf(mem[2 * s].size);
      LinkBefore(s, heads[j]);
      assert Links(old(mem), mem, l, s) by {
        if l != [] {
          Apart(abs, s, l[0]);
        }
      }
      LinkHolds(old(mem), mem, old(heads), abs, s);
      heads := heads[j := s];
      abs := Insert(abs, s);
    }

    /** The link words of a block that goes before head, and head's link back to it. */
    method LinkBefore(s: nat, head: int)
      requires 2 * s + 2 < |mem| && (head != NULL ==> 0 <= head && head != s && 2 * head + 2 < |mem|)
      modifies this`mem
      ensures |mem| == |old(mem)|
      ensures forall w :: 0 <= w < |mem| ==>
                mem[w] == (if w == 2 * s + 1 then Link(head)
                           else if w == 2 * s + 2 then Link(NULL)
                           else if head != NULL && w == 2 * head + 2 then Link(s)
                           else old(mem)[w])
    {
      mem := mem[2 * s + 1 := Link(NULL)];
      mem := mem[2 * s + 2 := Link(NULL)];
      mem := mem[2 * s + 1 := Link(head)];
      if head != NULL {
        mem := mem[2 * head + 2 := Link(s)];
      }
    }

    // ---------- sf_free ----------

    /** The block being freed at s has absorbed everything up to p; its footer is still to be written. */
    ghost predicate Merging(a: Abs, s: nat, p: nat)
      reads this
    {
      && 1 <= limit <= 15 && Inv(a) && Fusible(a, s, p, a.end)
      && abs == FuseCore(a, s, p, a.end) && Holds(mem, heads, abs, s) && TagAt(mem, 2 * s, false, p - s)
    }

    /** One turn of the coalescing loop: the free block at p joins the one at s. */
    method Absorb(ghost a: Abs, s: nat, p: nat) returns (q: nat)
      requires Merging(a, s, p) && s in Live(a) && p in a.blocks && a.blocks[p].Free?
      modifies this
      ensures q == p + a.blocks[p].size > p && Merging(a, s, q)
      ensures LiveSame(a, s, old(mem), mem) && |mem| == |old(mem)|
    {
      FuseCoreInv(a, s, p, a.end);
      assert TagsOk(mem, p, abs.blocks[p]) && abs.blocks[p] == a.blocks[p];
      var m := mem[2 * p].size;
      q := p + m;
      MergeNext(a, s, p, q);
      mem := mem[2 * s := mem[2 * s].(size := mem[2 * s].size + m)];
      WriteInside(old(mem), mem, heads, abs, s);
      ghost var mem1 := mem;
      Unlink(p, s);
      assert SameBlock(abs, s, mem1, mem) && InBlock(abs, s, 2 * s);
      assert mem[2 * s] == mem1[2 * s];
      AsLive(a, abs, s, old(mem), mem1);
      AsLive(a, abs, s, mem1, mem);
      LiveSameTrans(a, a, s, old(mem), mem1, mem);
      MergeDone(mem, heads, a, s, p, q);
      abs := FuseCore(a, s, q, a.end);
    }

    /** The footer of the merged block, and its place at the head of its list. */
    method CloseMerge(ghost a: Abs, s: nat, p: nat)
      requires Merging(a, s, p) && s in Live(a)
      modifies this
      ensures Bin(p - s) < 4 && abs == Fuse(a, s, p, a.end) && Valid()
      ensures LiveSame(a, s, old(mem), mem) && |mem| == |old(mem)|
    {
      FuseCoreInv(a, s, p, a.end);
      mem := mem[2 * p - 1 := Tag(false, false, mem[2 * s].size, 0)];
      WriteInside(old(mem), mem, heads, abs, s);
      ghost var mem1, b := mem, abs;
      InsertHead(s);
      AsLive(a, b, s, old(mem), mem1);
      AsLive(a, b, s, mem1, mem);
      LiveSameTrans(a, a, s, old(mem), mem1, mem);
    }

    /** Absorbs every free block from p on. */
    method Coalesce(ghost a: Abs, s: nat, p: nat) returns (q: nat)
      requires Merging(a, s, p) && s in Live(a)
      modifies this
      ensures Merging(a, s, q) && p <= q && (q == a.end || q in Live(a))
      ensures LiveSame(a, s, old(mem), mem) && |mem| == |old(mem)|
    {
      q := p;
      MergeGuard(mem, heads, a, s, q);
      while 2 * q < |mem| && !mem[2 * q].alloc
        invariant Merging(a, s, q) && p <= q
        invariant 2 * q < |mem| ==> q in a.blocks && TagAt(mem, 2 * q, a.blocks[q].Used?, a.blocks[q].size)
        invariant 2 * q >= |mem| ==> q == a.end
        invariant LiveSame(a, s, old(mem), mem) && |mem| == |old(mem)|
        decreases |mem| - 2 * q
      {
        ghost var mem0 := mem;
        q := Absorb(a, s, q);
        LiveSameTrans(a, a, s, old(mem), mem0, mem);
        MergeGuard(mem, heads, a, s, q);
      }
    }

    /** Clears the allocated bits of the block at s. */
    method Mark(s: nat) returns (n: nat)
      requires Valid() && s in Live(abs)
      modifies this
      ensures n == old(abs).blocks[s].size && Merging(old(abs), s, s + n)
      ensures LiveSame(old(abs), s, old(mem), mem) && |mem| == |old(mem)|
    {
      FreedTags(mem, heads, abs, s);
      n := mem[2 * s].size;
      mem := mem[2 * s := mem[2 * s].(alloc := false)];
      mem := mem[2 * s + 2 * n - 1 := mem[2 * s + 2 * n - 1].(alloc := false)];
      StartMerge(old(mem), mem, heads, abs, s);
      abs := FuseCore(abs, s, s + n, abs.end);
    }

    /** ptr is valid when the tags say so; anything else aborts the program, here ok == false. */
    method Free(s: int) returns (ok: bool)
      requires Valid() && (Accepts(mem, s) ==> s in Live(abs))
      modifies this
      ensures Valid() && |mem| == |old(mem)|
      ensures ok <==> s in Live(old(abs))
      ensures if ok then abs == Release(old(abs), s) else abs == old(abs) && mem == old(mem) && heads == old(heads)
      ensures LiveSame(old(abs), s, old(mem), mem)
    {
      ok := Accepts(mem, s);
      ghost var a := abs;
      if s in Live(a) {
        AcceptsLive(mem, heads, a, s);
      }
      if ok {
        var n := Mark(s);
        ghost var mem1 := mem;
        StartReach(a, s);
        var q := Coalesce(a, s, s + n);
        ghost var mem2 := mem;
        ReleaseTo(a, s, q);
        CloseMerge(a, s, q);
        LiveSameTrans(a, a, s, old(mem), mem1, mem2);
        LiveSameTrans(a, a, s, old(mem), mem2, mem);
      }
    }

    /** sf_free of a live block. */
    method FreeLive(s: nat)
      requires Valid() && s in Live(abs)
      modifies this
      ensures Valid() && |mem| == |old(mem)| && abs == Release(old(abs), s)
      ensures LiveSame(old(abs), s, old(mem), mem)
    {
      AcceptsLive(mem, heads, abs, s);
      var _ := Free(s);
    }

    // ---------- growing the heap ----------

    /** The fresh page has absorbed everything from b on; its footer is still to be written. */
    ghost predicate Growing(a: Abs, b: nat)
      reads this
    {
      && Inv(a) && 1 <= limit <= 15 && b <= a.end && Fusible(a, b, a.end + PAGE, a.end + PAGE)
      && abs == FuseCore(a, b, a.end + PAGE, a.end + PAGE) && Holds(mem, heads, abs, b)
      && TagAt(mem, 2 * b, false, a.end + PAGE - b)
      && (forall t :: t in a.blocks && b <= t ==> a.blocks[t].Free?)
    }

    /** One turn of the backward loop: the free block that ends at b joins the fresh page. */
    method AbsorbBack(ghost a: Abs, b: nat) returns (q: nat)
      requires Growing(a, b) && 0 < b && 2 * b <= |mem| && mem[2 * b - 1].Tag? && !mem[2 * b - 1].alloc
      modifies this
      ensures q < b && Growing(a, q)
      ensures LiveSame(a, NULL, old(mem), mem) && |mem| == |old(mem)|
    {
      var n := mem[2 * b].size;
      q := TakeInto(a, b);
      ghost var mem1 := mem;
      GrowFused(a, q);
      Poke(2 * q, mem[2 * q].(size := mem[2 * q].size + n), q);
      AsLive(a, abs, NULL, mem1, mem);
      LiveSameTrans(a, a, NULL, old(mem), mem1, mem);
    }

    /** Unlinks the free block that ends at b, so that the new block starts with it. */
    method TakeInto(ghost a: Abs, b: nat) returns (q: nat)
      requires Growing(a, b) && 0 < b && 2 * b <= |mem| && mem[2 * b - 1].Tag? && !mem[2 * b - 1].alloc
      modifies this
      ensures q < b && Fusible(a, q, a.end + PAGE, a.end + PAGE) && abs == FuseCore(a, q, a.end + PAGE, a.end + PAGE)
      ensures Holds(mem, heads, abs, q) && TagAt(mem, 2 * q, false, b - q)
      ensures forall t :: t in a.blocks && q <= t ==> a.blocks[t].Free?
      ensures LiveSame(a, NULL, old(mem), mem) && |mem| == |old(mem)|
    {
      ghost var p := GrowNext(mem, heads, a, b);
      GrowFused(a, b);
      q := b - mem[2 * b - 1].size;
      Unlink(q, b);
      AsLive(a, abs, NULL, old(mem), mem);
      GrowDone(mem, heads, a, q, b);
      abs := FuseCore(a, q, a.end + PAGE, a.end + PAGE);
    }

    /** sf_sbrk moves the break by a page; the page becomes a block of its own. */
    method Extend()
      requires Valid() && abs.end + PAGE <= limit * PAGE
      modifies this
      ensures Growing(old(abs), old(abs).end) && |mem| == |old(mem)| + 2 * PAGE
      ensures LiveSame(old(abs), NULL, old(mem), mem)
    {
      ghost var a := abs;
      var e := |mem| / 2;
      mem := mem + seq(2 * PAGE, _ => Data([0, 0, 0, 0, 0, 0, 0, 0]));
      mem := mem[2 * e := Tag(false, false, PAGE, 0)];
      ExtendHolds(old(mem), mem, heads, a);
      abs := FuseCore(a, e, e + PAGE, e + PAGE);
    }

    /** Absorbs every free block before the fresh page, down to the heap start if need be. */
    method CoalesceBack(ghost a: Abs) returns (b: nat)
      requires Growing(a, a.end) && 2 * a.end <= |mem|
      modifies this
      ensures Growing(a, b) && (b == 0 || UsedBefore(a, b))
      ensures LiveSame(a, NULL, old(mem), mem) && |mem| == |old(mem)|
    {
      b := |mem| / 2 - PAGE;
      GrowGuard(mem, heads, a, b);
      while b > 0 && !mem[2 * b - 1].alloc
        invariant Growing(a, b) && 2 * b <= |mem|
        invariant b > 0 ==> mem[2 * b - 1].Tag? && (mem[2 * b - 1].alloc ==> UsedBefore(a, b))
        invariant LiveSame(a, NULL, old(mem), mem) && |mem| == |old(mem)|
        decreases b
      {
        ghost var mem0 := mem;
        b := AbsorbBack(a, b);
        LiveSameTrans(a, a, NULL, old(mem), mem0, mem);
        GrowGuard(mem, heads, a, b);
      }
    }

    /** The footer at the heap end, and the block's place at the head of its list. */
    method CloseGrow(ghost a: Abs, b: nat)
      requires Growing(a, b) && |mem| == 2 * (a.end + PAGE)
      modifies this
      ensures Bin(a.end + PAGE - b) < 4 && abs == Fuse(a, b, a.end + PAGE, a.end + PAGE) && Valid()
      ensures LiveSame(a, NULL, old(mem), mem) && |mem| == |old(mem)|
    {
      GrowFused(a, b);
      Poke(|mem| - 1, Tag(false, false, mem[2 * b].size, 0), b);
      AsLive(a, abs, NULL, old(mem), mem);
      ghost var mem1, c := mem, abs;
      InsertHead(b);
      AsLive(a, c, NULL, mem1, mem);
      LiveSameTrans(a, a, NULL, old(mem), mem1, mem);
    }

    /** A new page at the end of the heap, merged with the free blocks before it. */
    method GrowPage()
      requires Valid() && abs.end + PAGE <= limit * PAGE
      modifies this
      ensures Valid() && abs == Grow(old(abs)) && |mem| == |old(mem)| + 2 * PAGE
      ensures LiveSame(old(abs), NULL, old(mem), mem)
    {
      ghost var a := abs;
      Extend();
      ghost var mem1 := mem;
      var b := CoalesceBack(a);
      ghost var mem2 := mem;
      GrowIs(a, b);
      CloseGrow(a, b);
      LiveSameTrans(a, a, NULL, old(mem), mem1, mem2);
      LiveSameTrans(a, a, NULL, old(mem), mem2, mem);
    }

    // ---------- sf_malloc ----------

    /** The bytes a request needs with its tags, and whether rounding pads it. */
    method Rounded(size: nat) returns (required: nat, padding: bool)
      ensures required == 16 * Units(size) && (padding <==> required != size + 16)
    {
      required := size + 16;
      padding := false;
      if required % 16 != 0 {
        required := required + (16 - required % 16);
        padding := true;
      }
    }

    /** Looks for a block of required bytes: list by list upwards, head to tail. */
    method Search(required: nat) returns (found: int)
      requires Valid() && required % 16 == 0
      ensures forall j :: 0 <= j < 4 ==> AllKnown(abs, abs.lists[j])
      ensures found == FindFit(abs, required / 16, 0)
    {
      ListsKnown(abs, NULL);
      found := NULL;
      var i := 0;
      while i < 4 && found == NULL
        invariant i <= 4
        invariant FindFit(abs, required / 16, 0) == if found == NULL then FindFit(abs, required / 16, i) else found
      {
        if ListMax(i) > required {
          found := SearchList(i, required / 16);
        }
        i := i + 1;
      }
    }

    /** The first block of list i with at least r units. */
    method SearchList(i: nat, r: nat) returns (found: int)
      requires Valid() && i < 4 && AllKnown(abs, abs.lists[i])
      ensures found == FindIn(abs, abs.lists[i], r)
    {
      found := NULL;
      ghost var l := abs.lists[i];
      var cur := heads[i];
      ghost var k := 0;
      while cur != NULL && found == NULL
        invariant k <= |l| && cur == if k < |l| then l[k] else NULL
        invariant FindIn(abs, l, r) == if found == NULL then FindIn(abs, l[k..], r) else found
        decreases |l| - k, found == NULL
      {
        ListStep(mem, heads, abs, i, k);
        assert l[k..][0] == l[k] && l[k..][1..] == l[k + 1..];
        var next := mem[2 * cur + 1].to;
        if !mem[2 * cur].alloc && mem[2 * cur].size >= r {
          found := cur;
        } else {
          cur := next;
          k := k + 1;
        }
      }
    }

    /** Writes the tags of a block of n units at s that gives its first m to the request. */
    method Carve(s: nat, n: nat, m: nat, padding: bool, size: nat)
      requires 2 <= m <= n && m + 1 != n && 2 * s + 2 * n <= |mem| && mem[2 * s].Tag?
      modifies this`mem
      ensures |mem| == |old(mem)|
      ensures forall w :: 0 <= w < |mem| && !(2 * s <= w < 2 * s + 2 * n) ==> mem[w] == old(mem)[w]
      ensures TagsOk(mem, s, Used(m, padding, size))
      ensures m < n ==> TagsOk(mem, s + m, Block.Free(n - m))
    {
      mem := mem[2 * s + 1 := Link(NULL)];
      mem := mem[2 * s + 2 := Link(NULL)];
      mem := mem[2 * s := mem[2 * s].(alloc := true)];
      mem := mem[2 * s + 2 * n - 1 := Tag(false, false, 0, 0)];
      mem := mem[2 * s := mem[2 * s].(size := m, padded := padding)];
      mem := mem[2 * s + 2 * m - 1 := Tag(true, padding, m, size)];
      if m < n {
        mem := mem[2 * (s + m) := Tag(false, false, n - m, 0)];
        mem := mem[2 * s + 2 * n - 1 := Tag(false, false, n - m, 0)];
      }
    }

    /** The block in units, whether it is padded, and a splinter absorbed. */
    method Measure(size: nat, n: nat) returns (m: nat, padding: bool)
      requires size >= 1 && Units(size) <= n
      ensures Claim(n, size) == Used(m, padding, size)
    {
      var required: nat;
      required, padding := Rounded(size);
      if n - required / 16 == 1 {
        required := required + 16;
        padding := true;
      }
      m := required / 16;
    }

    /** Gives the free block at s to a request it is big enough for. */
    method Place(s: nat, size: nat)
      requires Valid() && s in abs.blocks && abs.blocks[s].Free?
      requires 1 <= size && Units(size) <= abs.blocks[s].size <= 15 * PAGE
      modifies this
      ensures Valid() && abs == Take(old(abs), s, size) && |mem| == |old(mem)|
      ensures LiveSame(old(abs), NULL, old(mem), mem)
    {
      ghost var a := abs;
      ghost var x := Remainder(a.blocks[s].size, s, size);
      Unlink(s, NULL);
      ghost var mem1 := mem;
      var n := mem[2 * s].size;
      var m, padding := Measure(size, n);
      BlockFits(mem, heads, a, s);
      ClaimFits(n, size);
      Carve(s, n, m, padding, size);
      PlaceHolds(mem1, mem, heads, a, s, size);
      abs := TakeCore(a, s, size);
      LiveSameTrans(a, a, NULL, old(mem), mem1, mem);
      TakeReady(a, s, size);
      if m < n {
        ghost var mem2 := mem;
        InsertHead(s + m);
        AsLive(a, TakeCore(a, s, size), NULL, mem2, mem);
        LiveSameTrans(a, a, NULL, old(mem), mem2, mem);
      }
    }

    /** An empty heap gets its first page. */
    method FirstPage()
      requires Valid()
      modifies this
      ensures Valid() && abs == (if old(abs).end == 0 then Grow(old(abs)) else old(abs))
      ensures |mem| >= |old(mem)| && LiveSame(old(abs), NULL, old(mem), mem)
    {
      assert abs.end % PAGE == 0;
      if |mem| / 2 < PAGE {
        GrowPage();
      }
    }

    /** Search, and on failure a page more and start again, as sf_malloc's call of itself does. */
    method ServeRequest(size: nat) returns (r: Reply)
      requires Valid() && 1 <= size <= MAX_REQUEST
      modifies this
      ensures Valid() && abs == Serve(old(abs), size, limit).0 && r == Serve(old(abs), size, limit).1
      ensures |mem| >= |old(mem)| && LiveSame(old(abs), NULL, old(mem), mem)
      decreases limit * PAGE - |mem| / 2
    {
      ghost var b := abs;
      var required, _ := Rounded(size);
      var s := Search(required);
      ServeCases(b, size, limit, s);
      if s != NULL {
        Place(s, size);
        r := Got(s);
      } else if |mem| / 2 + PAGE > limit * PAGE {
        r := NoMemory;
      } else {
        GrowPage();
        ghost var mem2 := mem;
        r := ServeRequest(size);
        LiveSameTrans(b, Grow(b), NULL, old(mem), mem2, mem);
      }
    }

    method Malloc(size: nat) returns (r: Reply)
      requires Valid()
      modifies this
      ensures Valid() && abs == SegOps.Malloc(old(abs), size, limit).0 && r == SegOps.Malloc(old(abs), size, limit).1
      ensures |mem| >= |old(mem)| && LiveSame(old(abs), NULL, old(mem), mem)
    {
      if size == 0 || size > MAX_REQUEST {
        r := Invalid;
      } else {
        ghost var a := abs;
        FirstPage();
        ghost var b, mem1 := abs, mem;
        r := ServeRequest(size);
        MallocServes(a, b, size, limit);
        LiveSameTrans(a, b, NULL, old(mem), mem1, mem);
      }
    }

    // ---------- sf_realloc ----------

    /** One byte of a live payload; everything else in the heap stays as it is. */
    method StoreByte(p: nat, j: nat, v: int)
      requires Valid() && p in Live(abs) && j < Live(abs)[p].requested
      modifies this`mem
      ensures Valid() && |mem| == |old(mem)| && LiveSame(abs, p, old(mem), mem)
      ensures forall i :: 0 <= i < Live(abs)[p].requested ==>
                2 * p + 1 + i / 8 < |mem| && ByteAt(mem, p, i) == if i == j then v else ByteAt(old(mem), p, i)
    {
      PayloadFits(mem, heads, abs, p);
      var w := 2 * p + 1 + j / 8;
      mem := mem[w := Data(BytesOf(mem[w])[j % 8 := v])];
      PayloadWrite(old(mem), mem, heads, abs, p);
    }

    /** The payload at s, byte by byte, into the one at p. */
    method CopyPayload(s: nat, p: nat, n: nat)
      requires Valid() && s in Live(abs) && p in Live(abs) && s != p
      requires n <= Live(abs)[s].requested && n <= Live(abs)[p].requested
      modifies this`mem
      ensures Valid() && |mem| == |old(mem)| && LiveSame(abs, p, old(mem), mem)
      ensures SamePayload(old(mem), s, mem, p, n)
    {
      PayloadFits(mem, heads, abs, s);
      PayloadFits(mem, heads, abs, p);
      for j := 0 to n
        invariant Valid() && |mem| == |old(mem)| && LiveSame(abs, p, old(mem), mem)
        invariant SamePayload(old(mem), s, mem, p, j)
      {
        ghost var mem0 := mem;
        SameByte(abs, s, old(mem), mem, j);
        StoreByte(p, j, ByteAt(mem, s, j));
        LiveSameTrans(abs, abs, p, old(mem), mem0, mem);
      }
    }

    /** Copies n bytes from the payload at s to the one at p and frees the block at s. */
    method Migrate(s: nat, p: nat, n: nat)
      requires Valid() && s in Live(abs) && p in Live(abs) && s != p
      requires n <= Live(abs)[s].requested && n <= Live(abs)[p].requested
      modifies this
      ensures Valid() && abs == Release(old(abs), s) && |mem| == |old(mem)|
      ensures LiveSame(Release(old(abs), s), p, old(mem), mem)
      ensures SamePayload(old(mem), s, mem, p, n)
    {
      ghost var a := abs;
      CopyPayload(s, p, n);
      ghost var mem1, heads1 := mem, heads;
      FreeLive(s);
      KeptPayload(heads1, a, p, mem1, mem, n);
      PayloadTrans(old(mem), s, mem1, p, mem, p, n);
      LiveShift(Release(a, s), a, p, p, old(mem), mem1);
      LiveShift(Release(a, s), a, s, p, mem1, mem);
      LiveSameTrans(Release(a, s), Release(a, s), p, old(mem), mem1, mem);
    }

    /** The request the footer records. */
    method RequestOf(s: nat) returns (n: nat)
      requires Valid() && s in Live(abs)
      ensures n == Live(abs)[s].requested
    {
      FreedTags(mem, heads, abs, s);
      n := mem[2 * s + 2 * mem[2 * s].size - 1].requested;
    }

    /** A bigger block elsewhere, the payload copied into it, and the old block released. */
    method MoveTo(s: nat, size: nat) returns (r: Reply)
      requires Valid() && s in Live(abs) && 16 * abs.blocks[s].size < size + 16 && size > 0
      modifies this
      ensures Valid() && abs == Move(old(abs), s, size, limit).0 && r == Move(old(abs), s, size, limit).1
      ensures LiveSame(old(abs), s, old(mem), mem) && |mem| >= |old(mem)|
      ensures !r.Got? ==> LiveSame(old(abs), NULL, old(mem), mem)
      ensures r.Got? ==> SamePayload(old(mem), s, mem, r.at, old(abs).blocks[s].requested)
    {
      ghost var a := abs;
      var requested := RequestOf(s);
      r := Malloc(size);
      ghost var b, mem1 := abs, mem;
      MoveCases(a, s, size, limit);
      LiveShift(a, a, NULL, s, old(mem), mem1);
      if r.Got? {
        Migrate(s, r.at, requested);
        Relocated(old(heads), a, Release(b, s), s, r.at, requested, old(mem), mem1, mem);
      }
    }

    /** Writes the tags of a live block of n units at s cut down to m, and of a live block in what remains. */
    method CarveLive(s: nat, n: nat, m: nat, padding: bool, size: nat)
      requires 2 <= m <= n && m + 1 != n && 2 * s + 2 * n <= |mem| && mem[2 * s].Tag? && mem[2 * s].alloc
      modifies this`mem
      ensures |mem| == |old(mem)|
      ensures forall w :: 0 <= w < |mem| && !(2 * s <= w < 2 * s + 2 * n) ==> mem[w] == old(mem)[w]
      ensures forall w :: 2 * s < w < 2 * s + 2 * m - 1 ==> mem[w] == old(mem)[w]
      ensures TagsOk(mem, s, Used(m, padding, size)) && (m < n ==> TagsOk(mem, s + m, Spare(n - m)))
    {
      mem := mem[2 * s := mem[2 * s].(size := m, padded := padding)];
      mem := mem[2 * s + 2 * m - 1 := Tag(true, padding, m, size)];
      if m < n {
        mem := mem[2 * (s + m) := Tag(true, false, n - m, 0)];
        mem := mem[2 * s + 2 * n - 1 := Tag(true, false, n - m, 16 * (n - m) - 16)];
      }
    }

    /** Cuts the live block at s down to the request and frees what remains. */
    method ShrinkTo(s: nat, size: nat)
      requires Valid() && s in Live(abs) && 16 * abs.blocks[s].size >= size + 16 && size > 0
      modifies this
      ensures Valid() && abs == Shrink(old(abs), s, size) && |mem| == |old(mem)|
      ensures LiveSame(old(abs), s, old(mem), mem)
      ensures forall w :: 2 * s < w && 16 * w < 32 * s + 16 + 2 * size ==> w < |mem| && mem[w] == old(mem)[w]
    {
      ghost var a := abs;
      FreedTags(mem, heads, a, s);
      var n := mem[2 * s].size;
      var m, padding := Measure(size, n);
      ClaimFits(n, size);
      CarveLive(s, n, m, padding, size);
      CutHolds(old(mem), mem, heads, a, s, size);
      abs := Cut(a, s, size);
      var x := s + m;
      ShrinkCases(a, s, size, x, abs);
      if m < n {
        ghost var mem1 := mem;
        FreeLive(x);
        CutSame(a, s, size, x, mem1, mem);
        LiveSameTrans(a, a, s, old(mem), mem1, mem);
      }
    }

    /** A block that fits exactly only has its request and its padding noted anew. */
    method Refresh(s: nat, size: nat)
      requires Valid() && s in Live(abs) && 16 * abs.blocks[s].size == size + 16 && size > 0
      modifies this
      ensures Valid() && abs == Shrink(old(abs), s, size) && |mem| == |old(mem)|
      ensures LiveSame(old(abs), s, old(mem), mem)
      ensures forall w :: 2 * s < w && 16 * w < 32 * s + 16 + 2 * size ==> w < |mem| && mem[w] == old(mem)[w]
    {
      ghost var a := abs;
      FreedTags(mem, heads, a, s);
      var n := mem[2 * s].size;
      mem := mem[2 * s := mem[2 * s].(padded := false)];
      mem := mem[2 * s + 2 * n - 1 := mem[2 * s + 2 * n - 1].(padded := false, requested := size)];
      CutHolds(old(mem), mem, heads, a, s, size);
      abs := Cut(a, s, size);
      ShrinkCases(a, s, size, s + n, abs);
    }

    /** sf_realloc: ok == false stands for the abort on a pointer whose tags are not those of a live block. */
    method Realloc(s: int, size: nat) returns (ok: bool, r: Reply)
      requires Valid() && (Accepts(mem, s) ==> s in Live(abs))
      modifies this
      ensures Valid() && (ok <==> s in Live(old(abs)))
      ensures !ok ==> abs == old(abs) && mem == old(mem) && heads == old(heads)
      ensures ok ==> abs == Resize(old(abs), s, size, limit).0 && r == Resize(old(abs), s, size, limit).1
      ensures |mem| >= |old(mem)| && LiveSame(old(abs), s, old(mem), mem)
      ensures ok && (r.Invalid? || r.NoMemory?) ==> LiveSame(old(abs), NULL, old(mem), mem)
      ensures ok && r.Got? ==>
                var was := old(abs).blocks[s].requested;
                SamePayload(old(mem), s, mem, r.at, if size < was then size else was)
    {
      r := Released;
      if size == 0 {
        ok := Free(s);
        return;
      }
      ghost var a := abs;
      if s in Live(a) {
        AcceptsLive(mem, heads, a, s);
      }
      ok := Accepts(mem, s);
      if !ok {
        return;
      }
      FreedTags(mem, heads, a, s);
      assert Tight(a.blocks[s]);
      if 16 * mem[2 * s].size < size + 16 {
        r := MoveTo(s, size);
      } else {
        if 16 * mem[2 * s].size > size + 16 {
          ShrinkTo(s, size);
        } else {
          Refresh(s, size);
        }
        r := Got(s);
        WordsPayload(old(mem), mem, s, size);
      }
    }
  }

  lemma WordsPayload(m0: seq<Word>, m1: seq<Word>, s: nat, size: nat)
    requires |m0| == |m1| && forall w :: 2 * s < w && 16 * w < 32 * s + 16 + 2 * size ==> w < |m1| && m1[w] == m0[w]
    ensures SamePayload(m0, s, m1, s, size)
  {
    forall j | 0 <= j < size
      ensures 2 * s + 1 + j / 8 < |m0| && m1[2 * s + 1 + j / 8] == m0[2 * s + 1 + j / 8]
    {
      var w := 2 * s + 1 + j / 8;
      assert 2 * s < w && 16 * w < 32 * s + 16 + 2 * size;
    }
  }

  lemma CutHolds(mem: seq<Word>, mem': seq<Word>, heads: seq<int>, a: Abs, s: nat, size: nat)
    requires Inv(a) && Holds(mem, heads, a, NULL) && s in Live(a) && Units(size) <= a.blocks[s].size && size >= 1
    requires |mem'| == |mem| && forall w :: 0 <= w < |mem| && !InBlock(a, s, w) ==> mem'[w] == mem[w]
    requires var n := a.blocks[s].size; var c := Claim(n, size);
             TagsOk(mem', s, c) && (c.size < n ==> TagsOk(mem', s + c.size, Spare(n - c.size)))
    ensures Holds(mem', heads, Cut(a, s, size), NULL) && LiveSame(a, s, mem, mem')
  {
    UsedWrite(mem, mem', heads, a, s);
    var b := Cut(a, s, size);
    forall t | t in b.blocks
      ensures TagsOk(mem', t, b.blocks[t])
    {
      assert t in a.blocks && t != s ==> TagsOk(mem', t, a.blocks[t]);
    }
  }

  lemma ShrinkCases(a: Abs, s: nat, size: nat, x: nat, c: Abs)
    requires Inv(a) && s in Live(a) && 16 * a.blocks[s].size >= size + 16 && size > 0
    requires c == Cut(a, s, size) && x == s + Claim(a.blocks[s].size, size).size
    ensures Inv(c)
    ensures x == s + a.blocks[s].size ==> Shrink(a, s, size) == c
    ensures x != s + a.blocks[s].size ==> x in Live(c) && Shrink(a, s, size) == Release(c, x)
  {
    CutInv(a, s, size);
    ClaimFits(a.blocks[s].size, size);
  }

  /** Freeing the remainder at x leaves the kept block and all the others alone. */
  lemma CutSame(a: Abs, s: nat, size: nat, x: nat, m0: seq<Word>, m1: seq<Word>)
    requires Inv(a) && s in Live(a) && Units(size) <= a.blocks[s].size && size >= 1
    requires x == s + Claim(a.blocks[s].size, size).size < s + a.blocks[s].size
    requires LiveSame(Cut(a, s, size), x, m0, m1)
    ensures LiveSame(a, s, m0, m1) && |m0| <= |m1|
    ensures forall w :: 2 * s < w < 2 * x && w < |m0| ==> m1[w] == m0[w]
  {
    var b := Cut(a, s, size);
    ClaimFits(a.blocks[s].size, size);
    NothingWithin(a, s);
    assert s in Live(b) && SameBlock(b, s, m0, m1);
    forall w | 2 * s < w < 2 * x && w < |m0|
      ensures m1[w] == m0[w]
    {
      assert InBlock(b, s, w);
    }
    LiveShift(a, b, x, s, m0, m1);
  }

  /** What leaves all live blocks of b but x alone leaves those of a but s alone. */
  lemma LiveShift(a: Abs, b: Abs, x: int, s: int, m0: seq<Word>, m1: seq<Word>)
    requires LiveSame(b, x, m0, m1)
    requires forall t :: t in Live(a) && t != s ==> t in Live(b) && Live(b)[t] == Live(a)[t] && t != x
    ensures LiveSame(a, s, m0, m1)
  {
    forall t | t in Live(a) && t != s
      ensures SameBlock(a, t, m0, m1)
    {
      assert SameBlock(b, t, m0, m1);
      assert forall w :: InBlock(a, t, w) <==> InBlock(b, t, w);
    }
  }

  lemma KeptPayload(heads: seq<int>, a: Abs, s: nat, m0: seq<Word>, m1: seq<Word>, n: nat)
    requires Inv(a) && Holds(m0, heads, a, NULL) && s in Live(a) && SameBlock(a, s, m0, m1) && n <= Live(a)[s].requested
    ensures SamePayload(m0, s, m1, s, n)
  {
    PayloadFits(m0, heads, a, s);
    assert Tight(a.blocks[s]);
    forall j | 0 <= j < n
      ensures ByteAt(m1, s, j) == ByteAt(m0, s, j)
    {
      SameByte(a, s, m0, m1, j);
    }
  }

  lemma PayloadTrans(m0: seq<Word>, s: nat, m1: seq<Word>, p: nat, m2: seq<Word>, q: nat, n: nat)
    requires SamePayload(m0, s, m1, p, n) && SamePayload(m1, p, m2, q, n)
    ensures SamePayload(m0, s, m2, q, n)
  {
  }

  /** A new block, and then the payload in it: the payload has moved and all other live words are where they were. */
  lemma Relocated(heads: seq<int>, a: Abs, c: Abs, s: nat, p: nat, n: nat, m0: seq<Word>, m1: seq<Word>, m2: seq<Word>)
    requires Inv(a) && Holds(m0, heads, a, NULL) && s in Live(a) && n == Live(a)[s].requested
    requires LiveSame(a, NULL, m0, m1) && |m0| <= |m1| <= |m2|
    requires forall t :: t in Live(a) && t != s ==> t in Live(c) && Live(c)[t] == Live(a)[t] && t != p
    requires LiveSame(c, p, m1, m2) && SamePayload(m1, s, m2, p, n)
    ensures LiveSame(a, s, m0, m2) && SamePayload(m0, s, m2, p, n)
  {
    assert SameBlock(a, s, m0, m1);
    KeptPayload(heads, a, s, m0, m1, n);
    PayloadTrans(m0, s, m1, s, m2, p, n);
    LiveShift(a, a, NULL, s, m0, m1);
    LiveShift(a, c, p, s, m1, m2);
    LiveSameTrans(a, a, s, m0, m1, m2);
  }

  lemma MoveCases(a: Abs, s: nat, size: nat, limit: nat)
    requires Inv(a) && s in Live(a) && 1 <= limit <= 15 && 16 * a.blocks[s].size < size + 16 && size > 0
    ensures var b, r := SegOps.Malloc(a, size, limit).0, SegOps.Malloc(a, size, limit).1;
            Inv(b) &&
            (if r.Got? then r.at !in Live(a) && Adds(a, b, r.at, size) && s in Live(b) else Live(b) == Live(a)) &&
            (r.Got? ==> Live(b)[r.at].requested >= a.blocks[s].requested && Live(b)[s] == a.blocks[s]) &&
            Move(a, s, size, limit) == (if r.Got? then Release(b, s) else b, r)
  {
    MallocInv(a, size, limit);
    var b, r := SegOps.Malloc(a, size, limit).0, SegOps.Malloc(a, size, limit).1;
    assert r.Got? ==> s in Live(a)[r.at := Live(b)[r.at]];
    assert Tight(a.blocks[s]);
  }

  /** The first n payload bytes at s in one memory and at p in another are equal. */
  ghost predicate SamePayload(m0: seq<Word>, s: nat, m1: seq<Word>, p: nat, n: nat) {
    forall i :: 0 <= i < n ==>
      2 * s + 1 + i / 8 < |m0| && 2 * p + 1 + i / 8 < |m1| && ByteAt(m1, p, i) == ByteAt(m0, s, i)
  }

  lemma PayloadFits(mem: seq<Word>, heads: seq<int>, a: Abs, p: nat)
    requires Inv(a) && Holds(mem, heads, a, NULL) && p in Live(a)
    ensures forall j :: 0 <= j < Live(a)[p].requested ==> 2 * p + 1 + j / 8 < 2 * p + 2 * a.blocks[p].size - 1 < |mem|
  {
    assert Tight(a.blocks[p]) && TagsOk(mem, p, a.blocks[p]);
  }

  lemma SameByte(a: Abs, s: nat, m0: seq<Word>, m1: seq<Word>, j: nat)
    requires s in Live(a) && Tight(a.blocks[s]) && j < Live(a)[s].requested && SameBlock(a, s, m0, m1)
    requires 2 * s + 1 + j / 8 < |m0|
    ensures ByteAt(m1, s, j) == ByteAt(m0, s, j)
  {
    assert InBlock(a, s, 2 * s + 1 + j / 8);
  }

  /** Payload writes do not reach the tags. */
  lemma PayloadWrite(mem: seq<Word>, mem': seq<Word>, heads: seq<int>, a: Abs, p: nat)
    requires Inv(a) && Holds(mem, heads, a, NULL) && p in Live(a) && |mem'| == |mem|
    requires forall w :: 0 <= w < |mem| && !(2 * p < w < 2 * p + 2 * a.blocks[p].size - 1) ==> mem'[w] == mem[w]
    ensures Holds(mem', heads, a, NULL) && LiveSame(a, p, mem, mem')
  {
    UsedWrite(mem, mem', heads, a, p);
    FreedTags(mem, heads, a, p);
  }

  lemma MallocServes(a: Abs, b: Abs, size: nat, limit: nat)
    requires Inv(a) && 1 <= size <= MAX_REQUEST && 1 <= limit <= 15 && b == if a.end == 0 then Grow(a) else a
    ensures SegOps.Malloc(a, size, limit) == Serve(b, size, limit)
  {
  }

  lemma ServeCases(a: Abs, size: nat, limit: nat, s: int)
    requires Inv(a) && 1 <= size <= MAX_REQUEST && 1 <= limit <= 15
    requires forall j :: 0 <= j < 4 ==> AllKnown(a, a.lists[j])
    requires s == FindFit(a, Units(size), 0)
    ensures s != NULL ==>
              0 <= s && s in a.blocks && a.blocks[s].Free? && Units(size) <= a.blocks[s].size <= 15 * PAGE
              && Serve(a, size, limit) == (Take(a, s, size), Got(s))
    ensures s == NULL && a.end + PAGE > limit * PAGE ==> Serve(a, size, limit) == (a, NoMemory)
    ensures s == NULL && a.end + PAGE <= limit * PAGE ==> Serve(a, size, limit) == Serve(Grow(a), size, limit)
  {
    FitIsFirst(a, Units(size));
    if s != NULL {
      assert Whole(a, s);
    }
  }

  lemma BlockFits(mem: seq<Word>, heads: seq<int>, a: Abs, s: nat)
    requires Inv(a) && s in a.blocks && |mem| == 2 * a.end
    ensures 2 * s + 2 * a.blocks[s].size <= |mem|
  {
    assert Whole(a, s);
  }

  lemma TakeReady(a: Abs, s: nat, size: nat)
    requires Inv(a) && s in a.blocks && a.blocks[s].Free? && size >= 1
    requires Units(size) <= a.blocks[s].size <= 15 * PAGE
    ensures InvExcept(TakeCore(a, s, size), Remainder(a.blocks[s].size, s, size))
    ensures Inv(Take(a, s, size)) && Take(a, s, size) ==
            if Claim(a.blocks[s].size, size).size == a.blocks[s].size then TakeCore(a, s, size)
            else Insert(TakeCore(a, s, size), s + Claim(a.blocks[s].size, size).size)
    ensures forall t :: t in Live(a) ==> t in TakeCore(a, s, size).blocks && TakeCore(a, s, size).blocks[t] == a.blocks[t]
  {
    TakeInv(a, s, size);
    NothingWithin(a, s);
    ClaimFits(a.blocks[s].size, size);
    TakeTiled(a, s, size);
    TakeListed(a, s, size);
    TakeLive(a, s, size);
  }

  /** A free block off its list is the one exception. */
  lemma OffInv(a: Abs, s: nat)
    requires Inv(a) && s in a.blocks && a.blocks[s].Free?
    ensures InvExcept(Off(a, s), s)
  {
    var b := Off(a, s);
    SameBlocks(a, b);
    NothingWithin(a, s);
    assert Whole(a, s);
    forall i | 0 <= i < 4
      ensures NoDup(b.lists[i])
    {
      KeepNoDup(a.lists[i], s, s + a.blocks[s].size);
    }
    forall i, t: nat | 0 <= i < 4
      ensures t in b.lists[i] <==> BelongsOn(b, i, t, s)
    {
      KeepMembers(a.lists[i], s, s + a.blocks[s].size);
      assert t in a.lists[i] <==> BelongsOn(a, i, t, NULL);
    }
  }

  lemma PlaceHolds(mem: seq<Word>, mem': seq<Word>, heads: seq<int>, a: Abs, s: nat, size: nat)
    requires Inv(a) && s in a.blocks && a.blocks[s].Free? && size >= 1 && Units(size) <= a.blocks[s].size
    requires Holds(mem, heads, Off(a, s), NULL) && |mem'| == |mem|
    requires forall w :: 0 <= w < |mem| && !InBlock(a, s, w) ==> mem'[w] == mem[w]
    requires var n := a.blocks[s].size; var c := Claim(n, size);
             TagsOk(mem', s, c) && (c.size < n ==> TagsOk(mem', s + c.size, Free(n - c.size)))
    ensures Holds(mem', heads, TakeCore(a, s, size), NULL)
    ensures LiveSame(a, NULL, mem, mem')
  {
    OffInv(a, s);
    WriteInside(mem, mem', heads, Off(a, s), s);
    var b := TakeCore(a, s, size);
    forall t | t in b.blocks
      ensures TagsOk(mem', t, b.blocks[t])
    {
      assert t in a.blocks && t != s ==> TagsOk(mem', t, Off(a, s).blocks[t]);
    }
    AsLive(a, Off(a, s), NULL, mem, mem');
  }

  lemma GrowIs(a: Abs, b: nat)
    requires Inv(a) && a.end + PAGE <= 15 * PAGE && Boundary(a, b) && b <= a.end
    requires forall t :: t in a.blocks && b <= t ==> a.blocks[t].Free?
    requires b == 0 || UsedBefore(a, b)
    ensures Bin(a.end + PAGE - b) < 4 && Grow(a) == Fuse(a, b, a.end + PAGE, a.end + PAGE)
  {
    TailIsUnique(a, b);
  }

  /** A page nobody has written to is a free block at the end. */
  lemma ExtendHolds(mem: seq<Word>, mem': seq<Word>, heads: seq<int>, a: Abs)
    requires Inv(a) && Holds(mem, heads, a, NULL) && a.end + PAGE <= 15 * PAGE
    requires |mem'| == |mem| + 2 * PAGE && forall w :: 0 <= w < |mem| ==> mem'[w] == mem[w]
    ensures Holds(mem', heads, FuseCore(a, a.end, a.end + PAGE, a.end + PAGE), a.end)
    ensures Fusible(a, a.end, a.end + PAGE, a.end + PAGE)
    ensures forall t :: t in a.blocks ==> t < a.end
    ensures LiveSame(a, NULL, mem, mem')
  {
    forall t | t in a.blocks
      ensures t < a.end && TagsOk(mem', t, a.blocks[t])
    {
      assert Whole(a, t) && TagsOk(mem, t, a.blocks[t]);
    }
    forall i | 0 <= i < 4
      ensures Keep(a.lists[i], a.end, a.end + PAGE) == a.lists[i] && Linked(mem', a.lists[i])
    {
      ExtendLinks(mem, mem', heads, a, i);
    }
  }

  lemma ExtendLinks(mem: seq<Word>, mem': seq<Word>, heads: seq<int>, a: Abs, i: nat)
    requires Inv(a) && Holds(mem, heads, a, NULL) && i < 4
    requires |mem'| == |mem| + 2 * PAGE && forall w :: 0 <= w < |mem| ==> mem'[w] == mem[w]
    ensures Keep(a.lists[i], a.end, a.end + PAGE) == a.lists[i] && Linked(mem', a.lists[i])
  {
    forall k | 0 <= k < |a.lists[i]|
      ensures a.lists[i][k] < a.end && LinkOk(mem', a.lists[i], k)
    {
      assert a.lists[i][k] in a.lists[i];
      assert BelongsOn(a, i, a.lists[i][k], NULL) && LinkOk(mem, a.lists[i], k);
      assert Whole(a, a.lists[i][k]);
    }
    KeepSame(a.lists[i], a.end, a.end + PAGE);
  }

  /** The backward loop looks at the footer before b, and the footer tells whether the block there is live. */
  lemma GrowGuard(mem: seq<Word>, heads: seq<int>, a: Abs, b: nat)
    requires Inv(a) && Fusible(a, b, a.end + PAGE, a.end + PAGE) && b <= a.end
    requires forall t :: t in a.blocks && b <= t ==> a.blocks[t].Free?
    requires Holds(mem, heads, FuseCore(a, b, a.end + PAGE, a.end + PAGE), b)
    ensures b > 0 ==> 2 * b <= |mem| && mem[2 * b - 1].Tag? && (mem[2 * b - 1].alloc ==> UsedBefore(a, b))
  {
    if b > 0 {
      var p := EndingAt(a, b);
      assert TagsOk(mem, p, FuseCore(a, b, a.end + PAGE, a.end + PAGE).blocks[p]);
    }
  }

  lemma GrowFused(a: Abs, b: nat)
    requires Inv(a) && Fusible(a, b, a.end + PAGE, a.end + PAGE)
    ensures InvExcept(FuseCore(a, b, a.end + PAGE, a.end + PAGE), b)
  {
    FuseCoreInv(a, b, a.end + PAGE, a.end + PAGE);
  }

  /** The block that ends at a boundary above the heap start. */
  lemma EndingAt(a: Abs, b: nat) returns (p: nat)
    requires Tiled(a) && 0 < b <= a.end && Boundary(a, b)
    ensures p in a.blocks && p < b && p + a.blocks[p].size == b && Whole(a, p)
  {
    p := 0;
    assert Whole(a, 0);
    while p + a.blocks[p].size != b
      invariant p in a.blocks && p < b && Whole(a, p)
      decreases b - p
    {
      assert b in a.blocks ==> Before(a, p, b);
      p := p + a.blocks[p].size;
      assert p in a.blocks && Whole(a, p);
    }
  }

  /** The footer before b tells where a free block there starts. */
  lemma GrowNext(mem: seq<Word>, heads: seq<int>, a: Abs, b: nat) returns (p: nat)
    requires Inv(a) && Fusible(a, b, a.end + PAGE, a.end + PAGE) && 0 < b <= a.end
    requires forall t :: t in a.blocks && b <= t ==> a.blocks[t].Free?
    requires Holds(mem, heads, FuseCore(a, b, a.end + PAGE, a.end + PAGE), b)
    requires 2 * b <= |mem| && mem[2 * b - 1].Tag? && !mem[2 * b - 1].alloc
    ensures p in a.blocks && p + a.blocks[p].size == b && p + mem[2 * b - 1].size == b && p < b
    ensures Fusible(a, p, a.end + PAGE, a.end + PAGE)
    ensures forall t :: t in a.blocks && p <= t ==> a.blocks[t].Free?
    ensures p in FuseCore(a, b, a.end + PAGE, a.end + PAGE).blocks
    ensures FuseCore(a, b, a.end + PAGE, a.end + PAGE).blocks[p] == a.blocks[p]
  {
    p := EndingAt(a, b);
    assert TagsOk(mem, p, FuseCore(a, b, a.end + PAGE, a.end + PAGE).blocks[p]);
    NothingWithin(a, p);
  }

  lemma GrowDone(mem: seq<Word>, heads: seq<int>, a: Abs, p: nat, b: nat)
    requires Inv(a) && Fusible(a, b, a.end + PAGE, a.end + PAGE) && p in a.blocks && p < b == p + a.blocks[p].size
    requires Holds(mem, heads, Off(FuseCore(a, b, a.end + PAGE, a.end + PAGE), p), b)
    ensures Holds(mem, heads, FuseCore(a, p, a.end + PAGE, a.end + PAGE), p)
  {
    var e := a.end + PAGE;
    var c, d := Off(FuseCore(a, b, e, e), p), FuseCore(a, p, e, e);
    forall i | 0 <= i < 4
      ensures c.lists[i] == d.lists[i]
    {
      KeepComposeDown(a.lists[i], p, b, e);
    }
    forall t | t in d.blocks && t != p
      ensures TagsOk(mem, t, d.blocks[t])
    {
      assert TagsOk(mem, t, c.blocks[t]);
    }
  }

  lemma FreedTags(mem: seq<Word>, heads: seq<int>, a: Abs, s: nat)
    requires Inv(a) && s in Live(a) && Holds(mem, heads, a, NULL)
    ensures TagsOk(mem, s, a.blocks[s]) && Whole(a, s) && a.blocks[s].size >= 2
  {
    assert TagsOk(mem, s, a.blocks[s]) && Whole(a, s);
  }

  /** The coalescing loop looks at a header, and the header tells whether the block there is free. */
  lemma MergeGuard(mem: seq<Word>, heads: seq<int>, a: Abs, s: nat, p: nat)
    requires Fusible(a, s, p, a.end) && Holds(mem, heads, FuseCore(a, s, p, a.end), s)
    ensures 2 * p < |mem| ==> p in a.blocks && TagAt(mem, 2 * p, a.blocks[p].Used?, a.blocks[p].size)
    ensures 2 * p >= |mem| ==> p == a.end
  {
    var b := FuseCore(a, s, p, a.end);
    assert p in b.blocks && p != s ==> TagsOk(mem, p, b.blocks[p]);
  }

  lemma MergeNext(a: Abs, s: nat, p: nat, q: nat)
    requires Inv(a) && s in Live(a) && Fusible(a, s, p, a.end) && p in a.blocks && a.blocks[p].Free?
    requires q == p + a.blocks[p].size
    ensures p < q && Fusible(a, s, q, a.end)
  {
    assert Whole(a, p);
    NothingWithin(a, p);
  }

  /** What leaves the live blocks of b alone leaves those of a alone, if b has them too. */
  lemma AsLive(a: Abs, b: Abs, x: int, m0: seq<Word>, m1: seq<Word>)
    requires |m0| <= |m1| && (forall t :: t in Live(a) && t != x ==> t in b.blocks && b.blocks[t] == a.blocks[t])
    requires forall t :: t in b.blocks && b.blocks[t].Used? && t != x ==> SameBlock(b, t, m0, m1)
    ensures LiveSame(a, x, m0, m1)
  {
    forall t | t in Live(a) && t != x
      ensures SameBlock(a, t, m0, m1)
    {
      assert SameBlock(b, t, m0, m1);
      assert forall w :: InBlock(a, t, w) <==> InBlock(b, t, w);
    }
  }

  /** Dropping an absorbed block from the lists completes one step of the merge. */
  lemma MergeDone(mem: seq<Word>, heads: seq<int>, a: Abs, s: nat, p: nat, q: nat)
    requires Inv(a) && Fusible(a, s, p, a.end) && p in a.blocks && s < p < q == p + a.blocks[p].size
    requires Holds(mem, heads, Off(FuseCore(a, s, p, a.end), p), s)
    ensures Holds(mem, heads, FuseCore(a, s, q, a.end), s)
  {
    var b, c := Off(FuseCore(a, s, p, a.end), p), FuseCore(a, s, q, a.end);
    forall i | 0 <= i < 4
      ensures b.lists[i] == c.lists[i]
    {
      KeepCompose(a.lists[i], s, p, q);
    }
    forall t | t in c.blocks && t != s
      ensures TagsOk(mem, t, c.blocks[t])
    {
      assert TagsOk(mem, t, b.blocks[t]);
    }
  }

  /** Marking the freed block is the first step of the merge. */
  lemma StartMerge(mem: seq<Word>, mem': seq<Word>, heads: seq<int>, a: Abs, s: nat)
    requires Inv(a) && s in Live(a) && Holds(mem, heads, a, NULL) && |mem'| == |mem|
    requires forall w :: 0 <= w < |mem| && !InBlock(a, s, w) ==> mem'[w] == mem[w]
    ensures Fusible(a, s, s + a.blocks[s].size, a.end)
    ensures Holds(mem', heads, FuseCore(a, s, s + a.blocks[s].size, a.end), s)
    ensures LiveSame(a, s, mem, mem')
    ensures RunEnd(a, s + a.blocks[s].size) == Reach(a, s)
  {
    StartReach(a, s);
    UsedUnlisted(a, s);
    UsedWrite(mem, mem', heads, a, s);
    StartHolds(mem', heads, a, s);
  }

  lemma StartReach(a: Abs, s: nat)
    requires Inv(a) && s in Live(a)
    ensures Whole(a, s) && Fusible(a, s, s + a.blocks[s].size, a.end)
    ensures RunEnd(a, s + a.blocks[s].size) == Reach(a, s)
  {
    assert Whole(a, s);
    NothingWithin(a, s);
  }

  /** Writes within a live block leave everything else as it was. */
  lemma UsedWrite(mem: seq<Word>, mem': seq<Word>, heads: seq<int>, a: Abs, s: nat)
    requires Inv(a) && s in Live(a) && Holds(mem, heads, a, NULL) && |mem'| == |mem|
    requires forall w :: 0 <= w < |mem| && !InBlock(a, s, w) ==> mem'[w] == mem[w]
    ensures Holds(mem', heads, a, s) && LiveSame(a, s, mem, mem')
  {
    UsedException(a, s);
    WriteInside(mem, mem', heads, a, s);
  }

  lemma StartHolds(mem: seq<Word>, heads: seq<int>, a: Abs, s: nat)
    requires s in a.blocks && Holds(mem, heads, a, s) && a.blocks[s].size > 0
    requires KeepAll(a.lists, s, s + a.blocks[s].size) == a.lists
    ensures Holds(mem, heads, FuseCore(a, s, s + a.blocks[s].size, a.end), s)
  {
    var b := FuseCore(a, s, s + a.blocks[s].size, a.end);
    forall t | t in b.blocks && t != s
      ensures TagsOk(mem, t, b.blocks[t])
    {
      assert TagsOk(mem, t, a.blocks[t]);
    }
  }

  lemma UsedUnlisted(a: Abs, s: nat)
    requires Inv(a) && s in Live(a)
    ensures KeepAll(a.lists, s, s + a.blocks[s].size) == a.lists
  {
    NothingWithin(a, s);
    forall i | 0 <= i < 4
      ensures Keep(a.lists[i], s, s + a.blocks[s].size) == a.lists[i]
    {
      forall j | 0 <= j < |a.lists[i]|
        ensures !(s <= a.lists[i][j] < s + a.blocks[s].size)
      {
        assert a.lists[i][j] in a.lists[i];
        assert BelongsOn(a, i, a.lists[i][j], NULL);
      }
      KeepSame(a.lists[i], s, s + a.blocks[s].size);
    }
  }

  /** A live block is no exception to the lists. */
  lemma UsedException(a: Abs, s: nat)
    requires Inv(a) && s in Live(a)
    ensures InvExcept(a, s)
  {
    forall i, t: nat | 0 <= i < 4
      ensures t in a.lists[i] <==> BelongsOn(a, i, t, s)
    {
      assert t in a.lists[i] <==> BelongsOn(a, i, t, NULL);
    }
  }
}
