/** The allocator's memory: 8-byte words holding tags, links and payload, and the four list heads. */
module SegHeap {
  import opened SegSpec
  import opened SegOps

  /** A word is a header or footer, a link to a block's first unit, or eight payload bytes. */
  datatype Word = Tag(alloc: bool, padded: bool, size: nat, requested: nat) | Link(to: int) | Data(bytes: seq<int>)

  // ---------- what the memory says about the blocks ----------

  predicate TagAt(mem: seq<Word>, w: int, alloc: bool, size: nat) {
    0 <= w < |mem| && mem[w].Tag? && mem[w].alloc == alloc && mem[w].size == size
  }

  /** Header and footer of the block at s agree with b. */
  predicate TagsOk(mem: seq<Word>, s: nat, b: Block) {
    && TagAt(mem, 2 * s, b.Used?, b.size) && TagAt(mem, 2 * s + 2 * b.size - 1, b.Used?, b.size)
    && (b.Used? ==>
          && mem[2 * s].padded == mem[2 * s + 2 * b.size - 1].padded == b.padded
          && mem[2 * s + 2 * b.size - 1].requested == b.requested)
  }

  function Next(l: seq<nat>, k: nat): int
    requires k < |l|
  {
    if k + 1 < |l| then l[k + 1] else NULL
  }

  function Prev(l: seq<nat>, k: nat): int
    requires k < |l|
  {
    if k > 0 then l[k - 1] else NULL
  }

  predicate LinkOk(mem: seq<Word>, l: seq<nat>, k: nat)
    requires k < |l|
  {
    2 * l[k] + 2 < |mem| && mem[2 * l[k] + 1] == Link(Next(l, k)) && mem[2 * l[k] + 2] == Link(Prev(l, k))
  }

  /** The next and prev words of the blocks on l are each other's inverses and follow its order. */
  ghost predicate Linked(mem: seq<Word>, l: seq<nat>) {
    forall k :: 0 <= k < |l| ==> LinkOk(mem, l, k)
  }

  /** The memory holds a, except that the block at x, which is on no list, may have any tags. */
  ghost predicate Holds(mem: seq<Word>, heads: seq<int>, a: Abs, x: int) {
    && |mem| == 2 * a.end && |heads| == 4 && |a.lists| == 4
    && (forall s {:trigger TagsOk(mem, s, a.blocks[s])} :: s in a.blocks && s != x ==> TagsOk(mem, s, a.blocks[s]))
    && (forall i :: 0 <= i < 4 ==> Linked(mem, a.lists[i]) && heads[i] == Head(a.lists[i]))
  }

  predicate InBlock(a: Abs, t: nat, w: int)
    requires t in a.blocks
  {
    2 * t <= w < 2 * t + 2 * a.blocks[t].size
  }

  /** The words of the block at t are the same in both memories. */
  ghost predicate SameBlock(a: Abs, t: nat, mem: seq<Word>, mem': seq<Word>)
    requires t in a.blocks
  {
    |mem| <= |mem'| && forall w :: InBlock(a, t, w) && 0 <= w < |mem| ==> mem'[w] == mem[w]
  }

  /** Every word of every live block but the one at x is the same in both memories. */
  ghost predicate LiveSame(a: Abs, x: int, mem: seq<Word>, mem': seq<Word>) {
    forall t {:trigger SameBlock(a, t, mem, mem')} :: t in Live(a) && t != x ==> SameBlock(a, t, mem, mem')
  }

  /** Two blocks share no word. */
  lemma Apart(a: Abs, t: nat, u: nat)
    requires Tiled(a) && t in a.blocks && u in a.blocks && t != u
    ensures t + a.blocks[t].size <= u || u + a.blocks[u].size <= t
    ensures a.blocks[t].size >= 2 && a.blocks[u].size >= 2
  {
    assert Whole(a, t) && Whole(a, u);
    assert t < u ==> Before(a, t, u);
    assert u < t ==> Before(a, u, t);
  }

  /** Whatever is written inside the block at x, the rest of the memory still says the same. */
  lemma WriteInside(mem: seq<Word>, mem': seq<Word>, heads: seq<int>, a: Abs, x: nat)
    requires InvExcept(a, x) && x in a.blocks && Holds(mem, heads, a, x) && |mem'| == |mem|
    requires forall w :: 0 <= w < |mem| && !InBlock(a, x, w) ==> mem'[w] == mem[w]
    ensures Holds(mem', heads, a, x)
    ensures forall t :: t in a.blocks && t != x ==> SameBlock(a, t, mem, mem')
  {
    forall s | s in a.blocks && s != x
      ensures TagsOk(mem', s, a.blocks[s]) && SameBlock(a, s, mem, mem')
    {
      Apart(a, s, x);
      assert TagsOk(mem, s, a.blocks[s]);
    }
    forall i, k | 0 <= i < 4 && 0 <= k < |a.lists[i]|
      ensures LinkOk(mem', a.lists[i], k)
    {
      var s := a.lists[i][k];
      assert s in a.lists[i];
      assert BelongsOn(a, i, s, x);
      Apart(a, s, x);
      assert LinkOk(mem, a.lists[i], k);
    }
  }

  // ---------- unlinking ----------

  /** Only the neighbours' links change when the k-th block leaves list i. */
  ghost predicate Unlinks(mem: seq<Word>, mem': seq<Word>, l: seq<nat>, k: nat) {
    && k < |l| && |mem'| == |mem|
    && forall w :: 0 <= w < |mem| ==>
      mem'[w] == (if k > 0 && w == 2 * l[k - 1] + 1 then Link(Next(l, k))
                  else if k + 1 < |l| && w == 2 * l[k + 1] + 2 then Link(Prev(l, k))
                  else mem[w])
  }

  lemma UnlinkTags(mem: seq<Word>, mem': seq<Word>, heads: seq<int>, a: Abs, x: int, i: nat, k: nat, s: nat)
    requires InvExcept(a, x) && Holds(mem, heads, a, x) && i < 4 && Unlinks(mem, mem', a.lists[i], k) && s in a.blocks
    ensures s != x ==> TagsOk(mem', s, a.blocks[s])
    ensures a.blocks[s].Used? || s == x || s == a.lists[i][k] ==> SameBlock(a, s, mem, mem')
  {
    var l := a.lists[i];
    assert Whole(a, s);
    if k > 0 {
      assert l[k - 1] in l && l[k - 1] != l[k];
      assert BelongsOn(a, i, l[k - 1], x);
      if s != l[k - 1] {
        Apart(a, s, l[k - 1]);
      }
    }
    if k + 1 < |l| {
      assert l[k + 1] in l && l[k + 1] != l[k];
      assert BelongsOn(a, i, l[k + 1], x);
      if s != l[k + 1] {
        Apart(a, s, l[k + 1]);
      }
    }
    assert s != x ==> TagsOk(mem, s, a.blocks[s]);
  }

  lemma UnlinkOthers(mem: seq<Word>, mem': seq<Word>, heads: seq<int>, a: Abs, x: int, i: nat, k: nat, j: nat)
    requires InvExcept(a, x) && Holds(mem, heads, a, x) && i < 4 && Unlinks(mem, mem', a.lists[i], k)
    requires j < 4 && j != i
    ensures Linked(mem', a.lists[j])
  {
    var l, o := a.lists[i], a.lists[j];
    forall m | 0 <= m < |o|
      ensures LinkOk(mem', o, m)
    {
      assert o[m] in o;
      assert BelongsOn(a, j, o[m], x) && LinkOk(mem, o, m);
      if k > 0 {
        assert l[k - 1] in l;
        assert BelongsOn(a, i, l[k - 1], x);
        Apart(a, o[m], l[k - 1]);
      }
      if k + 1 < |l| {
        assert l[k + 1] in l;
        assert BelongsOn(a, i, l[k + 1], x);
        Apart(a, o[m], l[k + 1]);
      }
    }
  }

  lemma UnlinkSame(mem: seq<Word>, mem': seq<Word>, heads: seq<int>, a: Abs, x: int, i: nat, k: nat)
    requires InvExcept(a, x) && Holds(mem, heads, a, x) && i < 4 && Unlinks(mem, mem', a.lists[i], k)
    ensures Linked(mem', a.lists[i][..k] + a.lists[i][k + 1..])
  {
    var l := a.lists[i];
    var cut := l[..k] + l[k + 1..];
    forall m | 0 <= m < |cut|
      ensures LinkOk(mem', cut, m)
    {
      var n := if m < k then m else m + 1;
      assert cut[m] == l[n] && LinkOk(mem, l, n);
      assert l[n] in l;
      assert BelongsOn(a, i, l[n], x);
      if k > 0 {
        assert l[k - 1] in l;
        assert BelongsOn(a, i, l[k - 1], x);
        if n != k - 1 {
          Apart(a, l[n], l[k - 1]);
        }
      }
      if k + 1 < |l| {
        assert l[k + 1] in l;
        assert BelongsOn(a, i, l[k + 1], x);
        if n != k + 1 {
          Apart(a, l[n], l[k + 1]);
        }
      }
    }
  }

  /** a without the block at p on its list. */
  function Off(a: Abs, p: nat): Abs
    requires p in a.blocks
  {
    a.(lists := KeepAll(a.lists, p, p + a.blocks[p].size))
  }

  lemma OffCuts(a: Abs, x: int, i: nat, k: nat)
    requires InvExcept(a, x) && i < 4 && k < |a.lists[i]|
    ensures a.lists[i][k] in a.blocks && Bin(a.blocks[a.lists[i][k]].size) == i
    ensures Off(a, a.lists[i][k]).lists == a.lists[i := a.lists[i][..k] + a.lists[i][k + 1..]]
  {
    var p := a.lists[i][k];
    assert p in a.lists[i];
    assert BelongsOn(a, i, p, x);
    var n := a.blocks[p].size;
    assert Whole(a, p);
    NothingWithin(a, p);
    forall j | 0 <= j < 4
      ensures Keep(a.lists[j], p, p + n) == if j == i then a.lists[i][..k] + a.lists[i][k + 1..] else a.lists[j]
    {
      forall m | 0 <= m < |a.lists[j]| && (j != i || m != k)
        ensures !(p <= a.lists[j][m] < p + n)
      {
        assert a.lists[j][m] in a.lists[j];
        assert BelongsOn(a, j, a.lists[j][m], x);
      }
      if j == i {
        KeepCut(a.lists[i], k, p, p + n);
      } else {
        KeepSame(a.lists[j], p, p + n);
      }
    }
  }

  lemma UnlinkHolds(mem: seq<Word>, mem': seq<Word>, heads: seq<int>, a: Abs, x: int, i: nat, k: nat)
    requires InvExcept(a, x) && Holds(mem, heads, a, x) && i < 4 && Unlinks(mem, mem', a.lists[i], k)
    ensures a.lists[i][k] in a.blocks
    ensures Holds(mem', heads[i := Head(a.lists[i][..k] + a.lists[i][k + 1..])], Off(a, a.lists[i][k]), x)
    ensures forall t :: t in a.blocks && (a.blocks[t].Used? || t == x || t == a.lists[i][k]) ==>
              SameBlock(a, t, mem, mem')
  {
    OffCuts(a, x, i, k);
    forall s | s in a.blocks
      ensures s != x ==> TagsOk(mem', s, a.blocks[s])
      ensures a.blocks[s].Used? || s == x || s == a.lists[i][k] ==> SameBlock(a, s, mem, mem')
    {
      UnlinkTags(mem, mem', heads, a, x, i, k, s);
    }
    UnlinkSame(mem, mem', heads, a, x, i, k);
    forall j | 0 <= j < 4 && j != i
      ensures Linked(mem', a.lists[j])
    {
      UnlinkOthers(mem, mem', heads, a, x, i, k, j);
    }
  }

  // ---------- linking at the head ----------

  ghost predicate Links(mem: seq<Word>, mem': seq<Word>, l: seq<nat>, s: nat) {
    && |mem'| == |mem|
    && forall w :: 0 <= w < |mem| ==>
      mem'[w] == (if w == 2 * s + 1 then Link(Head(l))
                  else if w == 2 * s + 2 then Link(NULL)
                  else if l != [] && w == 2 * l[0] + 2 then Link(s)
                  else mem[w])
  }

  lemma LinkTags(mem: seq<Word>, mem': seq<Word>, heads: seq<int>, a: Abs, s: nat, i: nat, t: nat)
    requires InvExcept(a, s) && s in a.blocks && Holds(mem, heads, a, s) && TagsOk(mem, s, a.blocks[s])
    requires i < 4 && Links(mem, mem', a.lists[i], s) && t in a.blocks
    ensures TagsOk(mem', t, a.blocks[t])
    ensures t != s && a.blocks[t].Used? ==> SameBlock(a, t, mem, mem')
  {
    var l := a.lists[i];
    assert Whole(a, t);
    assert TagsOk(mem, t, a.blocks[t]);
    if t != s {
      Apart(a, s, t);
    }
    if l != [] {
      assert l[0] in l;
      assert BelongsOn(a, i, l[0], s);
      if t != l[0] {
        Apart(a, t, l[0]);
      }
    }
  }

  /** Of the blocks already listed only the old head sees its prev word change. */
  lemma LinkOne(mem: seq<Word>, mem': seq<Word>, heads: seq<int>, a: Abs, s: nat, i: nat, j: nat, n: nat)
    requires InvExcept(a, s) && s in a.blocks && Holds(mem, heads, a, s)
    requires i < 4 && Links(mem, mem', a.lists[i], s) && j < 4 && n < |a.lists[j]|
    ensures var t := a.lists[j][n];
            2 * t + 2 < |mem'| && mem'[2 * t + 1] == Link(Next(a.lists[j], n)) &&
            mem'[2 * t + 2] == Link(if j == i && n == 0 then s else Prev(a.lists[j], n))
  {
    var l, q := a.lists[i], a.lists[j];
    assert q[n] in q;
    assert BelongsOn(a, j, q[n], s) && LinkOk(mem, q, n);
    Apart(a, s, q[n]);
    if l != [] {
      assert l[0] in l;
      assert BelongsOn(a, i, l[0], s);
      if q[n] != l[0] {
        Apart(a, q[n], l[0]);
      } else {
        assert j == i && n == 0;
      }
    }
  }

  lemma LinkLists(mem: seq<Word>, mem': seq<Word>, heads: seq<int>, a: Abs, s: nat, i: nat, j: nat)
    requires InvExcept(a, s) && s in a.blocks && Holds(mem, heads, a, s)
    requires i < 4 && Links(mem, mem', a.lists[i], s) && j < 4
    ensures Linked(mem', if j == i then [s] + a.lists[i] else a.lists[j])
  {
    var o := if j == i then [s] + a.lists[i] else a.lists[j];
    assert Whole(a, s);
    forall m | 0 <= m < |o|
      ensures LinkOk(mem', o, m)
    {
      if j != i {
        LinkOne(mem, mem', heads, a, s, i, j, m);
      } else if m > 0 {
        LinkOne(mem, mem', heads, a, s, i, j, m - 1);
      }
    }
  }

  lemma LinkHolds(mem: seq<Word>, mem': seq<Word>, heads: seq<int>, a: Abs, s: nat)
    requires InvExcept(a, s) && s in a.blocks && a.blocks[s].Free?
    requires Holds(mem, heads, a, s) && TagsOk(mem, s, a.blocks[s])
    requires Bin(a.blocks[s].size) < 4 && Links(mem, mem', a.lists[Bin(a.blocks[s].size)], s)
    ensures Holds(mem', heads[Bin(a.blocks[s].size) := s], Insert(a, s), NULL)
    ensures LiveSame(a, NULL, mem, mem')
  {
    var i := Bin(a.blocks[s].size);
    forall t | t in a.blocks
      ensures TagsOk(mem', t, a.blocks[t])
      ensures t != s && a.blocks[t].Used? ==> SameBlock(a, t, mem, mem')
    {
      LinkTags(mem, mem', heads, a, s, i, t);
    }
    forall j | 0 <= j < 4
      ensures Linked(mem', Insert(a, s).lists[j])
    {
      LinkLists(mem, mem', heads, a, s, i, j);
    }
  }

  // ---------- payload ----------

  /** A word of metadata left behind in a payload reads as zeros. */
  function BytesOf(w: Word): (b: seq<int>)
    ensures |b| == 8
  {
    if w.Data? && |w.bytes| == 8 then w.bytes else [0, 0, 0, 0, 0, 0, 0, 0]
  }

  /** Byte j of the payload that starts behind the header at s. */
  function ByteAt(mem: seq<Word>, s: nat, j: nat): int
    requires 2 * s + 1 + j / 8 < |mem|
  {
    BytesOf(mem[2 * s + 1 + j / 8])[j % 8]
  }

  // ---------- the checks of sf_free and sf_realloc ----------

  /** The tags found from the header at s are those of a live block. */
  predicate Accepts(mem: seq<Word>, s: int) {
    && 0 <= 2 * s < |mem| && mem[2 * s].Tag? && mem[2 * s].alloc
    && var f := 2 * s + 2 * mem[2 * s].size - 1;
    && 0 <= f < |mem| && mem[f].Tag? && mem[f].alloc && mem[f].padded == mem[2 * s].padded
    && (mem[f].requested + 16 == 16 * mem[2 * s].size || mem[2 * s].padded)
    && mem[f].requested + 16 <= 16 * mem[2 * s].size
    && !(mem[f].requested + 16 == 16 * mem[2 * s].size && mem[2 * s].padded)
  }

  /** At a block's start the checks accept exactly the live blocks: every pointer handed out and not yet freed
      passes, one already freed is caught. */
  lemma AcceptsLive(mem: seq<Word>, heads: seq<int>, a: Abs, s: nat)
    requires Inv(a) && Holds(mem, heads, a, NULL) && s in a.blocks
    ensures Accepts(mem, s) <==> s in Live(a)
  {
    assert Whole(a, s) && Tight(a.blocks[s]) && TagsOk(mem, s, a.blocks[s]);
  }

  /** A block whose tags could be read from the header at s: live, no smaller than its request, and padded exactly if
      larger. Of the footer everything but the size is looked at. */
  ghost predicate ReadsAs(mem: seq<Word>, s: nat, b: Block) {
    && b.Used? && b.requested + 16 <= 16 * b.size && (b.padded <==> b.requested + 16 < 16 * b.size)
    && TagAt(mem, 2 * s, true, b.size) && mem[2 * s].padded == b.padded
    && 2 * s + 2 * b.size - 1 < |mem|
    && var f := mem[2 * s + 2 * b.size - 1];
       f.Tag? && f.alloc && f.padded == b.padded && f.requested == b.requested
  }

  /** Wherever the pointer leads, the checks pass exactly if what is there reads as a live block. */
  lemma AcceptsReads(mem: seq<Word>, s: nat)
    ensures Accepts(mem, s) <==> exists b :: ReadsAs(mem, s, b)
    ensures forall t: int :: t < 0 ==> !Accepts(mem, t)
  {
    if Accepts(mem, s) {
      var f := mem[2 * s + 2 * mem[2 * s].size - 1];
      assert ReadsAs(mem, s, Used(mem[2 * s].size, f.padded, f.requested));
    }
  }

  /** Payloads of live blocks lie within the heap and share no byte. */
  lemma PayloadsApart(a: Abs, s: nat, t: nat)
    requires Inv(a) && s in Live(a) && t in Live(a) && s < t
    ensures 16 * s + 8 + Live(a)[s].requested <= 16 * t - 8
    ensures 16 * t + 8 + Live(a)[t].requested <= 16 * a.end - 8
  {
    Apart(a, s, t);
    assert Whole(a, t) && Tight(a.blocks[s]) && Tight(a.blocks[t]);
  }
}
