/** put and delete with the lines hashmap.c has for the stored size, for the tombstone and for a full table,
    and the exact inputs on which those lines do what the table needs. */
module HashLiteral {

  import opened HashTable
  import opened HashOps
  import opened Counting
  import opened Wrappers

  const WORD := 0x1_0000_0000

  datatype Outcome<K, V> = Refused | NullDeref | Done(t: seq<Node<K, V>>, size: nat, node: Node<K, V>)

  /** A full table is overwritten at the home slot at once, and every store counts one entry more. */
  function Put<K(==), V>(t: seq<Node<K, V>>, size: nat, h: K -> nat, k: K, v: V, force: bool): Outcome<K, V>
    requires |t| > 0
  {
    var home := Home(h, k, |t|);
    var d, e := Probe(t, home, k, 0), FirstTomb(t, home, 0);
    if size == |t| then
      if force then Done(t[home := Held(k, v)], size, Blank()) else Refused
    else if d < |t| then Done(t[Slot(home, d, |t|) := Held(k, v)], (size + 1) % WORD, Blank())
    else if e < |t| then Done(t[Slot(home, e, |t|) := Held(k, v)], (size + 1) % WORD, Blank())
    else NullDeref
  }

  /** The tombstone goes to the home slot wherever the key was, and the size drops even if there was no key. */
  function Delete<K(==), V>(t: seq<Node<K, V>>, size: nat, h: K -> nat, k: K): Outcome<K, V>
    requires |t| > 0
  {
    var home := Home(h, k, |t|);
    var d := Probe(t, home, k, 0);
    if d < |t| && HasKey(t[Slot(home, d, |t|)], k) then
      Done(t[home := Buried(t[home])], (size + WORD - 1) % WORD, t[Slot(home, d, |t|)])
    else Done(t, (size + WORD - 1) % WORD, Blank())
  }

  /** The outcome is the intended one, with the stored size telling the live slots. */
  ghost predicate Right<K, V>(o: Outcome<K, V>, t: seq<Node<K, V>>, h: K -> nat, job: Job<K, V>)
    requires |t| > 0
  {
    match o
    case Refused => Apply(t, h, job) == (t, Flag(false))
    case NullDeref => false
    case Done(t', size, node) =>
      t' == Apply(t, h, job).0 && size == LiveCount(t') && (job.Delete? ==> Removed(node) == Apply(t, h, job).1)
  }

  lemma Elsewhere<T>(t: seq<T>, i: nat, x: T, j: nat, y: T)
    requires i < |t| && j < |t| && i != j && t[i] != x
    ensures t[i := x] != t[j := y]
  {
    assert t[i := x][i] != t[j := y][i];
  }

  lemma PutRightFull<K, V>(t: seq<Node<K, V>>, h: K -> nat, k: K, v: V)
    requires Table(t, h) && LiveCount(t) == |t|
    ensures Right(Put(t, |t|, h, k, v, true), t, h, Job.Put(k, v, true)) <==>
      k !in Map(t) || HasKey(t[Home(h, k, |t|)], k)
  {
    var home, i := Home(h, k, |t|), Target(t, h, k);
    CountUpdate(t, Live, home, Held(k, v));
    CountBounds(t, Live);
    TargetFits(t, h, k);
    if i != home && !HasKey(t[home], k) {
      Elsewhere(t, home, Held(k, v), i, Held(k, v));
    }
  }

  lemma NoWrap(n: nat)
    requires n < WORD
    ensures n % WORD == n
    ensures n > 0 ==> (n + WORD - 1) % WORD == n - 1
  {
  }

  lemma PutHits<K, V>(t: seq<Node<K, V>>, h: K -> nat, k: K, v: V, force: bool)
    requires Table(t, h) && LiveCount(t) < |t| < WORD
    ensures Put(t, LiveCount(t), h, k, v, force) == Done(t[Target(t, h, k) := Held(k, v)], LiveCount(t) + 1, Blank())
  {
    NoWrap(LiveCount(t) + 1);
    if Probe(t, Home(h, k, |t|), k, 0) == |t| {
      TombThere(t, Home(h, k, |t|), k);
    }
  }

  lemma PutRightRoom<K, V>(t: seq<Node<K, V>>, h: K -> nat, k: K, v: V, force: bool)
    requires Table(t, h) && LiveCount(t) < |t| < WORD
    ensures Right(Put(t, LiveCount(t), h, k, v, force), t, h, Job.Put(k, v, force)) <==> k !in Map(t)
  {
    var i, n := Target(t, h, k), LiveCount(t);
    PutHits(t, h, k, v, force);
    TargetFits(t, h, k);
    CountUpdate(t, Live, i, Held(k, v));
    var t' := t[i := Held(k, v)];
    assert Apply(t, h, Job.Put(k, v, force)) == (t', Flag(true));
    assert LiveCount(t') == n + (if Live(t[i]) then 0 else 1);
  }

  /** Given a true size, put goes right exactly if the key is new, or the table is full and the store is refused
      or meets the key in its home slot. */
  lemma PutRight<K, V>(t: seq<Node<K, V>>, h: K -> nat, k: K, v: V, force: bool)
    requires Table(t, h) && |t| < WORD
    ensures LiveCount(t) <= |t|
    ensures Right(Put(t, LiveCount(t), h, k, v, force), t, h, Job.Put(k, v, force)) <==>
      if LiveCount(t) == |t| then !force || k !in Map(t) || HasKey(t[Home(h, k, |t|)], k) else k !in Map(t)
  {
    CountBounds(t, Live);
    if LiveCount(t) < |t| {
      PutRightRoom(t, h, k, v, force);
    } else if force {
      PutRightFull(t, h, k, v);
    }
  }

  lemma DeleteRightFound<K, V>(t: seq<Node<K, V>>, h: K -> nat, k: K, i: nat)
    requires Table(t, h) && |t| < WORD
    requires i < |t| && HasKey(t[i], k)
    requires Delete(t, LiveCount(t), h, k) ==
      Done(t[Home(h, k, |t|) := Buried(t[Home(h, k, |t|)])], (LiveCount(t) + WORD - 1) % WORD, t[i])
    requires Apply(t, h, Job.Delete(k)) == (t[i := Buried(t[i])], Removed(t[i]))
    ensures Right(Delete(t, LiveCount(t), h, k), t, h, Job.Delete(k)) <==> i == Home(h, k, |t|)
  {
    var home := Home(h, k, |t|);
    CountBounds(t, Live);
    NoWrap(LiveCount(t));
    BuryMap(t, h, i);
    if i != home {
      Elsewhere(t, i, Buried(t[i]), home, Buried(t[home]));
    }
  }

  /** delete goes right exactly if the key sits in its home slot. */
  lemma DeleteRight<K, V>(t: seq<Node<K, V>>, h: K -> nat, k: K)
    requires Table(t, h) && |t| < WORD
    ensures Right(Delete(t, LiveCount(t), h, k), t, h, Job.Delete(k)) <==> HasKey(t[Home(h, k, |t|)], k)
  {
    var home := Home(h, k, |t|);
    var d := Probe(t, home, k, 0);
    assert Slot(home, 0, |t|) == home;
    CountBounds(t, Live);
    if d < |t| && HasKey(t[Slot(home, d, |t|)], k) {
      DeleteRightFound(t, h, k, Slot(home, d, |t|));
    }
  }

  /** What the misplaced tombstone does to the map: the key stays and the home slot's key goes. */
  lemma DeleteLeavesKey<K, V>(t: seq<Node<K, V>>, h: K -> nat, k: K)
    requires Table(t, h) && k in Map(t) && !HasKey(t[Home(h, k, |t|)], k)
    ensures var t' := Delete(t, LiveCount(t), h, k).t; var n := t[Home(h, k, |t|)];
            Table(t', h) && k in Map(t') && Map(t') == (if Live(n) then Map(t) - {n.key.value} else Map(t))
  {
    var home := Home(h, k, |t|);
    ProbeFinds(t, h, k);
    BuryKeeps(t, h, home);
    var d := Probe(t, home, k, 0);
    assert d != 0;
    assert !CanPut(t[Slot(home, 0, |t|)], k);
    if Live(t[home]) {
      BuryMap(t, h, home);
    } else {
      assert t[home := Buried(t[home])] == t;
    }
  }

  /** A put that believes a wrong size runs into the null tombstone exactly when every slot is live,
      none holds the key, and the size does not say so. */
  lemma PutDerefsNull<K, V>(t: seq<Node<K, V>>, size: nat, h: K -> nat, k: K, v: V, force: bool)
    requires Table(t, h)
    ensures Put(t, size, h, k, v, force) == NullDeref <==> size != |t| && LiveCount(t) == |t| && k !in Map(t)
  {
    var home := Home(h, k, |t|);
    var d, e := Probe(t, home, k, 0), FirstTomb(t, home, 0);
    CountBounds(t, Live);
    ProbeFinds(t, h, k);
    if d == |t| && LiveCount(t) < |t| { TombThere(t, home, k); }
    if LiveCount(t) == |t| {
      assert e == |t|;
      if d < |t| { assert !IsEmpty(t[Slot(home, d, |t|)]); }
    }
  }

  /** Such a run: in a cache of one entry, put 'a', delete 'b', put 'b'. */
  lemma NullDerefExample()
    ensures var h := (k: char) => k as nat; var t := Fresh<char, int>(1);
            var first := Put(t, 0, h, 'a', 1, false);
            first.Done? && first.size == 1 && |first.t| == 1 &&
            var second := Delete(first.t, first.size, h, 'b');
            second.Done? && second.t == first.t && second.size == 0 &&
            Put(second.t, second.size, h, 'b', 2, false) == NullDeref
  {
    var h := (k: char) => k as nat;
    var t := Fresh<char, int>(1);
    assert t[0] == Blank<char, int>();
    assert Probe(t, 0, 'a', 0) == 0;
    var t1 := t[0 := Held('a', 1)];
    assert Probe(t1, 0, 'b', 0) == 1 by { assert !CanPut(t1[Slot(0, 0, 1)], 'b'); }
    assert FirstTomb(t1, 0, 0) == 1 by { assert !t1[Slot(0, 0, 1)].tombstone; }
  }
}
