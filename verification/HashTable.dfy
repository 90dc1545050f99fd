/** The linear-probing table of the cache as a sequence of slots, and the map it stands for. */
module HashTable {

  import opened Counting
  import opened Wrappers

  /** A slot: calloc leaves it without key, value or tombstone; delete only sets the tombstone. */
  datatype Node<K, V> = Node(key: Option<K>, val: Option<V>, tombstone: bool)

  predicate IsEmpty<K(==), V>(n: Node<K, V>) {
    n.key == None && !n.tombstone
  }

  predicate HasKey<K(==), V>(n: Node<K, V>, k: K) {
    !n.tombstone && n.key == Some(k)
  }

  predicate CanPut<K(==), V>(n: Node<K, V>, k: K) {
    IsEmpty(n) || HasKey(n, k)
  }

  predicate Live<K, V>(n: Node<K, V>) {
    !n.tombstone && n.key.Some?
  }

  // ---------- cyclic order ----------

  /** The home slot of a key: its hash modulo the capacity. */
  function Home<K>(h: K -> nat, k: K, n: nat): (i: nat)
    requires n > 0
    ensures i < n
  {
    h(k) % n
  }

  /** The slot d steps behind i on the ring of n slots. */
  function Slot(i: nat, d: nat, n: nat): (s: nat)
    requires i < n && d < n
    ensures s < n
  {
    if i + d < n then i + d else i + d - n
  }

  /** How many steps lead from i to s. */
  function Dist(i: nat, s: nat, n: nat): (d: nat)
    requires i < n && s < n
    ensures d < n && Slot(i, d, n) == s
  {
    if i <= s then s - i else s + n - i
  }

  lemma SlotDist(i: nat, d: nat, n: nat)
    requires i < n && d < n
    ensures Dist(i, Slot(i, d, n), n) == d
  {
  }

  /** Steps lead upwards, and from the last slot to the first. */
  lemma Ring(i: nat, d: nat, n: nat)
    requires i < n && d < n
    ensures Slot(i, d, n) == (i + d) % n && Dist(i, d, n) == (d + n - i) % n
  {
    OnceRound(i + d, n);
    OnceRound(d + n - i, n);
  }

  lemma OnceRound(x: nat, n: nat)
    requires x < 2 * n
    ensures x % n == if x < n then x else x - n
  {
    assert x == n * (x / n) + x % n;
    Fewer(n, x / n);
  }

  lemma Fewer(n: nat, q: nat)
    requires n * q < 2 * n
    ensures q == 0 || q == 1
  {
  }

  // ---------- the invariant ----------

  ghost predicate Unique<K, V>(t: seq<Node<K, V>>) {
    forall i, j :: 0 <= i < j < |t| && Live(t[i]) && Live(t[j]) ==> t[i].key != t[j].key
  }

  /** No slot on the way from a key's home to slot i is empty. */
  ghost predicate PathFull<K, V>(t: seq<Node<K, V>>, home: nat, i: nat)
    requires home < |t| && i < |t|
  {
    forall d :: 0 <= d < Dist(home, i, |t|) ==> !IsEmpty(t[Slot(home, d, |t|)])
  }

  /** Live slots hold values, and no two of them the same key. */
  ghost predicate Sound<K, V>(t: seq<Node<K, V>>) {
    Unique(t) && forall i :: 0 <= i < |t| && Live(t[i]) ==> t[i].val.Some?
  }

  /** Moreover every live key can be reached by a probe from its home. */
  ghost predicate Table<K, V>(t: seq<Node<K, V>>, h: K -> nat) {
    && |t| > 0 && Sound(t)
    && (forall i :: 0 <= i < |t| && Live(t[i]) ==> PathFull(t, Home(h, t[i].key.value, |t|), i))
  }

  /** The map the live slots stand for. */
  ghost function Map<K, V>(t: seq<Node<K, V>>): map<K, V>
    requires Sound(t)
  {
    map i | 0 <= i < |t| && Live(t[i]) :: t[i].key.value := t[i].val.value
  }

  /** What the map says of k, told slot by slot. */
  lemma MapAt<K, V>(t: seq<Node<K, V>>, k: K)
    requires Sound(t)
    ensures k in Map(t) <==> exists i :: 0 <= i < |t| && HasKey(t[i], k)
    ensures forall i :: 0 <= i < |t| && HasKey(t[i], k) ==> k in Map(t) && Map(t)[k] == t[i].val.value
  {
  }

  function LiveCount<K, V>(t: seq<Node<K, V>>): nat {
    Count(t, Live)
  }

  lemma AppendSound<K, V>(r: seq<Node<K, V>>, n: Node<K, V>)
    requires Sound(r + [n])
    ensures Sound(r) && (Live(n) ==> forall i :: 0 <= i < |r| && Live(r[i]) ==> r[i].key != n.key)
  {
    var t := r + [n];
    assert forall i :: 0 <= i < |r| ==> r[i] == t[i];
    assert t[|r|] == n;
  }

  lemma AppendAt<K, V>(r: seq<Node<K, V>>, n: Node<K, V>, k: K)
    requires Sound(r) && Sound(r + [n]) && (Live(n) ==> n.val.Some?)
    ensures k in Map(r + [n]) <==> HasKey(n, k) || k in Map(r)
    ensures k in Map(r + [n]) ==> Map(r + [n])[k] == if HasKey(n, k) then n.val.value else Map(r)[k]
  {
    var t := r + [n];
    MapAt(t, k);
    MapAt(r, k);
    assert t[|r|] == n;
    if k in Map(r) {
      var i :| 0 <= i < |r| && HasKey(r[i], k);
      assert t[i] == r[i];
    }
    if k in Map(t) {
      var i :| 0 <= i < |t| && HasKey(t[i], k);
      assert i < |r| ==> t[i] == r[i];
    }
  }

  /** A key appended to the slots is one more key in the map. */
  lemma MapAppend<K, V>(r: seq<Node<K, V>>, n: Node<K, V>)
    requires Sound(r + [n]) && (Live(n) ==> n.val.Some?)
    ensures Sound(r)
    ensures Live(n) ==> n.key.value !in Map(r) && Map(r + [n]) == Map(r)[n.key.value := n.val.value]
    ensures !Live(n) ==> Map(r + [n]) == Map(r)
  {
    AppendSound(r, n);
    if Live(n) {
      MapAt(r, n.key.value);
    }
    var m, was := Map(r + [n]), Map(r);
    forall k
      ensures k in m <==> HasKey(n, k) || k in was
      ensures k in m ==> m[k] == if HasKey(n, k) then n.val.value else was[k]
    {
      AppendAt(r, n, k);
    }
  }

  /** The live slots are as many as the keys of the map. */
  lemma {:induction false} CountIsSize<K, V>(t: seq<Node<K, V>>)
    requires Sound(t)
    ensures |Map(t)| == LiveCount(t)
    decreases |t|
  {
    if t != [] {
      var r, n := t[..|t| - 1], t[|t| - 1];
      assert t == r + [n] && t[|r|] == n;
      MapAppend(r, n);
      CountIsSize(r);
    }
  }

  // ---------- probing ----------

  /** The first distance from d on where the probe stops: an empty slot or the key; |t| after a full turn. */
  function Probe<K(==), V>(t: seq<Node<K, V>>, home: nat, k: K, d: nat): (r: nat)
    requires home < |t| && d <= |t|
    ensures d <= r <= |t| && (r < |t| ==> CanPut(t[Slot(home, r, |t|)], k))
    ensures forall e :: d <= e < r ==> !CanPut(t[Slot(home, e, |t|)], k)
    decreases |t| - d
  {
    if d == |t| || CanPut(t[Slot(home, d, |t|)], k) then d else Probe(t, home, k, d + 1)
  }

  /** The first tombstone from distance d on; |t| if there is none. */
  function FirstTomb<K, V>(t: seq<Node<K, V>>, home: nat, d: nat): (r: nat)
    requires home < |t| && d <= |t|
    ensures d <= r <= |t| && (r < |t| ==> t[Slot(home, r, |t|)].tombstone)
    ensures forall e :: d <= e < r ==> !t[Slot(home, e, |t|)].tombstone
    decreases |t| - d
  {
    if d == |t| || t[Slot(home, d, |t|)].tombstone then d else FirstTomb(t, home, d + 1)
  }

  /** A probe stops at the key exactly when the key is in the map. */
  lemma ProbeFinds<K, V>(t: seq<Node<K, V>>, h: K -> nat, k: K)
    requires Table(t, h)
    ensures var home := Home(h, k, |t|); var d := Probe(t, home, k, 0);
            (k in Map(t) <==> d < |t| && HasKey(t[Slot(home, d, |t|)], k)) &&
            (k in Map(t) ==> Map(t)[k] == t[Slot(home, d, |t|)].val.value)
  {
    var home := Home(h, k, |t|);
    var d := Probe(t, home, k, 0);
    MapAt(t, k);
    if k in Map(t) {
      var i :| 0 <= i < |t| && HasKey(t[i], k);
      var e := Dist(home, i, |t|);
      assert PathFull(t, home, i);
      if d < e {
        SlotDist(home, d, |t|);
      }
    }
  }

  /** With room left, a probe that comes full circle has passed a tombstone. */
  lemma TombThere<K, V>(t: seq<Node<K, V>>, home: nat, k: K)
    requires home < |t| && LiveCount(t) < |t| && Probe(t, home, k, 0) == |t|
    ensures FirstTomb(t, home, 0) < |t|
  {
    CountBounds(t, Live);
    var i :| 0 <= i < |t| && !Live(t[i]);
    var d := Dist(home, i, |t|);
    assert !CanPut(t[Slot(home, d, |t|)], k);
    assert t[Slot(home, d, |t|)].tombstone;
  }
}
