/** put, get, delete and clear_map as functions on the slots, and the map operations they amount to. */
module HashOps {

  import opened HashTable
  import opened Counting
  import opened Wrappers

  // ---------- the two ways a slot changes ----------

  /** Slot i may take key k: a probe for k reaches it, and no other slot holds k. */
  ghost predicate Fits<K, V>(t: seq<Node<K, V>>, h: K -> nat, k: K, i: nat) {
    && |t| > 0 && i < |t| && PathFull(t, Home(h, k, |t|), i)
    && forall j :: 0 <= j < |t| && j != i ==> !HasKey(t[j], k)
  }

  function Held<K, V>(k: K, v: V): Node<K, V> { Node(Some(k), Some(v), false) }

  lemma PlaceKeeps<K, V>(t: seq<Node<K, V>>, h: K -> nat, k: K, v: V, i: nat)
    requires Table(t, h) && Fits(t, h, k, i)
    ensures Table(t[i := Held(k, v)], h)
  {
    var t' := t[i := Held(k, v)];
    assert forall j, m :: 0 <= j < m < |t'| && Live(t'[j]) && Live(t'[m]) ==> t'[j].key != t'[m].key by {
      assert forall j :: 0 <= j < |t| && j != i && Live(t[j]) ==> t[j].key != Some(k) by {
        assert forall j :: 0 <= j < |t| && j != i && Live(t[j]) && t[j].key == Some(k) ==> HasKey(t[j], k);
      }
    }
    forall j | 0 <= j < |t'| && Live(t'[j])
      ensures PathFull(t', Home(h, t'[j].key.value, |t'|), j)
    {
      assert PathFull(t, Home(h, t'[j].key.value, |t|), j);
    }
  }

  /** Placing a key adds it to the map, in the stead of the key the slot held. */
  lemma PlaceMap<K, V>(t: seq<Node<K, V>>, h: K -> nat, k: K, v: V, i: nat)
    requires Table(t, h) && Fits(t, h, k, i)
    ensures Sound(t[i := Held(k, v)])
    ensures Map(t[i := Held(k, v)]) == (if Live(t[i]) then Map(t) - {t[i].key.value} else Map(t))[k := v]
    ensures LiveCount(t[i := Held(k, v)]) == LiveCount(t) + if Live(t[i]) then 0 else 1
  {
    PlaceKeeps(t, h, k, v, i);
    CountUpdate(t, Live, i, Held(k, v));
    var t' := t[i := Held(k, v)];
    assert HasKey(t'[i], k);
    MapAt(t', k);
    var m := Map(t');
    var was := Map(t);
    forall x | x != k
      ensures x in m <==> x in was && !HasKey(t[i], x)
      ensures x in m ==> m[x] == was[x]
    {
      Others(t, t', i, x);
    }
    SameMap(m, (if Live(t[i]) then was - {t[i].key.value} else was)[k := v]);
  }

  lemma SameMap<K, V>(a: map<K, V>, b: map<K, V>)
    requires forall x :: (x in a <==> x in b) && (x in a ==> a[x] == b[x])
    ensures a == b
  {
  }

  /** A key which is not written to slot i stays in the map unless slot i held it. */
  lemma Others<K, V>(t: seq<Node<K, V>>, t': seq<Node<K, V>>, i: nat, x: K)
    requires Sound(t) && Sound(t') && |t| == |t'| && i < |t| && !HasKey(t'[i], x)
    requires forall j :: 0 <= j < |t| && j != i ==> t'[j] == t[j]
    ensures x in Map(t') <==> x in Map(t) && !HasKey(t[i], x)
    ensures x in Map(t') ==> Map(t')[x] == Map(t)[x]
  {
    MapAt(t, x);
    MapAt(t', x);
    if x in Map(t) {
      var j :| 0 <= j < |t| && HasKey(t[j], x);
      assert j != i ==> HasKey(t'[j], x);
    }
    if x in Map(t') {
      var j :| 0 <= j < |t| && HasKey(t'[j], x);
      assert HasKey(t[j], x) && Live(t[j]);
    }
  }

  function Buried<K, V>(n: Node<K, V>): Node<K, V> { n.(tombstone := true) }

  lemma BuryKeeps<K, V>(t: seq<Node<K, V>>, h: K -> nat, i: nat)
    requires Table(t, h) && i < |t|
    ensures Table(t[i := Buried(t[i])], h)
  {
    var t' := t[i := Buried(t[i])];
    forall j | 0 <= j < |t'| && Live(t'[j])
      ensures PathFull(t', Home(h, t'[j].key.value, |t'|), j)
    {
      assert PathFull(t, Home(h, t[j].key.value, |t|), j);
    }
  }

  /** A tombstone on a live slot takes exactly its key from the map. */
  lemma BuryMap<K, V>(t: seq<Node<K, V>>, h: K -> nat, i: nat)
    requires Table(t, h) && i < |t| && Live(t[i])
    ensures Sound(t[i := Buried(t[i])])
    ensures Map(t[i := Buried(t[i])]) == Map(t) - {t[i].key.value}
    ensures LiveCount(t[i := Buried(t[i])]) == LiveCount(t) - 1
  {
    BuryKeeps(t, h, i);
    CountUpdate(t, Live, i, Buried(t[i]));
    var t' := t[i := Buried(t[i])];
    var m := Map(t');
    var was := Map(t);
    forall x
      ensures x in m <==> x in was && !HasKey(t[i], x)
      ensures x in m ==> m[x] == was[x]
    {
      Others(t, t', i, x);
    }
    SameMap(m, was - {t[i].key.value});
  }

  // ---------- the operations ----------

  datatype Job<K, V> = Put(key: K, val: V, force: bool) | Get(key: K) | Delete(key: K) | Clear

  /** What an operation hands back: put and clear_map a bool, get a value, delete the node it removed. */
  datatype Answer<K, V> = Flag(ok: bool) | Found(val: Option<V>) | Removed(node: Node<K, V>)

  function Blank<K, V>(): Node<K, V> { Node(None, None, false) }

  /** The slot put writes to: where the probe stops; else the home slot of a full table, else the first tombstone. */
  function Target<K(==), V>(t: seq<Node<K, V>>, h: K -> nat, k: K): (i: nat)
    requires |t| > 0
    ensures i < |t|
  {
    var home := Home(h, k, |t|);
    var d := Probe(t, home, k, 0);
    var e := FirstTomb(t, home, 0);
    if d < |t| then Slot(home, d, |t|)
    else if LiveCount(t) == |t| || e == |t| then home
    else Slot(home, e, |t|)
  }

  /** The value get finds. */
  function Find<K(==), V>(t: seq<Node<K, V>>, h: K -> nat, k: K): Option<V>
    requires |t| > 0
  {
    var home := Home(h, k, |t|);
    var d := Probe(t, home, k, 0);
    if d < |t| && HasKey(t[Slot(home, d, |t|)], k) then t[Slot(home, d, |t|)].val else None
  }

  function Apply<K(==), V>(t: seq<Node<K, V>>, h: K -> nat, job: Job<K, V>): (r: (seq<Node<K, V>>, Answer<K, V>))
    requires |t| > 0
    ensures |r.0| == |t|
  {
    match job
    case Put(k, v, force) =>
      if LiveCount(t) == |t| && !force then (t, Flag(false))
      else (t[Target(t, h, k) := Held(k, v)], Flag(true))
    case Get(k) => (t, Found(Find(t, h, k)))
    case Delete(k) =>
      var home := Home(h, k, |t|);
      var d := Probe(t, home, k, 0);
      if d < |t| && HasKey(t[Slot(home, d, |t|)], k) then
        var i := Slot(home, d, |t|);
        (t[i := Buried(t[i])], Removed(t[i]))
      else (t, Removed(Blank()))
    case Clear => (Fresh(|t|), Flag(true))
  }

  ghost function Lookup<K, V>(m: map<K, V>, k: K): Option<V> {
    if k in m then Some(m[k]) else None
  }

  lemma FindIsLookup<K, V>(t: seq<Node<K, V>>, h: K -> nat, k: K)
    requires Table(t, h)
    ensures Find(t, h, k) == Lookup(Map(t), k)
  {
    ProbeFinds(t, h, k);
  }

  /** put's slot suits the key, and holds the key already if the map does. */
  lemma TargetFits<K, V>(t: seq<Node<K, V>>, h: K -> nat, k: K)
    requires Table(t, h)
    ensures Fits(t, h, k, Target(t, h, k))
    ensures k in Map(t) <==> HasKey(t[Target(t, h, k)], k)
    ensures k !in Map(t) && LiveCount(t) < |t| ==> !Live(t[Target(t, h, k)])
    ensures k !in Map(t) && LiveCount(t) == |t| ==> Target(t, h, k) == Home(h, k, |t|) && Live(t[Target(t, h, k)])
  {
    var n, home := |t|, Home(h, k, |t|);
    var d, e := Probe(t, home, k, 0), FirstTomb(t, home, 0);
    var i := Target(t, h, k);
    MapAt(t, k);
    ProbeFinds(t, h, k);
    CountBounds(t, Live);
    if d == n && LiveCount(t) < n {
      TombThere(t, home, k);
    }
    if d < n { SlotDist(home, d, n); }
    if e < n { SlotDist(home, e, n); }
    assert Dist(home, home, n) == 0;
    if k in Map(t) {
      assert HasKey(t[i], k);
      assert Live(t[i]);
    } else {
      assert forall j :: 0 <= j < n ==> !HasKey(t[j], k);
    }
    forall x | 0 <= x < Dist(home, i, n) ensures !IsEmpty(t[Slot(home, x, n)]) {
      if d < n {
        assert !CanPut(t[Slot(home, x, n)], k);
      } else {
        assert !CanPut(t[Slot(home, x, n)], k);
      }
    }
    if k in Map(t) {
      forall j | 0 <= j < n && j != i ensures !HasKey(t[j], k) {
        if HasKey(t[j], k) { assert Live(t[j]); }
      }
    }
  }

  /** Slot i is the first one from the key's hash on, upwards and round the end, that is empty or has the key; if no
      slot is either, the first one with a tombstone; if the slots are all live, the one the hash points at. */
  ghost predicate PutsAt<K, V>(t: seq<Node<K, V>>, h: K -> nat, k: K, i: nat) {
    && i < |t|
    && var home := h(k) % |t|;
       if exists j :: 0 <= j < |t| && CanPut(t[j], k) then
         CanPut(t[i], k)
         && forall j :: 0 <= j < |t| && CanPut(t[j], k) ==> (i + |t| - home) % |t| <= (j + |t| - home) % |t|
       else if exists j :: 0 <= j < |t| && t[j].tombstone then
         t[i].tombstone
         && forall j :: 0 <= j < |t| && t[j].tombstone ==> (i + |t| - home) % |t| <= (j + |t| - home) % |t|
       else i == home
  }

  /** This says which slot put writes to. */
  lemma TargetIs<K, V>(t: seq<Node<K, V>>, h: K -> nat, k: K)
    requires Table(t, h)
    ensures PutsAt(t, h, k, Target(t, h, k))
  {
    var home := h(k) % |t|;
    var d, e := Probe(t, home, k, 0), FirstTomb(t, home, 0);
    if d < |t| {
      ProbeNearest(t, home, k, d);
    } else {
      NoneToPut(t, home, k);
      if e < |t| {
        TombNearest(t, home, e);
        NotAllLive(t, Slot(home, e, |t|));
      } else {
        NoTombs(t, home);
      }
    }
  }

  lemma NotAllLive<K, V>(t: seq<Node<K, V>>, i: nat)
    requires i < |t| && t[i].tombstone
    ensures LiveCount(t) != |t|
  {
    CountBounds(t, Live);
  }

  /** The slot a probe stops at first is the nearest that will take the key. */
  lemma ProbeNearest<K, V>(t: seq<Node<K, V>>, home: nat, k: K, d: nat)
    requires home < |t| && d == Probe(t, home, k, 0) < |t|
    ensures forall j :: 0 <= j < |t| && CanPut(t[j], k) ==>
              (Slot(home, d, |t|) + |t| - home) % |t| <= (j + |t| - home) % |t|
  {
    forall j | 0 <= j < |t| && CanPut(t[j], k)
      ensures (Slot(home, d, |t|) + |t| - home) % |t| <= (j + |t| - home) % |t|
    {
      Steps(home, d, j, |t|);
    }
  }

  lemma TombNearest<K, V>(t: seq<Node<K, V>>, home: nat, d: nat)
    requires home < |t| && d == FirstTomb(t, home, 0) < |t|
    ensures forall j :: 0 <= j < |t| && t[j].tombstone ==>
              (Slot(home, d, |t|) + |t| - home) % |t| <= (j + |t| - home) % |t|
  {
    forall j | 0 <= j < |t| && t[j].tombstone
      ensures (Slot(home, d, |t|) + |t| - home) % |t| <= (j + |t| - home) % |t|
    {
      Steps(home, d, j, |t|);
    }
  }

  /** The steps from home to two slots, one of them told by its distance. */
  lemma Steps(home: nat, d: nat, j: nat, n: nat)
    requires home < n && d < n && j < n
    ensures (Slot(home, d, n) + n - home) % n == d
    ensures (j + n - home) % n == Dist(home, j, n) && Slot(home, Dist(home, j, n), n) == j
  {
    Ring(home, Slot(home, d, n), n);
    SlotDist(home, d, n);
    Ring(home, j, n);
  }

  lemma NoneToPut<K, V>(t: seq<Node<K, V>>, home: nat, k: K)
    requires home < |t| && Probe(t, home, k, 0) == |t|
    ensures forall j :: 0 <= j < |t| ==> !CanPut(t[j], k)
  {
    forall j | 0 <= j < |t| ensures !CanPut(t[j], k) {
      assert Slot(home, Dist(home, j, |t|), |t|) == j;
    }
  }

  lemma NoTombs<K, V>(t: seq<Node<K, V>>, home: nat)
    requires home < |t| && FirstTomb(t, home, 0) == |t|
    ensures forall j :: 0 <= j < |t| ==> !t[j].tombstone
  {
    forall j | 0 <= j < |t| ensures !t[j].tombstone {
      assert Slot(home, Dist(home, j, |t|), |t|) == j;
    }
  }

  /** Which key a forced put on a full table throws out: the one in the home slot of the new key. */
  ghost predicate Evicts<K, V>(t: seq<Node<K, V>>, job: Job<K, V>)
    requires Sound(t)
  {
    job.Put? && job.force && LiveCount(t) == |t| && job.key !in Map(t)
  }

  /** The map an operation leaves. */
  ghost function MapAfter<K, V>(t: seq<Node<K, V>>, h: K -> nat, job: Job<K, V>): map<K, V>
    requires Table(t, h)
  {
    match job
    case Put(k, v, force) =>
      if LiveCount(t) == |t| && !force then Map(t)
      else if Evicts(t, job) then
        CountBounds(t, Live);
        (Map(t) - {t[h(k) % |t|].key.value})[k := v]
      else Map(t)[k := v]
    case Get(k) => Map(t)
    case Delete(k) => Map(t) - {k}
    case Clear => map[]
  }

  lemma Overwrite<K, V>(m: map<K, V>, k: K, v: V)
    ensures (m - {k})[k := v] == m[k := v]
  {
  }

  lemma PutMap<K, V>(t: seq<Node<K, V>>, h: K -> nat, k: K, v: V, force: bool)
    requires Table(t, h)
    ensures Table(Apply(t, h, Put(k, v, force)).0, h)
    ensures Map(Apply(t, h, Put(k, v, force)).0) == MapAfter(t, h, Put(k, v, force))
  {
    var i := Target(t, h, k);
    CountBounds(t, Live);
    TargetFits(t, h, k);
    PlaceKeeps(t, h, k, v, i);
    PlaceMap(t, h, k, v, i);
    if k in Map(t) {
      Overwrite(Map(t), k, v);
    }
  }

  lemma DeleteMap<K, V>(t: seq<Node<K, V>>, h: K -> nat, k: K)
    requires Table(t, h)
    ensures Table(Apply(t, h, Delete(k)).0, h)
    ensures Map(Apply(t, h, Delete(k)).0) == Map(t) - {k}
  {
    ProbeFinds(t, h, k);
    if k in Map(t) {
      var i := Slot(Home(h, k, |t|), Probe(t, Home(h, k, |t|), k, 0), |t|);
      BuryKeeps(t, h, i);
      BuryMap(t, h, i);
    } else {
      assert Map(t) - {k} == Map(t);
    }
  }

  /** Every operation keeps the table sound and does to the map what MapAfter says. */
  lemma ApplyMap<K, V>(t: seq<Node<K, V>>, h: K -> nat, job: Job<K, V>)
    requires Table(t, h)
    ensures Table(Apply(t, h, job).0, h)
    ensures Map(Apply(t, h, job).0) == MapAfter(t, h, job)
  {
    match job
    case Put(k, v, force) => PutMap(t, h, k, v, force);
    case Get(k) =>
    case Delete(k) => DeleteMap(t, h, k);
    case Clear => FreshIsEmpty<K, V>(|t|, h);
  }

  lemma DeleteAnswer<K, V>(t: seq<Node<K, V>>, h: K -> nat, k: K)
    requires Table(t, h)
    ensures Apply(t, h, Delete(k)).1 == Removed(if k in Map(t) then Held(k, Map(t)[k]) else Blank())
  {
    var home := Home(h, k, |t|);
    var d := Probe(t, home, k, 0);
    ProbeFinds(t, h, k);
    if d < |t| && HasKey(t[Slot(home, d, |t|)], k) {
      var n := t[Slot(home, d, |t|)];
      assert Live(n);
      assert n == Held(k, n.val.value);
    }
  }

  /** What an operation answers, told by the map and the capacity alone. */
  lemma ApplyAnswer<K, V>(t: seq<Node<K, V>>, h: K -> nat, job: Job<K, V>)
    requires Table(t, h)
    ensures job.Put? ==> Apply(t, h, job).1 == Flag(job.force || |Map(t)| < |t|)
    ensures job.Get? ==> Apply(t, h, job).1 == Found(Lookup(Map(t), job.key))
    ensures job.Clear? ==> Apply(t, h, job).1 == Flag(true)
    ensures job.Delete? ==>
      Apply(t, h, job).1 == Removed(if job.key in Map(t) then Held(job.key, Map(t)[job.key]) else Blank())
  {
    match job
    case Put(_, _, _) =>
      CountIsSize(t);
      CountBounds(t, Live);
    case Get(k) => FindIsLookup(t, h, k);
    case Delete(k) => DeleteAnswer(t, h, k);
    case Clear =>
  }

  // ---------- whole runs ----------

  /** A bounded map: what a cache of n entries may do, whatever its slots look like. */
  ghost predicate Allowed<K, V>(m: map<K, V>, n: nat, job: Job<K, V>, m': map<K, V>, a: Answer<K, V>) {
    match job
    case Put(k, v, force) =>
      if |m| == n && !force then m' == m && a == Flag(false)
      else if |m| < n || k in m then m' == m[k := v] && a == Flag(true)
      else a == Flag(true) && exists victim :: victim in m && m' == (m - {victim})[k := v]
    case Get(k) => m' == m && a == Found(Lookup(m, k))
    case Delete(k) => m' == m - {k} && a == Removed(if k in m then Held(k, m[k]) else Blank())
    case Clear => m' == map[] && a == Flag(true)
  }

  ghost predicate AllowedRun<K(!new), V(!new)>(m: map<K, V>, n: nat, jobs: seq<Job<K, V>>, m': map<K, V>,
      a: seq<Answer<K, V>>)
    requires |jobs| == |a|
    decreases |jobs|
  {
    if jobs == [] then m' == m
    else exists mid :: Allowed(m, n, jobs[0], mid, a[0]) && AllowedRun(mid, n, jobs[1..], m', a[1..])
  }

  function Run<K(==), V>(t: seq<Node<K, V>>, h: K -> nat, jobs: seq<Job<K, V>>): (r: (seq<Node<K, V>>, seq<Answer<K, V>>))
    requires |t| > 0
    ensures |r.0| == |t| && |r.1| == |jobs|
    decreases |jobs|
  {
    if jobs == [] then (t, [])
    else
      var (t', a) := Apply(t, h, jobs[0]);
      var (last, rest) := Run(t', h, jobs[1..]);
      (last, [a] + rest)
  }

  lemma StepAllowed<K, V>(t: seq<Node<K, V>>, h: K -> nat, job: Job<K, V>)
    requires Table(t, h)
    ensures Table(Apply(t, h, job).0, h)
    ensures Allowed(Map(t), |t|, job, Map(Apply(t, h, job).0), Apply(t, h, job).1)
  {
    ApplyMap(t, h, job);
    ApplyAnswer(t, h, job);
    CountIsSize(t);
    CountBounds(t, Live);
    if job.Put? && job.force && |Map(t)| == |t| && job.key !in Map(t) {
      var n := t[Home(h, job.key, |t|)];
      assert HasKey(n, n.key.value);
      MapAt(t, n.key.value);
    }
  }

  /** Over any run the probing table does and answers what a bounded map may. */
  lemma {:induction false} RunAllowed<K(!new), V(!new)>(t: seq<Node<K, V>>, h: K -> nat, jobs: seq<Job<K, V>>)
    requires Table(t, h)
    ensures Table(Run(t, h, jobs).0, h)
    ensures AllowedRun(Map(t), |t|, jobs, Map(Run(t, h, jobs).0), Run(t, h, jobs).1)
    decreases |jobs|
  {
    if jobs != [] {
      StepAllowed(t, h, jobs[0]);
      var (t', a) := Apply(t, h, jobs[0]);
      RunAllowed(t', h, jobs[1..]);
      assert Run(t, h, jobs).1[1..] == Run(t', h, jobs[1..]).1;
      assert Allowed(Map(t), |t|, jobs[0], Map(t'), Run(t, h, jobs).1[0]);
    }
  }

  function Fresh<K, V>(n: nat): seq<Node<K, V>> { seq(n, i => Blank()) }

  /** A new table is the empty map, and so is a cleared one. */
  lemma FreshIsEmpty<K, V>(n: nat, h: K -> nat)
    requires n > 0
    ensures Table(Fresh<K, V>(n), h) && Map(Fresh<K, V>(n)) == map[]
    ensures LiveCount(Fresh<K, V>(n)) == 0
  {
    var t := Fresh<K, V>(n);
    assert forall i :: 0 <= i < n ==> t[i] == Blank<K, V>();
    CountBounds(t, Live);
    assert Map(t) == map[];
  }
}
