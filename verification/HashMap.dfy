/** The hash map object: its probe loops, its stored size, and the map it holds. */
module HashMap {

  import opened HashTable
  import opened HashOps
  import opened Counting
  import opened Wrappers

  /** create_map refuses a zero capacity, a missing hash function and a missing destroy function. */
  method CreateMap<K(==), V>(capacity: nat, hash: Option<K -> nat>, destroyer: bool) returns (m: HashMap?<K, V>)
    ensures m == null <==> capacity == 0 || hash.None? || !destroyer
    ensures m != null ==> fresh(m) && fresh(m.nodes) && m.Valid() && !m.invalid
    ensures m != null ==> m.capacity == capacity && m.hash == hash.value && m.Contents() == map[]
  {
    if capacity == 0 || hash.None? || !destroyer {
      return null;
    }
    m := new HashMap<K, V>(capacity, hash.value);
  }

  /** The tombstone noted is the first one among the d slots passed. */
  ghost predicate TombSoFar<K, V>(t: seq<Node<K, V>>, start: nat, d: nat, tomb: Option<nat>)
    requires start < |t| && d <= |t|
  {
    match tomb
    case None => FirstTomb(t, start, 0) == FirstTomb(t, start, d)
    case Some(i) => FirstTomb(t, start, 0) < d && i == Slot(start, FirstTomb(t, start, 0), |t|)
  }

  lemma TombStep<K, V>(t: seq<Node<K, V>>, start: nat, d: nat, tomb: Option<nat>)
    requires start < |t| && d < |t| && TombSoFar(t, start, d, tomb)
    ensures var i := Slot(start, d, |t|);
            TombSoFar(t, start, d + 1, if tomb.None? && t[i].tombstone then Some(i) else tomb)
  {
  }

  /** The arguments of the destroy function's calls, one for each slot in turn, whatever the slot holds. */
  function Entries<K, V>(t: seq<Node<K, V>>): (r: seq<(Option<K>, Option<V>)>)
    ensures |r| == |t| && forall i :: 0 <= i < |t| ==> r[i] == (t[i].key, t[i].val)
  {
    seq(|t|, i requires 0 <= i < |t| => (t[i].key, t[i].val))
  }

  /** The slot d steps from home, home again after a full turn. */
  function At(start: nat, d: nat, n: nat): (i: nat)
    requires start < n && d <= n
    ensures i < n
  {
    if d < n then Slot(start, d, n) else start
  }

  function After(i: nat, n: nat): (j: nat)
    requires i < n
    ensures j < n
  {
    if i + 1 == n then 0 else i + 1
  }

  /** The d slots passed would not take the key, and index is next. */
  ghost predicate ProbeSoFar<K, V>(t: seq<Node<K, V>>, start: nat, k: K, d: nat, index: nat) {
    && start < |t| && 1 <= d <= |t| && index == At(start, d, |t|)
    && Probe(t, start, k, 0) == Probe(t, start, k, d)
  }

  lemma ProbeStep<K, V>(t: seq<Node<K, V>>, start: nat, k: K, d: nat, index: nat)
    requires ProbeSoFar(t, start, k, d, index) && d < |t| && !CanPut(t[index], k)
    ensures ProbeSoFar(t, start, k, d + 1, After(index, |t|))
  {
  }

  lemma ProbeBegins<K, V>(t: seq<Node<K, V>>, start: nat, k: K)
    requires start < |t| && !CanPut(t[start], k)
    ensures ProbeSoFar(t, start, k, 1, After(start, |t|))
  {
    assert Slot(start, 0, |t|) == start;
  }

  /** The loop's guard tells a full turn from one that is not. */
  lemma ProbeEnds<K, V>(t: seq<Node<K, V>>, start: nat, k: K, d: nat, index: nat)
    requires ProbeSoFar(t, start, k, d, index)
    ensures index == start <==> d == |t|
    ensures index == start || CanPut(t[index], k) ==> d == Probe(t, start, k, 0) && index == At(start, d, |t|)
  {
  }

  lemma PutPlace<K, V>(t: seq<Node<K, V>>, h: K -> nat, k: K, v: V, i: nat)
    requires Table(t, h) && i == Target(t, h, k)
    ensures PutsAt(t, h, k, i) && Held(k, v) == Node(Some(k), Some(v), false)
    ensures LiveCount(t) == |t| ==> t[h(k) % |t|].key.Some?
    ensures IsEmpty(t[h(k) % |t|]) ==> i == h(k) % |t|
  {
    TargetIs(t, h, k);
    CountBounds(t, Live);
    if IsEmpty(t[h(k) % |t|]) {
      assert CanPut(t[h(k) % |t|], k);
      Ring(h(k) % |t|, i, |t|);
      Ring(h(k) % |t|, h(k) % |t|, |t|);
    }
  }

  class HashMap<K(==), V> {
    const hash: K -> nat
    var capacity: nat
    var nodes: array<Node<K, V>>
    var size: nat
    var invalid: bool

    ghost predicate Valid()
      reads this, nodes
    {
      !invalid ==> nodes.Length == capacity && Table(nodes[..], hash) && size == LiveCount(nodes[..])
    }

    ghost function Contents(): map<K, V>
      reads this, nodes
      requires Valid()
    {
      if invalid then map[] else Map(nodes[..])
    }

    constructor (capacity: nat, hash: K -> nat)
      requires capacity > 0
      ensures Valid() && !invalid && fresh(nodes) && this.capacity == capacity && this.hash == hash
      ensures Contents() == map[]
    {
      this.hash := hash;
      this.capacity := capacity;
      nodes := new Node<K, V>[capacity](i => Blank());
      size := 0;
      invalid := false;
      new;
      assert nodes[..] == Fresh<K, V>(capacity);
      FreshIsEmpty<K, V>(capacity, hash);
    }

    /** Where a probe from the home slot stops; the home slot again after a full turn. */
    method Seek(start: nat, k: K) returns (index: nat)
      requires start < nodes.Length
      ensures index == At(start, Probe(nodes[..], start, k, 0), nodes.Length)
    {
      ghost var t := nodes[..];
      if CanPut(nodes[start], k) {
        return start;
      }
      ProbeBegins(t, start, k);
      index := After(start, nodes.Length);
      ghost var d := 1;
      ProbeEnds(t, start, k, d, index);
      while index != start && !CanPut(nodes[index], k)
        invariant ProbeSoFar(t, start, k, d, index)
        invariant index == start <==> d == nodes.Length
        decreases nodes.Length - d
      {
        ProbeStep(t, start, k, d, index);
        index := After(index, nodes.Length);
        d := d + 1;
        ProbeEnds(t, start, k, d, index);
      }
      ProbeEnds(t, start, k, d, index);
    }

    /** Like Seek, minding the first tombstone on the way. */
    method SeekTomb(start: nat, k: K) returns (index: nat, tomb: Option<nat>)
      requires start < nodes.Length && !CanPut(nodes[start], k)
      ensures index == At(start, Probe(nodes[..], start, k, 0), nodes.Length)
      ensures TombSoFar(nodes[..], start, Probe(nodes[..], start, k, 0), tomb)
    {
      ghost var t := nodes[..];
      TombStep(t, start, 0, None);
      ProbeBegins(t, start, k);
      tomb := if nodes[start].tombstone then Some(start) else None;
      index := After(start, nodes.Length);
      ghost var d := 1;
      ProbeEnds(t, start, k, d, index);
      while index != start && !CanPut(nodes[index], k)
        invariant ProbeSoFar(t, start, k, d, index) && TombSoFar(t, start, d, tomb)
        invariant index == start <==> d == nodes.Length
        decreases nodes.Length - d
      {
        TombStep(t, start, d, tomb);
        ProbeStep(t, start, k, d, index);
        if tomb.None? && nodes[index].tombstone {
          tomb := Some(index);
        }
        index := After(index, nodes.Length);
        d := d + 1;
        ProbeEnds(t, start, k, d, index);
      }
      ProbeEnds(t, start, k, d, index);
    }

    /** The slot put writes to. */
    method Choose(k: K) returns (i: nat)
      requires Valid() && !invalid
      ensures i < nodes.Length && i == Target(nodes[..], hash, k)
    {
      var start := Home(hash, k, capacity);
      i := start;
      if capacity == size {
        i := Seek(start, k);
      } else if !CanPut(nodes[start], k) {
        var tomb;
        i, tomb := SeekTomb(start, k);
        if i == start {
          CountBounds(nodes[..], Live);
          TombThere(nodes[..], start, k);
          i := tomb.value;
        }
      }
    }

    method Write(i: nat, k: K, v: V)
      requires Valid() && !invalid && i < nodes.Length && i == Target(nodes[..], hash, k)
      modifies this`size, nodes
      ensures Valid() && nodes[..] == old(nodes[..])[i := Held(k, v)]
    {
      ghost var t := nodes[..];
      TargetFits(t, hash, k);
      PlaceMap(t, hash, k, v, i);
      PlaceKeeps(t, hash, k, v, i);
      if !Live(nodes[i]) {
        size := size + 1;
      }
      nodes[i] := nodes[i].(key := Some(k));
      nodes[i] := nodes[i].(val := Some(v));
      nodes[i] := nodes[i].(tombstone := false);
      assert nodes[..] == t[i := Held(k, v)];
    }

    /** A full map refuses, unless forced: then the key, or else its home slot, is overwritten. */
    method Put(key: Option<K>, val: Option<V>, force: bool) returns (ok: bool)
      requires Valid()
      modifies this`size, nodes
      ensures Valid()
      ensures key.None? || val.None? || invalid ==> !ok && nodes[..] == old(nodes[..]) && size == old(size)
      ensures key.Some? && val.Some? && !invalid ==>
        var job := Job.Put(key.value, val.value, force);
        (nodes[..], Flag(ok)) == Apply(old(nodes[..]), hash, job)
        && Contents() == MapAfter(old(nodes[..]), hash, job)
      ensures ok ==> exists i: nat :: PutsAt(old(nodes[..]), hash, key.value, i)
                                 && nodes[..] == old(nodes[..])[i := Node(key, val, false)]
      ensures ok && old(size) == capacity && key.value !in old(Contents()) ==>
        old(nodes[hash(key.value) % capacity].key.Some?)
        && Contents() == (old(Contents()) - {old(nodes[hash(key.value) % capacity].key.value)})[key.value := val.value]
      ensures ok && old(size) < capacity && IsEmpty(old(nodes[hash(key.value) % capacity])) ==>
        nodes[..] == old(nodes[..])[hash(key.value) % capacity := Node(key, val, false)]
    {
      if key.None? || val.None? || invalid {
        return false;
      }
      ApplyMap(nodes[..], hash, Job.Put(key.value, val.value, force));
      if capacity == size && !force {
        return false;
      }
      ghost var t := nodes[..];
      var i := Choose(key.value);
      Write(i, key.value, val.value);
      ok := true;
      PutPlace(t, hash, key.value, val.value, i);
    }

    method Get(key: Option<K>) returns (val: Option<V>)
      requires Valid()
      ensures val == if key.None? then None else Lookup(Contents(), key.value)
    {
      if key.None? || invalid {
        return None;
      }
      var k := key.value;
      FindIsLookup(nodes[..], hash, k);
      var i := Seek(Home(hash, k, capacity), k);
      val := if HasKey(nodes[i], k) then nodes[i].val else None;
    }

    method Delete(key: Option<K>) returns (node: Node<K, V>)
      requires Valid()
      modifies this`size, nodes
      ensures Valid()
      ensures key.None? || invalid ==> node == Blank() && nodes[..] == old(nodes[..]) && size == old(size)
      ensures key.Some? && !invalid ==>
        (nodes[..], Removed(node)) == Apply(old(nodes[..]), hash, Job.Delete(key.value))
        && Contents() == old(Contents()) - {key.value}
      ensures key.Some? && key.value in old(Contents()) ==>
        node.key == key && !node.tombstone && node in old(nodes[..])
        && exists i: nat :: i < old(nodes.Length) && old(nodes[..])[i] == node
                            && nodes[..] == old(nodes[..])[i := Node(node.key, node.val, true)]
    {
      if key.None? || invalid {
        return Blank();
      }
      var k := key.value;
      ghost var t := nodes[..];
      ApplyMap(t, hash, Job.Delete(k));
      var i := Seek(Home(hash, k, capacity), k);
      ProbeFinds(t, hash, k);
      if HasKey(nodes[i], k) {
        BuryMap(t, hash, i);
        node := nodes[i];
        nodes[i] := nodes[i].(tombstone := true);
        size := size - 1;
        assert nodes[..] == t[i := Buried(t[i])];
      } else {
        node := Blank();
      }
    }

    /** Destroys and blanks every slot. */
    method WipeSlots() returns (destroyed: seq<(Option<K>, Option<V>)>)
      requires nodes.Length == capacity
      modifies nodes
      ensures nodes[..] == Fresh(capacity) && destroyed == Entries(old(nodes[..]))
    {
      ghost var t := nodes[..];
      destroyed := [];
      for i := 0 to capacity
        invariant |destroyed| == i && forall j :: 0 <= j < i ==> nodes[j] == Blank() && destroyed[j] == Entries(t)[j]
        invariant forall j :: i <= j < nodes.Length ==> nodes[j] == t[j]
      {
        destroyed := destroyed + [(nodes[i].key, nodes[i].val)];
        nodes[i] := Blank();
      }
    }

    method ClearMap() returns (ok: bool, destroyed: seq<(Option<K>, Option<V>)>)
      requires Valid()
      modifies this`size, nodes
      ensures Valid() && ok == !invalid
      ensures invalid ==> nodes[..] == old(nodes[..]) && size == old(size) && destroyed == []
      ensures ok ==> nodes[..] == Fresh(capacity) && size == 0 && Contents() == map[]
      ensures ok ==> destroyed == Entries(old(nodes[..]))
    {
      if invalid {
        return false, [];
      }
      destroyed := WipeSlots();
      size := 0;
      FreshIsEmpty<K, V>(capacity, hash);
      ok := true;
    }

    method InvalidateMap() returns (ok: bool, destroyed: seq<(Option<K>, Option<V>)>)
      requires Valid()
      modifies this, nodes
      ensures Valid() && invalid && ok == !old(invalid)
      ensures ok ==> capacity == 0 && size == 0 && destroyed == Entries(old(nodes[..]))
      ensures !ok ==> capacity == old(capacity) && size == old(size) && destroyed == []
    {
      if invalid {
        return false, [];
      }
      destroyed := WipeSlots();
      size := 0;
      capacity := 0;
      invalid := true;
      ok := true;
    }
  }
}
