/** Any number of threads calling put, get, delete and clear_map at once: the readers/writer protocol step by step. */
module HashThreads {

  import opened HashTable
  import opened HashOps
  import opened Counting
  import opened Wrappers

  /** atomic: a writer sees no reader and takes fields_lock in one step (hashmap.c tests first and locks after).
      recheck: put looks at the size again under the locks (hashmap.c looks once, before them). */
  datatype Variant = Variant(atomic: bool, recheck: bool)

  datatype Store<K, V> = Store(slot: nat, node: Node<K, V>)

  /** Where a thread is in its call. */
  datatype Stage<K, V> =
    | Idle
    | Waiting(key: K)                                            // get: spins while num_readers is negative
    | Entering(key: K)                                           // wants fields_lock to count itself in
    | Joining(key: K)                                            // holds it, num_readers one up next
    | Joined(key: K)                                             // counted in, unlocks next
    | Probing(key: K, d: nat)                                    // reads one slot a step
    | Leaving(key: K, val: Option<V>)                            // wants fields_lock to count itself out
    | Parting(key: K, val: Option<V>)                            // holds it, num_readers one down next
    | Parted                                                     // counted out, unlocks next
    | Checking(job: Job<K, V>)                                   // put: reads the size without a lock
    | Queued(job: Job<K, V>)                                     // wants write_lock
    | Spinning(job: Job<K, V>)                                   // holds it, spins while num_readers is positive
    | Past(job: Job<K, V>)                                       // has seen no reader, wants fields_lock
    | Marking(job: Job<K, V>)                                    // holds both locks, num_readers -1 next
    | Writing(job: Job<K, V>, answer: Answer<K, V>, todo: seq<Store<K, V>>) // stores, and after them the size
    | Resetting                                                  // num_readers 0 next
    | Freeing                                                    // frees fields_lock next
    | Closing                                                    // frees write_lock next
    | Crashed                                                    // stored through the null tombstone

  /** The shared fields, the stage of every thread, and the calls that took effect, in this order. */
  datatype State<K, V> = State(
    threads: seq<Stage<K, V>>, table: seq<Node<K, V>>, size: nat, readers: int,
    writeLock: Option<nat>, fieldsLock: Option<nat>, jobs: seq<Job<K, V>>, answers: seq<Answer<K, V>>)

  /** Counted in and not yet out. */
  predicate Reading<K, V>(st: Stage<K, V>) { st.Joined? || st.Probing? || st.Leaving? || st.Parting? }

  /** Between the two stores to num_readers. */
  predicate Marked<K, V>(st: Stage<K, V>) { st.Writing? || st.Resetting? }

  predicate HoldsWrite<K, V>(st: Stage<K, V>) {
    st.Spinning? || st.Past? || st.Marking? || Marked(st) || st.Freeing? || st.Closing?
  }

  predicate HoldsFields<K, V>(st: Stage<K, V>) {
    st.Joining? || st.Joined? || st.Parting? || st.Parted? || st.Marking? || Marked(st) || st.Freeing?
  }

  function Start<K, V>(threads: nat, capacity: nat): State<K, V> {
    State(seq(threads, i => Idle), Fresh(capacity), 0, 0, None, None, [], [])
  }

  // ---------- what a writer stores, field by field ----------

  function Fields<K, V>(i: nat, was: Node<K, V>, n: Node<K, V>): seq<Store<K, V>> {
    [Store(i, was.(key := n.key)), Store(i, was.(key := n.key, val := n.val)), Store(i, n)]
  }

  function ClearScript<K, V>(t: seq<Node<K, V>>, i: nat): seq<Store<K, V>>
    requires i <= |t|
    decreases |t| - i
  {
    if i == |t| then [] else Fields(i, t[i], Blank()) + ClearScript(t, i + 1)
  }

  function Script<K(==), V>(t: seq<Node<K, V>>, h: K -> nat, job: Job<K, V>): seq<Store<K, V>>
    requires |t| > 0
  {
    match job
    case Put(k, v, force) =>
      if LiveCount(t) == |t| && !force then []
      else Fields(Target(t, h, k), t[Target(t, h, k)], Held(k, v))
    case Get(k) => []
    case Delete(k) =>
      var home := Home(h, k, |t|);
      var d := Probe(t, home, k, 0);
      if d < |t| && HasKey(t[Slot(home, d, |t|)], k) then
        var i := Slot(home, d, |t|);
        [Store(i, Buried(t[i]))]
      else []
    case Clear => ClearScript(t, 0)
  }

  function Play<K, V>(t: seq<Node<K, V>>, todo: seq<Store<K, V>>): (r: seq<Node<K, V>>)
    ensures |r| == |t|
    decreases |todo|
  {
    if todo == [] then t
    else Play(if todo[0].slot < |t| then t[todo[0].slot := todo[0].node] else t, todo[1..])
  }

  lemma {:induction false} PlayAppend<K, V>(t: seq<Node<K, V>>, a: seq<Store<K, V>>, b: seq<Store<K, V>>)
    ensures Play(t, a + b) == Play(Play(t, a), b)
    decreases |a|
  {
    if a == [] {
      assert a + b == b;
    } else {
      assert (a + b)[1..] == a[1..] + b;
      PlayAppend(if a[0].slot < |t| then t[a[0].slot := a[0].node] else t, a[1..], b);
    }
  }

  lemma PlayStep<K, V>(t: seq<Node<K, V>>, w: Store<K, V>, rest: seq<Store<K, V>>)
    requires w.slot < |t|
    ensures Play(t, [w] + rest) == Play(t[w.slot := w.node], rest)
  {
    assert ([w] + rest)[1..] == rest;
  }

  lemma PlayFields<K, V>(t: seq<Node<K, V>>, i: nat, was: Node<K, V>, n: Node<K, V>)
    requires i < |t|
    ensures Play(t, Fields(i, was, n)) == t[i := n]
  {
    var a, b, c := Store(i, was.(key := n.key)), Store(i, was.(key := n.key, val := n.val)), Store(i, n);
    PlayThree(t, a, b, c);
    StoreTwice(t, i, a.node, b.node);
    StoreTwice(t, i, b.node, n);
  }

  lemma StoreTwice<T>(t: seq<T>, i: nat, x: T, y: T)
    requires i < |t|
    ensures t[i := x][i := y] == t[i := y]
  {
  }

  lemma PlayThree<K, V>(t: seq<Node<K, V>>, a: Store<K, V>, b: Store<K, V>, c: Store<K, V>)
    requires a.slot < |t| && b.slot < |t| && c.slot < |t|
    ensures Play(t, [a, b, c]) == t[a.slot := a.node][b.slot := b.node][c.slot := c.node]
  {
    assert [a, b, c] == [a] + [b, c] && [b, c] == [b] + [c] && [c] == [c] + [];
    PlayStep(t, a, [b, c]);
    PlayStep(t[a.slot := a.node], b, [c]);
    PlayStep(t[a.slot := a.node][b.slot := b.node], c, []);
  }

  lemma {:induction false} PlayClear<K, V>(t: seq<Node<K, V>>, u: seq<Node<K, V>>, i: nat)
    requires i <= |t| == |u|
    ensures Play(u, ClearScript(t, i)) == u[..i] + Fresh(|t| - i)
    decreases |t| - i
  {
    if i < |t| {
      var u1 := u[i := Blank<K, V>()];
      PlayAppend(u, Fields(i, t[i], Blank()), ClearScript(t, i + 1));
      PlayFields(u, i, t[i], Blank());
      PlayClear(t, u1, i + 1);
      assert u1[..i + 1] + Fresh<K, V>(|t| - i - 1) == u[..i] + Fresh<K, V>(|t| - i);
    } else {
      assert u[..i] + Fresh<K, V>(0) == u;
    }
  }

  lemma ClearPlays<K, V>(t: seq<Node<K, V>>)
    ensures Play(t, ClearScript(t, 0)) == Fresh<K, V>(|t|)
  {
    PlayClear(t, t, 0);
    assert t[..0] + Fresh<K, V>(|t|) == Fresh<K, V>(|t|);
  }

  lemma DeletePlays<K, V>(t: seq<Node<K, V>>, h: K -> nat, k: K)
    requires |t| > 0
    ensures Play(t, Script(t, h, Delete(k))) == Apply(t, h, Delete(k)).0
  {
    var d := Probe(t, Home(h, k, |t|), k, 0);
    if d < |t| && HasKey(t[Slot(Home(h, k, |t|), d, |t|)], k) {
      var i := Slot(Home(h, k, |t|), d, |t|);
      assert [Store(i, Buried(t[i]))] == [Store(i, Buried(t[i]))] + [];
      PlayStep(t, Store(i, Buried(t[i])), []);
    }
  }

  /** Store by store, a writer does what the sequential operation does at once. */
  lemma ScriptPlays<K, V>(t: seq<Node<K, V>>, h: K -> nat, job: Job<K, V>)
    requires |t| > 0
    ensures Play(t, Script(t, h, job)) == Apply(t, h, job).0
  {
    match job
    case Put(k, v, force) =>
      var i := Target(t, h, k);
      PlayFields(t, i, t[i], Held(k, v));
    case Get(k) =>
    case Delete(k) => DeletePlays(t, h, k);
    case Clear => ClearPlays(t);
  }

  // ---------- one step of one thread ----------

  function Move<K, V>(s: State<K, V>, i: nat, st: Stage<K, V>): State<K, V>
    requires i < |s.threads|
  {
    s.(threads := s.threads[i := st])
  }

  /** The call of thread i takes effect with this answer. */
  function Finish<K, V>(s: State<K, V>, i: nat, st: Stage<K, V>, job: Job<K, V>, a: Answer<K, V>): State<K, V>
    requires i < |s.threads|
  {
    Move(s, i, st).(jobs := s.jobs + [job], answers := s.answers + [a])
  }

  function Begin<K, V>(s: State<K, V>, i: nat, call: Job<K, V>): State<K, V>
    requires i < |s.threads|
  {
    match call
    case Get(k) => Move(s, i, Waiting(k))
    case Put(_, _, _) => Move(s, i, Checking(call))
    case _ => Move(s, i, Queued(call))
  }

  function Read<K(==), V>(s: State<K, V>, h: K -> nat, i: nat, k: K, d: nat): State<K, V>
    requires i < |s.threads| && |s.table| > 0
  {
    if d >= |s.table| then Move(s, i, Leaving(k, None))
    else
      var n := s.table[Slot(Home(h, k, |s.table|), d, |s.table|)];
      if HasKey(n, k) then Move(s, i, Leaving(k, n.val))
      else if IsEmpty(n) then Move(s, i, Leaving(k, None))
      else Move(s, i, Probing(k, d + 1))
  }

  /** With both locks held: mark the map as written to and work out the stores. */
  function Mark<K(==), V>(v: Variant, s: State<K, V>, h: K -> nat, i: nat, job: Job<K, V>): State<K, V>
    requires i < |s.threads| && |s.table| > 0
  {
    var s1 := s.(readers := -1);
    if v.recheck || !job.Put? || job.force || s.size != |s.table| then
      Move(s1, i, Writing(job, Apply(s.table, h, job).1, Script(s.table, h, job)))
    else if Find(s.table, h, job.key).Some? then
      Move(s1, i, Writing(job, Flag(true), Script(s.table, h, job.(force := true))))
    else Move(s1, i, Crashed)
  }

  /** The next store, or after the last one the size; with it the call takes effect. */
  function Write<K, V>(s: State<K, V>, i: nat, job: Job<K, V>, a: Answer<K, V>, todo: seq<Store<K, V>>): State<K, V>
    requires i < |s.threads|
  {
    if todo == [] then
      Finish(s, i, Resetting, job, a).(size := LiveCount(s.table))
    else
      Move(s, i, Writing(job, a, todo[1..])).(table := Play(s.table, [todo[0]]))
  }

  /** Thread i takes its next step, or stays where it is if a lock or a spin holds it; an idle thread begins call. */
  function Next<K(==), V>(v: Variant, h: K -> nat, s: State<K, V>, i: nat, call: Job<K, V>): (s': State<K, V>)
    requires |s.table| > 0
    ensures |s'.threads| == |s.threads| && |s'.table| == |s.table|
  {
    if i >= |s.threads| then s
    else match s.threads[i]
      case Idle => Begin(s, i, call)
      case Waiting(k) => if s.readers < 0 then s else Move(s, i, Entering(k))
      case Entering(k) => if s.fieldsLock.Some? then s else Move(s, i, Joining(k)).(fieldsLock := Some(i))
      case Joining(k) => Move(s, i, Joined(k)).(readers := s.readers + 1)
      case Joined(k) => Move(s, i, Probing(k, 0)).(fieldsLock := None)
      case Probing(k, d) => Read(s, h, i, k, d)
      case Leaving(k, val) => if s.fieldsLock.Some? then s else Move(s, i, Parting(k, val)).(fieldsLock := Some(i))
      case Parting(k, val) => Finish(s, i, Parted, Get(k), Found(val)).(readers := s.readers - 1)
      case Parted => Move(s, i, Idle).(fieldsLock := None)
      case Checking(job) =>
        if job.Put? && s.size == |s.table| && !job.force then Finish(s, i, Idle, job, Flag(false))
        else Move(s, i, Queued(job))
      case Queued(job) => if s.writeLock.Some? then s else Move(s, i, Spinning(job)).(writeLock := Some(i))
      case Spinning(job) =>
        if s.readers > 0 then s
        else if !v.atomic then Move(s, i, Past(job))
        else if s.fieldsLock.Some? then s
        else Move(s, i, Marking(job)).(fieldsLock := Some(i))
      case Past(job) => if s.fieldsLock.Some? then s else Move(s, i, Marking(job)).(fieldsLock := Some(i))
      case Marking(job) => Mark(v, s, h, i, job)
      case Writing(job, a, todo) => Write(s, i, job, a, todo)
      case Resetting => Move(s, i, Freeing).(readers := 0)
      case Freeing => Move(s, i, Closing).(fieldsLock := None)
      case Closing => Move(s, i, Idle).(writeLock := None)
      case Crashed => s
  }

  /** A scheduler's choice: which thread moves, and what it calls if it is idle. */
  datatype Choice<K, V> = Choice(thread: nat, call: Job<K, V>)

  function Exec<K(==), V>(v: Variant, h: K -> nat, s: State<K, V>, run: seq<Choice<K, V>>): (s': State<K, V>)
    requires |s.table| > 0
    ensures |s'.threads| == |s.threads| && |s'.table| == |s.table|
    decreases |run|
  {
    if run == [] then s
    else
      var last := |run| - 1;
      Next(v, h, Exec(v, h, s, run[..last]), run[last].thread, run[last].call)
  }

  // ---------- the invariant ----------

  /** The table the calls that took effect leave when they run one after another. */
  function Base<K(==), V>(s: State<K, V>, h: K -> nat): seq<Node<K, V>>
    requires |s.table| > 0
  {
    Run(Fresh(|s.table|), h, s.jobs).0
  }

  /** The stage of the thread that holds fields_lock. */
  function Holder<K, V>(s: State<K, V>): Stage<K, V> {
    if s.fieldsLock.Some? && s.fieldsLock.value < |s.threads| then s.threads[s.fieldsLock.value] else Idle
  }

  /** What a reader has found so far is right for the table as it stands. */
  ghost predicate ReaderOk<K, V>(t: seq<Node<K, V>>, h: K -> nat, st: Stage<K, V>)
    requires |t| > 0
  {
    match st
    case Probing(k, d) => d <= |t| && Probe(t, Home(h, k, |t|), k, 0) == Probe(t, Home(h, k, |t|), k, d)
    case Leaving(k, val) => val == Find(t, h, k)
    case Parting(k, val) => val == Find(t, h, k)
    case _ => true
  }

  ghost predicate ThreadOk<K, V>(s: State<K, V>, h: K -> nat, i: nat)
    requires |s.table| > 0 && i < |s.threads|
  {
    var st := s.threads[i];
    && (HoldsWrite(st) <==> s.writeLock == Some(i))
    && (HoldsFields(st) <==> s.fieldsLock == Some(i))
    && ReaderOk(s.table, h, st)
    && !st.Crashed? && !st.Past?
    && (st.Checking? ==> !st.job.Get?) && (st.Queued? ==> !st.job.Get?) && (st.Spinning? ==> !st.job.Get?)
    && (st.Marking? || Marked(st) ==> Count(s.threads, Reading) == 0)
    && (st.Marking? ==> !st.job.Get?)
    && (st.Writing? ==>
          && !st.job.Get?
          && (Play(s.table, st.todo), st.answer) == Apply(Base(s, h), h, st.job))
  }

  ghost predicate Inv<K, V>(s: State<K, V>, h: K -> nat) {
    && |s.table| > 0
    && s.answers == Run(Fresh(|s.table|), h, s.jobs).1
    && s.size == LiveCount(Base(s, h))
    && (s.fieldsLock.Some? ==> s.fieldsLock.value < |s.threads|)
    && (s.writeLock.Some? ==> s.writeLock.value < |s.threads|)
    && s.readers == (if Marked(Holder(s)) then -1 else Count(s.threads, Reading))
    && (!Holder(s).Writing? ==> s.table == Base(s, h))
    && (forall i :: 0 <= i < |s.threads| ==> ThreadOk(s, h, i))
  }

  // ---------- every step keeps the invariant ----------

  /** A lock moves only between thread i and nobody. */
  predicate LockMoves(a: Option<nat>, b: Option<nat>, i: nat) {
    a == b || (a in {None, Some(i)} && b in {None, Some(i)})
  }

  lemma OtherOk<K, V>(s: State<K, V>, s': State<K, V>, h: K -> nat, i: nat, j: nat)
    requires Inv(s, h) && i < |s.threads| && j < |s.threads| && j != i
    requires |s'.threads| == |s.threads| && s'.threads == s.threads[i := s'.threads[i]]
    requires s'.table == s.table && Base(s', h) == Base(s, h)
    requires LockMoves(s.writeLock, s'.writeLock, i) && LockMoves(s.fieldsLock, s'.fieldsLock, i)
    requires Reading(s'.threads[i]) && !Reading(s.threads[i]) ==> s.fieldsLock == Some(i)
    ensures ThreadOk(s', h, j)
  {
    assert ThreadOk(s, h, j);
    CountUpdate(s.threads, Reading, i, s'.threads[i]);
    CountBounds(s'.threads, Reading);
  }

  /** A step that leaves the table and its meaning alone keeps the invariant if it does so for its own thread. */
  lemma QuietKeeps<K, V>(s: State<K, V>, s': State<K, V>, h: K -> nat, i: nat)
    requires Inv(s, h) && i < |s.threads|
    requires |s'.threads| == |s.threads| && s'.threads == s.threads[i := s'.threads[i]]
    requires s'.table == s.table && s'.size == s.size
    requires Base(s', h) == Base(s, h) && s'.answers == Run(Fresh(|s.table|), h, s'.jobs).1
    requires LockMoves(s.writeLock, s'.writeLock, i) && LockMoves(s.fieldsLock, s'.fieldsLock, i)
    requires Reading(s'.threads[i]) && !Reading(s.threads[i]) ==> s.fieldsLock == Some(i)
    requires Holder(s).Writing? ==> Holder(s').Writing?
    requires s'.readers == if Marked(Holder(s')) then -1 else Count(s'.threads, Reading)
    requires ThreadOk(s', h, i)
    ensures Inv(s', h)
  {
    forall j | 0 <= j < |s'.threads| ensures ThreadOk(s', h, j) {
      if j != i {
        OtherOk(s, s', h, i, j);
      }
    }
  }

  /** What a step does to the number of readers, as thread i sees it. */
  lemma ReadersAfter<K, V>(s: State<K, V>, h: K -> nat, i: nat, st: Stage<K, V>)
    requires Inv(s, h) && i < |s.threads|
    ensures Count(s.threads[i := st], Reading) ==
            Count(s.threads, Reading) - (if Reading(s.threads[i]) then 1 else 0) + if Reading(st) then 1 else 0
    ensures Reading(s.threads[i]) ==> Count(s.threads, Reading) > 0 && !Marked(Holder(s))
    ensures ThreadOk(s, h, i)
    ensures s.fieldsLock == Some(i) ==> Holder(s) == s.threads[i]
    ensures s.fieldsLock != Some(i) ==> !HoldsFields(s.threads[i])
  {
    CountUpdate(s.threads, Reading, i, st);
    CountBounds(s.threads, Reading);
    if s.fieldsLock.Some? {
      assert ThreadOk(s, h, s.fieldsLock.value);
    }
  }

  lemma RunStep<K, V>(t: seq<Node<K, V>>, h: K -> nat, job: Job<K, V>, rest: seq<Job<K, V>>)
    requires |t| > 0
    ensures var e := Apply(t, h, job); var r := Run(e.0, h, rest);
            Run(t, h, [job] + rest) == (r.0, [e.1] + r.1)
  {
    assert ([job] + rest)[1..] == rest;
  }

  lemma {:induction false} RunAppend<K, V>(t: seq<Node<K, V>>, h: K -> nat, jobs: seq<Job<K, V>>, job: Job<K, V>)
    requires |t| > 0
    ensures var r := Run(t, h, jobs); var e := Apply(r.0, h, job);
            Run(t, h, jobs + [job]) == (e.0, r.1 + [e.1])
    decreases |jobs|
  {
    if jobs == [] {
      assert jobs + [job] == [job] + [];
      RunStep(t, h, job, []);
      var a := Apply(t, h, job).1;
      assert [a] + [] == [] + [a];
    } else {
      assert jobs == [jobs[0]] + jobs[1..];
      assert jobs + [job] == [jobs[0]] + (jobs[1..] + [job]);
      var (t1, a) := Apply(t, h, jobs[0]);
      RunAppend(t1, h, jobs[1..], job);
      var r1 := Run(t1, h, jobs[1..]);
      var e := Apply(r1.0, h, job);
      assert [a] + (r1.1 + [e.1]) == ([a] + r1.1) + [e.1];
      RunStep(t, h, jobs[0], jobs[1..]);
      RunStep(t, h, jobs[0], jobs[1..] + [job]);
    }
  }

  /** A step between stages without fields_lock that are counted alike. */
  lemma MoveKeeps<K, V>(s: State<K, V>, h: K -> nat, i: nat, st: Stage<K, V>)
    requires Inv(s, h) && i < |s.threads|
    requires !HoldsFields(s.threads[i]) && !HoldsFields(st)
    requires HoldsWrite(st) == HoldsWrite(s.threads[i]) && Reading(st) == Reading(s.threads[i])
    requires ReaderOk(s.table, h, st) && !st.Crashed? && !st.Past? && (st.Checking? || st.Queued? ==> !st.job.Get?)
    requires !st.Spinning?
    ensures Inv(Move(s, i, st), h)
  {
    ReadersAfter(s, h, i, st);
    HolderAfter(s, Move(s, i, st), i);
    QuietKeeps(s, Move(s, i, st), h, i);
  }

  lemma HolderAfter<K, V>(s: State<K, V>, s': State<K, V>, i: nat)
    requires i < |s.threads| == |s'.threads| && s'.threads == s.threads[i := s'.threads[i]]
    ensures s'.fieldsLock == Some(i) ==> Holder(s') == s'.threads[i]
    ensures s'.fieldsLock == s.fieldsLock != Some(i) ==> Holder(s') == Holder(s)
    ensures s'.fieldsLock == None ==> Holder(s') == Idle
  {
  }

  lemma BeginKeeps<K, V>(s: State<K, V>, h: K -> nat, i: nat, call: Job<K, V>)
    requires Inv(s, h) && i < |s.threads| && s.threads[i].Idle?
    ensures Inv(Begin(s, i, call), h)
  {
    assert ThreadOk(s, h, i);
    MoveKeeps(s, h, i, Begin(s, i, call).threads[i]);
  }

  /** A reader past its spin. */
  lemma WaitKeeps<K, V>(v: Variant, s: State<K, V>, h: K -> nat, i: nat, call: Job<K, V>)
    requires Inv(s, h) && i < |s.threads| && s.threads[i].Waiting?
    ensures Inv(Next(v, h, s, i, call), h)
  {
    assert ThreadOk(s, h, i);
    MoveKeeps(s, h, i, Entering(s.threads[i].key));
  }

  /** A reader that takes fields_lock, if it is free. */
  lemma TakeKeeps<K, V>(v: Variant, s: State<K, V>, h: K -> nat, i: nat, call: Job<K, V>)
    requires Inv(s, h) && i < |s.threads| && (s.threads[i].Entering? || s.threads[i].Leaving?)
    ensures Inv(Next(v, h, s, i, call), h)
  {
    if s.fieldsLock == None {
      var s' := Next(v, h, s, i, call);
      ReadersAfter(s, h, i, s'.threads[i]);
      HolderAfter(s, s', i);
      QuietKeeps(s, s', h, i);
    }
  }

  lemma JoinKeeps<K, V>(v: Variant, s: State<K, V>, h: K -> nat, i: nat, call: Job<K, V>)
    requires Inv(s, h) && i < |s.threads| && s.threads[i].Joining?
    ensures Inv(Next(v, h, s, i, call), h)
  {
    var s' := Next(v, h, s, i, call);
    ReadersAfter(s, h, i, s'.threads[i]);
    HolderAfter(s, s', i);
    QuietKeeps(s, s', h, i);
  }

  /** A thread that frees fields_lock. */
  lemma FreeKeeps<K, V>(v: Variant, s: State<K, V>, h: K -> nat, i: nat, call: Job<K, V>)
    requires Inv(s, h) && i < |s.threads| && (s.threads[i].Joined? || s.threads[i].Parted? || s.threads[i].Freeing?)
    ensures Inv(Next(v, h, s, i, call), h)
  {
    var s' := Next(v, h, s, i, call);
    ReadersAfter(s, h, i, s'.threads[i]);
    HolderAfter(s, s', i);
    QuietKeeps(s, s', h, i);
  }

  lemma ReadStep<K, V>(s: State<K, V>, h: K -> nat, i: nat, k: K, d: nat)
    requires |s.table| > 0 && i < |s.threads| && ReaderOk(s.table, h, Probing(k, d))
    ensures var st := Read(s, h, i, k, d).threads[i];
            Read(s, h, i, k, d) == Move(s, i, st) && (st.Probing? || st.Leaving?) && ReaderOk(s.table, h, st)
  {
  }

  lemma ProbeKeeps<K, V>(s: State<K, V>, h: K -> nat, i: nat, st: Stage<K, V>)
    requires Inv(s, h) && i < |s.threads| && s.threads[i].Probing?
    requires (st.Probing? || st.Leaving?) && ReaderOk(s.table, h, st)
    ensures Inv(Move(s, i, st), h)
  {
    assert ThreadOk(s, h, i);
    MoveKeeps(s, h, i, st);
  }

  lemma ReadKeeps<K, V>(s: State<K, V>, h: K -> nat, i: nat, k: K, d: nat)
    requires Inv(s, h) && i < |s.threads| && s.threads[i] == Probing(k, d)
    ensures Inv(Read(s, h, i, k, d), h)
  {
    assert ThreadOk(s, h, i);
    ReadStep(s, h, i, k, d);
    ProbeKeeps(s, h, i, Read(s, h, i, k, d).threads[i]);
  }

  /** A reader that leaves has the value of the table as it stands. */
  lemma PartKeeps<K, V>(s: State<K, V>, h: K -> nat, i: nat, k: K, val: Option<V>)
    requires Inv(s, h) && i < |s.threads| && s.threads[i] == Parting(k, val)
    ensures Inv(Finish(s, i, Parted, Get(k), Found(val)).(readers := s.readers - 1), h)
  {
    var s' := Finish(s, i, Parted, Get(k), Found(val)).(readers := s.readers - 1);
    ReadersAfter(s, h, i, Parted);
    RunAppend(Fresh(|s.table|), h, s.jobs, Get(k));
    HolderAfter(s, s', i);
    QuietKeeps(s, s', h, i);
  }

  /** The unlocked look at the size is right: the table the calls so far leave is full. */
  lemma RefuseKeeps<K, V>(s: State<K, V>, h: K -> nat, i: nat, job: Job<K, V>)
    requires Inv(s, h) && i < |s.threads| && s.threads[i] == Checking(job)
    requires job.Put? && s.size == |s.table| && !job.force
    ensures Inv(Finish(s, i, Idle, job, Flag(false)), h)
  {
    var s' := Finish(s, i, Idle, job, Flag(false));
    ReadersAfter(s, h, i, Idle);
    HolderAfter(s, s', i);
    RunAppend(Fresh(|s.table|), h, s.jobs, job);
    QuietKeeps(s, s', h, i);
  }

  lemma CheckKeeps<K, V>(v: Variant, s: State<K, V>, h: K -> nat, i: nat, call: Job<K, V>)
    requires Inv(s, h) && i < |s.threads| && s.threads[i].Checking?
    ensures Inv(Next(v, h, s, i, call), h)
  {
    var job := s.threads[i].job;
    assert ThreadOk(s, h, i);
    if job.Put? && s.size == |s.table| && !job.force {
      RefuseKeeps(s, h, i, job);
    } else {
      MoveKeeps(s, h, i, Queued(job));
    }
  }

  lemma QueueKeeps<K, V>(v: Variant, s: State<K, V>, h: K -> nat, i: nat, call: Job<K, V>)
    requires Inv(s, h) && i < |s.threads| && s.threads[i].Queued?
    ensures Inv(Next(v, h, s, i, call), h)
  {
    if s.writeLock == None {
      var s' := Next(v, h, s, i, call);
      ReadersAfter(s, h, i, s'.threads[i]);
      HolderAfter(s, s', i);
      QuietKeeps(s, s', h, i);
    }
  }

  /** The test for readers and the taking of fields_lock in one step leave no reader counted in. */
  lemma SpinKeeps<K, V>(v: Variant, s: State<K, V>, h: K -> nat, i: nat, call: Job<K, V>)
    requires v.atomic && Inv(s, h) && i < |s.threads| && s.threads[i].Spinning?
    ensures Inv(Next(v, h, s, i, call), h)
  {
    if s.readers <= 0 && s.fieldsLock == None {
      var s' := Next(v, h, s, i, call);
      ReadersAfter(s, h, i, s'.threads[i]);
      HolderAfter(s, s', i);
      QuietKeeps(s, s', h, i);
    }
  }

  lemma MarkKeeps<K, V>(v: Variant, s: State<K, V>, h: K -> nat, i: nat, job: Job<K, V>)
    requires v.recheck && Inv(s, h) && i < |s.threads| && s.threads[i] == Marking(job)
    ensures Inv(Mark(v, s, h, i, job), h)
  {
    var s' := Mark(v, s, h, i, job);
    ReadersAfter(s, h, i, s'.threads[i]);
    ScriptPlays(s.table, h, job);
    HolderAfter(s, s', i);
    QuietKeeps(s, s', h, i);
  }

  lemma StoreKeeps<K, V>(s: State<K, V>, h: K -> nat, i: nat, job: Job<K, V>, a: Answer<K, V>, todo: seq<Store<K, V>>)
    requires Inv(s, h) && i < |s.threads| && s.threads[i] == Writing(job, a, todo) && todo != []
    ensures Inv(Write(s, i, job, a, todo), h)
  {
    var s' := Write(s, i, job, a, todo);
    ReadersAfter(s, h, i, s'.threads[i]);
    CountBounds(s.threads, Reading);
    assert todo == [todo[0]] + todo[1..];
    PlayAppend(s.table, [todo[0]], todo[1..]);
    forall j | 0 <= j < |s'.threads| ensures ThreadOk(s', h, j) {
      assert ThreadOk(s, h, j);
    }
  }

  /** When a writer has stored the size, the table is what its call makes of the table before. */
  lemma EndKeeps<K, V>(s: State<K, V>, h: K -> nat, i: nat, job: Job<K, V>, a: Answer<K, V>)
    requires Inv(s, h) && i < |s.threads| && s.threads[i] == Writing(job, a, [])
    ensures Inv(Write(s, i, job, a, []), h)
  {
    var s' := Write(s, i, job, a, []);
    ReadersAfter(s, h, i, Resetting);
    CountBounds(s.threads, Reading);
    RunAppend(Fresh(|s.table|), h, s.jobs, job);
    forall j | 0 <= j < |s'.threads| ensures ThreadOk(s', h, j) {
      assert ThreadOk(s, h, j);
    }
  }

  lemma ResetKeeps<K, V>(v: Variant, s: State<K, V>, h: K -> nat, i: nat, call: Job<K, V>)
    requires Inv(s, h) && i < |s.threads| && s.threads[i].Resetting?
    ensures Inv(Next(v, h, s, i, call), h)
  {
    var s' := Next(v, h, s, i, call);
    ReadersAfter(s, h, i, s'.threads[i]);
    HolderAfter(s, s', i);
    QuietKeeps(s, s', h, i);
  }

  lemma CloseKeeps<K, V>(v: Variant, s: State<K, V>, h: K -> nat, i: nat, call: Job<K, V>)
    requires Inv(s, h) && i < |s.threads| && s.threads[i].Closing?
    ensures Inv(Next(v, h, s, i, call), h)
  {
    var s' := Next(v, h, s, i, call);
    ReadersAfter(s, h, i, s'.threads[i]);
    HolderAfter(s, s', i);
    QuietKeeps(s, s', h, i);
  }

  lemma NextKeeps<K, V>(v: Variant, h: K -> nat, s: State<K, V>, i: nat, call: Job<K, V>)
    requires v.atomic && v.recheck && Inv(s, h)
    ensures Inv(Next(v, h, s, i, call), h)
  {
    if i < |s.threads| {
      assert ThreadOk(s, h, i);
      match s.threads[i]
      case Idle => BeginKeeps(s, h, i, call);
      case Waiting(_) => WaitKeeps(v, s, h, i, call);
      case Entering(_) => TakeKeeps(v, s, h, i, call);
      case Joining(_) => JoinKeeps(v, s, h, i, call);
      case Joined(_) => FreeKeeps(v, s, h, i, call);
      case Probing(k, d) => ReadKeeps(s, h, i, k, d);
      case Leaving(_, _) => TakeKeeps(v, s, h, i, call);
      case Parting(k, val) => PartKeeps(s, h, i, k, val);
      case Parted => FreeKeeps(v, s, h, i, call);
      case Checking(_) => CheckKeeps(v, s, h, i, call);
      case Queued(_) => QueueKeeps(v, s, h, i, call);
      case Spinning(_) => SpinKeeps(v, s, h, i, call);
      case Marking(job) => MarkKeeps(v, s, h, i, job);
      case Writing(job, a, todo) =>
        if todo == [] { EndKeeps(s, h, i, job, a); } else { StoreKeeps(s, h, i, job, a, todo); }
      case Resetting => ResetKeeps(v, s, h, i, call);
      case Freeing => FreeKeeps(v, s, h, i, call);
      case Closing => CloseKeeps(v, s, h, i, call);
      case Past(_) =>
      case Crashed =>
    }
  }

  lemma StartOk<K, V>(threads: nat, capacity: nat, h: K -> nat)
    requires capacity > 0
    ensures Inv(Start<K, V>(threads, capacity), h)
  {
    var s := Start<K, V>(threads, capacity);
    FreshIsEmpty<K, V>(capacity, h);
    CountBounds(s.threads, Reading);
    assert forall i :: 0 <= i < threads ==> ThreadOk(s, h, i);
  }

  /** The invariant holds in every state any number of threads can reach. */
  lemma {:induction false} ReachableInv<K, V>(h: K -> nat, threads: nat, capacity: nat, run: seq<Choice<K, V>>)
    requires capacity > 0
    ensures Inv(Exec(Variant(true, true), h, Start(threads, capacity), run), h)
    decreases |run|
  {
    if run == [] {
      StartOk<K, V>(threads, capacity, h);
    } else {
      var last := |run| - 1;
      ReachableInv(h, threads, capacity, run[..last]);
      NextKeeps(Variant(true, true), h, Exec(Variant(true, true), h, Start(threads, capacity), run[..last]),
                run[last].thread, run[last].call);
    }
  }
}
