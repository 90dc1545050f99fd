/** What the readers/writer protocol guarantees over every run, and the runs that break it as written. */
module HashProtocol {

  import opened HashTable
  import opened HashOps
  import opened HashThreads
  import opened Counting
  import opened Wrappers

  /** A reader is between its two counts while a writer is between its two marks. */
  ghost predicate Torn<K, V>(s: State<K, V>) {
    exists i, j :: 0 <= i < |s.threads| && 0 <= j < |s.threads| && Marked(s.threads[i]) && Reading(s.threads[j])
  }

  ghost predicate Broken<K, V>(s: State<K, V>) {
    Torn(s) || exists i :: 0 <= i < |s.threads| && s.threads[i].Crashed?
  }

  lemma InvSafe<K, V>(s: State<K, V>, h: K -> nat)
    requires Inv(s, h)
    ensures !Broken(s)
    ensures forall i, j :: 0 <= i < |s.threads| && 0 <= j < |s.threads| && Marked(s.threads[i]) && Marked(s.threads[j])
              ==> i == j
    ensures s.readers ==
            if exists i :: 0 <= i < |s.threads| && Marked(s.threads[i]) then -1 else Count(s.threads, Reading)
  {
    CountBounds(s.threads, Reading);
    forall i | 0 <= i < |s.threads|
      ensures !s.threads[i].Crashed?
      ensures Marked(s.threads[i]) ==> s.fieldsLock == Some(i) && Holder(s) == s.threads[i]
      ensures Marked(s.threads[i]) ==> forall j :: 0 <= j < |s.threads| ==> !Reading(s.threads[j])
    {
      assert ThreadOk(s, h, i);
    }
  }

  /** With any number of threads, in every state of every run: no reader reads while a writer stores, writers
      store one at a time, nobody stores through the null tombstone, and num_readers tells the readers. */
  lemma Exclusion<K, V>(h: K -> nat, threads: nat, capacity: nat, run: seq<Choice<K, V>>)
    requires capacity > 0
    ensures var s := Exec(Variant(true, true), h, Start(threads, capacity), run);
            !Broken(s)
            && (forall i, j :: 0 <= i < threads && 0 <= j < threads && Marked(s.threads[i]) && Marked(s.threads[j])
                  ==> i == j)
            && s.readers ==
               if exists i :: 0 <= i < threads && Marked(s.threads[i]) then -1 else Count(s.threads, Reading)
  {
    ReachableInv(h, threads, capacity, run);
    InvSafe(Exec(Variant(true, true), h, Start(threads, capacity), run), h);
  }

  /** The finished calls, in the order they took effect, are a run of a bounded map, and when nobody stores
      the table holds the map that run leaves. */
  lemma Linearizable<K(!new), V(!new)>(h: K -> nat, threads: nat, capacity: nat, run: seq<Choice<K, V>>)
    requires capacity > 0
    ensures var s := Exec(Variant(true, true), h, Start(threads, capacity), run);
            Table(Base(s, h), h) && |s.jobs| == |s.answers|
            && AllowedRun(map[], capacity, s.jobs, Map(Base(s, h)), s.answers)
            && ((forall i :: 0 <= i < threads ==> !s.threads[i].Writing?) ==> s.table == Base(s, h))
  {
    var s := Exec(Variant(true, true), h, Start<K, V>(threads, capacity), run);
    ReachableInv(h, threads, capacity, run);
    FreshIsEmpty<K, V>(capacity, h);
    RunAllowed(Fresh(capacity), h, s.jobs);
  }

  /** A get answers with the value the map has at the step that ends it. */
  lemma GetAnswers<K, V>(h: K -> nat, threads: nat, capacity: nat, run: seq<Choice<K, V>>, i: nat)
    requires capacity > 0 && i < threads
    requires Exec(Variant(true, true), h, Start(threads, capacity), run).threads[i].Parting?
    ensures var s := Exec(Variant(true, true), h, Start(threads, capacity), run);
            s.table == Base(s, h) && Table(s.table, h)
            && s.threads[i].val == Lookup(Map(s.table), s.threads[i].key)
  {
    var s := Exec(Variant(true, true), h, Start(threads, capacity), run);
    ReachableInv(h, threads, capacity, run);
    ReadersAfter(s, h, i, Idle);
    FreshIsEmpty<K, V>(capacity, h);
    RunTable(Fresh(capacity), h, s.jobs);
    FindIsLookup(s.table, h, s.threads[i].key);
  }

  lemma {:induction false} RunTable<K, V>(t: seq<Node<K, V>>, h: K -> nat, jobs: seq<Job<K, V>>)
    requires Table(t, h)
    ensures Table(Run(t, h, jobs).0, h)
    decreases |jobs|
  {
    if jobs != [] {
      StepAllowed(t, h, jobs[0]);
      RunTable(Apply(t, h, jobs[0]).0, h, jobs[1..]);
    }
  }

  /** Whoever holds fields_lock can go on. */
  lemma HolderMoves<K, V>(s: State<K, V>, h: K -> nat, j: nat, call: Job<K, V>)
    requires |s.table| > 0 && j < |s.threads| && HoldsFields(s.threads[j])
    ensures Next(Variant(true, true), h, s, j, call).threads[j] != s.threads[j]
  {
  }

  /** With fields_lock free and no reader counted in, all go on but those that wait for write_lock. */
  lemma OthersMove<K, V>(s: State<K, V>, h: K -> nat, j: nat, call: Job<K, V>)
    requires |s.table| > 0 && j < |s.threads| && !HoldsFields(s.threads[j]) && s.fieldsLock == None
    requires s.readers == 0 || (s.readers > 0 && Reading(s.threads[j]))
    requires !s.threads[j].Idle? && !s.threads[j].Crashed? && (s.threads[j].Queued? ==> s.writeLock == None)
    ensures Next(Variant(true, true), h, s, j, call).threads[j] != s.threads[j]
  {
  }

  /** Nobody is stuck for good: while a call is under way, some thread in a call can take a step. */
  lemma SomeoneMoves<K, V>(s: State<K, V>, h: K -> nat, i: nat, call: Job<K, V>) returns (j: nat)
    requires Inv(s, h) && i < |s.threads| && !s.threads[i].Idle?
    ensures j < |s.threads| && !s.threads[j].Idle?
    ensures Next(Variant(true, true), h, s, j, call).threads[j] != s.threads[j]
  {
    CountBounds(s.threads, Reading);
    assert ThreadOk(s, h, i);
    if s.fieldsLock.Some? {
      j := s.fieldsLock.value;
      assert ThreadOk(s, h, j);
      HolderMoves(s, h, j, call);
    } else {
      if k :| 0 <= k < |s.threads| && Reading(s.threads[k]) {
        j := k;
      } else if s.threads[i].Queued? && s.writeLock.Some? {
        j := s.writeLock.value;
      } else {
        j := i;
      }
      assert ThreadOk(s, h, j);
      OthersMove(s, h, j, call);
    }
  }

  /** Over every run: a call under way is never stuck among stuck calls. */
  lemma NoDeadlock<K, V>(h: K -> nat, threads: nat, capacity: nat, run: seq<Choice<K, V>>, i: nat, call: Job<K, V>)
    requires capacity > 0 && i < threads
    requires !Exec(Variant(true, true), h, Start(threads, capacity), run).threads[i].Idle?
    ensures var s := Exec(Variant(true, true), h, Start(threads, capacity), run);
            exists j :: 0 <= j < threads && !s.threads[j].Idle?
              && Next(Variant(true, true), h, s, j, call).threads[j] != s.threads[j]
  {
    ReachableInv(h, threads, capacity, run);
    var j := SomeoneMoves(Exec(Variant(true, true), h, Start(threads, capacity), run), h, i, call);
  }

  // ---------- the runs that go wrong ----------

  function Same(k: nat): nat { k }

  type Two = s: State<nat, nat> | |s.threads| == 2 && |s.table| == 1 witness Start<nat, nat>(2, 1)

  type Schedule = seq<Choice<nat, nat>>

  /** Two threads at a cache of one entry, before any call has taken effect. */
  function Pair(a: Stage<nat, nat>, b: Stage<nat, nat>, readers: int, w: Option<nat>, f: Option<nat>): Two {
    State([a, b], Fresh(1), 0, readers, w, f, [], [])
  }

  /** A run of two threads from the start of a cache of one entry to s. */
  ghost predicate Leads(v: Variant, run: Schedule, s: Two) {
    s == Exec(v, Same, Start(2, 1), run) && forall k :: 0 <= k < |run| ==> run[k].thread < 2
  }

  /** A run goes on by one step. */
  lemma Step(v: Variant, run: Schedule, s: Two, i: nat, call: Job<nat, nat>, s': Two) returns (run': Schedule)
    requires Leads(v, run, s) && i < 2 && s' == Next(v, Same, s, i, call)
    ensures Leads(v, run', s')
  {
    run' := run + [Choice(i, call)];
    assert run'[..|run|] == run;
  }

  lemma NoSteps(v: Variant)
    ensures Leads(v, [], Pair(Idle, Idle, 0, None, None))
  {
    assert Start<nat, nat>(2, 1).threads == [Idle, Idle];
  }

  const DROP := Job<nat, nat>.Delete(0)
  const ASK := Job<nat, nat>.Get(0)
  const ONE := Job<nat, nat>.Put(0, 0, false)
  const TWO := Job<nat, nat>.Put(1, 1, false)

  /** A deleting writer gets past the test. */
  lemma WriterPast(v: Variant) returns (run: Schedule)
    requires !v.atomic
    ensures Leads(v, run, Pair(Past(DROP), Idle, 0, Some(0), None))
  {
    NoSteps(v);
    run := Step(v, [], Pair(Idle, Idle, 0, None, None), 0, DROP, Pair(Queued(DROP), Idle, 0, None, None));
    run := Step(v, run, Pair(Queued(DROP), Idle, 0, None, None), 0, DROP, Pair(Spinning(DROP), Idle, 0, Some(0), None));
    run := Step(v, run, Pair(Spinning(DROP), Idle, 0, Some(0), None), 0, DROP, Pair(Past(DROP), Idle, 0, Some(0), None));
  }

  /** A reader counts itself in meanwhile. */
  lemma ReaderIn(v: Variant) returns (run: Schedule)
    requires !v.atomic
    ensures Leads(v, run, Pair(Past(DROP), Probing(0, 0), 1, Some(0), None))
  {
    run := WriterPast(v);
    var w: Stage<nat, nat> := Past(DROP);
    run := Step(v, run, Pair(w, Idle, 0, Some(0), None), 1, ASK, Pair(w, Waiting(0), 0, Some(0), None));
    run := Step(v, run, Pair(w, Waiting(0), 0, Some(0), None), 1, ASK, Pair(w, Entering(0), 0, Some(0), None));
    run := Step(v, run, Pair(w, Entering(0), 0, Some(0), None), 1, ASK, Pair(w, Joining(0), 0, Some(0), Some(1)));
    run := Step(v, run, Pair(w, Joining(0), 0, Some(0), Some(1)), 1, ASK, Pair(w, Joined(0), 1, Some(0), Some(1)));
    run := Step(v, run, Pair(w, Joined(0), 1, Some(0), Some(1)), 1, ASK, Pair(w, Probing(0, 0), 1, Some(0), None));
  }

  /** The test apart from the lock: a reader comes in after the writer has seen none. */
  lemma ReaderSlipsIn(v: Variant) returns (run: Schedule)
    requires !v.atomic
    ensures exists s: Two :: Leads(v, run, s) && Broken(s)
  {
    run := ReaderIn(v);
    var r: Stage<nat, nat> := Probing(0, 0);
    run := Step(v, run, Pair(Past(DROP), r, 1, Some(0), None), 0, DROP, Pair(Marking(DROP), r, 1, Some(0), Some(0)));
    var w := Writing(DROP, Apply(Fresh(1), Same, DROP).1, Script(Fresh(1), Same, DROP));
    run := Step(v, run, Pair(Marking(DROP), r, 1, Some(0), Some(0)), 0, DROP, Pair(w, r, -1, Some(0), Some(0)));
    var s := Pair(w, r, -1, Some(0), Some(0));
    assert Marked(s.threads[0]) && Reading(s.threads[1]);
    assert Leads(v, run, s) && Broken(s);
  }

  /** Two puts look at the size while there is room for one. */
  lemma BothLook(v: Variant) returns (run: Schedule)
    ensures Leads(v, run, Pair(Queued(ONE), Queued(TWO), 0, None, None))
  {
    NoSteps(v);
    run := Step(v, [], Pair(Idle, Idle, 0, None, None), 0, ONE, Pair(Checking(ONE), Idle, 0, None, None));
    run := Step(v, run, Pair(Checking(ONE), Idle, 0, None, None), 0, ONE, Pair(Queued(ONE), Idle, 0, None, None));
    run := Step(v, run, Pair(Queued(ONE), Idle, 0, None, None), 1, TWO, Pair(Queued(ONE), Checking(TWO), 0, None, None));
    run := Step(v, run, Pair(Queued(ONE), Checking(TWO), 0, None, None), 1, TWO,
                Pair(Queued(ONE), Queued(TWO), 0, None, None));
  }

  /** The stores of the first put into the empty slot. */
  lemma FirstScript()
    ensures Apply(Fresh(1), Same, ONE) == ([Held(0, 0)], Flag(true))
    ensures Script(Fresh(1), Same, ONE) ==
            [Store(0, Node(Some(0), None, false)), Store(0, Held(0, 0)), Store(0, Held(0, 0))]
  {
    FreshIsEmpty<nat, nat>(1, Same);
    assert Fresh<nat, nat>(1) == [Blank()];
    assert Target(Fresh<nat, nat>(1), Same, 0) == 0;
    assert Fresh<nat, nat>(1)[0 := Held(0, 0)] == [Held(0, 0)];
  }

  lemma FirstMarks(v: Variant) returns (run: Schedule)
    requires v.atomic
    ensures Leads(v, run, Pair(Writing(ONE, Flag(true), Script(Fresh(1), Same, ONE)), Queued(TWO), -1, Some(0), Some(0)))
  {
    run := BothLook(v);
    FirstScript();
    var q: Stage<nat, nat> := Queued(TWO);
    run := Step(v, run, Pair(Queued(ONE), q, 0, None, None), 0, ONE, Pair(Spinning(ONE), q, 0, Some(0), None));
    run := Step(v, run, Pair(Spinning(ONE), q, 0, Some(0), None), 0, ONE, Pair(Marking(ONE), q, 0, Some(0), Some(0)));
    run := Step(v, run, Pair(Marking(ONE), q, 0, Some(0), Some(0)), 0, ONE,
                Pair(Writing(ONE, Flag(true), Script(Fresh(1), Same, ONE)), q, -1, Some(0), Some(0)));
  }

  /** The same two threads with n in the one slot. */
  function Full(a: Stage<nat, nat>, n: Node<nat, nat>): Two {
    State([a, Queued(TWO)], [n], 0, -1, Some(0), Some(0), [], [])
  }

  function Puts(todo: seq<Store<nat, nat>>): Stage<nat, nat> { Writing(ONE, Flag(true), todo) }

  lemma StorePlays(m: Node<nat, nat>, n: Node<nat, nat>)
    ensures Play([m], [Store(0, n)]) == [n]
  {
    assert [Store(0, n)] == [Store(0, n)] + [];
    PlayStep([m], Store(0, n), []);
    assert [m][0 := n] == [n];
  }

  lemma FirstStores(v: Variant) returns (run: Schedule)
    requires v.atomic
    ensures Leads(v, run, Full(Writing(ONE, Flag(true), []), Held(0, 0)))
  {
    run := FirstMarks(v);
    FirstScript();
    var n0: Node<nat, nat>, n1 := Node(Some(0), None, false), Held<nat, nat>(0, 0);
    assert Fresh<nat, nat>(1) == [Blank()];
    StorePlays(Blank(), n0);
    StorePlays(n0, n1);
    StorePlays(n1, n1);
    assert Full(Puts([Store(0, n0), Store(0, n1), Store(0, n1)]), Blank()) ==
           Pair(Puts(Script(Fresh(1), Same, ONE)), Queued(TWO), -1, Some(0), Some(0));
    run := Step(v, run, Full(Puts([Store(0, n0), Store(0, n1), Store(0, n1)]), Blank()), 0, ONE,
                Full(Puts([Store(0, n1), Store(0, n1)]), n0));
    run := Step(v, run, Full(Puts([Store(0, n1), Store(0, n1)]), n0), 0, ONE, Full(Puts([Store(0, n1)]), n1));
    run := Step(v, run, Full(Puts([Store(0, n1)]), n1), 0, ONE, Full(Puts([]), n1));
  }

  /** The first put has taken effect; the second has not got the lock yet. */
  function Ended(a: Stage<nat, nat>, readers: int, w: Option<nat>, f: Option<nat>): Two {
    State([a, Queued(TWO)], [Held(0, 0)], 1, readers, w, f, [ONE], [Flag(true)])
  }

  /** After the first put: one entry, and the second put still under way. */
  function After(b: Stage<nat, nat>, readers: int, w: Option<nat>, f: Option<nat>): Two {
    State([Idle, b], [Held(0, 0)], 1, readers, w, f, [ONE], [Flag(true)])
  }

  lemma FirstEnds(v: Variant) returns (run: Schedule)
    requires v.atomic
    ensures Leads(v, run, After(Queued(TWO), 0, None, None))
  {
    run := FirstStores(v);
    assert LiveCount([Held<nat, nat>(0, 0)]) == 1;
    run := Step(v, run, Full(Writing(ONE, Flag(true), []), Held(0, 0)), 0, ONE, Ended(Resetting, -1, Some(0), Some(0)));
    run := Step(v, run, Ended(Resetting, -1, Some(0), Some(0)), 0, ONE, Ended(Freeing, 0, Some(0), Some(0)));
    run := Step(v, run, Ended(Freeing, 0, Some(0), Some(0)), 0, ONE, Ended(Closing, 0, Some(0), None));
    run := Step(v, run, Ended(Closing, 0, Some(0), None), 0, ONE, After(Queued(TWO), 0, None, None));
  }

  /** The size looked at too early: the second put finds neither its key nor a free slot nor a tombstone. */
  lemma SecondPutCrashes(v: Variant) returns (run: Schedule)
    requires v.atomic && !v.recheck
    ensures exists s: Two :: Leads(v, run, s) && Broken(s)
  {
    run := FirstEnds(v);
    run := Step(v, run, After(Queued(TWO), 0, None, None), 1, TWO, After(Spinning(TWO), 0, Some(1), None));
    run := Step(v, run, After(Spinning(TWO), 0, Some(1), None), 1, TWO, After(Marking(TWO), 0, Some(1), Some(1)));
    assert Find([Held<nat, nat>(0, 0)], Same, 1) == None by {
      assert !CanPut([Held<nat, nat>(0, 0)][Slot(0, 0, 1)], 1) && Home(Same, 1, 1) == 0;
    }
    run := Step(v, run, After(Marking(TWO), 0, Some(1), Some(1)), 1, TWO, After(Crashed, -1, Some(1), Some(1)));
    var s := After(Crashed, -1, Some(1), Some(1));
    assert s.threads[1].Crashed?;
    assert Leads(v, run, s) && Broken(s);
  }

  // ---------- more threads, and fewer ----------

  /** The same state among n threads, of which the others are idle. */
  function Wide(s: State<nat, nat>, n: nat): State<nat, nat>
    requires |s.threads| <= n
  {
    s.(threads := s.threads + seq(n - |s.threads|, i => Idle))
  }

  lemma NextWide(v: Variant, s: State<nat, nat>, i: nat, call: Job<nat, nat>, n: nat)
    requires |s.table| > 0 && i < |s.threads| <= n
    ensures Next(v, Same, Wide(s, n), i, call) == Wide(Next(v, Same, s, i, call), n)
  {
    var s' := Next(v, Same, s, i, call);
    var w' := Next(v, Same, Wide(s, n), i, call);
    assert Wide(s, n).threads[i] == s.threads[i];
    assert w' == Wide(s, n).(threads := w'.threads, table := s'.table, size := s'.size, readers := s'.readers,
                             writeLock := s'.writeLock, fieldsLock := s'.fieldsLock,
                             jobs := s'.jobs, answers := s'.answers);
    assert w'.threads == Wide(s', n).threads;
  }

  /** Idle threads do not get in the way of a run. */
  lemma {:induction false} ExecWide(v: Variant, run: Schedule, n: nat)
    requires n >= 2 && forall k :: 0 <= k < |run| ==> run[k].thread < 2
    ensures Exec(v, Same, Start(n, 1), run) == Wide(Exec(v, Same, Start(2, 1), run), n)
    decreases |run|
  {
    if run == [] {
      assert Start<nat, nat>(n, 1).threads == Wide(Start(2, 1), n).threads;
    } else {
      var last := |run| - 1;
      ExecWide(v, run[..last], n);
      NextWide(v, Exec(v, Same, Start(2, 1), run[..last]), run[last].thread, run[last].call, n);
    }
  }

  lemma BrokenWide(s: State<nat, nat>, n: nat)
    requires |s.threads| <= n && Broken(s)
    ensures Broken(Wide(s, n))
  {
    var w := Wide(s, n);
    assert forall i :: 0 <= i < |s.threads| ==> w.threads[i] == s.threads[i];
  }

  /** A put whose look at the size let it through. */
  predicate Passed<K, V>(st: Stage<K, V>) {
    (st.Queued? || st.Spinning? || st.Past? || st.Marking?) && st.job.Put? && !st.job.force
  }

  predicate Content<K, V>(st: Stage<K, V>, size: nat, capacity: nat) {
    !st.Crashed? && (Passed(st) ==> size != capacity)
  }

  /** What holds of a thread that has the map to itself: the size it looked at is still the size. */
  predicate Alone<K, V>(s: State<K, V>) {
    |s.threads| <= 1 && |s.table| > 0 && (|s.threads| == 1 ==> Content(s.threads[0], s.size, |s.table|))
  }

  lemma MarkAlone<K, V>(v: Variant, s: State<K, V>, h: K -> nat, job: Job<K, V>)
    requires |s.threads| == 1 && |s.table| > 0 && s.threads[0] == Marking(job) && Alone(s)
    ensures Mark(v, s, h, 0, job).threads[0].Writing?
  {
  }

  lemma WriteAlone<K, V>(s: State<K, V>, job: Job<K, V>, a: Answer<K, V>, todo: seq<Store<K, V>>)
    requires |s.threads| == 1
    ensures var st := Write(s, 0, job, a, todo).threads[0]; st.Writing? || st.Resetting?
  {
  }

  /** Before the marks and after them the thread leaves the size alone. */
  lemma OtherAlone<K, V>(v: Variant, h: K -> nat, s: State<K, V>, call: Job<K, V>)
    requires Alone(s) && |s.threads| == 1 && !s.threads[0].Marking? && !s.threads[0].Writing?
    ensures Next(v, h, s, 0, call).size == s.size && Content(Next(v, h, s, 0, call).threads[0], s.size, |s.table|)
  {
  }

  lemma AloneKeeps<K, V>(v: Variant, h: K -> nat, s: State<K, V>, i: nat, call: Job<K, V>)
    requires Alone(s)
    ensures Alone(Next(v, h, s, i, call))
  {
    if i < |s.threads| {
      match s.threads[0]
      case Marking(job) => MarkAlone(v, s, h, job);
      case Writing(job, a, todo) => WriteAlone(s, job, a, todo);
      case _ => OtherAlone(v, h, s, call);
    }
  }

  lemma AloneNotBroken<K, V>(s: State<K, V>)
    requires Alone(s)
    ensures !Broken(s)
  {
  }

  lemma {:induction false} AloneAlways<K, V>(v: Variant, h: K -> nat, threads: nat, capacity: nat, run: seq<Choice<K, V>>)
    requires threads <= 1 && capacity > 0
    ensures Alone(Exec(v, h, Start(threads, capacity), run))
    decreases |run|
  {
    if run != [] {
      var last := |run| - 1;
      AloneAlways(v, h, threads, capacity, run[..last]);
      AloneKeeps(v, h, Exec(v, h, Start(threads, capacity), run[..last]), run[last].thread, run[last].call);
    }
  }

  /** Nothing goes wrong in any run of so many threads. */
  ghost predicate AlwaysSafe(v: Variant, threads: nat) {
    forall capacity: nat, run: Schedule :: capacity > 0 ==> !Broken(Exec(v, Same, Start(threads, capacity), run))
  }

  lemma Refuted(v: Variant, threads: nat, run: Schedule, s: Two)
    requires threads >= 2 && Leads(v, run, s) && Broken(s)
    ensures !AlwaysSafe(v, threads)
  {
    ExecWide(v, run, threads);
    BrokenWide(s, threads);
    assert Broken(Exec(v, Same, Start(threads, 1), run));
  }

  lemma SafeAlways(v: Variant, threads: nat)
    requires (v.atomic && v.recheck) || threads <= 1
    ensures AlwaysSafe(v, threads)
  {
    forall capacity: nat, run: Schedule | capacity > 0 ensures !Broken(Exec(v, Same, Start(threads, capacity), run)) {
      if threads <= 1 {
        AloneAlways(v, Same, threads, capacity, run);
        AloneNotBroken(Exec(v, Same, Start(threads, capacity), run));
      } else {
        assert v == Variant(true, true);
        Exclusion(Same, threads, capacity, run);
      }
    }
  }

  /** So many threads are safe over all runs exactly with both repairs, or if there is but one of them: with the
      locking of hashmap.c as it stands (and its counting repaired), exactly for callers that keep to one thread. */
  lemma SafeIff(v: Variant, threads: nat)
    ensures AlwaysSafe(v, threads) <==> (v.atomic && v.recheck) || threads <= 1
  {
    if (v.atomic && v.recheck) || threads <= 1 {
      SafeAlways(v, threads);
    } else {
      var run: Schedule;
      if v.atomic {
        run := SecondPutCrashes(v);
      } else {
        run := ReaderSlipsIn(v);
      }
      var s: Two :| Leads(v, run, s) && Broken(s);
      Refuted(v, threads, run, s);
    }
  }
}
