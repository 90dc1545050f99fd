/** Any number of threads at the queue: the semaphore, the lock, and the list step by step. */
module QueueThreads {

  import opened Counting
  import opened Wrappers

  /** Where a thread is in its call. */
  datatype Stage<T> =
    | Idle
    | Arriving(item: T)      // enqueue: wants the lock
    | Filling(item: T)       // holds it; the item goes into the sentinel
    | Linking                // holds it; a new sentinel goes behind
    | Posting                // holds it; Sem_post
    | Releasing              // holds it; unlocks
    | Hoping                 // dequeue: in Sem_wait
    | Entitled               // past Sem_wait, wants the lock
    | Taking                 // holds it; unlinks the rear node
    | Taken(got: Option<T>)  // holds it; unlocks and returns the item

  /** nodes lists the item fields from rear to front; enqueued and removed log the items in lock order. */
  datatype State<T> = State(
    threads: seq<Stage<T>>, nodes: seq<Option<T>>, sem: nat, lock: Option<nat>, enqueued: seq<T>, removed: seq<Option<T>>)

  predicate Holds<T>(st: Stage<T>) {
    st.Filling? || st.Linking? || st.Posting? || st.Releasing? || st.Taking? || st.Taken?
  }

  /** Past Sem_wait, with nothing removed yet. */
  predicate Owed<T>(st: Stage<T>) { st.Entitled? || st.Taking? }

  function Start<T>(threads: nat): State<T> {
    State(seq(threads, i => Idle), [None], 0, None, [], [])
  }

  function Move<T>(s: State<T>, i: nat, st: Stage<T>): State<T>
    requires i < |s.threads|
  {
    s.(threads := s.threads[i := st])
  }

  /** Thread i takes its next step, or stays where it is if the lock or the semaphore holds it;
      an idle thread begins an enqueue of call, or a dequeue if there is none. */
  function Next<T>(s: State<T>, i: nat, call: Option<T>): (s': State<T>)
    ensures |s'.threads| == |s.threads|
  {
    if i >= |s.threads| then s
    else match s.threads[i]
      case Idle => Move(s, i, if call.Some? then Arriving(call.value) else Hoping)
      case Arriving(x) => if s.lock.Some? then s else Move(s, i, Filling(x)).(lock := Some(i))
      case Filling(x) =>
        var front := |s.nodes| - 1;
        if s.nodes == [] then s
        else Move(s, i, Linking).(nodes := s.nodes[front := Some(x)], enqueued := s.enqueued + [x])
      case Linking => Move(s, i, Posting).(nodes := s.nodes + [None])
      case Posting => Move(s, i, Releasing).(sem := s.sem + 1)
      case Releasing => Move(s, i, Idle).(lock := None)
      case Hoping => if s.sem == 0 then s else Move(s, i, Entitled).(sem := s.sem - 1)
      case Entitled => if s.lock.Some? then s else Move(s, i, Taking).(lock := Some(i))
      case Taking =>
        if s.nodes == [] then s
        else Move(s, i, Taken(s.nodes[0])).(nodes := s.nodes[1..], removed := s.removed + [s.nodes[0]])
      case Taken(_) => Move(s, i, Idle).(lock := None)
  }

  datatype Choice<T> = Choice(thread: nat, call: Option<T>)

  function Exec<T>(s: State<T>, run: seq<Choice<T>>): (s': State<T>)
    ensures |s'.threads| == |s.threads|
    decreases |run|
  {
    if run == [] then s
    else
      var last := |run| - 1;
      Next(Exec(s, run[..last]), run[last].thread, run[last].call)
  }

  // ---------- the invariant ----------

  /** The stage of the thread that holds the lock. */
  function Holder<T>(s: State<T>): Stage<T> {
    if s.lock.Some? && s.lock.value < |s.threads| then s.threads[s.lock.value] else Idle
  }

  /** How many items the list holds; the sentinel, and while a node is missing none, is not counted. */
  function Length<T>(s: State<T>): int {
    |s.nodes| - if Holder(s).Linking? then 0 else 1
  }

  function Somes<T>(xs: seq<T>): (r: seq<Option<T>>)
    ensures |r| == |xs| && forall i :: 0 <= i < |xs| ==> r[i] == Some(xs[i])
  {
    seq(|xs|, i requires 0 <= i < |xs| => Some(xs[i]))
  }

  ghost predicate ThreadOk<T>(s: State<T>, i: nat)
    requires i < |s.threads|
  {
    Holds(s.threads[i]) <==> s.lock == Some(i)
  }

  ghost predicate LocksOk<T>(s: State<T>) {
    && (s.lock.Some? ==> s.lock.value < |s.threads|)
    && (forall i :: 0 <= i < |s.threads| ==> ThreadOk(s, i))
  }

  function Sentinel<T>(s: State<T>): seq<Option<T>> {
    if Holder(s).Linking? then [] else [None]
  }

  /** What was enqueued is what was removed and then what is there, in this order. */
  ghost predicate ListOk<T>(s: State<T>) {
    s.removed + s.nodes == Somes(s.enqueued) + Sentinel(s)
  }

  /** Each item in the list is posted, claimed by a dequeuer, or about to be posted. */
  ghost predicate CountOk<T>(s: State<T>) {
    Length(s) == s.sem + Count(s.threads, Owed) + (if Holder(s).Linking? || Holder(s).Posting? then 1 else 0)
  }

  ghost predicate Inv<T>(s: State<T>) {
    LocksOk(s) && ListOk(s) && CountOk(s)
  }

  lemma LocksKeep<T>(s: State<T>, i: nat, call: Option<T>)
    requires Inv(s) && i < |s.threads|
    ensures LocksOk(Next(s, i, call))
  {
    var s' := Next(s, i, call);
    forall j | 0 <= j < |s'.threads| ensures ThreadOk(s', j) {
      assert ThreadOk(s, j) && ThreadOk(s, i);
    }
  }

  /** Who holds the lock after the step, seen from thread i. */
  lemma HolderAfter<T>(s: State<T>, i: nat, call: Option<T>)
    requires Inv(s) && i < |s.threads|
    ensures var s' := Next(s, i, call);
            (Holds(s.threads[i]) ==> Holder(s) == s.threads[i])
            && (Holds(s'.threads[i]) ==> Holder(s') == s'.threads[i])
            && (!Holds(s.threads[i]) && !Holds(s'.threads[i]) ==> Holder(s') == Holder(s))
            && (!Holds(s'.threads[i]) && Holds(s.threads[i]) ==> !Holds(Holder(s')))
            && (Holds(s'.threads[i]) && !Holds(s.threads[i]) ==> !Holds(Holder(s)))
  {
    LocksKeep(s, i, call);
    var s' := Next(s, i, call);
    assert ThreadOk(s, i) && ThreadOk(s', i);
  }

  /** The claims after a step: one more past Sem_wait, one less when an item is taken. */
  lemma OwedAfter<T>(s: State<T>, i: nat, call: Option<T>)
    requires i < |s.threads|
    ensures Count(Next(s, i, call).threads, Owed) ==
            Count(s.threads, Owed)
            - (if Owed(s.threads[i]) then 1 else 0) + (if Owed(Next(s, i, call).threads[i]) then 1 else 0)
  {
    CountUpdate(s.threads, Owed, i, Next(s, i, call).threads[i]);
  }

  lemma CountKeeps<T>(s: State<T>, i: nat, call: Option<T>)
    requires Inv(s) && i < |s.threads|
    ensures CountOk(Next(s, i, call))
  {
    HolderAfter(s, i, call);
    OwedAfter(s, i, call);
    CountBounds(s.threads, Owed);
  }

  lemma FrontEqual<T>(a: seq<T>, x: T, b: seq<T>, y: T)
    requires a + [x] == b + [y]
    ensures a == b
  {
    assert a == (a + [x])[..|a|] && b == (b + [y])[..|b|];
    assert |a + [x]| == |b + [y]|;
  }

  lemma FillKeeps<T>(s: State<T>, i: nat, call: Option<T>)
    requires Inv(s) && i < |s.threads| && s.threads[i].Filling?
    ensures ListOk(Next(s, i, call))
  {
    HolderAfter(s, i, call);
    CountBounds(s.threads, Owed);
    var s' := Next(s, i, call);
    var front := |s.nodes| - 1;
    var x := s.threads[i].item;
    assert s.removed + s.nodes == (s.removed + s.nodes[..front]) + [s.nodes[front]];
    FrontEqual(s.removed + s.nodes[..front], s.nodes[front], Somes(s.enqueued), None);
    assert s'.nodes == s.nodes[..front] + [Some(x)];
    assert s'.removed + s'.nodes == (s.removed + s.nodes[..front]) + [Some(x)];
    assert Somes(s.enqueued + [x]) == Somes(s.enqueued) + [Some(x)];
  }

  /** The removed item was not the sentinel: the claims of the dequeuers never exceed the list. */
  lemma TakesItem<T>(s: State<T>, i: nat)
    requires Inv(s) && i < |s.threads| && s.threads[i].Taking?
    ensures |s.nodes| > 1 && |s.removed| < |s.enqueued|
    ensures s.nodes[0] == Some(s.enqueued[|s.removed|])
  {
    HolderAfter(s, i, None);
    CountBounds(s.threads, Owed);
    assert (s.removed + s.nodes)[|s.removed|] == s.nodes[0];
  }

  lemma ListKeeps<T>(s: State<T>, i: nat, call: Option<T>)
    requires Inv(s) && i < |s.threads| && !s.threads[i].Filling?
    ensures ListOk(Next(s, i, call))
  {
    HolderAfter(s, i, call);
    var s' := Next(s, i, call);
    if s.threads[i].Linking? {
      assert s'.removed + s'.nodes == (s.removed + s.nodes) + [None];
      assert Somes(s.enqueued) + [] == Somes(s.enqueued);
    } else if s.threads[i].Taking? {
      TakesItem(s, i);
      assert s'.removed + s'.nodes == s.removed + s.nodes;
    }
  }

  lemma StepKeeps<T>(s: State<T>, i: nat, call: Option<T>)
    requires Inv(s)
    ensures Inv(Next(s, i, call))
  {
    if i < |s.threads| {
      LocksKeep(s, i, call);
      CountKeeps(s, i, call);
      if s.threads[i].Filling? { FillKeeps(s, i, call); } else { ListKeeps(s, i, call); }
    }
  }

  lemma {:induction false} ReachableInv<T>(threads: nat, run: seq<Choice<T>>)
    ensures Inv(Exec(Start(threads), run))
    decreases |run|
  {
    if run == [] {
      var s := Start<T>(threads);
      CountBounds(s.threads, Owed);
      assert forall i :: 0 <= i < threads ==> ThreadOk(s, i);
    } else {
      var last := |run| - 1;
      ReachableInv(threads, run[..last]);
      StepKeeps(Exec(Start(threads), run[..last]), run[last].thread, run[last].call);
    }
  }

  // ---------- what this means for every run ----------

  /** The list is as long as the semaphore and the dequeuers past it say, with one more while a node waits for
      its post. */
  lemma LengthIsClaims<T>(threads: nat, run: seq<Choice<T>>)
    ensures var s := Exec(Start(threads), run);
            CountOk(s) && (!Holds(Holder(s)) ==> |s.nodes| == 1 + s.sem + Count(s.threads, Owed))
  {
    ReachableInv(threads, run);
  }

  /** The items removed are a prefix of those enqueued, each once and in lock order; none of them is the
      sentinel's null. */
  lemma RemovedIsPrefix<T>(threads: nat, run: seq<Choice<T>>)
    ensures var s := Exec(Start(threads), run);
            |s.removed| <= |s.enqueued| && s.removed == Somes(s.enqueued[..|s.removed|])
  {
    var s := Exec(Start<T>(threads), run);
    ReachableInv(threads, run);
    CountBounds(s.threads, Owed);
    assert |s.removed + s.nodes| == |Somes(s.enqueued) + Sentinel(s)|;
    assert s.removed == (s.removed + s.nodes)[..|s.removed|];
  }

  /** The item in the hands of thread i is the one taken off last. */
  ghost predicate GotOk<T>(s: State<T>, i: nat)
    requires i < |s.threads|
  {
    s.threads[i].Taken? ==> s.removed != [] && s.threads[i].got == s.removed[|s.removed| - 1] && s.threads[i].got.Some?
  }

  lemma GotStep<T>(s: State<T>, j: nat, call: Option<T>, i: nat)
    requires Inv(s) && i < |s.threads| && GotOk(s, i)
    ensures GotOk(Next(s, j, call), i)
  {
    if j < |s.threads| {
      assert ThreadOk(s, i) && ThreadOk(s, j);
      if s.threads[j].Taking? { TakesItem(s, j); }
    }
  }

  /** A dequeue hands out the item it took off. */
  lemma {:induction false} HandsOut<T>(threads: nat, run: seq<Choice<T>>, i: nat)
    requires i < threads
    ensures GotOk(Exec(Start(threads), run), i)
    decreases |run|
  {
    if run != [] {
      var last := |run| - 1;
      ReachableInv(threads, run[..last]);
      HandsOut(threads, run[..last], i);
      GotStep(Exec(Start(threads), run[..last]), run[last].thread, run[last].call, i);
    }
  }

  /** No wakeup is lost: when every call is over or waits in Sem_wait, all items are there for the taking,
      so a dequeue waits only at an empty queue. */
  lemma NoLostItem<T>(threads: nat, run: seq<Choice<T>>)
    requires var s := Exec(Start(threads), run);
             forall i :: 0 <= i < threads ==> s.threads[i].Idle? || s.threads[i].Hoping?
    ensures var s := Exec(Start(threads), run);
            s.sem == |s.enqueued| - |s.removed| && s.nodes == Somes(s.enqueued[|s.removed|..]) + [None]
  {
    var s := Exec(Start(threads), run);
    ReachableInv(threads, run);
    RemovedIsPrefix(threads, run);
    CountBounds(s.threads, Owed);
    assert s.lock.Some? ==> ThreadOk(s, s.lock.value);
    assert |s.removed + s.nodes| == |s.enqueued| + 1;
    assert s.nodes == (s.removed + s.nodes)[|s.removed|..];
    assert Somes(s.enqueued) == s.removed + Somes(s.enqueued[|s.removed|..]);
  }
}
