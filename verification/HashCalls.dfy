/** Every call of the readers/writer protocol takes effect exactly once, between its begin and its return. */
module HashCalls {

  import opened HashOps
  import opened HashThreads

  /** The call a thread has begun that has not taken effect yet. */
  function Open<K, V>(st: Stage<K, V>): seq<Job<K, V>> {
    match st
    case Idle => []
    case Waiting(k) => [Get(k)]
    case Entering(k) => [Get(k)]
    case Joining(k) => [Get(k)]
    case Joined(k) => [Get(k)]
    case Probing(k, _) => [Get(k)]
    case Leaving(k, _) => [Get(k)]
    case Parting(k, _) => [Get(k)]
    case Parted => []
    case Checking(job) => [job]
    case Queued(job) => [job]
    case Spinning(job) => [job]
    case Past(job) => [job]
    case Marking(job) => [job]
    case Writing(job, _, _) => [job]
    case Resetting => []
    case Freeing => []
    case Closing => []
    case Crashed => []
  }

  /** What the last step of the run let its thread begin. */
  function Begins<K, V>(s: State<K, V>, c: Choice<K, V>): seq<Job<K, V>> {
    if c.thread < |s.threads| && s.threads[c.thread].Idle? then [c.call] else []
  }

  /** The calls thread i has begun in a run, in order. */
  function Begun<K(==), V>(v: Variant, h: K -> nat, s: State<K, V>, run: seq<Choice<K, V>>, i: nat): seq<Job<K, V>>
    requires |s.table| > 0
    decreases |run|
  {
    if run == [] then []
    else
      var last := |run| - 1;
      Begun(v, h, s, run[..last], i)
      + if run[last].thread == i then Begins(Exec(v, h, s, run[..last]), run[last]) else []
  }

  /** What the steps of thread i have added to the log, in order. */
  function Logged<K(==), V>(v: Variant, h: K -> nat, s: State<K, V>, run: seq<Choice<K, V>>, i: nat): seq<Job<K, V>>
    requires |s.table| > 0
    decreases |run|
  {
    if run == [] then []
    else
      var last := |run| - 1;
      var was, now := Exec(v, h, s, run[..last]).jobs, Exec(v, h, s, run).jobs;
      Logged(v, h, s, run[..last], i) + if run[last].thread == i && |was| <= |now| then now[|was|..] else []
  }

  /** The log grows by these calls in one step of thread i. */
  ghost predicate Grows<K, V>(s: State<K, V>, s': State<K, V>, more: seq<Job<K, V>>) {
    s'.jobs == s.jobs + more
  }

  /** A step moves no other thread, and crashed threads not at all. */
  lemma OthersStay<K, V>(v: Variant, h: K -> nat, s: State<K, V>, i: nat, call: Job<K, V>)
    requires |s.table| > 0
    ensures forall j :: 0 <= j < |s.threads| && j != i ==> Next(v, h, s, i, call).threads[j] == s.threads[j]
    ensures i < |s.threads| && s.threads[i].Crashed? ==> Next(v, h, s, i, call) == s
  {
    if i < |s.threads| {
      OneMoves(v, h, s, i, call);
    }
  }

  lemma OneMoves<K, V>(v: Variant, h: K -> nat, s: State<K, V>, i: nat, call: Job<K, V>)
    requires |s.table| > 0 && i < |s.threads|
    ensures Next(v, h, s, i, call).threads == s.threads[i := Next(v, h, s, i, call).threads[i]]
  {
    assert s.threads == s.threads[i := s.threads[i]];
  }

  /** A call that takes effect in this step is logged by it; nothing else is. */
  function Effect<K, V>(before: Stage<K, V>, after: Stage<K, V>): seq<Job<K, V>> {
    if Open(before) != [] && Open(after) == [] then Open(before) else []
  }

  lemma WriterLogs<K, V>(v: Variant, h: K -> nat, s: State<K, V>, i: nat, call: Job<K, V>)
    requires |s.table| > 0 && i < |s.threads|
    requires var st := s.threads[i]; st.Checking? || st.Queued? || st.Spinning? || st.Past? || st.Marking? || st.Writing?
    requires !Next(v, h, s, i, call).threads[i].Crashed?
    ensures var s' := Next(v, h, s, i, call);
            Grows(s, s', Effect(s.threads[i], s'.threads[i]))
            && (Open(s'.threads[i]) == [] || Open(s'.threads[i]) == Open(s.threads[i]))
  {
  }

  lemma ReaderLogs<K, V>(v: Variant, h: K -> nat, s: State<K, V>, i: nat, call: Job<K, V>)
    requires |s.table| > 0 && i < |s.threads|
    requires var st := s.threads[i];
             st.Waiting? || st.Entering? || st.Joining? || st.Joined? || st.Probing? || st.Leaving? || st.Parting?
    ensures var s' := Next(v, h, s, i, call);
            Grows(s, s', Effect(s.threads[i], s'.threads[i]))
            && (Open(s'.threads[i]) == [] || Open(s'.threads[i]) == Open(s.threads[i]))
  {
  }

  lemma RestLogs<K, V>(v: Variant, h: K -> nat, s: State<K, V>, i: nat, call: Job<K, V>)
    requires |s.table| > 0 && i < |s.threads| && Open(s.threads[i]) == []
    ensures var s' := Next(v, h, s, i, call);
            s'.jobs == s.jobs && Open(s'.threads[i]) == Begins(s, Choice(i, call))
  {
  }

  /** A step begins a call, carries it on, or logs it. */
  lemma StepLogs<K, V>(v: Variant, h: K -> nat, s: State<K, V>, i: nat, call: Job<K, V>) returns (more: seq<Job<K, V>>)
    requires |s.table| > 0 && i < |s.threads| && !Next(v, h, s, i, call).threads[i].Crashed?
    ensures var s' := Next(v, h, s, i, call);
            Grows(s, s', more) && Open(s.threads[i]) + Begins(s, Choice(i, call)) == more + Open(s'.threads[i])
  {
    var st := s.threads[i];
    if Open(st) == [] {
      RestLogs(v, h, s, i, call);
      more := [];
      assert s.jobs + [] == s.jobs;
    } else {
      if st.Checking? || st.Queued? || st.Spinning? || st.Past? || st.Marking? || st.Writing? {
        WriterLogs(v, h, s, i, call);
      } else {
        ReaderLogs(v, h, s, i, call);
      }
      more := Effect(st, Next(v, h, s, i, call).threads[i]);
      Unmoved(Open(st), [] + Open(st));
    }
  }

  lemma Regroup<T>(a: seq<T>, b: seq<T>, c: seq<T>, d: seq<T>, e: seq<T>)
    requires b + c == d + e
    ensures (a + b) + c == (a + d) + e
  {
    assert (a + b) + c == a + (b + c) && (a + d) + e == a + (d + e);
  }

  /** The calls a thread has begun are those its steps have logged, in the same order, and the one it is at: a call
      that is over is in the log once, put there between its begin and its return. */
  lemma {:induction false} CallsTakeEffect<K, V>(
      v: Variant, h: K -> nat, threads: nat, capacity: nat, run: seq<Choice<K, V>>, i: nat)
    requires capacity > 0 && i < threads && !Exec(v, h, Start(threads, capacity), run).threads[i].Crashed?
    ensures Begun(v, h, Start(threads, capacity), run, i) ==
            Logged(v, h, Start(threads, capacity), run, i) + Open(Exec(v, h, Start(threads, capacity), run).threads[i])
    decreases |run|
  {
    if run != [] {
      var s0, last := Start<K, V>(threads, capacity), |run| - 1;
      var s, c := Exec(v, h, s0, run[..last]), run[last];
      OthersStay(v, h, s, c.thread, c.call);
      CallsTakeEffect(v, h, threads, capacity, run[..last], i);
      if c.thread == i {
        var now := Exec(v, h, s0, run);
        var more := StepLogs(v, h, s, i, c.call);
        assert now.jobs[|s.jobs|..] == more;
        assert c == Choice(i, c.call);
        Regroup(Logged(v, h, s0, run[..last], i), Open(s.threads[i]), Begins(s, c), more, Open(now.threads[i]));
      } else {
        Unmoved(Begun(v, h, s0, run[..last], i), Logged(v, h, s0, run[..last], i));
      }
    }
  }

  lemma Unmoved<T>(a: seq<T>, b: seq<T>)
    ensures a + [] == a && b + [] == b
  {
  }

  // ---------- all threads together ----------

  /** All calls begun in a run. */
  function AllBegun<K(==), V(==)>(v: Variant, h: K -> nat, s: State<K, V>, run: seq<Choice<K, V>>): multiset<Job<K, V>>
    requires |s.table| > 0
    decreases |run|
  {
    if run == [] then multiset{}
    else
      var last := |run| - 1;
      AllBegun(v, h, s, run[..last]) + multiset(Begins(Exec(v, h, s, run[..last]), run[last]))
  }

  /** All calls under way that have not taken effect yet. */
  function AllOpen<K(==), V(==)>(threads: seq<Stage<K, V>>): multiset<Job<K, V>> {
    if threads == [] then multiset{} else multiset(Open(threads[0])) + AllOpen(threads[1..])
  }

  lemma Exchange<T>(a: multiset<T>, b: multiset<T>, c: multiset<T>)
    ensures (a + b) + c == (c + b) + a
  {
  }

  lemma Add<T>(x: multiset<T>, a: multiset<T>, b: multiset<T>, c: multiset<T>, d: multiset<T>)
    requires a + b == c + d
    ensures (x + a) + b == (x + c) + d
  {
    assert (x + a) + b == x + (a + b) && (x + c) + d == x + (c + d);
  }

  lemma {:induction false} OpenUpdate<K, V>(threads: seq<Stage<K, V>>, i: nat, st: Stage<K, V>)
    requires i < |threads|
    ensures AllOpen(threads[i := st]) + multiset(Open(threads[i])) == AllOpen(threads) + multiset(Open(st))
    decreases |threads|
  {
    var more := threads[i := st];
    if i == 0 {
      assert more[1..] == threads[1..];
      Exchange(multiset(Open(st)), AllOpen(threads[1..]), multiset(Open(threads[0])));
    } else {
      var rest := threads[1..];
      assert more[1..] == rest[i - 1 := st] && more[0] == threads[0];
      OpenUpdate(rest, i - 1, st);
      Add(multiset(Open(threads[0])), AllOpen(rest[i - 1 := st]), multiset(Open(threads[i])), AllOpen(rest),
          multiset(Open(st)));
    }
  }

  lemma {:induction false} NoneOpen<K, V>(threads: seq<Stage<K, V>>)
    requires forall i :: 0 <= i < |threads| ==> threads[i].Idle?
    ensures AllOpen(threads) == multiset{}
    decreases |threads|
  {
    if threads != [] {
      NoneOpen(threads[1..]);
    }
  }

  lemma StepBalance<K, V>(v: Variant, h: K -> nat, s: State<K, V>, c: Choice<K, V>)
    requires |s.table| > 0
    requires forall i :: 0 <= i < |s.threads| ==> !Next(v, h, s, c.thread, c.call).threads[i].Crashed?
    ensures var s' := Next(v, h, s, c.thread, c.call);
            multiset(s.jobs) + AllOpen(s.threads) + multiset(Begins(s, c)) == multiset(s'.jobs) + AllOpen(s'.threads)
  {
    var s', i := Next(v, h, s, c.thread, c.call), c.thread;
    OthersStay(v, h, s, i, c.call);
    if i < |s.threads| {
      assert s'.threads == s.threads[i := s'.threads[i]];
      OpenUpdate(s.threads, i, s'.threads[i]);
      var more := StepLogs(v, h, s, i, c.call);
      assert c == Choice(i, c.call);
      Balance(s.jobs, AllOpen(s.threads), AllOpen(s'.threads), Open(s.threads[i]), Begins(s, c), more,
              Open(s'.threads[i]));
    }
  }

  lemma Balance<T>(jobs: seq<T>, a: multiset<T>, b: multiset<T>, o: seq<T>, n: seq<T>, more: seq<T>, o': seq<T>)
    requires b + multiset(o) == a + multiset(o') && o + n == more + o'
    ensures multiset(jobs) + a + multiset(n) == multiset(jobs + more) + b
  {
    assert multiset(o + n) == multiset(o) + multiset(n) && multiset(more + o') == multiset(more) + multiset(o');
    var l, r := multiset(jobs) + a + multiset(n), multiset(jobs) + multiset(more) + b;
    forall x: T ensures l[x] == r[x] {
      assert (b + multiset(o))[x] == (a + multiset(o'))[x];
      assert (multiset(o) + multiset(n))[x] == (multiset(more) + multiset(o'))[x];
    }
    assert l == r;
  }

  /** Over every run of the repaired protocol: the calls begun are the logged ones and those still to take effect. */
  lemma {:induction false} NoCallLost<K, V>(h: K -> nat, threads: nat, capacity: nat, run: seq<Choice<K, V>>)
    requires capacity > 0
    ensures var s := Exec(Variant(true, true), h, Start(threads, capacity), run);
            AllBegun(Variant(true, true), h, Start(threads, capacity), run) == multiset(s.jobs) + AllOpen(s.threads)
    decreases |run|
  {
    var v, s0 := Variant(true, true), Start<K, V>(threads, capacity);
    if run == [] {
      NoneOpen(s0.threads);
    } else {
      var last := |run| - 1;
      NoCallLost(h, threads, capacity, run[..last]);
      ReachableInv(h, threads, capacity, run);
      NoneCrashed(Exec(v, h, s0, run), h);
      StepBalance(v, h, Exec(v, h, s0, run[..last]), run[last]);
    }
  }

  lemma NoneCrashed<K, V>(s: State<K, V>, h: K -> nat)
    requires Inv(s, h)
    ensures forall i :: 0 <= i < |s.threads| ==> !s.threads[i].Crashed?
  {
    forall i | 0 <= i < |s.threads| ensures !s.threads[i].Crashed? {
      assert ThreadOk(s, h, i);
    }
  }
}
