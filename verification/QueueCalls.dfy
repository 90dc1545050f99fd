/** Every call of enqueue and dequeue takes effect exactly once, between its begin and its return. */
module QueueCalls {

  import opened Counting
  import opened QueueThreads
  import opened Wrappers

  /** The call a thread has begun that has not taken effect yet: Some for the enqueue of an item, None for a dequeue. */
  function Open<T>(st: Stage<T>): seq<Option<T>> {
    match st
    case Arriving(x) => [Some(x)]
    case Filling(x) => [Some(x)]
    case Hoping => [None]
    case Entitled => [None]
    case Taking => [None]
    case _ => []
  }

  /** What a step of the run lets its thread begin. */
  function Begins<T>(s: State<T>, c: Choice<T>): seq<Option<T>> {
    if c.thread < |s.threads| && s.threads[c.thread].Idle? then [c.call] else []
  }

  /** The effects of a step: an item put into the list, or one taken off. */
  function Effects<T>(s: State<T>, s': State<T>): seq<Option<T>> {
    if |s.enqueued| < |s'.enqueued| then [Some(s'.enqueued[|s.enqueued|])]
    else if |s.removed| < |s'.removed| then [None]
    else []
  }

  /** The calls thread i has begun in a run, in order. */
  function Begun<T>(s: State<T>, run: seq<Choice<T>>, i: nat): seq<Option<T>>
    decreases |run|
  {
    if run == [] then []
    else
      var last := |run| - 1;
      Begun(s, run[..last], i) + if run[last].thread == i then Begins(Exec(s, run[..last]), run[last]) else []
  }

  /** The effects of the steps of thread i, in order. */
  function Done<T>(s: State<T>, run: seq<Choice<T>>, i: nat): seq<Option<T>>
    decreases |run|
  {
    if run == [] then []
    else
      var last := |run| - 1;
      Done(s, run[..last], i) + if run[last].thread == i then Effects(Exec(s, run[..last]), Exec(s, run)) else []
  }

  /** The list is never without a node. */
  lemma NodesThere<T>(s: State<T>)
    requires Inv(s)
    ensures s.nodes != []
  {
    CountBounds(s.threads, Owed);
  }

  /** A step begins a call, carries it on, or lets it take effect. */
  lemma StepDoes<T>(s: State<T>, i: nat, call: Option<T>)
    requires i < |s.threads| && s.nodes != []
    ensures var s' := Next(s, i, call);
            Open(s.threads[i]) + Begins(s, Choice(i, call)) == Effects(s, s') + Open(s'.threads[i])
  {
    var s', st := Next(s, i, call), s.threads[i];
    if st.Idle? {
      IdleDoes(s, i, call);
      Ends(Open(s'.threads[i]));
    } else if st.Filling? || st.Taking? {
      EffectDoes(s, i, call);
      Ends(Open(st));
    } else {
      QuietDoes(s, i, call);
      Ends(Open(st));
    }
  }

  lemma Ends<T>(a: seq<T>)
    ensures a + [] == a && [] + a == a
  {
  }

  lemma IdleDoes<T>(s: State<T>, i: nat, call: Option<T>)
    requires i < |s.threads| && s.threads[i].Idle?
    ensures var s' := Next(s, i, call);
            Open(s'.threads[i]) == [call] && Effects(s, s') == [] && Open(s.threads[i]) == []
  {
  }

  lemma EffectDoes<T>(s: State<T>, i: nat, call: Option<T>)
    requires i < |s.threads| && s.nodes != [] && (s.threads[i].Filling? || s.threads[i].Taking?)
    ensures var s' := Next(s, i, call);
            Effects(s, s') == Open(s.threads[i]) && Open(s'.threads[i]) == [] && !s.threads[i].Idle?
  {
  }

  lemma QuietDoes<T>(s: State<T>, i: nat, call: Option<T>)
    requires i < |s.threads| && !s.threads[i].Idle? && !s.threads[i].Filling? && !s.threads[i].Taking?
    ensures var s' := Next(s, i, call);
            Effects(s, s') == [] && Open(s'.threads[i]) == Open(s.threads[i])
  {
  }

  lemma OthersStay<T>(s: State<T>, i: nat, call: Option<T>)
    ensures forall j :: 0 <= j < |s.threads| && j != i ==> Next(s, i, call).threads[j] == s.threads[j]
  {
  }

  lemma Regroup<T>(a: seq<T>, b: seq<T>, c: seq<T>, d: seq<T>, e: seq<T>)
    requires b + c == d + e
    ensures (a + b) + c == (a + d) + e
  {
    assert (a + b) + c == a + (b + c) && (a + d) + e == a + (d + e);
  }

  lemma Unmoved<T>(a: seq<T>, b: seq<T>)
    ensures a + [] == a && b + [] == b
  {
  }

  /** The calls a thread has begun are those that took effect in its steps, in the same order, and the one it is at:
      an enqueue that is over has put its item into the list once, a dequeue that is over has taken one off. */
  lemma {:induction false} CallsTakeEffect<T>(threads: nat, run: seq<Choice<T>>, i: nat)
    requires i < threads
    ensures Begun(Start(threads), run, i) ==
            Done(Start(threads), run, i) + Open(Exec(Start(threads), run).threads[i])
    decreases |run|
  {
    if run != [] {
      var s0, last := Start<T>(threads), |run| - 1;
      var s, c := Exec(s0, run[..last]), run[last];
      CallsTakeEffect(threads, run[..last], i);
      ReachableInv(threads, run[..last]);
      NodesThere(s);
      OthersStay(s, c.thread, c.call);
      if c.thread == i {
        StepDoes(s, i, c.call);
        assert c == Choice(i, c.call);
        Regroup(Done(s0, run[..last], i), Open(s.threads[i]), Begins(s, c), Effects(s, Exec(s0, run)),
                Open(Exec(s0, run).threads[i]));
      } else {
        Unmoved(Begun(s0, run[..last], i), Done(s0, run[..last], i));
      }
    }
  }

  // ---------- all threads together ----------

  function IsOpen<T(==)>(call: Option<T>): Stage<T> -> bool { st => call in Open(st) }

  /** How many calls of this kind are begun and have not taken effect. */
  function OpenCount<T(==)>(threads: seq<Stage<T>>, call: Option<T>): nat {
    Count(threads, IsOpen(call))
  }

  /** How many calls of this kind are begun in a run. */
  function BegunCount<T(==)>(s: State<T>, run: seq<Choice<T>>, call: Option<T>): nat
    decreases |run|
  {
    if run == [] then 0
    else
      var last := |run| - 1;
      BegunCount(s, run[..last], call) + if call in Begins(Exec(s, run[..last]), run[last]) then 1 else 0
  }

  /** How many have taken effect. */
  function DoneCount<T(==)>(s: State<T>, call: Option<T>): nat {
    if call.Some? then multiset(s.enqueued)[call.value] else |s.removed|
  }

  lemma StepCounts<T>(s: State<T>, i: nat, call: Option<T>, of: Option<T>)
    requires i < |s.threads| && s.nodes != []
    ensures var s' := Next(s, i, call);
            DoneCount(s', of) == DoneCount(s, of) + if of in Effects(s, s') then 1 else 0
  {
  }

  lemma StepBalance<T>(s: State<T>, i: nat, call: Option<T>, of: Option<T>)
    requires i < |s.threads| && s.nodes != []
    ensures var s' := Next(s, i, call);
            OpenCount(s'.threads, of) + DoneCount(s', of) == OpenCount(s.threads, of) + DoneCount(s, of)
              + if of in Begins(s, Choice(i, call)) then 1 else 0
  {
    var s' := Next(s, i, call);
    StepDoes(s, i, call);
    StepCounts(s, i, call, of);
    OthersStay(s, i, call);
    CountUpdate(s.threads, IsOpen(of), i, s'.threads[i]);
    assert s'.threads == s.threads[i := s'.threads[i]];
    InOne(of, Open(s.threads[i]), Begins(s, Choice(i, call)), Effects(s, s'), Open(s'.threads[i]));
  }

  /** At most one call on either side, so they can be counted by whether they are there. */
  lemma InOne<T>(x: T, a: seq<T>, b: seq<T>, c: seq<T>, d: seq<T>)
    requires a + b == c + d && |a| + |b| <= 1
    ensures (if x in a then 1 else 0) + (if x in b then 1 else 0) == (if x in c then 1 else 0) + (if x in d then 1 else 0)
  {
    assert |a + b| == |c + d|;
    assert x in a + b <==> x in c + d;
  }

  /** Over every run: enqueues of an item begun are as many as the item was enqueued and enqueues of it still to take
      effect, and dequeues begun as many as items removed and dequeues still to take effect. */
  lemma {:induction false} NoCallLost<T>(threads: nat, run: seq<Choice<T>>, call: Option<T>)
    ensures var s := Exec(Start(threads), run);
            BegunCount(Start(threads), run, call) == DoneCount(s, call) + OpenCount(s.threads, call)
    decreases |run|
  {
    var s0 := Start<T>(threads);
    if run == [] {
      CountBounds(s0.threads, IsOpen(call));
    } else {
      var last := |run| - 1;
      var s, c := Exec(s0, run[..last]), run[last];
      NoCallLost(threads, run[..last], call);
      ReachableInv(threads, run[..last]);
      NodesThere(s);
      if c.thread < threads {
        StepBalance(s, c.thread, c.call, call);
        assert c == Choice(c.thread, c.call);
      }
    }
  }
}
