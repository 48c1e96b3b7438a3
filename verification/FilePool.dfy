/** The pool of file handles: a mutex and a condition variable, as steps of calls that interleave in any order. */
module FilePool {
  import opened Package

  /**
   * The pool and the calls of `acquire`: those about to take the lock, those that wait on the condition variable, those
   * that were woken and have to take the lock again, and those whose handle has not been dropped. Files are numbered in
   * the order in which they were opened.
   */
  datatype Pool = Pool(
    availableFiles: seq<nat>,
    activeCount: nat,
    maxHandles: nat,
    trying: set<nat>,
    asleep: set<nat>,
    woken: set<nat>,
    held: map<nat, nat>)

  function NewPool(maxHandles: nat): Pool {
    Pool([], 0, maxHandles, {}, {}, {}, map[])
  }

  /** One critical section, or something outside the pool's control. */
  datatype Event =
    | Begin(call: nat)
    | Attempt(call: nat, opens: bool)
    | Return(call: nat, wakes: Option<nat>)
    | WakeSpuriously(call: nat)

  predicate Fresh(s: Pool, call: nat) {
    call !in s.trying && call !in s.asleep && call !in s.woken && call !in s.held
  }

  predicate Enabled(s: Pool, e: Event) {
    match e
    case Begin(c) => Fresh(s, c)
    case Attempt(c, _) => c in s.trying || c in s.woken
    case Return(c, wakes) =>
      c in s.held && (if s.asleep == {} then wakes.None? else wakes.Some? && wakes.value in s.asleep)
    case WakeSpuriously(c) => c in s.asleep
  }

  function After(s: Pool, e: Event): Pool
    requires Enabled(s, e)
  {
    match e
    case Begin(c) => s.(trying := s.trying + {c})
    case Attempt(c, opens) =>
      var t := s.(trying := s.trying - {c}, woken := s.woken - {c});
      if s.availableFiles != [] then
        t.(availableFiles := s.availableFiles[1..], held := s.held[c := s.availableFiles[0]])
      else if s.activeCount < s.maxHandles then
        if opens then t.(activeCount := s.activeCount + 1, held := s.held[c := s.activeCount]) else t
      else
        t.(asleep := s.asleep + {c})
    case Return(c, wakes) =>
      var t := s.(availableFiles := s.availableFiles + [s.held[c]], held := s.held - {c});
      if wakes.Some? then t.(asleep := s.asleep - {wakes.value}, woken := s.woken + {wakes.value}) else t
    case WakeSpuriously(c) => s.(asleep := s.asleep - {c}, woken := s.woken + {c})
  }

  /** Any interleaving. */
  ghost predicate Runs(s: Pool, events: seq<Event>, s': Pool)
    decreases |events|
  {
    if events == [] then s' == s else Enabled(s, events[0]) && Runs(After(s, events[0]), events[1..], s')
  }

  ghost predicate Reachable(maxHandles: nat, s: Pool) {
    exists events :: Runs(NewPool(maxHandles), events, s)
  }

  // ---- What every step keeps ----

  /** Idle and held handles are the active ones, within the limit. */
  ghost predicate Accounted(s: Pool) {
    |s.availableFiles| + |s.held| == s.activeCount <= s.maxHandles
  }

  /** Every file is idle once or held by one call, never both. */
  ghost predicate OneOwner(s: Pool) {
    && (forall i :: 0 <= i < |s.availableFiles| ==> s.availableFiles[i] < s.activeCount)
    && (forall c :: c in s.held ==> s.held[c] < s.activeCount && s.held[c] !in s.availableFiles)
    && Distinct(s.availableFiles)
    && (forall c, d :: c in s.held && d in s.held && s.held[c] == s.held[d] ==> c == d)
  }

  /** A call is in one phase at a time. */
  ghost predicate OnePhase(s: Pool) {
    && s.trying !! s.asleep && s.trying !! s.woken && s.asleep !! s.woken
    && s.held.Keys !! s.trying && s.held.Keys !! s.asleep && s.held.Keys !! s.woken
  }

  /** While a call sleeps all handles are open, and for every idle one a woken call has yet to run. */
  ghost predicate NoLostWakeUp(s: Pool) {
    s.asleep != {} ==> s.activeCount == s.maxHandles && |s.availableFiles| <= |s.woken|
  }

  ghost predicate Invariant(s: Pool) {
    Accounted(s) && OneOwner(s) && OnePhase(s) && NoLostWakeUp(s)
  }

  lemma {:induction false} RemoveKey(m: map<nat, nat>, c: nat)
    requires c in m
    ensures |m - {c}| == |m| - 1
  {
    assert (m - {c}).Keys == m.Keys - {c};
    assert |m.Keys| == |m| && |(m - {c}).Keys| == |m - {c}|;
  }

  lemma {:induction false} AddKey(m: map<nat, nat>, c: nat, f: nat)
    requires c !in m
    ensures |m[c := f]| == |m| + 1
  {
    assert m[c := f].Keys == m.Keys + {c};
    assert |m.Keys| == |m| && |m[c := f].Keys| == |m[c := f]|;
  }

  lemma {:induction false} RemovePossible(s: set<nat>, c: nat)
    ensures |s - {c}| == if c in s then |s| - 1 else |s|
  {
    if c !in s {
      assert s - {c} == s;
    }
  }

  lemma {:induction false} AttemptKeeps(s: Pool, c: nat, opens: bool)
    requires Invariant(s) && Enabled(s, Attempt(c, opens))
    ensures Invariant(After(s, Attempt(c, opens)))
  {
    RemovePossible(s.woken, c);
    var t := After(s, Attempt(c, opens));
    if s.availableFiles != [] {
      AddKey(s.held, c, s.availableFiles[0]);
      assert forall i :: 0 <= i < |t.availableFiles| ==> t.availableFiles[i] == s.availableFiles[i + 1];
    } else if s.activeCount < s.maxHandles && opens {
      AddKey(s.held, c, s.activeCount);
    }
  }

  lemma {:induction false} ReturnKeeps(s: Pool, c: nat, wakes: Option<nat>)
    requires Invariant(s) && Enabled(s, Return(c, wakes))
    ensures Invariant(After(s, Return(c, wakes)))
  {
    RemoveKey(s.held, c);
    if wakes.Some? {
      assert wakes.value !in s.woken;
    }
  }

  lemma {:induction false} StepKeeps(s: Pool, e: Event)
    requires Invariant(s) && Enabled(s, e)
    ensures Invariant(After(s, e))
  {
    match e
    case Begin(_) =>
    case Attempt(c, opens) => AttemptKeeps(s, c, opens);
    case Return(c, wakes) => ReturnKeeps(s, c, wakes);
    case WakeSpuriously(c) => assert c !in s.woken;
  }

  lemma {:induction false} RunKeeps(s: Pool, events: seq<Event>, s': Pool)
    requires Invariant(s) && Runs(s, events, s')
    ensures Invariant(s') && s'.maxHandles == s.maxHandles
    decreases |events|
  {
    if events != [] {
      StepKeeps(s, events[0]);
      RunKeeps(After(s, events[0]), events[1..], s');
    }
  }

  /** Safety in every interleaving. */
  lemma {:induction false} ReachableIsSafe(maxHandles: nat, s: Pool)
    requires Reachable(maxHandles, s)
    ensures Invariant(s) && s.maxHandles == maxHandles
  {
    var events :| Runs(NewPool(maxHandles), events, s);
    RunKeeps(NewPool(maxHandles), events, s);
  }

  /**
   * A sleeper that only a spurious wake-up could help: nothing is held that could be returned, and nobody else will
   * run.
   */
  ghost predicate Stuck(s: Pool) {
    s.asleep != {} && s.held == map[] && s.trying == {} && s.woken == {}
  }

  /** A call can get stuck exactly when the pool may hold no handle at all. */
  lemma {:induction false} StuckIffNoHandles(maxHandles: nat)
    ensures (exists s :: Reachable(maxHandles, s) && Stuck(s)) <==> maxHandles == 0
  {
    if s :| Reachable(maxHandles, s) && Stuck(s) {
      ReachableIsSafe(maxHandles, s);
    }
    if maxHandles == 0 {
      var s0 := NewPool(0);
      var s1 := After(s0, Begin(0));
      var s2 := After(s1, Attempt(0, true));
      assert Runs(s2, [], s2) && Runs(s1, [Attempt(0, true)], s2) by {
        assert [Attempt(0, true)][1..] == [];
      }
      var events := [Begin(0), Attempt(0, true)];
      assert events[1..] == [Attempt(0, true)];
      assert Runs(s0, events, s2);
      assert 0 in s2.asleep && s2.trying == {} && s2.woken == {};
      assert Reachable(0, s2) && Stuck(s2);
    }
  }

  // ---- The critical sections ----

  datatype Acquired = Handle(file: nat) | OpenFailed | MustWait

  /** `FilePoolInner` with the calls that use it. */
  class FilePoolInner {
    var availableFiles: seq<nat>
    var activeCount: nat
    const maxHandles: nat
    ghost var trying: set<nat>
    ghost var asleep: set<nat>
    ghost var woken: set<nat>
    ghost var held: map<nat, nat>

    ghost function State(): Pool
      reads this
    {
      Pool(availableFiles, activeCount, maxHandles, trying, asleep, woken, held)
    }

    constructor (maxHandles: nat)
      ensures State() == NewPool(maxHandles) && Invariant(State())
    {
      this.maxHandles := maxHandles;
      availableFiles, activeCount := [], 0;
      trying, asleep, woken, held := {}, {}, {}, map[];
    }

    /** What `acquire` does from taking the lock to returning or waiting; opening a file may fail. */
    method Acquire(call: nat, opens: bool) returns (r: Acquired)
      requires Invariant(State()) && Enabled(State(), Attempt(call, opens))
      modifies this
      ensures State() == After(old(State()), Attempt(call, opens)) && Invariant(State())
      ensures r.Handle? <==> call in held
      ensures r.Handle? ==> held[call] == r.file && r.file !in availableFiles
      ensures r.MustWait? <==> call in asleep
      ensures old(availableFiles) != [] ==>
        r == Handle(old(availableFiles)[0]) && availableFiles == old(availableFiles)[1..] &&
        activeCount == old(activeCount)
      ensures old(availableFiles) == [] && old(activeCount) < maxHandles && opens ==>
        r == Handle(old(activeCount)) && availableFiles == [] && activeCount == old(activeCount) + 1
      ensures old(availableFiles) == [] && old(activeCount) < maxHandles && !opens ==>
        r.OpenFailed? && availableFiles == [] && activeCount == old(activeCount)
      ensures old(availableFiles) == [] && old(activeCount) >= maxHandles ==>
        r.MustWait? && availableFiles == [] && activeCount == old(activeCount)
    {
      AttemptKeeps(State(), call, opens);
      trying, woken := trying - {call}, woken - {call};
      if |availableFiles| > 0 {
        r := Handle(availableFiles[0]);
        held := held[call := availableFiles[0]];
        availableFiles := availableFiles[1..];
        return;
      }
      if activeCount < maxHandles {
        if !opens {
          return OpenFailed;
        }
        r := Handle(activeCount);
        held := held[call := activeCount];
        activeCount := activeCount + 1;
        return;
      }
      asleep := asleep + {call};
      r := MustWait;
    }

    /** `Drop for PooledFileHandle`: the file goes back, and one sleeper is woken if there is one. */
    method Drop(call: nat, file: nat) returns (ghost wakes: Option<nat>)
      requires Invariant(State()) && call in held && held[call] == file
      modifies this
      ensures Enabled(old(State()), Return(call, wakes)) && State() == After(old(State()), Return(call, wakes))
      ensures Invariant(State())
      ensures availableFiles == old(availableFiles) + [file] && activeCount == old(activeCount) && call !in held
      ensures old(asleep) != {} ==>
        wakes.Some? && wakes.value in old(asleep) && wakes.value in woken && wakes.value !in asleep
    {
      ghost var before := State();
      availableFiles := availableFiles + [file];
      held := held - {call};
      wakes := None;
      if asleep != {} {
        ghost var sleeper :| sleeper in asleep;
        wakes := Some(sleeper);
        asleep, woken := asleep - {sleeper}, woken + {sleeper};
      }
      ReturnKeeps(before, call, wakes);
    }
  }
}
