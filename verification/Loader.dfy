/** Loading the FUSE library once: a fast check without the lock, a second check with it,
    and an initialisation that resolves four functions before the module is published. */
module Loader {
  import opened Fuse

  const APIS: nat := 4

  type Module = nat

  // A thread in cgofuse_init_fast, from its call to its return with a module or none.
  datatype Thread =
    | FastCheck
    | Lock
    | SlowCheck
    | Resolve(h: Module, next: nat)   // inside cgofuse_init_fuse, about to resolve function `next`
    | Publish(found: Option<Module>)  // initialisation has ended, cgofuse_module is not assigned yet
    | Unlock(found: Option<Module>)
    | Returned(found: Option<Module>)

  /** `pfn[k]` tells from which module function pointer `k` has been resolved, if it is set. */
  datatype State = State(published: Option<Module>, pfn: seq<Option<Module>>, mutex: Option<nat>,
                         threads: map<nat, Thread>)

  const INIT := State(None, [None, None, None, None], None, map[])

  /** `answer` is what dlopen or dlsym answers in the step, where the step asks. */
  datatype Step = Call(id: nat) | Advance(id: nat, answer: Option<Module>)

  predicate Enabled(s: State, step: Step) {
    match step
    case Call(id) => id !in s.threads
    case Advance(id, _) =>
      id in s.threads && !s.threads[id].Returned? && (s.threads[id].Lock? ==> s.mutex.None?)
  }

  function AfterSlowCheck(s: State, answer: Option<Module>): Thread {
    if s.published.Some? then Unlock(s.published)
    else if answer.Some? then Resolve(answer.value, 0) else Publish(None)
  }

  function AfterResolve(h: Module, next: nat, found: bool): Thread {
    if !found then Publish(None) else if next + 1 < APIS then Resolve(h, next + 1) else Publish(Some(h))
  }

  function Do(s: State, step: Step): State
    requires Enabled(s, step)
  {
    match step
    case Call(id) => s.(threads := s.threads[id := FastCheck])
    case Advance(id, answer) =>
      match s.threads[id]
      case FastCheck => s.(threads := s.threads[id := if s.published.Some? then Returned(s.published) else Lock])
      case Lock => s.(threads := s.threads[id := SlowCheck], mutex := Some(id))
      case SlowCheck => s.(threads := s.threads[id := AfterSlowCheck(s, answer)])
      case Resolve(h, next) =>
        s.(pfn := if next < |s.pfn| then s.pfn[next := if answer.Some? then Some(h) else None] else s.pfn,
           threads := s.threads[id := AfterResolve(h, next, answer.Some?)])
      case Publish(found) => s.(published := found, threads := s.threads[id := Unlock(found)])
      case Unlock(found) => s.(threads := s.threads[id := Returned(found)], mutex := None)
      case Returned(_) => s
  }

  predicate Inside(t: Thread) {
    t.SlowCheck? || t.Resolve? || t.Publish? || t.Unlock?
  }

  ghost predicate SetTo(s: State, h: Module, n: nat) {
    n <= |s.pfn| && forall k :: 0 <= k < n ==> s.pfn[k] == Some(h)
  }

  ghost predicate ThreadOk(s: State, t: Thread) {
    match t
    case Resolve(h, next) => s.published.None? && next < APIS && SetTo(s, h, next)
    case Publish(found) => s.published.None? && (found.Some? ==> SetTo(s, found.value, APIS))
    case Unlock(found) => found == s.published
    case Returned(found) => found.Some? ==> found == s.published
    case _ => true
  }

  ghost predicate Good(s: State) {
    && |s.pfn| == APIS
    && (s.published.Some? ==> SetTo(s, s.published.value, APIS))
    && (s.mutex.Some? ==> s.mutex.value in s.threads)
    && (forall id {:trigger s.threads[id]} :: id in s.threads ==>
          ThreadOk(s, s.threads[id]) && (s.mutex == Some(id) <==> Inside(s.threads[id])))
  }

  /** Once a module is published neither it nor a function pointer ever changes. */
  lemma StepKeepsGood(s: State, step: Step)
    requires Good(s) && Enabled(s, step)
    ensures Good(Do(s, step))
    ensures s.published.Some? ==> Do(s, step).published == s.published && Do(s, step).pfn == s.pfn
  {
  }

  predicate Runs(s: State, steps: seq<Step>)
    decreases |steps|
  {
    steps == [] || (Enabled(s, steps[0]) && Runs(Do(s, steps[0]), steps[1..]))
  }

  function Final(s: State, steps: seq<Step>): State
    requires Runs(s, steps)
    decreases |steps|
  {
    if steps == [] then s else Final(Do(s, steps[0]), steps[1..])
  }

  lemma {:induction false} RunKeepsGood(s: State, steps: seq<Step>)
    requires Good(s) && Runs(s, steps)
    ensures Good(Final(s, steps))
    ensures s.published.Some? ==> Final(s, steps).published == s.published && Final(s, steps).pfn == s.pfn
    decreases |steps|
  {
    if steps != [] {
      StepKeepsGood(s, steps[0]);
      RunKeepsGood(Do(s, steps[0]), steps[1..]);
    }
  }

  /** In every interleaving: who gets a module finds all four pointers resolved from that
      very module, all who get one get the same, nobody initialises after a success, and
      at most one thread initialises at a time. */
  lemma LoadedOnce(steps: seq<Step>)
    requires Runs(INIT, steps)
    ensures var s := Final(INIT, steps);
            forall id {:trigger s.threads[id]} :: id in s.threads ==>
              && (s.threads[id].Returned? && s.threads[id].found.Some? ==>
                    s.threads[id].found == s.published && SetTo(s, s.published.value, APIS))
              && (s.threads[id].Resolve? || s.threads[id].Publish? ==> s.published.None? && s.mutex == Some(id))
  {
    RunKeepsGood(INIT, steps);
  }

  // ------------------------------------------------ what one initialisation does

  lemma Prepend(s: State, step: Step, rest: seq<Step>) returns (steps: seq<Step>)
    requires Enabled(s, step) && Runs(Do(s, step), rest)
    ensures steps == [step] + rest && Runs(s, steps) && Final(s, steps) == Final(Do(s, step), rest)
  {
    steps := [step] + rest;
    assert steps[1..] == rest;
  }

  /** The answers that thread `id` gets from dlsym when it finds the functions before `n`. */
  function Answers(id: nat, h: Module, next: nat, n: nat): seq<Step>
    requires next <= n <= APIS
    decreases n - next
  {
    if next < n then [Advance(id, Some(h))] + Answers(id, h, next + 1, n)
    else if n < APIS then [Advance(id, None)]
    else []
  }

  /** The result of an initialisation: the module if all its functions are found. */
  function Found(h: Module, n: nat): Option<Module> {
    if n == APIS then Some(h) else None
  }

  predicate Returning(s: State, id: nat, found: Option<Module>) {
    id in s.threads && s.threads[id] == Returned(found) && s.published == found && s.mutex.None?
  }

  lemma PublishAndReturn(s: State, id: nat, found: Option<Module>)
    requires id in s.threads && s.threads[id] == Publish(found)
    ensures Runs(s, [Advance(id, None), Advance(id, None)])
    ensures Returning(Final(s, [Advance(id, None), Advance(id, None)]), id, found)
  {
    var rest := Prepend(Do(s, Advance(id, None)), Advance(id, None), []);
    var steps := Prepend(s, Advance(id, None), rest);
    assert steps == [Advance(id, None), Advance(id, None)];
  }

  lemma {:induction false} ResolveRest(s: State, id: nat, h: Module, next: nat, n: nat)
    requires id in s.threads && next <= n <= APIS
    requires s.threads[id] == if next < APIS then Resolve(h, next) else Publish(Some(h))
    ensures var steps := Answers(id, h, next, n) + [Advance(id, None), Advance(id, None)];
            Runs(s, steps) && Returning(Final(s, steps), id, Found(h, n))
    decreases n - next
  {
    var end := [Advance(id, None), Advance(id, None)];
    if next < n {
      var s' := Do(s, Advance(id, Some(h)));
      ResolveRest(s', id, h, next + 1, n);
      var steps := Prepend(s, Advance(id, Some(h)), Answers(id, h, next + 1, n) + end);
      assert steps == Answers(id, h, next, n) + end;
    } else if n < APIS {
      PublishAndReturn(Do(s, Advance(id, None)), id, None);
      var steps := Prepend(s, Advance(id, None), end);
      assert steps == Answers(id, h, next, n) + end;
    } else {
      PublishAndReturn(s, id, Some(h));
      assert Answers(id, h, next, n) + end == end;
    }
  }

  /** A thread that gets the lock with nothing published, and opens library `h`, publishes
      and returns it exactly when all four functions are found in it; `n` are found before
      the first that is not.  Without a library it publishes and returns none. */
  lemma LoadsExactly(s: State, id: nat, h: Module, n: nat)
    requires Good(s) && id in s.threads && s.threads[id].Lock? && s.mutex.None? && s.published.None? && n <= APIS
    ensures var steps := [Advance(id, None), Advance(id, Some(h))] + Answers(id, h, 0, n) +
                         [Advance(id, None), Advance(id, None)];
            && Runs(s, steps) && Returning(Final(s, steps), id, Found(h, n))
            && (n == APIS ==> SetTo(Final(s, steps), h, APIS))
    ensures var steps := [Advance(id, None), Advance(id, None), Advance(id, None), Advance(id, None)];
            Runs(s, steps) && Returning(Final(s, steps), id, None)
  {
    var end := [Advance(id, None), Advance(id, None)];
    var s1 := Do(s, Advance(id, None));
    ResolveRest(Do(s1, Advance(id, Some(h))), id, h, 0, n);
    var found := Prepend(s1, Advance(id, Some(h)), Answers(id, h, 0, n) + end);
    found := Prepend(s, Advance(id, None), found);
    assert found == [Advance(id, None), Advance(id, Some(h))] + Answers(id, h, 0, n) + end;
    RunKeepsGood(s, found);
    PublishAndReturn(Do(s1, Advance(id, None)), id, None);
    var none := Prepend(s1, Advance(id, None), end);
    none := Prepend(s, Advance(id, None), none);
    assert none == [Advance(id, None), Advance(id, None), Advance(id, None), Advance(id, None)];
  }

  /** A thread that sees a module published returns it without the lock, or with the lock
      when it saw none at first. */
  lemma PublishedIsReturned(s: State, id: nat, answer: Option<Module>)
    requires Good(s) && id in s.threads && s.published.Some?
    ensures s.threads[id].FastCheck? ==> Do(s, Advance(id, answer)).threads[id] == Returned(s.published)
    ensures s.threads[id].SlowCheck? ==>
              Do(s, Advance(id, answer)).threads[id] == Unlock(s.published) && Do(s, Advance(id, answer)).pfn == s.pfn
  {
  }
}
