/** The handle table of the build without cgo: New, Get and Del by any number of threads,
    with an allocator that may hand out a freed address again. */
module HandleTable {
  import opened Fuse

  type Addr = nat
  type Host = nat

  // One handle's life, from hostHandleNew to hostHandleDel.
  datatype Session =
    | Allocated(host: Host, p: Addr)  // New has its address, the entry is not made yet
    | Live(host: Host, p: Addr)       // New has returned, Del has not begun to change anything
    | Deleted(p: Addr)                // Del has removed the entry, the address is not freed yet
    | Freed(p: Addr)                  // Del has freed the address, the entry is not removed yet

  datatype State = State(table: map<Addr, Host>, sessions: map<nat, Session>)

  const INIT := State(map[], map[])

  /** The two orders in which Del could do its work; the code deletes first. */
  datatype Order = DeleteFirst | FreeFirst

  /** The allocator's side: an address belongs to a session until it is freed. */
  ghost predicate Taken(s: State, p: Addr) {
    exists id :: id in s.sessions && !s.sessions[id].Freed? && s.sessions[id].p == p
  }

  // Each step is one atomic action; the table is only touched with hostGuard held.
  datatype Step =
    | Malloc(id: nat, host: Host, p: Addr)
    | Insert(id: nat)
    | Delete(id: nat)
    | FreeAddr(id: nat)

  ghost predicate Enabled(order: Order, s: State, step: Step) {
    match step
    case Malloc(id, _, p) => id !in s.sessions && !Taken(s, p)
    case Insert(id) => id in s.sessions && s.sessions[id].Allocated?
    case Delete(id) =>
      id in s.sessions && if order.DeleteFirst? then s.sessions[id].Live? else s.sessions[id].Freed?
    case FreeAddr(id) =>
      id in s.sessions && if order.DeleteFirst? then s.sessions[id].Deleted? else s.sessions[id].Live?
  }

  ghost function Do(order: Order, s: State, step: Step): State
    requires Enabled(order, s, step)
  {
    match step
    case Malloc(id, host, p) => s.(sessions := s.sessions[id := Allocated(host, p)])
    case Insert(id) =>
      var h := s.sessions[id];
      State(s.table[h.p := h.host], s.sessions[id := Live(h.host, h.p)])
    case Delete(id) =>
      var p := s.sessions[id].p;
      State(s.table - {p}, if order.DeleteFirst? then s.sessions[id := Deleted(p)] else s.sessions - {id})
    case FreeAddr(id) =>
      s.(sessions := if order.DeleteFirst? then s.sessions - {id} else s.sessions[id := Freed(s.sessions[id].p)])
  }

  /** hostHandleGet, one lookup with the guard held. */
  function Get(s: State, p: Addr): Option<Host> {
    if p in s.table then Some(s.table[p]) else None
  }

  /** Every handle leads to its own host from the return of New until Del. */
  ghost predicate HandlesLead(s: State) {
    forall id :: id in s.sessions && s.sessions[id].Live? ==> Get(s, s.sessions[id].p) == Some(s.sessions[id].host)
  }

  ghost predicate Good(s: State) {
    && HandlesLead(s)
    && (forall i, j :: i in s.sessions && j in s.sessions && s.sessions[i].p == s.sessions[j].p ==> i == j)
    && (forall i :: i in s.sessions ==> !s.sessions[i].Freed?)
    && (forall p :: p in s.table ==> exists i :: i in s.sessions && s.sessions[i].Live? && s.sessions[i].p == p)
  }

  lemma StepKeepsGood(s: State, step: Step)
    requires Good(s) && Enabled(DeleteFirst, s, step)
    ensures Good(Do(DeleteFirst, s, step))
  {
    var s' := Do(DeleteFirst, s, step);
    forall p | p in s'.table ensures exists i :: i in s'.sessions && s'.sessions[i].Live? && s'.sessions[i].p == p {
      if step.Insert? && p == s.sessions[step.id].p {
        assert s'.sessions[step.id].Live?;
      } else {
        var i :| i in s.sessions && s.sessions[i].Live? && s.sessions[i].p == p;
        assert s'.sessions[i] == s.sessions[i];
      }
    }
  }

  /** New and then Del of any free address can be carried out in any state, and leave it as
      it was; in between the handle leads to its host, and afterwards its address is free. */
  lemma NewThenDel(s: State, id: nat, host: Host, p: Addr)
    requires Good(s) && id !in s.sessions && !Taken(s, p)
    ensures Enabled(DeleteFirst, s, Malloc(id, host, p))
    ensures var s1 := Do(DeleteFirst, s, Malloc(id, host, p));
            && Enabled(DeleteFirst, s1, Insert(id))
            && var s2 := Do(DeleteFirst, s1, Insert(id));
               && Get(s2, p) == Some(host) && (forall q :: q != p ==> Get(s2, q) == Get(s, q))
               && Enabled(DeleteFirst, s2, Delete(id))
               && var s3 := Do(DeleteFirst, s2, Delete(id));
                  && Get(s3, p).None? && Taken(s3, p) && Enabled(DeleteFirst, s3, FreeAddr(id))
                  && Do(DeleteFirst, s3, FreeAddr(id)) == s
  {
    var s1 := Do(DeleteFirst, s, Malloc(id, host, p));
    var s2 := Do(DeleteFirst, s1, Insert(id));
    var s3 := Do(DeleteFirst, s2, Delete(id));
    assert p !in s.table;
    assert s3.sessions[id].p == p;
    assert s3.table == s.table;
    assert Do(DeleteFirst, s3, FreeAddr(id)).sessions == s.sessions;
  }

  /** The step that frees an address makes it free for the next New. */
  lemma FreedIsFree(s: State, id: nat)
    requires Good(s) && Enabled(DeleteFirst, s, FreeAddr(id))
    ensures !Taken(Do(DeleteFirst, s, FreeAddr(id)), s.sessions[id].p)
  {
  }

  ghost predicate Runs(order: Order, s: State, steps: seq<Step>)
    decreases |steps|
  {
    steps == [] || (Enabled(order, s, steps[0]) && Runs(order, Do(order, s, steps[0]), steps[1..]))
  }

  ghost function Final(order: Order, s: State, steps: seq<Step>): State
    requires Runs(order, s, steps)
    decreases |steps|
  {
    if steps == [] then s else Final(order, Do(order, s, steps[0]), steps[1..])
  }

  lemma {:induction false} RunKeepsGood(s: State, steps: seq<Step>)
    requires Good(s) && Runs(DeleteFirst, s, steps)
    ensures Good(Final(DeleteFirst, s, steps))
    decreases |steps|
  {
    if steps != [] {
      StepKeepsGood(s, steps[0]);
      RunKeepsGood(Do(DeleteFirst, s, steps[0]), steps[1..]);
    }
  }

  /** In every interleaving a handle leads to its own host from the return of New until
      Del, and to no host at any other time, even when its address was used before. */
  lemma HandleLeadsToItsHost(steps: seq<Step>, p: Addr)
    requires Runs(DeleteFirst, INIT, steps)
    ensures var s := Final(DeleteFirst, INIT, steps);
            && HandlesLead(s)
            && (Get(s, p).Some? <==> exists id :: id in s.sessions && s.sessions[id].Live? && s.sessions[id].p == p)
  {
    RunKeepsGood(INIT, steps);
  }

  /** Handles lead to their hosts in every interleaving exactly for the order of the code:
      were the address freed before the entry is deleted, the next New could be given the
      address, and the late deletion would take the new handle's entry away. */
  lemma DeletingFirstIsNeeded(order: Order)
    ensures (forall steps :: Runs(order, INIT, steps) ==> HandlesLead(Final(order, INIT, steps))) <==>
            order == DeleteFirst
  {
    if order == DeleteFirst {
      forall steps | Runs(order, INIT, steps) ensures HandlesLead(Final(order, INIT, steps)) {
        RunKeepsGood(INIT, steps);
      }
    } else {
      var steps := LostHandle();
    }
  }

  lemma LostHandle() returns (steps: seq<Step>)
    ensures Runs(FreeFirst, INIT, steps) && !HandlesLead(Final(FreeFirst, INIT, steps))
  {
    var s1 := Do(FreeFirst, INIT, Malloc(0, 1, 7));
    var s2 := Do(FreeFirst, s1, Insert(0));
    var s3 := Do(FreeFirst, s2, FreeAddr(0));
    var s4 := Do(FreeFirst, s3, Malloc(1, 2, 7));
    var s5 := Do(FreeFirst, s4, Insert(1));
    var s6 := Do(FreeFirst, s5, Delete(0));
    assert s6.sessions[1] == Live(2, 7) && Get(s6, 7).None?;
    steps := [Delete(0)];
    assert steps[1..] == [];
    steps := Before(s4, Insert(1), steps, s6);
    steps := Before(s3, Malloc(1, 2, 7), steps, s6);
    steps := Before(s2, FreeAddr(0), steps, s6);
    steps := Before(s1, Insert(0), steps, s6);
    steps := Before(INIT, Malloc(0, 1, 7), steps, s6);
  }

  lemma Before(s: State, step: Step, rest: seq<Step>, last: State) returns (steps: seq<Step>)
    requires Enabled(FreeFirst, s, step)
    requires Runs(FreeFirst, Do(FreeFirst, s, step), rest) && Final(FreeFirst, Do(FreeFirst, s, step), rest) == last
    ensures Runs(FreeFirst, s, steps) && Final(FreeFirst, s, steps) == last
  {
    steps := [step] + rest;
    assert steps[1..] == rest;
  }
}
