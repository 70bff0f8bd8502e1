/** The optimizer handle (`struct ml_opt`) and its callback-slot registry.

    A handle owns one native optimizer, one objective slot and a singly
    linked list of constraint slots. A slot is a `malloc`ed container
    (`value *`) holding an OCaml value; its address is the user-data pointer
    NLopt passes back to the trampoline, and it is registered as a GC global
    root while the handle keeps it. The handle is modelled as an immutable
    record; each operation takes the native library's status as an input and
    returns the next record. */
module Registry {
  import opened Wrappers
  import opened Enums

  /** The address of a callback container. */
  type Slot = nat

  /** The OCaml value stored in a slot: `Val_unit` until an objective is set,
      otherwise a closure. */
  datatype SlotValue<F> = UnitValue | Callback(closure: F)

  datatype Sense = Minimize | Maximize

  datatype ConstraintKind = Inequality | Equality

  /** What the binding has handed to NLopt for the objective: the trampoline
      (implicit) and the user-data pointer. */
  datatype ObjectiveReg = ObjectiveReg(sense: Sense, data: Slot)

  /** What the binding has handed to NLopt for one constraint. */
  datatype ConstraintReg<E> = ConstraintReg(kind: ConstraintKind, data: Slot, tol: E)

  /** The part of the native optimizer the binding depends on: the algorithm
      and dimension it was created with and the registrations it retains, in
      the order NLopt received them. The model assumes NLopt retains a
      registration exactly when it reports SUCCESS. */
  datatype Native<E> =
    | Live(algorithm: Algorithm, dimension: nat, objective: Option<ObjectiveReg>,
           constraints: seq<ConstraintReg<E>>)
    | Destroyed

  /** `struct ml_opt` together with the allocator and GC-root state it owns:
      `heap` maps each live callback container to its contents, `roots` is
      the set of containers registered as global roots, and `next` is an
      address above every live container (where the next `malloc` lands). */
  datatype Handle<F, E> = Handle(
    native: Native<E>,
    objective: Slot,
    constraints: seq<Slot>,
    heap: map<Slot, SlotValue<F>>,
    roots: set<Slot>,
    next: Slot)

  ghost predicate Distinct(s: seq<Slot>) {
    forall i, j :: 0 <= i < j < |s| ==> s[i] != s[j]
  }

  function Elems(s: seq<Slot>): set<Slot> {
    set x | x in s
  }

  /** The user-data pointers the native optimizer holds, that is, the
      addresses the trampoline may be called back with. */
  function UserData<E>(native: Native<E>): set<Slot>
    requires native.Live?
  {
    (if native.objective.Some? then {native.objective.value.data} else {})
    + set k | 0 <= k < |native.constraints| :: native.constraints[k].data
  }

  /** The registry invariant of a live handle: the rooted set is exactly the
      objective slot plus the constraint slots, every rooted slot is a live
      container and every live container is rooted, constraint slots are
      distinct closures, and NLopt holds exactly the objective slot (once
      set) and the constraint slots, so it never holds a freed address. */
  ghost predicate Valid<F, E>(h: Handle<F, E>) {
    && h.native.Live?
    && h.objective !in h.constraints
    && Distinct(h.constraints)
    && h.roots == {h.objective} + Elems(h.constraints)
    && h.heap.Keys == h.roots
    && (forall s :: s in h.heap ==> s < h.next)
    && (forall s :: s in h.constraints ==> h.heap[s].Callback?)
    && (h.native.objective.Some? ==>
          h.native.objective.value.data == h.objective && h.heap[h.objective].Callback?)
    && |h.native.constraints| == |h.constraints|
    && (forall k :: 0 <= k < |h.constraints| ==>
          h.native.constraints[k].data == h.constraints[|h.constraints| - 1 - k])
  }

  /** Every address NLopt may call the trampoline with is a rooted, live
      container holding a closure. */
  lemma RegisteredSlotsAreLive<F, E>(h: Handle<F, E>)
    requires Valid(h)
    ensures forall s :: s in UserData(h.native) ==> s in h.roots && s in h.heap && h.heap[s].Callback?
  {
    forall s | s in UserData(h.native)
      ensures s in h.roots && s in h.heap && h.heap[s].Callback?
    {
      if s != h.objective || h.native.objective.None? {
        var k :| 0 <= k < |h.native.constraints| && h.native.constraints[k].data == s;
        assert h.constraints[|h.constraints| - 1 - k] == s;
      }
    }
  }

  /** `ml_nlopt_create`: look the algorithm up (no bounds check, hence the
      precondition), create the native optimizer, allocate the objective
      slot, store unit in it and root it; the constraint list starts empty.
      A NULL result from `nlopt_create` or `malloc` is not modelled. */
  function Create<F, E>(algorithm: int, n: nat): (h: Handle<F, E>)
    requires 0 <= algorithm < |AlgorithmTable|
    ensures Valid(h)
    ensures h.native.Live? && h.native.algorithm == AlgorithmTable[algorithm]
    ensures AlgorithmOrdinal(h.native.algorithm) == algorithm
    ensures h.native.dimension == n
    ensures UserData(h.native) == {}
    ensures h.constraints == [] && h.roots == {h.objective}
    ensures h.heap[h.objective] == UnitValue
  {
    var cb: Slot := 0;
    Handle(Live(AlgorithmOf(algorithm), n, None, []), cb, [], map[cb := UnitValue], {cb}, cb + 1)
  }

  /** The result of a registration: the next handle, the host status ordinal
      and the user-data pointer that was passed to NLopt. */
  datatype Step<F, E> = Step(handle: Handle<F, E>, ordinal: nat, userData: Slot)

  /** `ml_nlopt_set_min_objective` / `ml_nlopt_set_max_objective`: store the
      closure in the existing objective slot and register the trampoline with
      that slot as user data. Only the slot's contents change. */
  function SetObjective<F, E>(h: Handle<F, E>, sense: Sense, f: F, status: NativeResult): (r: Step<F, E>)
    requires Valid(h)
    ensures Valid(r.handle)
    ensures r.userData == h.objective
    ensures r.handle.objective == h.objective && r.handle.heap[h.objective] == Callback(f)
    ensures r.handle.heap.Keys == h.heap.Keys
    ensures forall s :: s in h.heap && s != h.objective ==> r.handle.heap[s] == h.heap[s]
    ensures r.handle.constraints == h.constraints && r.handle.roots == h.roots
    ensures r.handle.native.constraints == h.native.constraints
    ensures status == Success ==> r.handle.native.objective == Some(ObjectiveReg(sense, h.objective))
    ensures status != Success ==> r.handle.native == h.native
    ensures r.ordinal == MapResult(status)
  {
    var cb := h.objective;
    var heap := h.heap[cb := Callback(f)];
    var native := if status == Success then h.native.(objective := Some(ObjectiveReg(sense, cb))) else h.native;
    Step(h.(native := native, heap := heap), MapResult(status), cb)
  }

  /** `ml_nlopt_add_inequality_constraint` / `ml_nlopt_add_equality_constraint`:
      allocate a fresh slot holding the closure and hand it to NLopt. Only on
      SUCCESS is the slot rooted and pushed on the head of the constraint
      list; otherwise it is freed without ever having been rooted and the
      handle is exactly as before. */
  function AddConstraint<F, E>(h: Handle<F, E>, kind: ConstraintKind, g: F, tol: E, status: NativeResult): (r: Step<F, E>)
    requires Valid(h)
    ensures Valid(r.handle)
    ensures r.userData !in h.heap && r.userData !in h.roots
    ensures r.ordinal == MapResult(status)
    ensures status == Success ==>
      && r.handle.constraints == [r.userData] + h.constraints
      && r.handle.roots == h.roots + {r.userData}
      && r.handle.heap == h.heap[r.userData := Callback(g)]
      && r.handle.objective == h.objective
      && r.handle.native.objective == h.native.objective
      && r.handle.native.constraints == h.native.constraints + [ConstraintReg(kind, r.userData, tol)]
    ensures status != Success ==> r.handle == h
  {
    var cb := h.next;
    if status == Success then
      var native := h.native.(constraints := h.native.constraints + [ConstraintReg(kind, cb, tol)]);
      var h' := h.(native := native, constraints := [cb] + h.constraints,
                   heap := h.heap[cb := Callback(g)], roots := h.roots + {cb}, next := cb + 1);
      assert forall k :: 0 <= k < |h.constraints| ==>
        h'.native.constraints[k].data == h'.constraints[|h'.constraints| - 1 - k];
      Step(h', MapResult(status), cb)
    else
      Step(h, MapResult(status), cb)
  }

  /** One call of the registration API, with the status NLopt answers it
      with. */
  datatype Request<F, E> =
    | SetObjectiveRequest(sense: Sense, f: F, status: NativeResult)
    | AddConstraintRequest(kind: ConstraintKind, g: F, tol: E, status: NativeResult)

  function Apply<F, E>(h: Handle<F, E>, q: Request<F, E>): (r: Step<F, E>)
    requires Valid(h)
    ensures Valid(r.handle)
  {
    match q
    case SetObjectiveRequest(sense, f, status) => SetObjective(h, sense, f, status)
    case AddConstraintRequest(kind, g, tol, status) => AddConstraint(h, kind, g, tol, status)
  }

  /** A handle after a sequence of registration calls. */
  function Run<F, E>(h: Handle<F, E>, qs: seq<Request<F, E>>): (h': Handle<F, E>)
    requires Valid(h)
    ensures Valid(h')
    decreases |qs|
  {
    if qs == [] then h else Run(Apply(h, qs[0]).handle, qs[1..])
  }

  /** The number of constraint registrations NLopt accepted. */
  function Accepted<F, E>(qs: seq<Request<F, E>>): nat {
    if qs == [] then 0
    else (if qs[0].AddConstraintRequest? && qs[0].status == Success then 1 else 0) + Accepted(qs[1..])
  }

  /** Over any sequence of registration calls the objective slot stays put,
      the constraint list only grows at its head, by one per accepted
      constraint, the rooted set only grows, and the algorithm and dimension
      are unchanged. */
  lemma {:induction false} RunGrows<F, E>(h: Handle<F, E>, qs: seq<Request<F, E>>)
    requires Valid(h)
    ensures var h' := Run(h, qs);
      && h'.objective == h.objective
      && |h'.constraints| == |h.constraints| + Accepted(qs)
      && h'.constraints[Accepted(qs)..] == h.constraints
      && h.roots <= h'.roots
      && h'.native.algorithm == h.native.algorithm
      && h'.native.dimension == h.native.dimension
    decreases |qs|
  {
    if qs != [] {
      var h1 := Apply(h, qs[0]).handle;
      RunGrows(h1, qs[1..]);
      var h' := Run(h1, qs[1..]);
      assert Run(h, qs) == h';
      var a := Accepted(qs[1..]);
      if qs[0].AddConstraintRequest? && qs[0].status == Success {
        assert h1.constraints[1..] == h.constraints;
        assert h'.constraints[a..][1..] == h.constraints;
      }
    }
  }

  /** From creation through any sequence of registrations, the rooted slots
      are exactly the objective slot and the accepted constraints' slots. */
  lemma CreateThenRun<F, E>(algorithm: int, n: nat, qs: seq<Request<F, E>>)
    requires 0 <= algorithm < |AlgorithmTable|
    ensures var h := Run(Create<F, E>(algorithm, n), qs);
      && h.roots == {h.objective} + Elems(h.constraints)
      && |h.constraints| == Accepted(qs)
      && |h.native.constraints| == Accepted(qs)
      && h.native.dimension == n
  {
    RunGrows(Create<F, E>(algorithm, n), qs);
  }

  /** One release action of the finalizer. */
  datatype Release = DestroyNative | Unroot(slot: Slot) | Free(slot: Slot) | FreeNode(slot: Slot)

  /** The order `ml_nlopt_finalize` releases in: the native optimizer first,
      then the objective slot (un-root, free), then each constraint from the
      list head (un-root, free the slot, free the list node). */
  ghost predicate ReleasedInOrder<F, E>(h: Handle<F, E>, log: seq<Release>) {
    && |log| == 3 + 3 * |h.constraints|
    && log[0] == DestroyNative && log[1] == Unroot(h.objective) && log[2] == Free(h.objective)
    && forall k :: 0 <= k < |h.constraints| ==>
         && log[3 + 3 * k] == Unroot(h.constraints[k])
         && log[4 + 3 * k] == Free(h.constraints[k])
         && log[5 + 3 * k] == FreeNode(h.constraints[k])
  }

  /** `ml_nlopt_finalize`: destroy the native optimizer, then release the
      objective slot, then walk the constraint list releasing every slot and
      node. Afterwards nothing is rooted and no container is live. */
  method Finalize<F, E>(h: Handle<F, E>) returns (h': Handle<F, E>, log: seq<Release>)
    requires Valid(h)
    ensures h'.native == Destroyed
    ensures h'.roots == {} && h'.heap == map[] && h'.constraints == []
    ensures ReleasedInOrder(h, log)
  {
    var heap := h.heap;
    var roots := h.roots;
    log := [DestroyNative];
    roots := roots - {h.objective};
    log := log + [Unroot(h.objective)];
    heap := heap - {h.objective};
    log := log + [Free(h.objective)];
    var i := 0;
    while i < |h.constraints|
      invariant 0 <= i <= |h.constraints|
      invariant roots == Elems(h.constraints[i..])
      invariant heap.Keys == roots
      invariant |log| == 3 + 3 * i
      invariant log[0] == DestroyNative && log[1] == Unroot(h.objective) && log[2] == Free(h.objective)
      invariant forall k :: 0 <= k < i ==>
         && log[3 + 3 * k] == Unroot(h.constraints[k])
         && log[4 + 3 * k] == Free(h.constraints[k])
         && log[5 + 3 * k] == FreeNode(h.constraints[k])
    {
      var p := h.constraints[i];
      assert p !in Elems(h.constraints[i + 1..]);
      assert Elems(h.constraints[i..]) == {p} + Elems(h.constraints[i + 1..]);
      roots := roots - {p};
      log := log + [Unroot(p)];
      heap := heap - {p};
      log := log + [Free(p)];
      log := log + [FreeNode(p)];
      i := i + 1;
    }
    h' := h.(native := Destroyed, constraints := [], heap := heap, roots := roots);
  }

  /** Entry i of a log in finalizer order, past the objective's entries,
      belongs to constraint (i - 3) / 3, and it is that slot's Free exactly
      at offset 4. */
  lemma ReleaseEntry<F, E>(h: Handle<F, E>, log: seq<Release>, i: nat)
    requires ReleasedInOrder(h, log)
    requires 3 <= i < |log|
    ensures var k := (i - 3) / 3;
      && 0 <= k < |h.constraints|
      && !log[i].DestroyNative? && log[i].slot == h.constraints[k]
      && (log[i].Free? <==> i == 4 + 3 * k)
  {
    var k := (i - 3) / 3;
    assert 3 + 3 * k <= i < 6 + 3 * k;
    assert log[3 + 3 * k] == Unroot(h.constraints[k]);
    assert log[4 + 3 * k] == Free(h.constraints[k]);
    assert log[5 + 3 * k] == FreeNode(h.constraints[k]);
  }

  /** A release log in finalizer order frees exactly the live containers of
      the handle. */
  lemma ReleaseFreesEverySlot<F, E>(h: Handle<F, E>, log: seq<Release>)
    requires Valid(h)
    requires ReleasedInOrder(h, log)
    ensures forall s :: s in h.heap <==> Free(s) in log
  {
    var c := h.constraints;
    forall s | s in h.heap
      ensures Free(s) in log
    {
      if s != h.objective {
        var k :| 0 <= k < |c| && c[k] == s;
        assert log[4 + 3 * k] == Free(s);
      }
    }
    forall s | Free(s) in log
      ensures s in h.heap
    {
      var i :| 0 <= i < |log| && log[i] == Free(s);
      if i >= 3 {
        ReleaseEntry(h, log, i);
      }
    }
  }

  /** A release log in finalizer order frees each container once, and
      un-roots it immediately before freeing it. */
  lemma ReleaseFreesOnceAfterUnroot<F, E>(h: Handle<F, E>, log: seq<Release>)
    requires Valid(h)
    requires ReleasedInOrder(h, log)
    ensures forall i :: 0 <= i < |log| && log[i].Free? ==> 0 < i && log[i - 1] == Unroot(log[i].slot)
    ensures forall i, j :: 0 <= i < j < |log| && log[i].Free? && log[j].Free? ==> log[i].slot != log[j].slot
  {
    forall i | 0 <= i < |log| && log[i].Free?
      ensures 0 < i && log[i - 1] == Unroot(log[i].slot)
    {
      if i >= 3 {
        ReleaseEntry(h, log, i);
        var k := (i - 3) / 3;
        assert i - 1 == 3 + 3 * k;
      }
    }
    forall i, j | 0 <= i < j < |log| && log[i].Free? && log[j].Free?
      ensures log[i].slot != log[j].slot
    {
      ReleaseEntry(h, log, j);
      if i >= 3 {
        ReleaseEntry(h, log, i);
        assert (i - 3) / 3 < (j - 3) / 3;
      } else {
        assert i == 2;
      }
    }
  }
}
