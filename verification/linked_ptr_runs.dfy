/** Whole runs of a program that uses linked_ptrs: what becomes of every object it captures. */
module LinkedPtrRuns {
  import opened LinkedPtrs

  /** Where the program keeps a pointer. */
  type Slot = nat

  datatype Op =
    | Capture(slot: Slot, ptr: Pointer)
    | CopyOf(slot: Slot, source: Slot)
    | Assign(slot: Slot, source: Slot)
    | Reset(slot: Slot, ptr: Pointer)
    | Release(slot: Slot)
    | Destroy(slot: Slot)

  /** What a program sees: what each of its pointers points to, and what has been deleted, released and captured. */
  datatype State = State(held: map<Slot, Pointer>, deleted: seq<Object>, released: set<Object>, captured: set<Object>)

  const START := State(map[], [], {}, {})

  predicate Fresh(s: State, v: Pointer) {
    v.To? ==> v.target !in s.captured
  }

  function Objects(v: Pointer): set<Object> {
    if v.To? then {v.target} else {}
  }

  /** Raw pointers are captured once, and only a sole owner releases. */
  ghost predicate Allowed(s: State, op: Op) {
    match op
    case Capture(x, v) => x !in s.held && Fresh(s, v)
    case CopyOf(x, y) => x !in s.held && y in s.held
    case Assign(x, y) => x in s.held && y in s.held
    case Reset(x, v) => x in s.held && Fresh(s, v)
    case Release(x) => x in s.held && IsSole(s.held, x)
    case Destroy(x) => x in s.held
  }

  ghost function Next(s: State, op: Op): State
    requires Allowed(s, op)
  {
    match op
    case Capture(x, v) => s.(held := s.held[x := v], captured := s.captured + Objects(v))
    case CopyOf(x, y) => s.(held := s.held[x := s.held[y]])
    case Assign(x, y) =>
      s.(held := s.held[x := s.held[y]], deleted := s.deleted + if x == y then [] else Orphan(s.held, x))
    case Reset(x, v) =>
      s.(held := s.held[x := v], deleted := s.deleted + Orphan(s.held, x), captured := s.captured + Objects(v))
    case Release(x) => s.(held := s.held[x := Null], released := s.released + Objects(s.held[x]))
    case Destroy(x) => s.(held := s.held - {x}, deleted := s.deleted + Orphan(s.held, x))
  }

  // ---- Conservation

  ghost predicate IsHeld(s: State, o: Object) {
    exists x :: x in s.held && s.held[x] == To(o)
  }

  /** Every captured object is held, or was deleted, or was released: one of the three, and deleted at most once. */
  ghost predicate Conserved(s: State) {
    && (forall o :: OneFate(s, o))
    && (forall i, j | 0 <= i < j < |s.deleted| :: s.deleted[i] != s.deleted[j])
  }

  ghost predicate HeldElsewhere(held: map<Slot, Pointer>, x: Slot, o: Object) {
    exists y :: y in held && y != x && held[y] == To(o)
  }

  /** What changing one pointer does to who holds an object. */
  lemma HolderChanges(s: State, x: Slot, v: Pointer, o: Object)
    ensures IsHeld(s.(held := s.held[x := v]), o) <==> v == To(o) || HeldElsewhere(s.held, x, o)
    ensures IsHeld(s.(held := s.held - {x}), o) <==> HeldElsewhere(s.held, x, o)
    ensures IsHeld(s, o) <==> (x in s.held && s.held[x] == To(o)) || HeldElsewhere(s.held, x, o)
    ensures x in s.held ==> (o in Orphan(s.held, x) <==> s.held[x] == To(o) && !HeldElsewhere(s.held, x, o))
  {
    var updated, gone := s.(held := s.held[x := v]), s.(held := s.held - {x});
    if v == To(o) { assert updated.held[x] == To(o); }
    if HeldElsewhere(s.held, x, o) {
      var y :| y in s.held && y != x && s.held[y] == To(o);
      assert updated.held[y] == To(o) && gone.held[y] == To(o);
    }
  }

  lemma NextConserves(s: State, op: Op)
    requires Conserved(s) && Allowed(s, op)
    ensures Conserved(Next(s, op))
  {
    var s' := Next(s, op);
    var v := match op case Capture(_, v) => v case CopyOf(_, y) => s.held[y] case Assign(_, y) => s.held[y]
                      case Reset(_, v) => v case Release(_) => Null case Destroy(_) => Null;
    forall o ensures OneFate(s', o) {
      HolderChanges(s, op.slot, v, o);
      assert OneFate(s, o);
    }
    if op.slot in s.held && s.held[op.slot].To? {
      assert OneFate(s, s.held[op.slot].target);
    }
  }

  /** The run of `ops` from the start is allowed, step by step. */
  ghost predicate IsRun(ops: seq<Op>)
    decreases |ops|, 0
  {
    ops != [] ==> IsRun(ops[..|ops| - 1]) && Allowed(Outcome(ops[..|ops| - 1]), ops[|ops| - 1])
  }

  ghost function Outcome(ops: seq<Op>): State
    requires IsRun(ops)
    decreases |ops|, 1
  {
    if ops == [] then START else Next(Outcome(ops[..|ops| - 1]), ops[|ops| - 1])
  }

  /** After any run, every captured object has just one fate; and once the last pointer is gone, every object that
      was not released has been deleted, once. */
  lemma {:induction false} RunConserves(ops: seq<Op>)
    requires IsRun(ops)
    ensures Conserved(Outcome(ops))
    ensures Outcome(ops).held == map[] ==>
              forall o :: o in Outcome(ops).captured && o !in Outcome(ops).released <==> o in Outcome(ops).deleted
  {
    if ops == [] {
      assert forall o :: OneFate(START, o);
    } else {
      RunConserves(ops[..|ops| - 1]);
      NextConserves(Outcome(ops[..|ops| - 1]), ops[|ops| - 1]);
    }
    var s := Outcome(ops);
    forall o ensures s.held == map[] ==> (o in s.captured && o !in s.released <==> o in s.deleted) {
      assert OneFate(s, o);
    }
  }

  /** An object is deleted at the very step at which its last pointer goes, unless that step releases it. */
  lemma DeletedWhenLastGoes(s: State, op: Op, o: Object)
    requires Conserved(s) && Allowed(s, op)
    ensures o in Next(s, op).deleted && o !in s.deleted <==> IsHeld(s, o) && !IsHeld(Next(s, op), o) && !op.Release?
  {
    NextConserves(s, op);
    assert OneFate(s, o) && OneFate(Next(s, op), o);
    if op.Release? { HolderChanges(s, op.slot, Null, o); }
  }

  ghost predicate OneFate(s: State, o: Object) {
    && (o in s.captured <==> IsHeld(s, o) || o in s.deleted || o in s.released)
    && (IsHeld(s, o) ==> o !in s.deleted && o !in s.released)
    && (o in s.deleted ==> o !in s.released)
  }

  // ---- The program itself

  /** Nothing is held that was not captured. */
  ghost predicate AllCaptured(s: State) {
    forall x | x in s.held && s.held[x].To? :: s.held[x].target in s.captured
  }

  lemma NextCaptured(s: State, op: Op)
    requires AllCaptured(s) && Allowed(s, op)
    ensures AllCaptured(Next(s, op))
  {
  }

  /** Each of the pointers is kept in just one slot. */
  ghost predicate Kept(slots: map<Slot, LinkedPtr>, values: Values) {
    && slots.Values == values.Keys
    && forall x, y | x in slots && y in slots && slots[x] == slots[y] :: x == y
  }

  ghost function Held(slots: map<Slot, LinkedPtr>, values: Values): (held: map<Slot, Pointer>)
    requires slots.Values <= values.Keys
  {
    map x | x in slots :: values[slots[x]]
  }

  lemma KeptChanged(slots: map<Slot, LinkedPtr>, values: Values, x: Slot, v: Pointer)
    requires Kept(slots, values) && x in slots
    ensures Kept(slots, values[slots[x] := v])
    ensures Held(slots, values[slots[x] := v]) == Held(slots, values)[x := v]
  {
  }

  lemma KeptAdded(slots: map<Slot, LinkedPtr>, values: Values, x: Slot, p: LinkedPtr, v: Pointer)
    requires Kept(slots, values) && x !in slots && p !in values
    ensures Kept(slots[x := p], values[p := v])
    ensures Held(slots[x := p], values[p := v]) == Held(slots, values)[x := v]
  {
    ValuesWith(slots, x, p);
    assert forall y | y in slots :: slots[y] in slots.Values;
  }

  lemma ValuesWith(slots: map<Slot, LinkedPtr>, x: Slot, p: LinkedPtr)
    requires x !in slots
    ensures slots[x := p].Values == slots.Values + {p}
  {
    assert slots[x := p][x] == p;
    forall q | q in slots.Values ensures q in slots[x := p].Values {
      var y :| y in slots && slots[y] == q;
      assert slots[x := p][y] == q;
    }
  }

  lemma KeptRemoved(slots: map<Slot, LinkedPtr>, values: Values, x: Slot)
    requires Kept(slots, values) && x in slots
    ensures Kept(slots - {x}, values - {slots[x]})
    ensures Held(slots - {x}, values - {slots[x]}) == Held(slots, values) - {x}
  {
    assert forall y | y in slots - {x} :: y in slots && slots[y] in slots.Values;
    forall p | p in slots.Values && p != slots[x] ensures p in (slots - {x}).Values {
      var y :| y in slots && slots[y] == p;
      assert y in slots - {x};
    }
    assert (slots - {x}).Values == values.Keys - {slots[x]};
  }

  lemma SameOrphan(slots: map<Slot, LinkedPtr>, values: Values, x: Slot)
    requires Kept(slots, values) && x in slots
    ensures IsSole(Held(slots, values), x) <==> IsSole(values, slots[x])
    ensures Orphan(Held(slots, values), x) == Orphan(values, slots[x])
  {
    assert forall y | y in slots :: slots[y] in slots.Values;
    if IsSole(Held(slots, values), x) {
      forall p | p in values && p != slots[x] && values[slots[x]].To? ensures values[p] != values[slots[x]] {
        assert p in slots.Values;
        var y :| y in slots && slots[y] == p;
        assert Held(slots, values)[y] == values[p];
      }
    }
  }

  /** A pointer that was never captured is held by none. */
  lemma FreshIsUnheld(slots: map<Slot, LinkedPtr>, values: Values, s: State, v: Pointer)
    requires Kept(slots, values) && s.held == Held(slots, values) && AllCaptured(s) && Fresh(s, v)
    ensures Unheld(values, v)
  {
    if v.To? {
      forall p | p in values ensures values[p] != v {
        assert p in slots.Values;
        var y :| y in slots && slots[y] == p;
        assert s.held[y] == values[p];
      }
    }
  }

  /** What the program sees is what its pointers say. */
  ghost predicate Agrees(s: State, slots: map<Slot, LinkedPtr>, values: Values) {
    Kept(slots, values) && s.held == Held(slots, values) && AllCaptured(s)
  }

  lemma CaptureStep(s: State, slots: map<Slot, LinkedPtr>, values: Values, x: Slot, v: Pointer)
    requires Agrees(s, slots, values) && Allowed(s, Capture(x, v))
    ensures Unheld(values, v)
  {
    FreshIsUnheld(slots, values, s, v);
  }

  lemma Captured(s: State, slots: map<Slot, LinkedPtr>, values: Values, x: Slot, v: Pointer, p: LinkedPtr)
    requires Agrees(s, slots, values) && Allowed(s, Capture(x, v)) && p !in values
    ensures Agrees(Next(s, Capture(x, v)), slots[x := p], values[p := v])
  {
    NextCaptured(s, Capture(x, v));
    KeptAdded(slots, values, x, p, v);
  }

  lemma CopyStep(s: State, slots: map<Slot, LinkedPtr>, values: Values, x: Slot, y: Slot)
    requires Agrees(s, slots, values) && Allowed(s, CopyOf(x, y))
    ensures slots[y] in values
  {
    assert slots[y] in slots.Values;
  }

  lemma Copied(s: State, slots: map<Slot, LinkedPtr>, values: Values, x: Slot, y: Slot, p: LinkedPtr)
    requires Agrees(s, slots, values) && Allowed(s, CopyOf(x, y)) && p !in values && slots[y] in values
    ensures Agrees(Next(s, CopyOf(x, y)), slots[x := p], values[p := values[slots[y]]])
  {
    NextCaptured(s, CopyOf(x, y));
    KeptAdded(slots, values, x, p, values[slots[y]]);
  }

  lemma AssignStep(s: State, slots: map<Slot, LinkedPtr>, values: Values, x: Slot, y: Slot)
    requires Agrees(s, slots, values) && Allowed(s, Assign(x, y))
    ensures slots[x] in values && slots[y] in values && (slots[x] == slots[y] <==> x == y)
    ensures Agrees(Next(s, Assign(x, y)), slots, values[slots[x] := values[slots[y]]])
    ensures Next(s, Assign(x, y)).deleted == s.deleted + if x == y then [] else Orphan(values, slots[x])
  {
    NextCaptured(s, Assign(x, y));
    assert slots[x] in slots.Values && slots[y] in slots.Values;
    SameOrphan(slots, values, x);
    KeptChanged(slots, values, x, values[slots[y]]);
  }

  lemma ResetStep(s: State, slots: map<Slot, LinkedPtr>, values: Values, x: Slot, v: Pointer)
    requires Agrees(s, slots, values) && Allowed(s, Reset(x, v))
    ensures slots[x] in values && Unheld(values, v) && Agrees(Next(s, Reset(x, v)), slots, values[slots[x] := v])
    ensures Orphan(s.held, x) == Orphan(values, slots[x])
  {
    NextCaptured(s, Reset(x, v));
    assert slots[x] in slots.Values;
    FreshIsUnheld(slots, values, s, v);
    SameOrphan(slots, values, x);
    KeptChanged(slots, values, x, v);
  }

  lemma ReleaseStep(s: State, slots: map<Slot, LinkedPtr>, values: Values, x: Slot)
    requires Agrees(s, slots, values) && Allowed(s, Release(x))
    ensures slots[x] in values && IsSole(values, slots[x]) && s.held[x] == values[slots[x]]
    ensures Agrees(Next(s, Release(x)), slots, values[slots[x] := Null])
  {
    NextCaptured(s, Release(x));
    assert slots[x] in slots.Values;
    SameOrphan(slots, values, x);
    KeptChanged(slots, values, x, Null);
  }

  lemma DestroyStep(s: State, slots: map<Slot, LinkedPtr>, values: Values, x: Slot)
    requires Agrees(s, slots, values) && Allowed(s, Destroy(x))
    ensures slots[x] in values && Orphan(s.held, x) == Orphan(values, slots[x])
    ensures Agrees(Next(s, Destroy(x)), slots - {x}, values - {slots[x]})
  {
    NextCaptured(s, Destroy(x));
    assert slots[x] in slots.Values;
    SameOrphan(slots, values, x);
    KeptRemoved(slots, values, x);
  }

  class Program {
    const memory: Memory
    var slots: map<Slot, LinkedPtr>
    /** What the program sees, which Valid ties to the pointers and to what has been deleted. */
    ghost var view: State

    constructor ()
      ensures Valid() && view == START && fresh(memory) && fresh(memory.live)
    {
      memory := new Memory();
      slots, view := map[], START;
    }

    ghost predicate Valid()
      reads this, memory, memory.live
    {
      memory.Valid() && view.deleted == memory.deleted && Agrees(view, slots, memory.Values())
    }

    /** Take over a state that the pointers are in already. */
    method Become(slots: map<Slot, LinkedPtr>, ghost view: State)
      requires memory.Valid() && view.deleted == memory.deleted && Agrees(view, slots, memory.Values())
      modifies `slots, `view
      ensures Valid() && this.slots == slots && this.view == view
    {
      this.slots, this.view := slots, view;
    }

    method Add(x: Slot, v: Pointer)
      requires Valid() && Allowed(view, Capture(x, v))
      modifies this, memory
      ensures Valid() && view == Next(old(view), Capture(x, v))
      ensures fresh(memory.live - old(memory.live))
    {
      ghost var values := memory.Values();
      CaptureStep(view, slots, values, x, v);
      var p := new LinkedPtr(v, memory);
      Captured(view, slots, values, x, v, p);
      Become(slots[x := p], Next(view, Capture(x, v)));
    }

    method AddCopy(x: Slot, y: Slot)
      requires Valid() && Allowed(view, CopyOf(x, y))
      modifies this, memory, memory.live
      ensures Valid() && view == Next(old(view), CopyOf(x, y))
      ensures fresh(memory.live - old(memory.live))
    {
      ghost var values := memory.Values();
      CopyStep(view, slots, values, x, y);
      var p := new LinkedPtr.Copy(slots[y], memory);
      Copied(view, slots, values, x, y, p);
      Become(slots[x := p], Next(view, CopyOf(x, y)));
    }

    method Overwrite(x: Slot, y: Slot)
      requires Valid() && Allowed(view, Assign(x, y))
      modifies `view, `slots, memory, memory.live
      ensures Valid() && view == Next(old(view), Assign(x, y))
      ensures fresh(memory.live - old(memory.live))
    {
      ghost var values := memory.Values();
      AssignStep(view, slots, values, x, y);
      slots[x].Assign(slots[y], memory);
      assert memory.Values() == values[slots[x] := values[slots[y]]];
      Become(slots, Next(view, Assign(x, y)));
    }

    method ResetTo(x: Slot, v: Pointer)
      requires Valid() && Allowed(view, Reset(x, v))
      modifies `view, `slots, memory, memory.live
      ensures Valid() && view == Next(old(view), Reset(x, v))
      ensures fresh(memory.live - old(memory.live))
    {
      ghost var values := memory.Values();
      ResetStep(view, slots, values, x, v);
      slots[x].Reset(v, memory);
      assert memory.Values() == values[slots[x] := v];
      Become(slots, Next(view, Reset(x, v)));
    }

    method GiveUp(x: Slot) returns (v: Pointer)
      requires Valid() && Allowed(view, Release(x))
      modifies `view, `slots, memory, memory.live
      ensures Valid() && view == Next(old(view), Release(x)) && v == old(view).held[x]
      ensures fresh(memory.live - old(memory.live))
    {
      ghost var values := memory.Values();
      ReleaseStep(view, slots, values, x);
      v := slots[x].Release(memory);
      assert memory.Values() == values[slots[x] := Null];
      Become(slots, Next(view, Release(x)));
    }

    method Remove(x: Slot)
      requires Valid() && Allowed(view, Destroy(x))
      modifies `view, `slots, memory, memory.live
      ensures Valid() && view == Next(old(view), Destroy(x))
      ensures fresh(memory.live - old(memory.live))
    {
      DestroyStep(view, slots, memory.Values(), x);
      slots[x].Leave(memory);
      Become(slots - {x}, Next(view, Destroy(x)));
    }

    method Do(op: Op)
      requires Valid() && Allowed(view, op)
      modifies this, memory, memory.live
      ensures Valid() && view == Next(old(view), op)
      ensures fresh(memory.live - old(memory.live))
    {
      match op
      case Capture(x, v) => Add(x, v);
      case CopyOf(x, y) => AddCopy(x, y);
      case Assign(x, y) => Overwrite(x, y);
      case Reset(x, v) => ResetTo(x, v);
      case Release(x) => var v := GiveUp(x);
      case Destroy(x) => Remove(x);
    }
  }

  lemma {:induction false} RunPrefix(ops: seq<Op>, k: nat)
    requires IsRun(ops) && k <= |ops|
    ensures IsRun(ops[..k])
    decreases |ops|
  {
    if k < |ops| {
      RunPrefix(ops[..|ops| - 1], k);
      assert ops[..|ops| - 1][..k] == ops[..k];
    } else {
      assert ops[..k] == ops;
    }
  }

  lemma RunNext(ops: seq<Op>, k: nat)
    requires IsRun(ops) && k < |ops|
    ensures IsRun(ops[..k]) && Allowed(Outcome(ops[..k]), ops[k])
    ensures IsRun(ops[..k + 1]) && Outcome(ops[..k + 1]) == Next(Outcome(ops[..k]), ops[k])
  {
    RunPrefix(ops, k + 1);
    assert ops[..k + 1][..k] == ops[..k];
  }

  /** A whole run, carried out on the heap. */
  method Run(ops: seq<Op>) returns (p: Program)
    requires IsRun(ops)
    ensures fresh(p) && p.Valid() && p.view == Outcome(ops) && Conserved(p.view)
  {
    p := new Program();
    assert ops[..0] == [];
    for k := 0 to |ops|
      invariant IsRun(ops[..k]) && p.Valid() && p.view == Outcome(ops[..k])
      invariant fresh(p) && fresh(p.memory) && fresh(p.memory.live)
    {
      RunNext(ops, k);
      p.Do(ops[k]);
    }
    assert ops[..|ops|] == ops;
    RunConserves(ops);
  }
}
