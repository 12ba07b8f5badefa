/** The nesting depths of the slot table, counted from the calls of a run alone. */
module ThreadDepths {
  import opened Common
  import opened ThreadSlots

  /** Functions thread t has entered and not left: its calls, whatever has become of them in the table. */
  function Nesting(es: seq<Event>, t: Thread): int {
    if es == [] then 0
    else
      var e := es[|es| - 1];
      Nesting(es[..|es| - 1], t) + if e == Begin(t, Enter) then 1 else if e == Begin(t, Leave) then -1 else 0
  }

  /** The call a thread has begun and not yet added to its slot. */
  function Begun(pc: Pc): Option<Op> {
    match pc
    case Idle => None
    case Scan(op, _, _) => Some(op)
    case Claim(op, _, _) => Some(op)
    case Full(op) => Some(op)
    case Reload(op) => Some(op)
    case Found(op, _) => Some(op)
    case Release(_) => None
  }

  function Owed(pc: Pc): int { if Begun(pc) == Some(Enter) then 1 else if Begun(pc) == Some(Leave) then -1 else 0 }

  ghost predicate Nested(s: State, t: Thread, n: int) { Get(s, t).depth + Owed(Get(s, t).pc) == n }

  lemma GoKeepsNesting(s: State, t: Thread)
    requires Inv(s) && t != 0 && Legal(s, Go(t))
    ensures Nested(Step(s, Go(t)), t, Get(s, t).depth + Owed(Get(s, t).pc))
  {
    assert ThreadOk(s, t);
    var l := Get(s, t);
    if l.slot.Some? { assert SlotOk(s, l.slot.value); }
  }

  /** In every interleaving a thread's depth is its nesting, less the call it has yet to add. */
  lemma {:induction false} DepthIsNesting(es: seq<Event>, t: Thread)
    requires LegalRun(es) && t != 0
    ensures Nested(Run(es), t, Nesting(es, t))
  {
    if es != [] {
      var front, e := es[..|es| - 1], es[|es| - 1];
      DepthIsNesting(front, t);
      RunsKeepInv(front);
      if e.t != t {
        StepIsLocal(Run(front), e);
      } else if e.Go? {
        GoKeepsNesting(Run(front), t);
      }
    }
  }

  /**
   * Between its operations a thread that is inside n functions owns a slot with offset n, and reading its depth
   * finds n, whatever the other threads do.
   */
  lemma SlotHoldsNesting(es: seq<Event>, t: Thread, k: nat)
    requires LegalRun(es) && t != 0 && k < |Run(es).table| && Run(es).table[k].owner == t
    ensures Get(Run(es), t).pc.Idle? ==> Run(es).table[k].offset == Nesting(es, t)
    ensures Get(Run(es), t).pc == Found(Query, k) ==> Run(es).table[k].offset == Nesting(es, t)
  {
    DepthIsNesting(es, t);
    SlotsAreExclusive(es, k, k);
  }

  /** A thread inside a function owns a slot. */
  lemma NestedOwnsSlot(es: seq<Event>, t: Thread)
    requires LegalRun(es) && t != 0 && Get(Run(es), t).pc.Idle? && Nesting(es, t) > 0
    ensures exists k :: 0 <= k < |Run(es).table| && Run(es).table[k] == Slot(t, Nesting(es, t))
  {
    DepthIsNesting(es, t);
    SlotKeptExactlyWhen(es, t);
    var k :| 0 <= k < |Run(es).table| && Run(es).table[k].owner == t;
    SlotHoldsNesting(es, t, k);
  }
}
