/**
 * The function logger's table of per-thread call depths.  Threads find or claim their slot without a lock:
 * they scan a snapshot of the table, claim a free slot by compare-and-swap, and replace the table by a longer one
 * when all slots are taken.  Every atomic action of every thread is one step of the machine below.
 */
module ThreadSlots {
  import opened Common

  const GROW_SIZE: nat := 16

  type Thread = int // a thread id; 0 marks a free slot

  datatype Slot = Slot(owner: Thread, offset: int)

  /** Entering a function, leaving it, and reading the current depth. */
  datatype Op = Enter | Leave | Query

  /** Where a thread is inside an operation; `n` is the length of the table it has loaded. */
  datatype Pc =
    | Idle
    | Scan(op: Op, n: nat, i: nat) // looking for its own id
    | Claim(op: Op, n: nat, i: nat) // compare-and-swap on slot i
    | Full(op: Op) // the loaded table has no free slot
    | Reload(op: Op) // grew the table
    | Found(op: Op, k: nat)
    | Release(k: nat) // the depth dropped to zero

  /** `depth`, `slot` and `strayed` are the observer's: nesting, slot held, read the depth outside any function. */
  datatype Local = Local(pc: Pc, depth: nat, slot: Option<nat>, strayed: bool)

  datatype State = State(table: seq<Slot>, threads: map<Thread, Local>)

  function Get(s: State, t: Thread): Local {
    if t in s.threads then s.threads[t] else Local(Idle, 0, None, false)
  }

  function Set(s: State, t: Thread, l: Local): State { s.(threads := s.threads[t := l]) }

  function FreeSlots(n: nat): seq<Slot> { seq(n, _ => Slot(0, 0)) }

  function Grown(table: seq<Slot>): seq<Slot> { table + FreeSlots(GROW_SIZE) }

  function Initial(): State { State(Grown([]), map[]) }

  datatype Event = Begin(t: Thread, op: Op) | Go(t: Thread)

  /** Threads have ids other than 0 and leave only functions they entered. */
  predicate Legal(s: State, e: Event) {
    e.t != 0 &&
    match e
    case Begin(t, op) => Get(s, t).pc.Idle? && (op.Leave? ==> Get(s, t).depth > 0)
    case Go(t) => !Get(s, t).pc.Idle?
  }

  function ScanStep(s: State, t: Thread, l: Local): State
    requires l.pc.Scan?
  {
    var Scan(op, n, i) := l.pc;
    if i < n && i < |s.table| then
      Set(s, t, l.(pc := if s.table[i].owner == t then Found(op, i) else Scan(op, n, i + 1)))
    else Set(s, t, l.(pc := Claim(op, n, 0)))
  }

  function ClaimStep(s: State, t: Thread, l: Local): State
    requires l.pc.Claim?
  {
    var Claim(op, n, i) := l.pc;
    if i < n && i < |s.table| then
      if s.table[i].owner == 0 then
        Set(s.(table := s.table[i := s.table[i].(owner := t)]), t, l.(pc := Found(op, i), slot := Some(i)))
      else Set(s, t, l.(pc := Claim(op, n, i + 1)))
    else Set(s, t, l.(pc := Full(op)))
  }

  function Delta(op: Op): int { match op case Enter => 1 case Leave => -1 case Query => 0 }

  /** The thread adds to its own slot; a depth of zero gives the slot up. */
  function FoundStep(s: State, t: Thread, l: Local): State
    requires l.pc.Found?
  {
    var Found(op, k) := l.pc;
    if op.Query? || k >= |s.table| then Set(s, t, l.(pc := Idle, strayed := l.strayed || l.depth == 0))
    else
      var offset := s.table[k].offset + Delta(op);
      var depth: nat := if l.depth + Delta(op) < 0 then 0 else l.depth + Delta(op);
      Set(s.(table := s.table[k := s.table[k].(offset := offset)]), t,
          l.(pc := if offset == 0 then Release(k) else Idle, depth := depth))
  }

  function ReleaseStep(s: State, t: Thread, l: Local): State
    requires l.pc.Release?
  {
    var k := l.pc.k;
    var table := if k < |s.table| then s.table[k := s.table[k].(owner := 0)] else s.table;
    Set(s.(table := table), t, l.(pc := Idle, slot := None, strayed := false))
  }

  function Step(s: State, e: Event): State {
    var l := Get(s, e.t);
    match e
    case Begin(t, op) => Set(s, t, l.(pc := Scan(op, |s.table|, 0)))
    case Go(t) =>
      match l.pc
      case Idle => s
      case Scan(_, _, _) => ScanStep(s, t, l)
      case Claim(_, _, _) => ClaimStep(s, t, l)
      case Full(op) => Set(s.(table := Grown(s.table)), t, l.(pc := Reload(op)))
      case Reload(op) => Set(s, t, l.(pc := Claim(op, |s.table|, 0)))
      case Found(_, _) => FoundStep(s, t, l)
      case Release(_) => ReleaseStep(s, t, l)
  }

  // ---- the invariant ----

  /** A thread that is not looking for a slot holds one exactly when it is inside a function or has strayed. */
  predicate Rested(l: Local) { l.slot.Some? <==> l.depth > 0 || l.strayed }

  /** What a thread at each place knows, in a table of `size` slots. */
  predicate LocalOk(l: Local, size: nat) {
    match l.pc
    case Idle => Rested(l)
    case Scan(op, n, i) =>
      && Rested(l) && i <= n <= size && (l.slot.Some? ==> i <= l.slot.value < n)
      && (op.Leave? ==> l.depth > 0)
    case Claim(op, n, i) => i <= n <= size && l.slot.None? && l.depth == 0 && !l.strayed && !op.Leave?
    case Full(op) => l.slot.None? && l.depth == 0 && !l.strayed && !op.Leave?
    case Reload(op) => l.slot.None? && l.depth == 0 && !l.strayed && !op.Leave?
    case Found(op, k) => l.slot == Some(k) && (op.Leave? ==> l.depth > 0)
    case Release(k) => l.slot == Some(k) && l.depth == 0
  }

  /** A free slot has offset 0; a taken one is its owner's only slot and holds its owner's depth. */
  ghost predicate SlotOk(s: State, k: nat)
    requires k < |s.table|
  {
    var slot := s.table[k];
    if slot.owner == 0 then slot.offset == 0
    else Get(s, slot.owner).slot == Some(k) && slot.offset == Get(s, slot.owner).depth
  }

  /** The slot a thread holds is its own. */
  ghost predicate ThreadOk(s: State, t: Thread) {
    var l := Get(s, t);
    LocalOk(l, |s.table|) && (l.slot.Some? ==> l.slot.value < |s.table| && s.table[l.slot.value].owner == t)
  }

  ghost predicate Inv(s: State) {
    && (forall k :: 0 <= k < |s.table| ==> SlotOk(s, k))
    && (forall t :: t != 0 ==> ThreadOk(s, t))
  }

  /** What one step of thread t does to the rest: other threads' slots and locals stay, the table only grows. */
  lemma StepIsLocal(s: State, e: Event)
    requires Inv(s) && Legal(s, e)
    ensures |Step(s, e).table| >= |s.table|
    ensures forall u :: u != e.t ==> Get(Step(s, e), u) == Get(s, u)
    ensures forall k :: 0 <= k < |s.table| && s.table[k].owner != 0 && s.table[k].owner != e.t ==>
      Step(s, e).table[k] == s.table[k]
  {
    assert ThreadOk(s, e.t);
  }

  lemma StepKeepsOwn(s: State, e: Event)
    requires Inv(s) && Legal(s, e)
    ensures ThreadOk(Step(s, e), e.t)
  {
    assert ThreadOk(s, e.t);
    var l := Get(s, e.t);
    if l.slot.Some? { assert SlotOk(s, l.slot.value); }
    if l.pc.Scan? && l.pc.i < l.pc.n { assert SlotOk(s, l.pc.i); }
  }

  lemma StepKeepsSlot(s: State, e: Event, k: nat)
    requires Inv(s) && Legal(s, e) && k < |Step(s, e).table|
    ensures SlotOk(Step(s, e), k)
  {
    assert ThreadOk(s, e.t);
    if k < |s.table| {
      assert SlotOk(s, k);
      if s.table[k].owner != 0 { assert ThreadOk(s, s.table[k].owner); }
    }
  }

  lemma StepKeepsInv(s: State, e: Event)
    requires Inv(s) && Legal(s, e)
    ensures Inv(Step(s, e))
  {
    var s' := Step(s, e);
    forall k | 0 <= k < |s'.table|
      ensures SlotOk(s', k)
    {
      StepKeepsSlot(s, e, k);
    }
    StepIsLocal(s, e);
    forall t | t != 0
      ensures ThreadOk(s', t)
    {
      assert ThreadOk(s, t);
      if t == e.t { StepKeepsOwn(s, e); }
    }
  }

  // ---- runs ----

  function Run(es: seq<Event>): State {
    if es == [] then Initial() else Step(Run(es[..|es| - 1]), es[|es| - 1])
  }

  predicate LegalRun(es: seq<Event>) {
    es == [] || (LegalRun(es[..|es| - 1]) && Legal(Run(es[..|es| - 1]), es[|es| - 1]))
  }

  /** Any interleaving of any threads' scans, claims, growths, updates and releases keeps the invariant. */
  lemma {:induction false} RunsKeepInv(es: seq<Event>)
    requires LegalRun(es)
    ensures Inv(Run(es))
  {
    if es != [] {
      RunsKeepInv(es[..|es| - 1]);
      StepKeepsInv(Run(es[..|es| - 1]), es[|es| - 1]);
    }
  }

  /** No thread ever has two slots, free slots have offset 0, and a taken slot holds its owner's nesting depth. */
  lemma SlotsAreExclusive(es: seq<Event>, j: nat, k: nat)
    requires LegalRun(es) && j < |Run(es).table| && k < |Run(es).table|
    ensures var table := Run(es).table;
      && (table[j].owner == table[k].owner != 0 ==> j == k)
      && (table[k].owner == 0 ==> table[k].offset == 0)
      && (table[k].owner != 0 ==> table[k].offset == Get(Run(es), table[k].owner).depth)
  {
    RunsKeepInv(es);
    assert SlotOk(Run(es), j) && SlotOk(Run(es), k);
  }

  /** Reading the depth gives the thread's own nesting depth. */
  lemma QueryReadsDepth(es: seq<Event>, t: Thread)
    requires LegalRun(es) && t != 0 && Get(Run(es), t).pc.Found?
    ensures var s := Run(es);
      var k := Get(s, t).pc.k;
      k < |s.table| && s.table[k].owner == t && s.table[k].offset == Get(s, t).depth
  {
    RunsKeepInv(es);
    assert ThreadOk(Run(es), t);
    assert SlotOk(Run(es), Get(Run(es), t).pc.k);
  }

  /** Leaving a function always finds the slot that entering it left: it never claims one. */
  lemma LeavingNeverClaims(es: seq<Event>, t: Thread)
    requires LegalRun(es) && t != 0 && (Get(Run(es), t).pc.Claim? || Get(Run(es), t).pc.Full? || Get(Run(es), t).pc.Reload?)
    ensures !Get(Run(es), t).pc.op.Leave? && forall k :: 0 <= k < |Run(es).table| ==> Run(es).table[k].owner != t
  {
    RunsKeepInv(es);
    assert ThreadOk(Run(es), t);
    forall k | 0 <= k < |Run(es).table|
      ensures Run(es).table[k].owner != t
    {
      assert SlotOk(Run(es), k);
    }
  }

  /** Between operations a thread keeps a slot exactly when it is inside a function or read its depth outside one. */
  lemma SlotKeptExactlyWhen(es: seq<Event>, t: Thread)
    requires LegalRun(es) && t != 0 && Get(Run(es), t).pc.Idle?
    ensures (exists k :: 0 <= k < |Run(es).table| && Run(es).table[k].owner == t)
       <==> Get(Run(es), t).depth > 0 || Get(Run(es), t).strayed
  {
    RunsKeepInv(es);
    var s := Run(es);
    assert ThreadOk(s, t);
    if k :| 0 <= k < |s.table| && s.table[k].owner == t {
      assert SlotOk(s, k);
    }
  }

  /** The first thread's reading of its depth, after `n` atomic actions. */
  function Reading(t: Thread, n: nat): seq<Event> {
    if n == 0 then [Begin(t, Query)] else Reading(t, n - 1) + [Go(t)]
  }

  lemma OneMore(es: seq<Event>, e: Event)
    ensures Run(es + [e]) == Step(Run(es), e)
    ensures LegalRun(es + [e]) <==> LegalRun(es) && Legal(Run(es), e)
  {
    assert (es + [e])[..|es + [e]| - 1] == es;
  }

  /** After `n` actions the thread has scanned that many slots of the first table, all of them free. */
  ghost predicate Scanned(s: State, t: Thread, n: nat) {
    Get(s, t) == Local(Scan(Query, GROW_SIZE, n), 0, None, false) && s.table == Grown([])
  }

  lemma ReadingBegins(t: Thread)
    requires t != 0
    ensures LegalRun(Reading(t, 0)) && Scanned(Run(Reading(t, 0)), t, 0)
  {
    OneMore([], Begin(t, Query));
    assert [] + [Begin(t, Query)] == Reading(t, 0);
  }

  lemma {:induction false} ReadingScans(t: Thread, n: nat)
    requires t != 0 && n <= GROW_SIZE
    ensures LegalRun(Reading(t, n)) && Scanned(Run(Reading(t, n)), t, n)
  {
    if n == 0 {
      ReadingBegins(t);
    } else {
      ReadingScans(t, n - 1);
      ScansOne(Run(Reading(t, n - 1)), t, n);
      OneMore(Reading(t, n - 1), Go(t));
    }
  }

  lemma ScansOne(s: State, t: Thread, n: nat)
    requires t != 0 && 0 < n <= GROW_SIZE && Scanned(s, t, n - 1)
    ensures Scanned(Step(s, Go(t)), t, n)
  {
    assert s.table[n - 1] == FreeSlots(GROW_SIZE)[n - 1];
  }

  /** Three more actions: no slot is its own, slot 0 is free, its depth is read. */
  lemma ClaimsFirst(s: State, t: Thread) returns (s1: State, s2: State)
    requires t != 0 && Scanned(s, t, GROW_SIZE)
    ensures s1 == Step(s, Go(t)) && s2 == Step(s1, Go(t))
    ensures !Get(s1, t).pc.Idle? && !Get(s2, t).pc.Idle?
    ensures var s3 := Step(s2, Go(t));
      Get(s3, t) == Local(Idle, 0, Some(0), true) && |s3.table| > 0 && s3.table[0].owner == t
  {
    s1 := Step(s, Go(t));
    assert Get(s1, t).pc == Claim(Query, GROW_SIZE, 0);
    assert s.table[0] == FreeSlots(GROW_SIZE)[0];
    s2 := Step(s1, Go(t));
    assert Get(s2, t) == Local(Found(Query, 0), 0, Some(0), false);
  }

  /** Straying does happen: a thread that reads its depth outside any function leaves with slot 0 in its name. */
  lemma StrayReadingKeepsSlot(t: Thread)
    requires t != 0
    ensures LegalRun(Reading(t, GROW_SIZE + 3))
    ensures var s := Run(Reading(t, GROW_SIZE + 3));
      Get(s, t) == Local(Idle, 0, Some(0), true) && |s.table| > 0 && s.table[0].owner == t
  {
    var n := GROW_SIZE;
    ReadingScans(t, n);
    var s1, s2 := ClaimsFirst(Run(Reading(t, n)), t);
    OneMore(Reading(t, n), Go(t));
    OneMore(Reading(t, n + 1), Go(t));
    OneMore(Reading(t, n + 2), Go(t));
  }

  // ---- a thread left alone ----

  /** First slot from i on with the given owner; the table's length if there is none. */
  function First(table: seq<Slot>, owner: Thread, i: nat): (k: nat)
    requires i <= |table|
    ensures i <= k <= |table|
    ensures k < |table| ==> table[k].owner == owner
    ensures forall j :: i <= j < k ==> table[j].owner != owner
    decreases |table| - i
  {
    if i == |table| || table[i].owner == owner then i else First(table, owner, i + 1)
  }

  /** Growing a full table makes its old length the first free slot. */
  lemma GrownFirst(table: seq<Slot>)
    requires First(table, 0, 0) == |table|
    ensures First(Grown(table), 0, 0) == |table| < |Grown(table)|
  {
    assert Grown(table)[|table|] == FreeSlots(GROW_SIZE)[0] == Slot(0, 0);
  }

  /** Where an undisturbed search ends: the thread's slot, else the first free one, else the first of a grown table. */
  function FindAlone(table: seq<Slot>, t: Thread): (seq<Slot>, nat) {
    var own, free := First(table, t, 0), First(table, 0, 0);
    if own < |table| then (table, own)
    else if free < |table| then (table[free := table[free].(owner := t)], free)
    else (Grown(table)[|table| := Slot(t, 0)], |table|)
  }

  function Alone(s: State, t: Thread, m: nat): State
    decreases m
  {
    if m == 0 then s else Alone(Step(s, Go(t)), t, m - 1)
  }

  /** Claiming, with no free slot passed over. */
  lemma {:induction false} AloneClaims(s: State, t: Thread, op: Op, i: nat) returns (m: nat)
    requires t != 0 && i <= |s.table| && Get(s, t).pc == Claim(op, |s.table|, i) && First(s.table, 0, 0) >= i
    ensures var free := First(s.table, 0, 0);
      && Get(Alone(s, t, m), t).pc == Found(op, free)
      && Alone(s, t, m).table == if free < |s.table| then s.table[free := s.table[free].(owner := t)]
                                 else Grown(s.table)[|s.table| := Slot(t, 0)]
    decreases First(s.table, 0, 0) == |s.table|, |s.table| - i
  {
    var s1 := Step(s, Go(t));
    if i == |s.table| {
      var s2 := Step(s1, Go(t));
      var s3 := Step(s2, Go(t));
      GrownFirst(s.table);
      var rest := AloneClaims(s3, t, op, 0);
      m := rest + 3;
      assert Alone(s2, t, rest + 1) == Alone(s3, t, rest);
      assert Alone(s1, t, rest + 2) == Alone(s3, t, rest);
    } else if s.table[i].owner == 0 {
      assert Alone(s1, t, 0) == s1;
      m := 1;
    } else {
      var rest := AloneClaims(s1, t, op, i + 1);
      m := rest + 1;
    }
  }

  /**
   * A thread that runs undisturbed finds its slot in finitely many steps, growing the table at most once and only
   * when it has no slot and none is free.
   */
  lemma {:induction false} AloneFinds(s: State, t: Thread, op: Op, i: nat) returns (m: nat)
    requires t != 0 && i <= |s.table| && Get(s, t).pc == Scan(op, |s.table|, i) && First(s.table, t, 0) >= i
    ensures Get(Alone(s, t, m), t).pc == Found(op, FindAlone(s.table, t).1)
    ensures Alone(s, t, m).table == FindAlone(s.table, t).0
    decreases |s.table| - i
  {
    var s1 := Step(s, Go(t));
    var rest;
    if i == |s.table| {
      rest := AloneClaims(s1, t, op, 0);
    } else if s.table[i].owner == t {
      rest := 0;
    } else {
      rest := AloneFinds(s1, t, op, i + 1);
    }
    m := rest + 1;
  }

  /** The table as an object, used by one thread at a time. */
  class Debug {
    var data: seq<Slot>

    constructor ()
      ensures data == Initial().table
    {
      data := [];
      new;
      Grow();
    }

    /** A longer table with every older slot in place. */
    method Grow()
      modifies this
      ensures data == Grown(old(data))
    {
      var newData := data;
      for i := 0 to GROW_SIZE
        invariant newData == data + FreeSlots(i)
      {
        newData := newData + [Slot(0, 0)];
      }
      data := newData;
    }

    /** Claims the first free slot; the table's length stands for none. */
    method RegisterThread(threadId: Thread) returns (k: nat)
      modifies this
      ensures k == First(old(data), 0, 0)
      ensures data == if k < |old(data)| then old(data)[k := old(data)[k].(owner := threadId)] else old(data)
    {
      k := 0;
      while k < |data|
        invariant k <= |data| && data == old(data) && First(data, 0, 0) == First(data, 0, k)
      {
        if data[k].owner == 0 {
          data := data[k := data[k].(owner := threadId)];
          return;
        }
        k := k + 1;
      }
    }

    method FindCurrentThreadInfo(threadId: Thread) returns (k: nat)
      requires threadId != 0
      modifies this
      ensures (data, k) == FindAlone(old(data), threadId)
    {
      k := 0;
      while k < |data|
        invariant k <= |data| && data == old(data) && First(data, threadId, 0) == First(data, threadId, k)
      {
        if data[k].owner == threadId {
          return;
        }
        k := k + 1;
      }
      while true
        invariant First(old(data), threadId, 0) == |old(data)|
        invariant data == old(data) ||
                  (First(old(data), 0, 0) == |old(data)| == First(data, 0, 0) && data == Grown(old(data)))
        decreases First(data, 0, 0) == |data|
      {
        k := RegisterThread(threadId);
        if k < |data| {
          return;
        }
        GrownFirst(data);
        Grow();
      }
    }

    /** Entering or leaving a function: the depth moves by one, and at zero the slot is given up. */
    method AddOffsetForCurrentThread(threadId: Thread, offset: int)
      requires threadId != 0
      modifies this
      ensures offset == 0 ==> data == old(data)
      ensures offset != 0 ==>
        var (table, k) := FindAlone(old(data), threadId);
        data == table[k := Slot(if table[k].offset + offset == 0 then 0 else threadId, table[k].offset + offset)]
    {
      if offset == 0 {
        return;
      }
      var k := FindCurrentThreadInfo(threadId);
      data := data[k := data[k].(offset := data[k].offset + offset)];
      if data[k].offset == 0 {
        data := data[k := data[k].(owner := 0)];
      }
    }
  }
}
