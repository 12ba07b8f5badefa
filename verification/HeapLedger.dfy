/** What a caller can tell about a block from the calls alone, and that the tracker's lists agree with it. */
module HeapLedger {
  import opened HeapLists
  import opened HeapTracker

  /**
   * The last thing that happened to a block: handed out, freed, moved away from, or refused by the system in a
   * realloc, as a live block or as a freed one.
   */
  datatype Fate = Unknown | InUse | Freed | MovedAway | RefusedLive | RefusedFreed

  function Refusal(was: Fate): Fate { if was == Freed then RefusedFreed else RefusedLive }

  /** What one call changes: `was` is the fate of h before, `passed` that of the block the call passes. */
  function Step(was: Fate, passed: Fate, e: Event, h: Hdr): Fate {
    match e
    case Malloc(x) => if x == h then InUse else was
    case Free(x) => if x == h && was == InUse then Freed else was
    case Realloc(x, o) =>
      if passed == RefusedLive || passed == RefusedFreed then was
      else if x == h then (match o case Failed => Refusal(was) case InPlace => InUse case Moved(_) => MovedAway)
      else if o.Moved? && o.to == h then InUse
      else was
  }

  /** The caller's ledger: blocks with a refused realloc keep that fate whatever is done with them. */
  ghost function FateOf(es: seq<Event>, h: Hdr): Fate {
    if es == [] then Unknown
    else
      var front, e := es[..|es| - 1], es[|es| - 1];
      Step(FateOf(front, h), FateOf(front, e.h), e, h)
  }

  /** The place of a block is what its fate says. */
  ghost predicate Tells(b: Blocks, h: Hdr, f: Fate) {
    && (f == InUse <==> h in b.live)
    && (f == RefusedLive <==> h in b.lost)
    && (f == RefusedFreed <==> h in b.leaked)
    && (h in b.backlog ==> f == Freed)
    && (f == Freed ==> h in b.backlog || h in b.released)
    && (f == MovedAway ==> h in b.released)
    && (f == Unknown <==> h !in b.All())
  }

  lemma WithoutHas(s: seq<Hdr>, h: Hdr, x: Hdr)
    requires Distinct(s)
    ensures x in Without(s, h) <==> x in s && x != h
  {
    if h in s { CutDistinct(s, IndexOf(s, h)); }
  }

  lemma {:induction false} EvictedStays(b: Blocks, x: Hdr)
    ensures x in Evict(b).backlog ==> x in b.backlog
    ensures x in b.released ==> x in Evict(b).released
    ensures x in b.backlog ==> x in Evict(b).backlog || x in Evict(b).released
    decreases |b.backlog|
  {
    if |b.backlog| > BACKLOG_MAX {
      EvictedStays(OneEvicted(b), x);
      assert b.backlog == [b.backlog[0]] + b.backlog[1..];
    }
  }

  lemma FreeTells(b: Blocks, e: Hdr, h: Hdr, f: Fate)
    requires Sound(b) && Tells(b, h, f) && e !in b.lost
    ensures Tells(AfterFree(b, e), h, if e == h && f == InUse then Freed else f)
  {
    FreeConserves(b, e);
    if e in b.live {
      PlacesDistinct(b);
      Places(b, e);
      WithoutHas(b.live, e, h);
      var c := b.(live := Without(b.live, e), backlog := b.backlog + [e], freed := b.freed + [e]);
      EvictConserves(c);
      EvictedStays(c, h);
    }
  }

  lemma ReallocTellsOthers(b: Blocks, e: Hdr, o: Outcome, h: Hdr, f: Fate)
    requires Sound(b) && Legal(b, Realloc(e, o)) && Tells(b, h, f) && h != e && e !in b.leaked && e !in b.lost
    ensures Tells(AfterRealloc(b, e, o), h, if o.Moved? && o.to == h then InUse else f)
  {
    ReallocConserves(b, e, o);
    PlacesDistinct(b);
    WithoutHas(b.live, e, h);
    WithoutHas(b.backlog, e, h);
    Places(b, h);
  }

  lemma ReallocTellsIt(b: Blocks, h: Hdr, o: Outcome, f: Fate)
    requires Sound(b) && Legal(b, Realloc(h, o)) && Tells(b, h, f) && h !in b.leaked && h !in b.lost
    ensures Tells(AfterRealloc(b, h, o), h, match o case Failed => Refusal(f) case InPlace => InUse case Moved(_) => MovedAway)
  {
    ReallocConserves(b, h, o);
    ReallocStaysInOnePlace(b, h, o);
    Places(AfterRealloc(b, h, o), h);
    Places(b, h);
  }

  lemma NextTells(b: Blocks, e: Event, h: Hdr, f: Fate, passed: Fate)
    requires Sound(b) && Legal(b, e) && !PassesLost(b, e) && Tells(b, h, f) && Tells(b, e.h, passed)
    ensures Tells(Next(b, e), h, Step(f, passed, e, h))
  {
    match e
    case Malloc(x) => MallocConserves(b, x);
    case Free(x) => FreeTells(b, x, h, f);
    case Realloc(x, o) =>
      if x !in b.leaked {
        if x == h {
          ReallocTellsIt(b, h, o, f);
        } else {
          ReallocTellsOthers(b, x, o, h, f);
        }
      }
  }

  /**
   * After every run that never passes a lost block again each block is where the calls alone say: in the live list
   * exactly when it was handed out by malloc or by a granting realloc and not since freed, moved away from or
   * refused.
   */
  lemma {:induction false} PlacesMatchLedger(es: seq<Event>, h: Hdr)
    requires LegalRun(es) && NeverPassesLost(es)
    ensures Tells(Run(es), h, FateOf(es, h))
    decreases |es|
  {
    if es != [] {
      var front, e := es[..|es| - 1], es[|es| - 1];
      RunsConserveBlocks(front);
      PlacesMatchLedger(front, h);
      PlacesMatchLedger(front, e.h);
      NextTells(Run(front), e, h, FateOf(front, h), FateOf(front, e.h));
    }
  }

  /** The blocks a caller may use are exactly the live list, each once. */
  lemma LiveListIsLedger(es: seq<Event>)
    requires LegalRun(es) && NeverPassesLost(es)
    ensures Distinct(Run(es).live) && forall h :: h in Run(es).live <==> FateOf(es, h) == InUse
  {
    RunsConserveBlocks(es);
    PlacesDistinct(Run(es));
    forall h
      ensures h in Run(es).live <==> FateOf(es, h) == InUse
    {
      PlacesMatchLedger(es, h);
    }
  }

  // ---- the backlog ----

  function Latest(s: seq<Hdr>): seq<Hdr> { if |s| <= BACKLOG_MAX then s else s[|s| - BACKLOG_MAX..] }

  /** The latest blocks freed, from the calls alone: a freed live block joins, one taken back by a realloc leaves. */
  ghost function LatestFreed(es: seq<Event>): seq<Hdr> {
    if es == [] then []
    else
      var front, e := es[..|es| - 1], es[|es| - 1];
      if e.Free? && FateOf(front, e.h) == InUse then Latest(LatestFreed(front) + [e.h])
      else if e.Realloc? && FateOf(front, e.h) == Freed then Without(LatestFreed(front), e.h)
      else LatestFreed(front)
  }

  lemma EvictLeavesLatest(b: Blocks)
    requires |b.backlog| <= BACKLOG_MAX + 1
    ensures Evict(b).backlog == Latest(b.backlog)
  {
    if |b.backlog| > BACKLOG_MAX { assert Evict(OneEvicted(b)) == OneEvicted(b); }
  }

  lemma NextBacklog(b: Blocks, e: Event, f: Fate)
    requires Sound(b) && Bounded(b) && Legal(b, e) && !PassesLost(b, e) && Tells(b, e.h, f)
    ensures Next(b, e).backlog ==
            if e.Free? && f == InUse then Latest(b.backlog + [e.h])
            else if e.Realloc? && f == Freed then Without(b.backlog, e.h)
            else b.backlog
  {
    Places(b, e.h);
    if e.Free? && f == InUse {
      EvictLeavesLatest(b.(live := Without(b.live, e.h), backlog := b.backlog + [e.h], freed := b.freed + [e.h]));
    }
  }

  /** After every such run the backlog holds exactly the latest blocks freed and not taken back, in order, up to 50. */
  lemma {:induction false} BacklogIsLatestFreed(es: seq<Event>)
    requires LegalRun(es) && NeverPassesLost(es)
    ensures Run(es).backlog == LatestFreed(es)
  {
    if es != [] {
      var front, e := es[..|es| - 1], es[|es| - 1];
      BacklogIsLatestFreed(front);
      RunsConserveBlocks(front);
      PlacesMatchLedger(front, e.h);
      NextBacklog(Run(front), e, FateOf(front, e.h));
    }
  }

  /** Draining releases the live blocks newest first, and after them the backlog oldest first. */
  lemma {:induction false} ReversedAt(s: seq<Hdr>, k: nat)
    requires k < |s|
    ensures |Reversed(s)| == |s| && Reversed(s)[k] == s[|s| - 1 - k]
  {
    if k > 0 {
      ReversedAt(s[..|s| - 1], k - 1);
    } else if |s| > 1 {
      ReversedAt(s[..|s| - 1], 0);
    }
  }

  lemma DrainOrder(b: Blocks, k: nat)
    requires k < |b.live| + |b.backlog|
    ensures var r := AfterDrain(b).released;
      && |r| == |b.released| + |b.live| + |b.backlog| && b.released <= r
      && r[|b.released| + k] == if k < |b.live| then b.live[|b.live| - 1 - k] else b.backlog[k - |b.live|]
  {
    if b.live != [] { ReversedAt(b.live, if k < |b.live| then k else 0); }
  }
}
