/**
 * The malloc tracker: live blocks in one list, freed ones kept for a while in a backlog so that double frees
 * and late writes are noticed.  `Blocks` says where every block is; the class is proved against it.
 */
module HeapTracker {
  import opened Common
  import opened HeapLists

  const ALLOCATION_TAG := 0x1ee7_d00d
  const BACKLOG_TAG := 0xbabe_cafe
  const BACKLOG_MAX := 50

  /**
   * Where blocks are: in the live list, in the backlog, given back to the system, or in neither list after a
   * failed realloc: `lost` ones were live and are still tagged so, `leaked` ones came from the backlog and have no
   * tag.  `freed` is the order in which blocks were freed, without those reclaimed by realloc.
   */
  datatype Blocks = Blocks(live: seq<Hdr>, backlog: seq<Hdr>, released: seq<Hdr>, lost: seq<Hdr>, leaked: seq<Hdr>,
                           freed: seq<Hdr>)
  {
    ghost function All(): multiset<Hdr> {
      multiset(live) + multiset(backlog) + multiset(released) + multiset(lost) + multiset(leaked)
    }

    /** Blocks a caller may still pass: all that the system was not given back. */
    ghost predicate Held(h: Hdr) { h in live || h in backlog || h in lost || h in leaked }
  }

  datatype Outcome = Failed | InPlace | Moved(to: Hdr)

  /** What the system's realloc does. */
  datatype Grant = Denied | SamePlace | NewPlace

  /** The oldest backlog block released. */
  ghost function OneEvicted(b: Blocks): Blocks
    requires b.backlog != []
  {
    b.(backlog := b.backlog[1..], released := b.released + [b.backlog[0]])
  }

  ghost function Evict(b: Blocks): Blocks
    decreases |b.backlog|
  {
    if |b.backlog| <= BACKLOG_MAX then b else Evict(OneEvicted(b))
  }

  ghost function AfterMalloc(b: Blocks, h: Hdr): Blocks { b.(live := b.live + [h]) }

  ghost function AfterFree(b: Blocks, h: Hdr): Blocks {
    if h in b.live
    then Evict(b.(live := Without(b.live, h), backlog := b.backlog + [h], freed := b.freed + [h]))
    else if h in b.lost
    then Evict(b.(lost := Without(b.lost, h), backlog := b.backlog + [h], freed := b.freed + [h]))
    else b
  }

  /** A block still tagged as live, or a freed one still in the backlog, taken out of its place. */
  ghost function TakenOut(b: Blocks, h: Hdr): Blocks {
    if h in b.live then b.(live := Without(b.live, h))
    else if h in b.lost then b.(lost := Without(b.lost, h))
    else b.(backlog := Without(b.backlog, h), freed := Without(b.freed, h))
  }

  /** The tag such a block then carries: that of a live block stays, that of a backlog block is cleared. */
  ghost function TagTakenOut(b: Blocks, h: Hdr): nat { if h in b.backlog || h in b.leaked then 0 else ALLOCATION_TAG }

  /** A block without a tag is left alone; its caller gets memory the tracker knows nothing of. */
  ghost function AfterRealloc(b: Blocks, h: Hdr, o: Outcome): Blocks {
    if h in b.leaked then b else Placed(TakenOut(b, h), h, o, TagTakenOut(b, h) == ALLOCATION_TAG)
  }

  /** Where the system's realloc leaves a block that was taken out, and the block it moved to. */
  ghost function Placed(t: Blocks, h: Hdr, o: Outcome, tagged: bool): Blocks {
    match o
    case Failed => if tagged then t.(lost := t.lost + [h]) else t.(leaked := t.leaked + [h])
    case InPlace => t.(live := t.live + [h])
    case Moved(n) => t.(released := t.released + [h], live := t.live + [n])
  }

  ghost function Reversed(s: seq<Hdr>): seq<Hdr> {
    if s == [] then [] else [s[|s| - 1]] + Reversed(s[..|s| - 1])
  }

  /** All remaining blocks are released: live ones newest first, then the backlog oldest first. */
  ghost function AfterDrain(b: Blocks): Blocks {
    b.(live := [], backlog := [], released := b.released + Reversed(b.live) + b.backlog)
  }

  // ---- what every run keeps ----

  /** Every tracked block is in exactly one place. */
  ghost predicate InOnePlace(b: Blocks) { forall h :: h in b.All() ==> b.All()[h] == 1 }

  /** The backlog is the end of the freeing order; the blocks freed before it were all released. */
  ghost predicate BacklogIsSuffix(b: Blocks) {
    && |b.backlog| <= |b.freed|
    && b.freed[|b.freed| - |b.backlog|..] == b.backlog
    && (forall i :: 0 <= i < |b.freed| - |b.backlog| ==> b.freed[i] in b.released)
  }

  ghost predicate Sound(b: Blocks) {
    InOnePlace(b) && BacklogIsSuffix(b) && Distinct(b.freed)
  }

  ghost predicate Bounded(b: Blocks) { |b.backlog| <= BACKLOG_MAX }

  lemma WithoutIsMinus(s: seq<Hdr>, h: Hdr)
    requires h in s
    ensures multiset(Without(s, h)) == multiset(s) - multiset{h}
  {
    var k := IndexOf(s, h);
    assert s == s[..k] + [h] + s[k + 1..];
  }

  lemma OneEvictedConserves(b: Blocks)
    requires b.backlog != []
    ensures OneEvicted(b).All() == b.All()
  {
    assert b.backlog == [b.backlog[0]] + b.backlog[1..];
  }

  lemma OneEvictedKeepsSuffix(b: Blocks)
    requires b.backlog != [] && BacklogIsSuffix(b)
    ensures BacklogIsSuffix(OneEvicted(b))
  {
    var m := |b.freed| - |b.backlog|;
    assert b.freed[m] == b.freed[m..][0] == b.backlog[0];
    assert b.freed[m + 1..] == b.freed[m..][1..] == b.backlog[1..];
  }

  lemma {:induction false} EvictConserves(b: Blocks)
    ensures Evict(b).All() == b.All() && Bounded(Evict(b))
    ensures Evict(b).live == b.live && Evict(b).lost == b.lost && Evict(b).leaked == b.leaked && Evict(b).freed == b.freed
    ensures BacklogIsSuffix(b) ==> BacklogIsSuffix(Evict(b))
    decreases |b.backlog|
  {
    if |b.backlog| > BACKLOG_MAX {
      OneEvictedConserves(b);
      if BacklogIsSuffix(b) { OneEvictedKeepsSuffix(b); }
      EvictConserves(OneEvicted(b));
    }
  }

  lemma {:induction false} ReversedConserves(s: seq<Hdr>)
    ensures multiset(Reversed(s)) == multiset(s)
  {
    if s != [] {
      ReversedConserves(s[..|s| - 1]);
      assert s == s[..|s| - 1] + [s[|s| - 1]];
    }
  }

  /** Malloc adds its block; free, realloc and drain only move blocks from place to place. */
  lemma MallocConserves(b: Blocks, h: Hdr)
    ensures AfterMalloc(b, h).All() == b.All() + multiset{h}
  {
  }

  lemma TakingOutConserves(b: Blocks, h: Hdr)
    requires h in b.live || h in b.backlog || h in b.lost
    ensures TakenOut(b, h).All() == b.All() - multiset{h} && h in b.All()
  {
    if h in b.live {
      WithoutIsMinus(b.live, h);
      OneLess(multiset(b.live), multiset(b.backlog) + multiset(b.released) + multiset(b.lost) + multiset(b.leaked), h);
    } else if h in b.lost {
      WithoutIsMinus(b.lost, h);
      OneLess(multiset(b.lost), multiset(b.live) + multiset(b.backlog) + multiset(b.released) + multiset(b.leaked), h);
    } else {
      WithoutIsMinus(b.backlog, h);
      OneLess(multiset(b.backlog), multiset(b.live) + multiset(b.released) + multiset(b.lost) + multiset(b.leaked), h);
    }
  }

  lemma OneLess(m: multiset<Hdr>, rest: multiset<Hdr>, h: Hdr)
    requires h in m
    ensures m - multiset{h} + rest == m + rest - multiset{h}
  {
  }

  lemma BackAgain(m: multiset<Hdr>, h: Hdr)
    requires h in m
    ensures m - multiset{h} + multiset{h} == m
  {
  }

  lemma FreeConserves(b: Blocks, h: Hdr)
    ensures AfterFree(b, h).All() == b.All()
    ensures h in b.live || h !in b.lost ==> AfterFree(b, h).lost == b.lost && AfterFree(b, h).leaked == b.leaked
  {
    if h in b.live || h in b.lost {
      var t := TakenOut(b, h);
      TakingOutConserves(b, h);
      var c := t.(backlog := t.backlog + [h], freed := t.freed + [h]);
      PushingConserves(t, c, h);
      EvictConserves(c);
      BackAgain(b.All(), h);
    }
  }

  lemma PushingConserves(t: Blocks, c: Blocks, h: Hdr)
    requires c == t.(backlog := t.backlog + [h], freed := t.freed + [h])
    ensures c.All() == t.All() + multiset{h}
  {
    assert multiset(c.backlog) == multiset(t.backlog) + multiset{h};
  }

  lemma PlacingConserves(t: Blocks, h: Hdr, o: Outcome, tagged: bool)
    ensures Placed(t, h, o, tagged).All() == t.All() + multiset{h} + (if o.Moved? then multiset{o.to} else multiset{})
  {
    match o
    case Failed =>
      assert multiset(t.lost + [h]) == multiset(t.lost) + multiset{h};
      assert multiset(t.leaked + [h]) == multiset(t.leaked) + multiset{h};
    case InPlace => assert multiset(t.live + [h]) == multiset(t.live) + multiset{h};
    case Moved(n) =>
      assert multiset(t.live + [n]) == multiset(t.live) + multiset{n};
      assert multiset(t.released + [h]) == multiset(t.released) + multiset{h};
  }

  lemma ReallocConserves(b: Blocks, h: Hdr, o: Outcome)
    requires b.Held(h)
    ensures AfterRealloc(b, h, o).All() == b.All() + (if o.Moved? && h !in b.leaked then multiset{o.to} else multiset{})
  {
    if h !in b.leaked {
      var t := TakenOut(b, h);
      TakingOutConserves(b, h);
      PlacingConserves(t, h, o, TagTakenOut(b, h) == ALLOCATION_TAG);
      BackAgain(b.All(), h);
    }
  }

  lemma TakenOutIsGone(b: Blocks, h: Hdr)
    requires InOnePlace(b) && (h in b.live || h in b.backlog || h in b.lost)
    ensures !TakenOut(b, h).Held(h)
  {
    TakingOutConserves(b, h);
    assert b.All()[h] == 1;
    assert TakenOut(b, h).All()[h] == 0;
  }

  lemma DrainConserves(b: Blocks)
    ensures AfterDrain(b).All() == b.All()
  {
    ReversedConserves(b.live);
  }

  lemma Places(b: Blocks, h: Hdr)
    requires InOnePlace(b)
    ensures h in b.live ==> h !in b.backlog && h !in b.released && h !in b.lost && h !in b.leaked
    ensures h in b.backlog ==> h !in b.released && h !in b.lost && h !in b.leaked
    ensures h in b.released ==> !b.Held(h)
    ensures h in b.lost ==> h !in b.leaked
  {
    assert h in b.All() ==> b.All()[h] == 1;
  }

  lemma {:induction false} OnceMeansDistinct(s: seq<Hdr>)
    requires forall h :: h in s ==> multiset(s)[h] == 1
    ensures Distinct(s)
  {
    if s != [] {
      var n := |s| - 1;
      var front := s[..n];
      assert s == front + [s[n]];
      assert multiset(s) == multiset(front) + multiset{s[n]};
      forall h | h in front
        ensures multiset(front)[h] == 1
      {
        assert h in s;
      }
      OnceMeansDistinct(front);
      assert s[n] in s && s[n] !in front;
      forall i, j | 0 <= i < j < |s|
        ensures s[i] != s[j]
      {
        assert front[i] == s[i];
        if j < n { assert front[j] == s[j]; }
      }
    }
  }

  /** The places are free of repetition, so IndexOf finds the only occurrence. */
  lemma PlacesDistinct(b: Blocks)
    requires InOnePlace(b)
    ensures Distinct(b.live) && Distinct(b.backlog) && Distinct(b.released)
  {
    forall h | h in b.live ensures multiset(b.live)[h] == 1 { assert h in b.All(); }
    forall h | h in b.backlog ensures multiset(b.backlog)[h] == 1 { assert h in b.All(); }
    forall h | h in b.released ensures multiset(b.released)[h] == 1 { assert h in b.All(); }
    OnceMeansDistinct(b.live);
    OnceMeansDistinct(b.backlog);
    OnceMeansDistinct(b.released);
  }

  // ---- runs ----

  datatype Event = Malloc(h: Hdr) | Free(h: Hdr) | Realloc(h: Hdr, o: Outcome)

  /** New blocks are new; freed and reallocated ones were not given back to the system. */
  ghost predicate Legal(b: Blocks, e: Event) {
    match e
    case Malloc(h) => h !in b.All()
    case Free(h) => b.Held(h)
    case Realloc(h, o) => b.Held(h) && (o.Moved? ==> o.to !in b.All())
  }

  /** The event passes a block again whose realloc failed and whose tag still says live. */
  ghost predicate PassesLost(b: Blocks, e: Event) { !e.Malloc? && e.h in b.lost }

  ghost function Next(b: Blocks, e: Event): Blocks {
    match e
    case Malloc(h) => AfterMalloc(b, h)
    case Free(h) => AfterFree(b, h)
    case Realloc(h, o) => AfterRealloc(b, h, o)
  }

  lemma SuffixFromSplit(t: Blocks, front: seq<Hdr>)
    requires t.freed == front + t.backlog && forall x :: x in front ==> x in t.released
    ensures BacklogIsSuffix(t)
  {
  }

  lemma SplitFromSuffix(b: Blocks) returns (front: seq<Hdr>)
    requires BacklogIsSuffix(b)
    ensures b.freed == front + b.backlog && forall x :: x in front ==> x in b.released
  {
    front := b.freed[..|b.freed| - |b.backlog|];
    assert forall i :: 0 <= i < |front| ==> front[i] == b.freed[i];
  }

  lemma FreeKeepsSound(b: Blocks, h: Hdr)
    requires Sound(b) && Bounded(b) && b.Held(h)
    ensures Sound(AfterFree(b, h)) && Bounded(AfterFree(b, h))
  {
    FreeConserves(b, h);
    if h in b.live || h in b.lost {
      Places(b, h);
      var front := SplitFromSuffix(b);
      var c := b.(live := Without(b.live, h), lost := Without(b.lost, h), backlog := b.backlog + [h], freed := b.freed + [h]);
      assert c.freed == front + c.backlog;
      SuffixFromSplit(c, front);
      EvictConserves(c);
    }
  }

  lemma CutInSuffix(front: seq<Hdr>, back: seq<Hdr>, k: nat)
    requires k < |back|
    ensures Cut(front + back, |front| + k) == front + Cut(back, k)
  {
    var s := front + back;
    assert s[..|front| + k] == front + back[..k];
    assert s[|front| + k + 1..] == back[k + 1..];
  }

  lemma WithoutAt(s: seq<Hdr>, h: Hdr, k: nat)
    requires h in s && k == IndexOf(s, h)
    ensures k < |s| && Without(s, h) == Cut(s, k)
  {
  }

  lemma WithoutInSuffix(front: seq<Hdr>, back: seq<Hdr>, h: Hdr)
    requires h !in front && h in back
    ensures Without(front + back, h) == front + Without(back, h)
  {
    IndexInSuffix(front, back, h);
    var s, k := front + back, IndexOf(back, h);
    WithoutAt(s, h, |front| + k);
    WithoutAt(back, h, k);
    CutInSuffix(front, back, k);
  }

  lemma {:induction false} IndexInSuffix(front: seq<Hdr>, back: seq<Hdr>, h: Hdr)
    requires h !in front && h in back
    ensures h in front + back && IndexOf(front + back, h) == |front| + IndexOf(back, h)
  {
    if front == [] {
      assert front + back == back;
    } else {
      IndexInSuffix(front[1..], back, h);
      assert (front + back)[1..] == front[1..] + back;
    }
  }

  lemma WithoutDistinct(s: seq<Hdr>, h: Hdr)
    requires Distinct(s)
    ensures Distinct(Without(s, h))
  {
    if h in s { CutDistinct(s, IndexOf(s, h)); }
  }

  lemma ReclaimKeepsSuffix(b: Blocks, h: Hdr)
    requires Sound(b) && h in b.backlog
    ensures BacklogIsSuffix(TakenOut(b, h)) && Distinct(TakenOut(b, h).freed)
  {
    Places(b, h);
    var front := SplitFromSuffix(b);
    WithoutInSuffix(front, b.backlog, h);
    WithoutDistinct(b.freed, h);
    SuffixFromSplit(TakenOut(b, h), front);
  }

  lemma ReallocStaysInOnePlace(b: Blocks, h: Hdr, o: Outcome)
    requires InOnePlace(b) && Legal(b, Realloc(h, o))
    ensures InOnePlace(AfterRealloc(b, h, o))
  {
    ReallocConserves(b, h, o);
    var all, r := b.All(), AfterRealloc(b, h, o).All();
    forall x | x in r
      ensures r[x] == 1
    {
      assert x in all ==> all[x] == 1;
    }
  }

  lemma ReallocKeepsSound(b: Blocks, h: Hdr, o: Outcome)
    requires Sound(b) && Bounded(b) && Legal(b, Realloc(h, o))
    ensures Sound(AfterRealloc(b, h, o)) && Bounded(AfterRealloc(b, h, o))
  {
    ReallocStaysInOnePlace(b, h, o);
    if h !in b.leaked {
      TakingOutKeepsSuffix(b, h);
      ReleasingKeepsSuffix(TakenOut(b, h), AfterRealloc(b, h, o));
    }
  }

  lemma TakingOutKeepsSuffix(b: Blocks, h: Hdr)
    requires Sound(b) && (h in b.live || h in b.backlog || h in b.lost)
    ensures BacklogIsSuffix(TakenOut(b, h)) && Distinct(TakenOut(b, h).freed) && |TakenOut(b, h).backlog| <= |b.backlog|
  {
    Places(b, h);
    if h in b.backlog { ReclaimKeepsSuffix(b, h); }
  }

  lemma ReleasingKeepsSuffix(t: Blocks, r: Blocks)
    requires BacklogIsSuffix(t) && r.backlog == t.backlog && r.freed == t.freed && t.released <= r.released
    ensures BacklogIsSuffix(r)
  {
  }

  /** Where one event takes the blocks; a lost block that is passed again goes where its tag takes it. */
  lemma NextKeepsSound(b: Blocks, e: Event)
    requires Sound(b) && Bounded(b) && Legal(b, e)
    ensures Sound(Next(b, e)) && Bounded(Next(b, e))
  {
    match e
    case Malloc(h) =>
      MallocConserves(b, h);
      forall x | x in AfterMalloc(b, h).All() ensures AfterMalloc(b, h).All()[x] == 1 { assert x in b.All() ==> b.All()[x] == 1; }
    case Free(h) =>
      FreeKeepsSound(b, h);
    case Realloc(h, o) => ReallocKeepsSound(b, h, o);
  }

  /** Runs as the tracker's callers may make them. */
  ghost predicate LegalRun(es: seq<Event>) {
    es == [] || (LegalRun(es[..|es| - 1]) && Legal(Run(es[..|es| - 1]), es[|es| - 1]))
  }

  ghost function Run(es: seq<Event>): Blocks {
    if es == [] then Blocks([], [], [], [], [], []) else Next(Run(es[..|es| - 1]), es[|es| - 1])
  }

  /** No event of the run passes a lost block again. */
  ghost predicate NeverPassesLost(es: seq<Event>) {
    es == [] || (NeverPassesLost(es[..|es| - 1]) && !PassesLost(Run(es[..|es| - 1]), es[|es| - 1]))
  }

  /** The block an event hands out. */
  ghost function New(b: Blocks, e: Event): multiset<Hdr> {
    if e.Malloc? then multiset{e.h}
    else if e.Realloc? && e.o.Moved? && e.h !in b.leaked then multiset{e.o.to}
    else multiset{}
  }

  lemma NextConserves(b: Blocks, e: Event)
    requires Legal(b, e)
    ensures Next(b, e).All() == b.All() + New(b, e)
  {
    match e
    case Malloc(h) => MallocConserves(b, h);
    case Free(h) => FreeConserves(b, h);
    case Realloc(h, o) => ReallocConserves(b, h, o);
  }

  ghost predicate NoneLost(b: Blocks) { b.lost == [] && b.leaked == [] }

  ghost predicate Fails(e: Event) { e.Realloc? && e.o.Failed? }

  /** Only a failing realloc loses a block. */
  lemma NextLoses(b: Blocks, e: Event)
    requires Sound(b) && Legal(b, e) && !PassesLost(b, e)
    ensures NoneLost(Next(b, e)) <==> NoneLost(b) && !Fails(e)
  {
    if e.Free? { FreeConserves(b, e.h); }
  }

  /** Blocks handed out in a run. */
  ghost function HandedOut(es: seq<Event>): multiset<Hdr> {
    if es == [] then multiset{}
    else HandedOut(es[..|es| - 1]) + New(Run(es[..|es| - 1]), es[|es| - 1])
  }

  ghost predicate NoFailedRealloc(es: seq<Event>) { forall i :: 0 <= i < |es| ==> !Fails(es[i]) }

  /**
   * After any run that never passes a lost block again every block ever handed out is in exactly one place, the
   * backlog holds at most 50 blocks and is the end of the freeing order.  Blocks are lost exactly when some realloc
   * fails.
   */
  lemma {:induction false} RunsConserveBlocks(es: seq<Event>)
    requires LegalRun(es) && NeverPassesLost(es)
    ensures var b := Run(es);
      && b.All() == HandedOut(es)
      && Sound(b) && Bounded(b)
      && (NoneLost(b) <==> NoFailedRealloc(es))
  {
    if es != [] {
      var front, e := es[..|es| - 1], es[|es| - 1];
      RunsConserveBlocks(front);
      var b := Run(front);
      NextKeepsSound(b, e);
      NextConserves(b, e);
      NextLoses(b, e);
      NoFailureSnoc(es);
    }
  }

  lemma NoFailureSnoc(es: seq<Event>)
    requires es != []
    ensures var e := es[|es| - 1];
      NoFailedRealloc(es) <==> NoFailedRealloc(es[..|es| - 1]) && !Fails(e)
  {
    var front := es[..|es| - 1];
    assert forall i :: 0 <= i < |front| ==> front[i] == es[i];
  }

  /**
   * Draining after such a run releases each block at most once and leaves out only the lost ones: every block ever
   * handed out is released exactly when no realloc failed.
   */
  lemma DrainReleasesEverythingExactlyWhen(es: seq<Event>)
    requires LegalRun(es) && NeverPassesLost(es)
    ensures var d := AfterDrain(Run(es));
      && d.live == [] && d.backlog == [] && Distinct(d.released)
      && multiset(d.released) + multiset(d.lost) + multiset(d.leaked) == HandedOut(es)
      && (multiset(d.released) == HandedOut(es) <==> NoFailedRealloc(es))
  {
    RunsConserveBlocks(es);
    var b, d := Run(es), AfterDrain(Run(es));
    DrainConserves(b);
    assert d.All() == multiset(d.released) + multiset(d.lost) + multiset(d.leaked);
    assert InOnePlace(d);
    PlacesDistinct(d);
    if d.lost != [] {
      assert d.lost[0] in multiset(d.lost);
    } else if d.leaked != [] {
      assert d.leaked[0] in multiset(d.leaked);
    }
  }

  lemma OneMore(es: seq<Event>, e: Event)
    ensures Run(es + [e]) == Next(Run(es), e)
    ensures LegalRun(es + [e]) <==> LegalRun(es) && Legal(Run(es), e)
    ensures NeverPassesLost(es + [e]) <==> NeverPassesLost(es) && !PassesLost(Run(es), e)
    ensures HandedOut(es + [e]) == HandedOut(es) + New(Run(es), e)
  {
    assert (es + [e])[..|es + [e]| - 1] == es;
  }

  /** The shortest such run: a block is allocated, its realloc fails, and draining never releases it. */
  lemma FailedReallocLosesBlock(h: Hdr)
    ensures var es := [Event.Malloc(h)] + [Event.Realloc(h, Failed)];
      && LegalRun(es) && NeverPassesLost(es) && h in HandedOut(es)
      && Run(es).live == [] && Run(es).backlog == [] && h !in AfterDrain(Run(es)).released
  {
    OneMore([], Event.Malloc(h));
    assert [] + [Event.Malloc(h)] == [Event.Malloc(h)];
    OneMore([Event.Malloc(h)], Event.Realloc(h, Failed));
    assert IndexOf([h], h) == 0;
  }

  /** That no lost block is passed again matters: a lost block that is freed after all is released. */
  lemma PassedLostIsReleased(h: Hdr)
    ensures var es := [Event.Malloc(h)] + [Event.Realloc(h, Failed)] + [Event.Free(h)];
      && LegalRun(es) && !NeverPassesLost(es) && !NoFailedRealloc(es)
      && multiset(AfterDrain(Run(es)).released) == HandedOut(es)
  {
    var es := [Event.Malloc(h)] + [Event.Realloc(h, Failed)];
    FailedReallocLosesBlock(h);
    OneMore([], Event.Malloc(h));
    assert [] + [Event.Malloc(h)] == [Event.Malloc(h)];
    OneMore([Event.Malloc(h)], Event.Realloc(h, Failed));
    assert IndexOf([h], h) == 0;
    assert Run(es).lost == [h];
    OneMore(es, Event.Free(h));
    assert Fails((es + [Event.Free(h)])[1]);
  }

  /** Freeing a block that is already in the backlog changes nothing. */
  lemma DoubleFreeIsHarmless(b: Blocks, h: Hdr)
    requires InOnePlace(b) && h in b.backlog
    ensures AfterFree(b, h) == b
  {
    Places(b, h);
  }

  // ---- the tracker ----

  /** An unsigned counter goes up or down by one. */
  function Up(n: Word): Word { (n + 1) % WORD }
  function Down(n: Word): Word { (n + WORD - 1) % WORD }

  lemma CountsInWords(n: int)
    ensures Up(n % WORD) == (n + 1) % WORD && Down(n % WORD) == (n - 1) % WORD
  {
  }

  lemma ShortIsWrong(n: int)
    ensures (n - 1) % WORD != n % WORD
  {
  }

  class Tracker {
    const live: HdrList
    const backlog: HdrList
    var num: Word
    var backlogNum: nat
    ghost var released: seq<Hdr>
    ghost var lost: seq<Hdr>
    ghost var leaked: seq<Hdr>
    ghost var freed: seq<Hdr>

    ghost function Now(): Blocks
      reads this, live, backlog
    {
      Blocks(live.nodes, backlog.nodes, released, lost, leaked, freed)
    }

    /** Both lists are well-formed and share no block. */
    ghost predicate Chained()
      reads live, backlog, live.nodes, backlog.nodes
    {
      && live.Linked() && backlog.Linked()
      && Apart(live.nodes, backlog.nodes) && Apart(backlog.nodes, live.nodes)
    }

    /** So are the counters the lengths of the lists; that of the live blocks is an unsigned word. */
    ghost predicate Linked()
      reads this, live, backlog, live.nodes, backlog.nodes
    {
      Chained() && backlogNum == |backlog.nodes| && num == |live.nodes| % WORD
    }

    ghost predicate Tagged()
      reads this, live, backlog, live.nodes, backlog.nodes, lost, leaked
    {
      && (forall h :: h in live.nodes ==> h.tag == ALLOCATION_TAG)
      && (forall h :: h in lost ==> h.tag == ALLOCATION_TAG)
      && (forall h :: h in backlog.nodes ==> h.tag == BACKLOG_TAG)
      && (forall h :: h in leaked ==> h.tag == 0)
    }

    ghost predicate Valid()
      reads this, live, backlog, live.nodes, backlog.nodes, lost, leaked
    {
      live != backlog && Linked() && Tagged() && Sound(Now()) && Bounded(Now())
    }

    constructor ()
      ensures Valid() && Now() == Blocks([], [], [], [], [], [])
      ensures fresh(live) && fresh(backlog)
    {
      live := new HdrList();
      backlog := new HdrList();
      num, backlogNum := 0, 0;
      released, lost, leaked, freed := [], [], [], [];
    }

    /** The backlog's ends and counter are right, whatever its links are. */
    ghost predicate Ends()
      reads this, backlog
    {
      && backlogNum == |backlog.nodes|
      && backlog.first == (if backlog.nodes == [] then null else backlog.nodes[0])
      && backlog.last == (if backlog.nodes == [] then null else backlog.nodes[|backlog.nodes| - 1])
    }

    lemma AroundOldest()
      requires Chained() && backlogNum == |backlog.nodes| && backlog.nodes != []
      ensures Ends() && forall x :: x in Around(backlog.first) ==> x in backlog.nodes
    {
      backlog.Neighbours(backlog.first);
    }

    /** The block was live when its realloc failed and is still tagged so. */
    ghost predicate Lost(h: Hdr?)
      reads this
    {
      h != null && h in lost
    }

    /** The live blocks' counter is right, or one too low. */
    ghost predicate Counts(short: bool)
      reads this, live
    {
      num == (|live.nodes| - if short then 1 else 0) % WORD
    }

    /** The block is the newest live one, tagged, with the size asked for. */
    ghost predicate Newest(h: Hdr, size: nat)
      reads this, live, h
    {
      live.nodes != [] && live.nodes[|live.nodes| - 1] == h && live.last == h && h.tag == ALLOCATION_TAG && h.size == size
    }

    /** What a granting realloc of h gave: the newest live block, and h back to the system if it is another. */
    ghost predicate Granted(h: Hdr, r: Hdr, size: nat)
      reads this, live, r
    {
      Newest(r, size) && (r != h ==> h in released && h !in live.nodes)
    }

    /** Tags a block and appends it to the live list. */
    method AddLive(h: Hdr, size: nat)
      requires live != backlog && h !in backlog.nodes && h !in leaked
      modifies this`num, live, Links(live.last, null)`prev, h
      ensures Now() == AfterMalloc(old(Now()), h) && num == Up(old(num))
      ensures Newest(h, size)
      ensures old(Chained()) && h !in old(live.nodes) ==> Chained()
      ensures old(Tagged()) ==> Tagged()
    {
      h.tag := ALLOCATION_TAG;
      h.size := size;
      num := Up(num);
      live.AddBeside(h, backlog);
    }

    /**
     * Unlinks a block tagged as live; refuses any other tag.  A lost block is unlinked a second time: the counter is
     * then one too low, and the list is severed where the block was before.
     */
    method DelLive(h: Hdr) returns (ok: bool)
      requires live != backlog && Linked() && Tagged() && Now().Held(h) && (h in lost ==> h !in live.nodes)
      modifies this`num, this`lost, live, Links(h.prev, null)`next, Links(h.next, null)`prev
      ensures ok <==> old(h in live.nodes || h in lost)
      ensures Now() == if ok then TakenOut(old(Now()), h) else old(Now())
      ensures Tagged() && Counts(old(h in lost))
      ensures old(h !in lost) ==> Chained() && h !in live.nodes
      ensures Ends() && backlog.FirstWithin(old(Around(h)))
      ensures old(h in lost) ==> live.Severed(h)
      ensures live.last == old(live.last) || live.last == old(h.next)
      ensures h.prev == old(h.prev) && h.next == old(h.next)
    {
      ok := UnlinkLive(h);
      if ok && h in lost { lost := Without(lost, h); }
    }

    /** The same, with a lost block still counted as lost. */
    method UnlinkLive(h: Hdr) returns (ok: bool)
      requires live != backlog && Linked() && Tagged() && Now().Held(h) && (h in lost ==> h !in live.nodes)
      modifies this`num, live, Links(h.prev, null)`next, Links(h.next, null)`prev
      ensures ok <==> h in old(live.nodes) || h in lost
      ensures live.nodes == if ok then Without(old(live.nodes), h) else old(live.nodes)
      ensures Tagged() && Counts(h in lost)
      ensures h !in lost ==> Chained() && h !in live.nodes
      ensures Ends() && backlog.FirstWithin(old(Around(h)))
      ensures h in lost ==> live.Severed(h)
      ensures live.last == old(live.last) || live.last == old(h.next)
      ensures h.prev == old(h.prev) && h.next == old(h.next)
    {
      if h.tag != ALLOCATION_TAG {
        return false;
      }
      if h in live.nodes { WithoutKeeps(live.nodes, h); }
      CountsInWords(|live.nodes|);
      assert Ends();
      live.DelBeside(h, backlog);
      backlog.FirstStaysWithin(h);
      num := Down(num);
      return true;
    }

    /** Unlinks a backlog block, clean or corrupted, and clears its tag. */
    method DelFromBacklog(h: Hdr)
      requires live != backlog && h in backlog.nodes && backlogNum > 0
      modifies this`backlogNum, backlog, Links(h.prev, null)`next, Links(h.next, null)`prev, h`tag
      ensures backlog.nodes == Without(old(backlog.nodes), h) && backlogNum == old(backlogNum) - 1
      ensures old(Chained()) ==> Chained() && h !in backlog.nodes
      ensures h.tag == 0
      ensures h.prev == old(h.prev) && h.next == old(h.next)
    {
      if Chained() { CutDistinct(backlog.nodes, IndexOf(backlog.nodes, h)); }
      backlogNum := backlogNum - 1;
      backlog.DelBeside(h, live);
      h.tag := 0;
    }

    /** Unlinks the oldest backlog block and gives it back to the system. */
    method ReleaseOldest(gone: Hdr)
      requires live != backlog && backlog.nodes != [] && gone == backlog.nodes[0] && backlogNum > 0
      modifies this`backlogNum, this`released, backlog, Links(gone.prev, null)`next, Links(gone.next, null)`prev, gone`tag
      ensures Now() == OneEvicted(old(Now()))
      ensures backlogNum == old(backlogNum) - 1
      ensures old(Chained()) ==> Chained()
    {
      ghost var s := backlog.nodes;
      DelFromBacklog(gone);
      released := released + [gone];
      assert backlog.nodes == s[1..];
    }

    twostate predicate LinksKept(s: set<Hdr>)
      reads s
    {
      forall h :: h in s ==> h.prev == old(h.prev) && h.next == old(h.next)
    }

    /** Gives the oldest backlog block back to the system. */
    method EvictOne()
      requires live != backlog && Ends() && backlogNum > 0
      modifies this`backlogNum, this`released, backlog, Around(backlog.first)
      ensures Now() == OneEvicted(old(Now())) && backlogNum == |backlog.nodes|
      ensures old(Chained()) ==> Chained()
      ensures old(Chained() && Tagged()) ==> Tagged()
    {
      if Chained() { backlog.Neighbours(backlog.first); }
      ReleaseOldest(backlog.first);
    }

    /** Really frees the oldest backlog blocks until at most BACKLOG_MAX are left. */
    method EvictOldest()
      requires live != backlog && Ends() && (Chained() || backlogNum <= BACKLOG_MAX + 1)
      modifies this`backlogNum, this`released, backlog, backlog.nodes, Around(backlog.first)
      ensures Now() == Evict(old(Now())) && backlogNum == |backlog.nodes|
      ensures old(Chained()) ==> Chained()
      ensures old(Chained() && Tagged()) ==> Tagged()
      ensures old(backlogNum) <= BACKLOG_MAX ==> LinksKept(old(Around(backlog.first)))
    {
      ghost var chained := Chained();
      while backlogNum > BACKLOG_MAX
        invariant backlogNum == |backlog.nodes|
        invariant Evict(Now()) == Evict(old(Now()))
        invariant chained ==> Chained() && forall i :: 0 <= i < |backlog.nodes| ==> backlog.nodes[i] in old(backlog.nodes)
        invariant old(Chained() && Tagged()) ==> Tagged()
        invariant old(backlogNum) <= BACKLOG_MAX ==> backlogNum == old(backlogNum) && LinksKept(old(Around(backlog.first)))
        invariant chained || backlogNum <= BACKLOG_MAX || (
                    Ends() && backlogNum == BACKLOG_MAX + 1 && backlog.first == old(backlog.first)
                    && Around(backlog.first) == old(Around(backlog.first)))
        decreases backlogNum
      {
        if chained { AroundOldest(); }
        EvictOne();
      }
    }

    /** Tags a freed block and appends it to the backlog. */
    method PushBacklog(h: Hdr)
      requires live != backlog
      modifies this`backlogNum, this`freed, backlog, Links(backlog.last, null)`prev, h
      ensures Now() == old(Now()).(backlog := old(backlog.nodes) + [h], freed := old(freed) + [h])
      ensures old(Ends()) ==> Ends()
      ensures old(Ends()) && h !in old(backlog.nodes) ==> Around(backlog.first) <= old(Around(backlog.first)) + {h}
      ensures old(Chained() && h !in live.nodes && h !in backlog.nodes) ==> Chained()
      ensures old(Tagged() && h !in live.nodes && h !in lost && h !in leaked) ==> Tagged()
    {
      h.tag := BACKLOG_TAG;
      backlogNum := backlogNum + 1;
      backlog.AddBeside(h, live);
      freed := freed + [h];
    }

    /** Appends a freed block to the backlog and evicts the oldest ones beyond the limit. */
    method AddToBacklog(h: Hdr)
      requires live != backlog && Ends() && backlogNum <= BACKLOG_MAX && h !in backlog.nodes
      modifies this`backlogNum, this`released, this`freed, backlog, backlog.nodes, Around(backlog.first), h
      ensures Now() == Evict(old(Now()).(backlog := old(backlog.nodes) + [h], freed := old(freed) + [h]))
      ensures backlogNum == |backlog.nodes|
      ensures old(Chained() && h !in live.nodes) ==> Chained()
      ensures old(Chained() && Tagged() && h !in live.nodes && h !in lost && h !in leaked) ==> Tagged()
      ensures old(backlogNum < BACKLOG_MAX && h !in live.nodes && Apart(live.nodes, backlog.nodes)) ==>
        LinksKept(set x | x in live.nodes)
    {
      PushBacklog(h);
      EvictOldest();
    }

    /** malloc and calloc: `granted` says whether the system had memory. */
    method Malloc(size: nat, granted: bool) returns (h: Hdr?)
      requires Valid()
      modifies this`num, live, live.nodes`prev
      ensures Valid()
      ensures h == null <==> !granted
      ensures Now() == if h == null then old(Now()) else AfterMalloc(old(Now()), h)
      ensures h != null ==> fresh(h) && Newest(h, size)
    {
      if !granted {
        return null;
      }
      ghost var b := Now();
      var n := new Hdr();
      NotAllocatedBefore(b, n);
      Register(n, size);
      h := n;
    }

    /** Adds a block the tracker has not seen. */
    method Register(n: Hdr, size: nat)
      requires Valid() && n !in Now().All()
      modifies this`num, live, live.nodes`prev, n
      ensures Valid() && Now() == AfterMalloc(old(Now()), n) && Newest(n, size)
    {
      NextKeepsSound(Now(), Event.Malloc(n));
      CountsInWords(|live.nodes|);
      assert n !in live.nodes && n !in backlog.nodes && n !in leaked;
      AddLive(n, size);
    }

    /** A block created just now is in none of the places known before. */
    twostate lemma NotAllocatedBefore(b: Blocks, new n: Hdr)
      ensures fresh(n) ==> n !in b.All()
    {
    }

    /**
     * free(NULL) does nothing, nor does freeing a backlog block or one that lost its tag.  A block whose realloc failed
     * goes where its tag takes it: one still tagged as live is unlinked a second time.  The counter never survives
     * that; while the backlog has room, the live list does exactly when the block's old links still fit.
     */
    method Free(h: Hdr?)
      requires Valid() && (h == null || Now().Held(h))
      modifies this, live, backlog, live.nodes, backlog.nodes, Around(h)
      ensures Now() == if h == null then old(Now()) else AfterFree(old(Now()), h)
      ensures Valid() <==> !old(Lost(h))
      ensures h != null && old(h in lost || h in leaked) ==> (Valid() <==> old(h.tag) != ALLOCATION_TAG)
      ensures Counts(old(Lost(h))) && backlogNum == |backlog.nodes|
      ensures old(Lost(h) && backlogNum < BACKLOG_MAX) ==> live.Severed(h) && (live.Linked() <==> old(live.Fits(h)))
    {
      if h == null {
        return;
      }
      ghost var b := Now();
      Places(b, h);
      FreeHeld(h);
      if h in b.lost && |b.backlog| < BACKLOG_MAX { live.SeveredSurvives(h); }
      NextKeepsSound(b, Event.Free(h));
      ShortIsWrong(|live.nodes|);
    }

    method FreeHeld(h: Hdr)
      requires live != backlog && Linked() && Tagged() && backlogNum <= BACKLOG_MAX && Now().Held(h)
      requires h in lost ==> h !in live.nodes && h !in backlog.nodes
      requires h in live.nodes ==> h !in lost && h !in leaked
      modifies this, live, backlog, live.nodes, backlog.nodes, Around(h)
      ensures Now() == AfterFree(old(Now()), h) && backlogNum == |backlog.nodes|
      ensures live.nodes == Without(old(live.nodes), h)
      ensures old(h !in lost) ==> Chained() && Tagged()
      ensures Counts(old(h in lost))
      ensures old(h in lost && backlogNum < BACKLOG_MAX) ==> live.Severed(h)
    {
      ghost var again := h in lost;
      var ok := DelLive(h);
      if ok {
        assert !again ==> Chained() && Tagged() && h !in live.nodes && h !in lost && h !in leaked;
        AddToBacklog(h);
      }
    }

    static lemma WithoutKeeps(s: seq<Hdr>, h: Hdr)
      requires h in s && Distinct(s)
      ensures h !in Without(s, h) && |Without(s, h)| == |s| - 1
      ensures forall x :: x in Without(s, h) ==> x in s
    {
      CutDistinct(s, IndexOf(s, h));
    }

    /** calloc multiplies its arguments in an unsigned word. */
    method Calloc(count: int, size: nat, granted: bool) returns (h: Hdr?)
      requires Valid()
      modifies this`num, live, live.nodes`prev
      ensures Valid()
      ensures h == null <==> !granted
      ensures Now() == if h == null then old(Now()) else AfterMalloc(old(Now()), h)
      ensures h != null ==> fresh(h) && Newest(h, count * size % WORD)
    {
      h := Malloc(count * size % WORD, granted);
    }

    /** A freed block is taken back from the backlog, so it no longer counts as freed. */
    method Reclaim(h: Hdr)
      requires live != backlog && Linked() && Tagged() && h in backlog.nodes
      modifies this`backlogNum, this`freed, backlog, backlog.nodes`prev, backlog.nodes`next, h`tag
      ensures Chained() && Tagged() && backlogNum == |backlog.nodes|
      ensures h.prev == old(h.prev) && h.next == old(h.next)
      ensures Now() == old(Now()).(backlog := Without(old(backlog.nodes), h), freed := Without(old(freed), h))
      ensures h.tag == 0
    {
      backlog.Neighbours(h);
      WithoutKeeps(backlog.nodes, h);
      DelFromBacklog(h);
      freed := Without(freed, h);
    }

    /** Takes a block out of whichever place its tag names; one that lost its tag is not found. */
    method TakeOut(h: Hdr) returns (found: bool)
      requires live != backlog && Linked() && Tagged() && Now().Held(h)
      requires h in lost ==> h !in live.nodes && h !in backlog.nodes
      requires h in live.nodes ==> h !in lost && h !in leaked
      modifies this, live, backlog, live.nodes, backlog.nodes, Around(h)
      ensures found <==> old(h !in leaked)
      ensures Now() == if found then TakenOut(old(Now()), h) else old(Now())
      ensures h.tag == TagTakenOut(old(Now()), h)
      ensures old(h !in lost) ==> Chained() && Tagged()
      ensures backlogNum == |backlog.nodes|
      ensures Counts(old(h in lost))
      ensures live.last == old(live.last) || live.last == old(h.next)
      ensures h.prev == old(h.prev) && h.next == old(h.next)
    {
      found := DelLive(h);
      if !found {
        found := ReclaimTagged(h);
      }
    }

    /** A block that is not tagged as live is in the backlog if its tag says so. */
    method ReclaimTagged(h: Hdr) returns (found: bool)
      requires live != backlog && Linked() && Tagged() && (h in backlog.nodes || h in leaked)
      modifies this`backlogNum, this`freed, backlog, backlog.nodes`prev, backlog.nodes`next, h`tag
      ensures found <==> h in old(backlog.nodes)
      ensures Chained() && Tagged() && backlogNum == |backlog.nodes| && h.tag == 0
      ensures h.prev == old(h.prev) && h.next == old(h.next)
      ensures Now() == if found then old(Now()).(backlog := Without(old(backlog.nodes), h), freed := Without(old(freed), h))
                       else old(Now())
    {
      if h.tag != BACKLOG_TAG {
        return false;
      }
      Reclaim(h);
      return true;
    }

    /** What a realloc of a tracked block comes to. */
    ghost function OutcomeOf(h: Hdr, r: Hdr?): Outcome { if r == null then Failed else if r == h then InPlace else Moved(r) }

    /** The system's realloc and the re-registration of its result. */
    method PutBack(h: Hdr, size: nat, grant: Grant, ghost tagged: bool) returns (r: Hdr?)
      requires live != backlog && !Now().Held(h) && h.tag == (if tagged then ALLOCATION_TAG else 0)
      modifies this`num, this`released, this`lost, this`leaked, live, Links(live.last, null)`prev, h
      ensures r == null <==> grant == Denied
      ensures r != null ==> (r == h <==> grant == SamePlace) && (r == h || fresh(r))
      ensures r != null ==> Granted(h, r, size)
      ensures Now() == Placed(old(Now()), h, OutcomeOf(h, r), tagged)
      ensures old(Counts(false)) ==> Counts(false)
      ensures old(Counts(true)) ==> Counts(true)
      ensures old(Chained()) ==> Chained()
      ensures old(Tagged()) ==> Tagged()
      ensures r == null ==> h.tag == old(h.tag) && h.prev == old(h.prev) && h.next == old(h.next)
    {
      if grant == Denied {
        if tagged { lost := lost + [h]; } else { leaked := leaked + [h]; }
        return null;
      }
      var n := h;
      if grant == NewPlace {
        n := new Hdr();
        released := released + [h];
      }
      CountsInWords(|live.nodes|);
      CountsInWords(|live.nodes| - 1);
      AddLive(n, size);
      r := n;
    }

    /** A block that was found is taken out and put back as the system decides. */
    method ReallocHeld(h: Hdr, size: nat, grant: Grant) returns (r: Hdr?, untracked: bool)
      requires live != backlog && Linked() && Tagged() && Now().Held(h)
      requires h in lost ==> h !in live.nodes && h !in backlog.nodes
      requires h in live.nodes ==> h !in lost && h !in leaked
      requires h !in leaked ==> !TakenOut(Now(), h).Held(h)
      modifies this, live, backlog, live.nodes, backlog.nodes, Around(h)
      ensures untracked <==> old(h in leaked) && grant != Denied
      ensures r == null <==> old(h in leaked) || grant == Denied
      ensures r != null ==> (r == h <==> grant == SamePlace) && (r == h || fresh(r))
      ensures r != null ==> Granted(h, r, size)
      ensures Now() == AfterRealloc(old(Now()), h, OutcomeOf(h, r)) && backlogNum == |backlog.nodes|
      ensures r == null ==> h.tag == TagTakenOut(old(Now()), h) && h.prev == old(h.prev) && h.next == old(h.next)
      ensures old(h !in lost) ==> Chained() && Tagged()
      ensures Counts(old(h in lost))
    {
      ghost var b := Now();
      var found := TakeOut(h);
      if found {
        r := PutBack(h, size, grant, TagTakenOut(b, h) == ALLOCATION_TAG);
      } else {
        r := null;
      }
      untracked := !found && grant != Denied;
    }

    method ReallocTracked(h: Hdr, size: nat, grant: Grant) returns (r: Hdr?, untracked: bool)
      requires Valid() && Now().Held(h)
      modifies this, live, backlog, live.nodes, backlog.nodes, Around(h)
      ensures untracked <==> old(h in leaked) && grant != Denied
      ensures r == null <==> old(h in leaked) || grant == Denied
      ensures r != null ==> (r == h <==> grant == SamePlace) && (r == h || fresh(r))
      ensures r != null ==> Granted(h, r, size)
      ensures Now() == AfterRealloc(old(Now()), h, OutcomeOf(h, r))
      ensures r == null ==> h.tag == TagTakenOut(old(Now()), h) && h.prev == old(h.prev) && h.next == old(h.next)
      ensures Valid() <==> old(h !in lost)
      ensures Counts(old(h in lost)) && backlogNum == |backlog.nodes|
    {
      r, untracked := ReallocSoundly(h, size, grant);
      ShortIsWrong(|live.nodes|);
    }

    /** The same, with what makes the tracker valid apart. */
    method ReallocSoundly(h: Hdr, size: nat, grant: Grant) returns (r: Hdr?, untracked: bool)
      requires Valid() && Now().Held(h)
      modifies this, live, backlog, live.nodes, backlog.nodes, Around(h)
      ensures untracked <==> old(h in leaked) && grant != Denied
      ensures r == null <==> old(h in leaked) || grant == Denied
      ensures r != null ==> (r == h <==> grant == SamePlace) && (r == h || fresh(r))
      ensures r != null ==> Granted(h, r, size)
      ensures Now() == AfterRealloc(old(Now()), h, OutcomeOf(h, r)) && backlogNum == |backlog.nodes|
      ensures r == null ==> h.tag == TagTakenOut(old(Now()), h) && h.prev == old(h.prev) && h.next == old(h.next)
      ensures old(h !in lost) ==> Chained() && Tagged() && Sound(Now()) && Bounded(Now())
      ensures Counts(old(h in lost))
    {
      ghost var b := Now();
      ReallocReady(b, h);
      r, untracked := ReallocHeld(h, size, grant);
      NotAllocatedBefore(b, if r == null then h else r);
      AfterIsSound(b, h, r);
    }

    lemma AfterIsSound(b: Blocks, h: Hdr, r: Hdr?)
      requires Sound(b) && Bounded(b) && b.Held(h) && (r == null || r == h || r !in b.All())
      ensures Sound(AfterRealloc(b, h, OutcomeOf(h, r))) && Bounded(AfterRealloc(b, h, OutcomeOf(h, r)))
    {
      ReallocKeepsSound(b, h, OutcomeOf(h, r));
    }

    static lemma ReallocReady(b: Blocks, h: Hdr)
      requires InOnePlace(b) && b.Held(h)
      ensures h in b.lost ==> h !in b.live && h !in b.backlog && h !in b.leaked
      ensures h in b.live ==> h !in b.lost && h !in b.leaked
      ensures h !in b.leaked ==> !TakenOut(b, h).Held(h)
    {
      Places(b, h);
      if h !in b.leaked { TakenOutIsGone(b, h); }
    }

    /**
     * realloc of size 0 frees, of NULL allocates; a freed block still in the backlog is revived.  A block that lost its
     * tag stays, and its caller gets memory of its own.  When the system has no memory the block stays allocated but is
     * in neither list, tagged as live if it was.  Passing such a lost block again breaks what freeing it breaks.
     */
    method Realloc(h: Hdr?, size: nat, grant: Grant) returns (r: Hdr?, untracked: bool)
      requires Valid() && (h == null || Now().Held(h))
      modifies this, live, backlog, live.nodes, backlog.nodes, Around(h)
      ensures size == 0 ==> r == null && Now() == if h == null then old(Now()) else AfterFree(old(Now()), h)
      ensures size != 0 && h == null ==>
                && (r == null <==> grant == Denied) && (r != null ==> Newest(r, size))
                && Now() == if r == null then old(Now()) else AfterMalloc(old(Now()), r)
      ensures size != 0 && h != null ==>
                && (r == null <==> old(h in leaked) || grant == Denied)
                && (r != null ==> (r == h <==> grant == SamePlace) && (r == h || fresh(r)) && Granted(h, r, size))
                && Now() == AfterRealloc(old(Now()), h, OutcomeOf(h, r))
                && (r == null ==> h.tag == TagTakenOut(old(Now()), h) && h.prev == old(h.prev) && h.next == old(h.next))
      ensures untracked <==> size != 0 && h != null && old(h in leaked) && grant != Denied
      ensures Valid() <==> !old(Lost(h))
      ensures h != null && old(h in lost || h in leaked) ==> (Valid() <==> old(h.tag) != ALLOCATION_TAG)
      ensures Counts(old(Lost(h))) && backlogNum == |backlog.nodes|
    {
      if size == 0 {
        Free(h);
        return null, false;
      }
      if h == null {
        r := Malloc(size, grant != Denied);
        return r, false;
      }
      r, untracked := ReallocTracked(h, size, grant);
    }

    /** Unlinks the newest leaked block, clean or corrupted, and gives it back to the system. */
    method ReleaseNewestLeak()
      requires live != backlog && Chained() && live.nodes != []
      modifies this`num, this`released, live, live.nodes`prev, live.nodes`next
      ensures Chained() && num == Down(old(num))
      ensures live.nodes == old(live.nodes)[..|old(live.nodes)| - 1]
      ensures released == old(released) + [old(live.nodes)[|old(live.nodes)| - 1]]
    {
      var gone := live.last;
      ghost var was := live.nodes;
      live.Neighbours(gone);
      num := Down(num);
      live.DelBeside(gone, backlog);
      released := released + [gone];
      assert live.nodes == was[..|was| - 1] by { IndexOfLast(was); }
    }

    static lemma IndexOfLast(s: seq<Hdr>)
      requires s != [] && Distinct(s)
      ensures Without(s, s[|s| - 1]) == s[..|s| - 1]
    {
      var k := IndexOf(s, s[|s| - 1]);
      assert s[k] == s[|s| - 1];
    }

    /**
     * Frees every remaining block once: leaked ones newest first, then the backlog oldest first.  Only the links are
     * relied on, not tags or the live counter, so corrupted blocks are freed as well.
     */
    method FreeLeakedMemory()
      requires live != backlog && Chained() && backlogNum == |backlog.nodes|
      modifies this, live, backlog, live.nodes, backlog.nodes
      ensures Chained() && backlogNum == 0
      ensures num == (old(num) - |old(live.nodes)|) % WORD
      ensures Now() == AfterDrain(old(Now()))
    {
      while live.last != null
        invariant Chained() && backlog.nodes == old(backlog.nodes) && backlogNum == old(backlogNum)
        invariant released + Reversed(live.nodes) == old(released) + Reversed(old(live.nodes))
        invariant forall i :: 0 <= i < |live.nodes| ==> live.nodes[i] in old(live.nodes)
        invariant lost == old(lost) && leaked == old(leaked) && freed == old(freed)
        invariant num == (old(num) - |old(live.nodes)| + |live.nodes|) % WORD
        decreases |live.nodes|
      {
        ghost var s := live.nodes;
        CountsInWords(old(num) - |old(live.nodes)| + |live.nodes|);
        ReleaseNewestLeak();
        assert Reversed(s) == [s[|s| - 1]] + Reversed(live.nodes);
      }
      assert released == old(released) + Reversed(old(live.nodes));
      ReleaseBacklog();
    }

    method ReleaseBacklog()
      requires live != backlog && Chained() && backlogNum == |backlog.nodes|
      modifies this`backlogNum, this`released, backlog, backlog.nodes
      ensures Chained() && backlogNum == 0 && backlog.nodes == [] && released == old(released) + old(backlog.nodes)
    {
      while backlog.last != null
        invariant Chained() && backlogNum == |backlog.nodes|
        invariant released + backlog.nodes == old(released) + old(backlog.nodes)
        invariant forall i :: 0 <= i < |backlog.nodes| ==> backlog.nodes[i] in old(backlog.nodes)
        decreases backlogNum
      {
        ghost var s, done := backlog.nodes, released;
        assert done + s == (done + [s[0]]) + s[1..];
        AroundOldest();
        EvictOne();
      }
    }
  }

  // ---- a lost block passed again ----

  /** Two live blocks, and the second one's links. */
  method TwoBlocks() returns (t: Tracker, a: Hdr, h: Hdr)
    ensures fresh(t) && fresh(t.live) && fresh(t.backlog) && fresh(a) && fresh(h) && a != h
    ensures t.Valid() && t.Now() == Blocks([a, h], [], [], [], [], [])
    ensures h.next == a && h.prev == null
  {
    t := new Tracker();
    var x := t.Malloc(8, true);
    a := x;
    x := t.Malloc(8, true);
    h := x;
    assert t.live.nodes == [a, h] && t.live.nodes[1].next == a && t.live.nodes[1].prev == null;
  }

  /** The second one is lost, and another takes its place. */
  method SecondLost() returns (t: Tracker, a: Hdr, h: Hdr, c: Hdr)
    ensures fresh(t) && fresh(t.live) && fresh(t.backlog) && fresh(a) && fresh(h) && fresh(c) && a != c
    ensures t.Valid() && t.Now() == Blocks([a, c], [], [], [h], [], [])
    ensures h.next == a && h.prev == null
  {
    t, a, h := TwoBlocks();
    var r, u := t.Realloc(h, 16, Denied);
    assert IndexOf([a, h], h) == 1 + IndexOf([h], h) == 1;
    assert t.Now() == Blocks([a], [], [], [h], [], []);
    var x := t.Malloc(8, true);
    c := x;
  }

  /**
   * Five calls after which a live block whose own realloc never failed is in no list: the links are those of a list of
   * the first block alone, and the counter is one too low.
   */
  method LosesALiveBlock() returns (t: Tracker, a: Hdr, h: Hdr, c: Hdr)
    ensures t.Now().live == [a, c] && a != c && t.Now().lost == [] && t.Now().leaked == []
    ensures t.live.LinkedAs([a]) && t.num == 1
  {
    t, a, h, c := SecondLost();
    assert t.live.nodes[0] == a && t.live.nodes[1] == c;
    t.Free(h);
    assert a in t.live.nodes && c in t.live.nodes;
  }
}
