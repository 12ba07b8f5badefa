/** A run from a freshly opened composer whose only trouble is one refused post, and which takes a shown pipeline. */
module HwcRefusedPost {
  import opened Common
  import opened HwcLayers
  import opened HwcCounting
  import opened HwcFrame
  import opened HwcRuns
  import opened HwcHandover
  import opened HwcClashes

  lemma {:induction false} RunAppend(st: State, a: seq<Event>, b: seq<Event>)
    ensures Run(st, a + b) == Run(Run(st, a), b)
  {
    if b == [] {
      assert a + b == a;
    } else {
      assert (a + b)[..|a + b| - 1] == a + b[..|b| - 1];
      RunAppend(st, a, b[..|b| - 1]);
    }
  }

  /** A composer that has just been opened, with the RGB-order check on. */
  function Opened(): State {
    State(Settings(NO_TRANSFORM, NO_TRANSFORM, NO_TRANSFORM, NO_TRANSFORM, false, false, true, false, false, 0, 0, 0),
          false, false, 0, 0, NOTHING, NOTHING)
  }

  lemma OneMoreMem(ls: seq<Layer>, l: Layer)
    ensures TotalMem(ls + [l]) == TotalMem(ls) + LayerMem(l)
  {
    assert (ls + [l])[..|ls + [l]| - 1] == ls;
  }

  function Copies(l: Layer, n: nat): (ls: seq<Layer>)
    ensures |ls| == n && forall i :: 0 <= i < n ==> ls[i] == l
  {
    if n == 0 then [] else Copies(l, n - 1) + [l]
  }

  const SMALL := 0x4000

  lemma {:induction false} CopiesTotal(l: Layer, n: nat)
    requires LayerMem(l) == SMALL
    ensures TotalMem(Copies(l, n)) == SMALL * n
  {
    if n > 0 {
      CopiesTotal(l, n - 1);
      OneMoreMem(Copies(l, n - 1), l);
    }
  }

  /** Four layers of 64 by 64 pixels of four bytes. */
  lemma FourPlain() returns (ls: seq<Layer>)
    ensures AllPlain(ls) && |ls| == 4 && TotalMem(ls) < MAX_TILER_SLOT
  {
    var l := Plain(BGRX8888, 64, 64);
    assert Mem1d(l.handle.value) == SMALL;
    CopiesTotal(l, 4);
    ls := Copies(l, 4);
  }

  lemma RunOfThreeParts(st: State, a: seq<Event>, b: seq<Event>, c: seq<Event>)
    ensures Run(st, a + b + c) == Run(Run(Run(st, a), b), c)
  {
    RunAppend(st, a, b);
    RunAppend(st, a + b, c);
  }

  lemma RunsOfTwo(st: State, a: seq<Event>, b: seq<Event>, c: seq<Event>)
    requires |a| == |b| == 2
    ensures Run(st, (a + b + c)[..4]) == Run(Run(st, a), b)
  {
    assert (a + b + c)[..4] == a + b;
    RunAppend(st, a, b);
  }

  /** The parts of such a run. */
  lemma RefusedPostParts() returns (a: seq<Event>, b: seq<Event>, c: seq<Event>)
    ensures |a| == |b| == |c| == 2 && a[1] == SetFrame(true, true, true) && b[1] == SetFrame(true, true, false)
    ensures var st2 := Run(Run(Opened(), a), b);
      CountsSafe(st2) && !Tracks(st2) && CountsSafe(Run(st2, c)) && Steals(Run(st2, c))
  {
    var ls := FourPlain();
    var h, props := Hdmi(true, false), Properties(false, true, 0, false, 0, false);
    RefusedPostLosesTrack(Opened(), ls, props, h);
    a := [PrepareFrame(ls, h), SetFrame(true, true, true)];
    b := [PrepareFrame([], h), SetFrame(true, true, false)];
    c := [Hotplug(true, false, props, h), PrepareFrame([], h)];
  }

  /** Such a run from the very start: six events, the second set's post refused; from then on handover is not safe. */
  lemma RefusedPostFromStart() returns (es: seq<Event>)
    ensures |es| == 6 && es[1] == SetFrame(true, true, true) && es[3] == SetFrame(true, true, false)
    ensures HandoverSafe(Opened()) && !HandoverSafe(Run(Opened(), es[..4]))
    ensures CountsSafe(Run(Opened(), es)) && Steals(Run(Opened(), es))
  {
    HandoverSafeExactlyWhen(Opened());
    var a, b, c := RefusedPostParts();
    HandoverSafeExactlyWhen(Run(Run(Opened(), a), b));
    RunsOfTwo(Opened(), a, b, c);
    RunOfThreeParts(Opened(), a, b, c);
    es := a + b + c;
  }
}
