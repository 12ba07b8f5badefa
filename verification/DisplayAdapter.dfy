/**
 * The window display adapter as a class: its two maps, its token queue and its state are updated in place, and
 * every method is proved to make exactly the move of `DisplayBuffers`.
 */
module DisplayAdapter {
  import opened Common
  import opened DisplayBuffers

  // ---- handles of a stretch of the buffer array ----

  function Span(s: seq<Handle>, lo: nat, hi: nat): set<Handle>
    requires hi <= |s|
  {
    if hi <= lo then {} else Span(s, lo, hi - 1) + {s[hi - 1]}
  }

  ghost predicate DistinctUpTo(s: seq<Handle>, n: nat)
    requires n <= |s|
  {
    n == 0 || (DistinctUpTo(s, n - 1) && s[n - 1] !in Span(s, 0, n - 1))
  }

  /** The first n buffers' handles and indices. */
  function Indexed(s: seq<Handle>, n: nat): map<Handle, nat>
    requires n <= |s|
  {
    if n == 0 then map[] else Indexed(s, n - 1)[s[n - 1] := n - 1]
  }

  /** Of the first n buffers, those from `from` on, tagged as preview frames. */
  function Tagged(s: seq<Handle>, from: int, n: nat): map<Handle, FrameType>
    requires n <= |s|
  {
    if n == 0 then map[]
    else if n - 1 >= from then Tagged(s, from, n - 1)[s[n - 1] := PreviewFrame]
    else Tagged(s, from, n - 1)
  }

  lemma {:induction false} SpanSplits(s: seq<Handle>, n: nat, k: nat)
    requires n <= k <= |s| && DistinctUpTo(s, k)
    ensures Span(s, 0, n) + Span(s, n, k) == Span(s, 0, k) && Span(s, 0, n) !! Span(s, n, k)
    ensures |Span(s, n, k)| == k - n
    decreases k
  {
    if n < k { SpanSplits(s, n, k - 1); }
  }

  lemma {:induction false} IndexedKeys(s: seq<Handle>, n: nat)
    requires n <= |s|
    ensures Indexed(s, n).Keys == Span(s, 0, n)
  {
    if n > 0 { IndexedKeys(s, n - 1); }
  }

  lemma {:induction false} TaggedKeys(s: seq<Handle>, from: nat, n: nat)
    requires n <= |s|
    ensures Tagged(s, from, n).Keys == Span(s, from, n)
    decreases n
  {
    if n > 0 { TaggedKeys(s, from, n - 1); }
  }

  /** Buffers never posted come back as preview frames. */
  ghost predicate AllPreview(types: map<Handle, FrameType>) { forall h :: h in types ==> types[h] == PreviewFrame }

  lemma {:induction false} TaggedAsPreview(s: seq<Handle>, from: int, n: nat)
    requires n <= |s|
    ensures AllPreview(Tagged(s, from, n))
  {
    if n > 0 { TaggedAsPreview(s, from, n - 1); }
  }

  lemma {:induction false} WithoutTheRest(s: seq<Handle>, n: nat, k: nat)
    requires n <= k <= |s| && DistinctUpTo(s, k)
    ensures Indexed(s, k) - Span(s, n, k) == Indexed(s, n)
    decreases k
  {
    if n < k {
      WithoutTheRest(s, n, k - 1);
      SpanSplits(s, n, k - 1);
      IndexedKeys(s, n);
    }
  }

  /** An index map leads each of its handles to its place. */
  lemma {:induction false} IndexedLeads(s: seq<Handle>, n: nat, h: Handle)
    requires n <= |s| && h in Indexed(s, n)
    ensures Indexed(s, n)[h] < n && s[Indexed(s, n)[h]] == h
  {
    if h != s[n - 1] { IndexedLeads(s, n - 1, h); }
  }

  lemma {:induction false} SpanHas(s: seq<Handle>, n: nat, h: Handle) returns (i: nat)
    requires n <= |s| && h in Span(s, 0, n)
    ensures i < n && s[i] == h
  {
    if h == s[n - 1] { i := n - 1; } else { i := SpanHas(s, n - 1, h); }
  }

  lemma {:induction false} SpanIsPrefix(s: seq<Handle>, t: seq<Handle>, n: nat)
    requires n <= |s| && n <= |t| && s[..n] == t[..n]
    ensures Span(s, 0, n) == Span(t, 0, n) && DistinctUpTo(s, n) == DistinctUpTo(t, n)
  {
    if n > 0 {
      assert s[n - 1] == s[..n][n - 1] == t[n - 1];
      assert s[..n - 1] == s[..n][..n - 1];
      SpanIsPrefix(s, t, n - 1);
    }
  }

  /** How many of the first buffers allocation leaves with the camera; all, if the minimum exceeds their number. */
  function CameraShare(handles: seq<Handle>, minimum: nat): (n: nat)
    ensures n <= |handles|
  {
    if minimum <= |handles| then |handles| - minimum else |handles|
  }

  /** What the maps built by allocation say. */
  lemma AllocationFacts(s: seq<Handle>, n: nat)
    requires n <= |s| && DistinctUpTo(s, |s|)
    ensures Indexed(s, n).Keys == Span(s, 0, n)
    ensures forall h :: h in Indexed(s, n) ==> Indexed(s, n)[h] < n && s[Indexed(s, n)[h]] == h
    ensures Span(s, 0, n) + Span(s, n, |s|) == Span(s, 0, |s|) && Span(s, 0, n) !! Span(s, n, |s|)
    ensures |Span(s, n, |s|)| == |s| - n
  {
    forall h | h in Indexed(s, n)
      ensures Indexed(s, n)[h] < n && s[Indexed(s, n)[h]] == h
    {
      IndexedLeads(s, n, h);
    }
    IndexedKeys(s, n);
    SpanSplits(s, n, |s|);
  }

  /** Allocation is sound exactly when there are enough buffers for the window's minimum. */
  lemma AllocationIsSound(d: Display, s: seq<Handle>, minimum: nat)
    requires DistinctUpTo(s, |s|)
    requires d.withCamera == d.held == Indexed(s, CameraShare(s, minimum)).Keys
    requires d.window == Span(s, CameraShare(s, minimum), |s|) && d.types == Tagged(s, |s| - minimum, |s|)
    requires d.tokens == d.dropped == 0 && d.pending.None?
    ensures Sound(d, Span(s, 0, |s|), minimum) <==> minimum <= |s|
  {
    AllocationFacts(s, CameraShare(s, minimum));
    if minimum <= |s| {
      TaggedKeys(s, |s| - minimum, |s|);
      SplitIsSound(d, Span(s, 0, |s|), minimum);
    }
  }

  /** The split that allocation leaves behind. */
  lemma SplitIsSound(d: Display, all: set<Handle>, minimum: nat)
    requires d.withCamera + d.window == all && d.withCamera !! d.window && |d.window| == minimum
    requires d.held == d.withCamera && d.types.Keys == d.window
    requires d.tokens == d.dropped == 0 && d.pending.None?
    ensures Sound(d, all, minimum)
  {
  }

  class Adapter {
    var buffers: array<Handle>
    var framesWithCamera: map<Handle, nat> // to the index in buffers
    var framesType: map<Handle, FrameType>
    var displayQ: nat // its messages carry nothing, only their number matters
    var state: Phase
    var hasWindow: bool
    var paused: bool
    ghost var window: set<Handle>
    ghost var held: set<Handle>
    ghost var pending: Option<Handle>
    ghost var dropped: nat
    ghost var shown: seq<Handle>

    ghost function Now(): Display
      reads this
    {
      Display(state, hasWindow, paused, displayQ, framesWithCamera.Keys, framesType, window, held,
              pending, dropped, shown)
    }

    ghost function All(): set<Handle>
      reads this, buffers
    {
      Span(buffers[..], 0, buffers.Length)
    }

    /** The buffers are distinct and the camera map leads to the right ones. */
    ghost predicate Valid()
      reads this, buffers
    {
      && DistinctUpTo(buffers[..], buffers.Length)
      && window <= All()
      && forall h :: h in framesWithCamera ==> framesWithCamera[h] < buffers.Length && buffers[framesWithCamera[h]] == h
    }

    constructor (haveWindow: bool)
      ensures Valid() && fresh(buffers) && framesWithCamera == map[] && framesType == map[] && displayQ == 0
      ensures window == {} && held == {} && pending == None && dropped == 0 && hasWindow == haveWindow && state == Init
    {
      buffers := new Handle[0];
      framesWithCamera, framesType, displayQ := map[], map[], 0;
      state, hasWindow, paused := Init, haveWindow, false;
      window, held, pending, dropped, shown := {}, {}, None, 0, [];
    }

    // ---- allocation ----

    /** Takes every buffer out of the window, remembering its index; the last ones get a type at once. */
    method DequeueAll(handles: seq<Handle>, queueable: int)
      requires framesWithCamera == map[] && framesType == map[] && buffers.Length == |handles|
      requires window == Span(handles, 0, |handles|) && DistinctUpTo(handles, |handles|)
      modifies this`framesWithCamera, this`framesType, this`window, buffers
      ensures buffers[..] == handles && window == {}
      ensures framesWithCamera == Indexed(handles, |handles|)
      ensures framesType == Tagged(handles, queueable, |handles|)
    {
      for i := 0 to buffers.Length
        invariant buffers[..i] == handles[..i] && window == Span(handles, 0, |handles|) - Span(handles, 0, i)
        invariant framesWithCamera == Indexed(handles, i) && framesType == Tagged(handles, queueable, i)
      {
        window := window - {handles[i]};
        buffers[i] := handles[i];
        framesWithCamera := framesWithCamera[handles[i] := i];
        if i >= queueable {
          framesType := framesType[handles[i] := PreviewFrame];
        }
      }
    }

    /** Gives the buffers from `queueable` on back to the window. */
    method CancelRest(queueable: nat)
      requires queueable <= buffers.Length && window == {}
      requires DistinctUpTo(buffers[..], buffers.Length) && framesWithCamera == Indexed(buffers[..], buffers.Length)
      modifies this`framesWithCamera, this`window
      ensures framesWithCamera == Indexed(buffers[..], queueable)
      ensures window == Span(buffers[..], queueable, buffers.Length)
    {
      ghost var s := buffers[..];
      for i := queueable to buffers.Length
        invariant buffers[..] == s && window == Span(s, queueable, i)
        invariant framesWithCamera == Indexed(s, |s|) - Span(s, queueable, i)
      {
        window := window + {buffers[i]};
        framesWithCamera := framesWithCamera - {buffers[i]};
      }
      WithoutTheRest(s, queueable, |s|);
    }

    /** Allocates the array and shares the buffers out. */
    method ShareOut(handles: seq<Handle>, minimum: nat)
      requires DistinctUpTo(handles, |handles|) && framesWithCamera == map[] && framesType == map[]
      modifies this`buffers, this`framesWithCamera, this`framesType, this`window, this`held
      ensures fresh(buffers) && buffers[..] == handles
      ensures framesWithCamera == Indexed(handles, CameraShare(handles, minimum)) && held == framesWithCamera.Keys
      ensures framesType == Tagged(handles, |handles| - minimum, |handles|) && AllPreview(framesType)
      ensures window == Span(handles, CameraShare(handles, minimum), |handles|)
    {
      TaggedAsPreview(handles, |handles| - minimum, |handles|);
      buffers := new Handle[|handles|];
      window := Span(handles, 0, |handles|);
      var queueable := |handles| - minimum;
      DequeueAll(handles, queueable);
      if queueable >= 0 {
        CancelRest(queueable);
      }
      held := framesWithCamera.Keys;
    }

    /**
     * Allocation when the window answers without errors, handing out `handles` in turn: the camera gets all
     * buffers but the window's minimum.
     */
    method AllocateBufferList(handles: seq<Handle>, minimum: nat) returns (ok: bool)
      requires DistinctUpTo(handles, |handles|) && framesWithCamera == map[] && displayQ == 0 && dropped == 0 && pending.None?
      modifies this`buffers, this`framesWithCamera, this`framesType, this`window, this`held
      ensures ok == hasWindow && (!ok ==> framesType == map[]) && (ok ==> fresh(buffers) && buffers[..] == handles && Valid())
      ensures ok ==> held == Span(handles, 0, CameraShare(handles, minimum))
      ensures ok ==> window == Span(handles, CameraShare(handles, minimum), |handles|)
      ensures ok ==> AllPreview(framesType)
      ensures ok ==> (Sound(Now(), Span(handles, 0, |handles|), minimum) <==> minimum <= |handles|)
    {
      framesType := map[];
      if !hasWindow {
        return false;
      }
      ShareOut(handles, minimum);
      AllocationFacts(handles, CameraShare(handles, minimum));
      AllocationIsSound(Now(), handles, minimum);
      return true;
    }

    // ---- frames to and from the window ----

    /** The buffer leaves the camera side for the window, which owes one in return. */
    method GiveToWindow(i: nat)
      requires Valid() && i < buffers.Length
      modifies this`framesWithCamera, this`window, this`displayQ
      ensures Valid() && window == old(window) + {buffers[i]} && displayQ == old(displayQ) + 1
      ensures framesWithCamera.Keys == old(framesWithCamera.Keys) - {buffers[i]}
    {
      SpanHolds(buffers[..], buffers.Length, i);
      window := window + {buffers[i]};
      framesWithCamera := framesWithCamera - {buffers[i]};
      displayQ := displayQ + 1;
    }

    method PauseDisplay(pause: bool)
      requires Valid()
      modifies this`paused
      ensures Valid() && Now() == DisplayBuffers.Step(old(Now()), DisplayBuffers.Pause(pause))
    {
      paused := pause;
    }

    /** Shows a frame, or gives its buffer back unshown; either way the display thread is to ask for one. */
    method PostFrame(i: nat, kind: FrameType) returns (ok: bool)
      requires Valid() && i < buffers.Length && buffers[i] in held
      modifies this`framesWithCamera, this`framesType, this`displayQ, this`window, this`held, this`shown
      ensures Valid()
      ensures Now() == DisplayBuffers.PostFrame(old(Now()), buffers[i], kind) && ok == hasWindow
    {
      var h := buffers[i];
      held := held - {h};
      if !hasWindow {
        return false;
      }
      framesType := framesType[h := kind];
      if state.Started? && (!paused || kind.SnapshotFrame?) {
        shown := shown + [h];
        GiveToWindow(i);
      } else {
        GiveToWindow(i);
      }
      return true;
    }

    lemma {:induction false} SpanHolds(s: seq<Handle>, n: nat, i: nat)
      requires i < n <= |s|
      ensures s[i] in Span(s, 0, n)
    {
      if i != n - 1 { SpanHolds(s, n - 1, i); }
    }

    method FindBuffer(h: Handle) returns (i: nat)
      requires h in All()
      ensures i < buffers.Length && buffers[i] == h
    {
      ghost var k := SpanHas(buffers[..], buffers.Length, h);
      i := 0;
      while i < buffers.Length
        invariant i <= k
      {
        if buffers[i] == h {
          break;
        }
        i := i + 1;
      }
    }

    /** The buffer leaves the window for the camera side. */
    method TakeFromWindow(h: Handle) returns (i: nat)
      requires Valid() && h in window
      modifies this`framesWithCamera, this`window
      ensures Valid() && i < buffers.Length && buffers[i] == h && window == old(window) - {h}
      ensures framesWithCamera.Keys == old(framesWithCamera.Keys) + {h}
    {
      i := FindBuffer(h);
      window := window - {h};
      framesWithCamera := framesWithCamera[h := i];
    }

    /** Dequeues a buffer and returns its frame, of the given kind, to the camera; `answer` is what the window says. */
    method ReturnToCamera(answer: Answer) returns (kind: Option<FrameType>, i: nat)
      requires Valid() && (answer.Got? ==> answer.h in window)
      modifies this`framesWithCamera, this`hasWindow, this`window, this`held, this`pending, this`dropped
      ensures Valid()
      ensures Now() == TakeBack(old(Now()), answer)
      ensures kind == ReturnedKind(old(Now()), answer)
      ensures kind.Some? ==> i < buffers.Length && buffers[i] == answer.h && held == old(held) + {buffers[i]}
    {
      if !hasWindow || !answer.Got? {
        if answer.Abandoned? {
          hasWindow := false;
        }
        dropped := dropped + 1;
        return None, 0;
      }
      var h := answer.h;
      i := TakeFromWindow(h);
      if h !in framesType {
        return None, i;
      }
      held := held + {h};
      pending := Some(h);
      return Some(framesType[h]), i;
    }

    method RemoveType(i: nat)
      requires Valid() && i < buffers.Length && pending == Some(buffers[i])
      modifies this`framesType, this`pending
      ensures Now() == ForgetType(old(Now()))
    {
      framesType := framesType - {buffers[i]};
      pending := None;
    }

    /** The whole return when no frame is posted in between. */
    method HandleFrameReturn(answer: Answer) returns (kind: Option<FrameType>)
      requires Valid() && pending.None? && (answer.Got? ==> answer.h in window)
      modifies this`framesWithCamera, this`framesType, this`hasWindow, this`window, this`held, this`pending, this`dropped
      ensures Valid()
      ensures Now() == ForgetType(TakeBack(old(Now()), answer))
      ensures kind == ReturnedKind(old(Now()), answer)
    {
      var i;
      kind, i := ReturnToCamera(answer);
      if kind.Some? {
        RemoveType(i);
      }
    }

    /** The display thread's turn when a token is waiting. */
    method ServeToken(answer: Answer) returns (shouldLive: bool, kind: Option<FrameType>)
      requires Valid() && pending.None? && displayQ > 0 && (answer.Got? ==> answer.h in window)
      modifies this`framesWithCamera, this`framesType, this`displayQ, this`hasWindow, this`window, this`held,
               this`pending, this`dropped
      ensures Valid()
      ensures Now() == ForgetType(ProcessToken(old(Now()), answer))
      ensures shouldLive == !state.Exited? && kind == if state.Started? then ReturnedKind(old(Now()), answer) else None
    {
      shouldLive, kind := true, None;
      if state.Init? {
        return;
      }
      displayQ := displayQ - 1;
      if state.Started? {
        kind := HandleFrameReturn(answer);
      } else {
        dropped := dropped + 1;
      }
      if state.Exited? {
        shouldLive := false;
      }
    }

    /** The display thread's turn when a command is waiting; stopping flushes the tokens one by one. */
    method ProcessHalMsg(command: Phase) returns (shouldLive: bool)
      requires Valid() && !command.Init?
      modifies this`state, this`displayQ, this`dropped
      ensures Now() == EnterPhase(old(Now()), command) && shouldLive == !command.Exited?
    {
      state := command;
      if command.Stopped? {
        while displayQ > 0
          invariant state == command && displayQ + dropped == old(displayQ) + old(dropped)
        {
          displayQ := displayQ - 1;
          dropped := dropped + 1;
        }
      }
      return !command.Exited?;
    }
  }
}
