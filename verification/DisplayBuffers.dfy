/**
 * Who owns each preview buffer: the window, or the camera side.  The display adapter keeps a map of the buffers
 * that are with the camera, the type each buffer in the window was shown as, and one token per buffer it may ask
 * back.  The window must be left a minimum of buffers it never has to give up.
 */
module DisplayBuffers {
  import opened Common

  type Handle = int

  datatype FrameType = PreviewFrame | SnapshotFrame

  datatype Phase = Init | Started | Stopped | Exited

  /**
   * `held` are the buffers the camera can still send frames in, `pending` one that went back to it while the
   * display thread has yet to forget its type, `dropped` the tokens thrown away, `shown` the frames displayed.
   */
  datatype Display = Display(
    phase: Phase, hasWindow: bool, paused: bool, tokens: nat,
    withCamera: set<Handle>, types: map<Handle, FrameType>,
    window: set<Handle>, held: set<Handle>, pending: Option<Handle>, dropped: nat, shown: seq<Handle>)

  /** What the window answers to a dequeue. */
  datatype Answer = Got(h: Handle) | Refused | Abandoned

  datatype Event =
    | Post(h: Handle, kind: FrameType) // the camera's thread
    | Token(answer: Answer) // the display thread, up to returning the frame
    | Forget // the display thread, after returning the frame
    | SetPhase(phase: Phase)
    | Pause(paused: bool)

  /** A frame is displayed when running and not paused; snapshots ignore the pause. */
  predicate Displays(d: Display, kind: FrameType) { d.phase.Started? && (!d.paused || kind.SnapshotFrame?) }

  /** Displayed or not, a posted buffer goes to the window and a token asks for one in return. */
  function PostFrame(d: Display, h: Handle, kind: FrameType): Display {
    if !d.hasWindow then d.(held := d.held - {h})
    else
      d.(types := d.types[h := kind],
         withCamera := d.withCamera - {h}, held := d.held - {h}, window := d.window + {h}, tokens := d.tokens + 1,
         shown := if Displays(d, kind) then d.shown + [h] else d.shown)
  }

  /** A dequeued buffer goes back to the camera, unless its type is missing. */
  function TakeBack(d: Display, answer: Answer): Display {
    if !d.hasWindow then d.(dropped := d.dropped + 1)
    else match answer
      case Refused => d.(dropped := d.dropped + 1)
      case Abandoned => d.(dropped := d.dropped + 1, hasWindow := false)
      case Got(h) =>
        var e := d.(window := d.window - {h}, withCamera := d.withCamera + {h});
        if h in d.types then e.(held := d.held + {h}, pending := Some(h)) else e
  }

  function ProcessToken(d: Display, answer: Answer): Display {
    if d.phase.Init? || d.tokens == 0 then d
    else
      var e := d.(tokens := d.tokens - 1);
      if d.phase.Started? then TakeBack(e, answer) else e.(dropped := e.dropped + 1)
  }

  function ForgetType(d: Display): Display {
    if d.pending.Some? then d.(types := d.types - {d.pending.value}, pending := None) else d
  }

  /** Stopping flushes the tokens. */
  function EnterPhase(d: Display, phase: Phase): Display {
    if phase.Stopped? then d.(phase := phase, tokens := 0, dropped := d.dropped + d.tokens) else d.(phase := phase)
  }

  function Step(d: Display, e: Event): Display {
    match e
    case Post(h, kind) => PostFrame(d, h, kind)
    case Token(answer) => ProcessToken(d, answer)
    case Forget => ForgetType(d)
    case SetPhase(phase) => EnterPhase(d, phase)
    case Pause(paused) => d.(paused := paused)
  }

  /**
   * The camera posts only what it holds, the window answers only with what it has, and the display thread
   * finishes one return before it starts the next or reads a command.
   */
  ghost predicate Legal(d: Display, e: Event) {
    match e
    case Post(h, kind) => h in d.held
    case Token(answer) => d.pending.None? && d.tokens > 0 && (answer.Got? ==> answer.h in d.window)
    case Forget => d.pending.Some?
    case SetPhase(phase) => d.pending.None?
    case Pause(paused) => true
  }

  // ---- what always holds ----

  /**
   * Camera map and window split the buffers; the window has its minimum plus one buffer per token, counting the
   * tokens thrown away.
   */
  ghost predicate Owned(d: Display, all: set<Handle>, minimum: nat) {
    && d.withCamera + d.window == all && d.withCamera !! d.window
    && d.held <= d.withCamera
    && |d.window| == minimum + d.tokens + d.dropped
  }

  /** A buffer with the camera has a type only while it is being returned. */
  ghost predicate Typed(d: Display, all: set<Handle>) {
    && d.types.Keys <= all
    && (d.pending.Some? ==> d.pending.value in d.types)
    && (forall h :: h in d.types && h in d.withCamera ==> d.pending == Some(h))
  }

  ghost predicate Consistent(d: Display, all: set<Handle>, minimum: nat) {
    Owned(d, all, minimum) && Typed(d, all)
  }

  lemma MovesAcross(from: set<Handle>, to: set<Handle>, h: Handle)
    requires from !! to && h in from
    ensures (from - {h}) + (to + {h}) == from + to && from - {h} !! to + {h}
    ensures |from - {h}| == |from| - 1 && |to + {h}| == |to| + 1
  {
  }

  lemma PostStaysConsistent(d: Display, h: Handle, kind: FrameType, all: set<Handle>, minimum: nat)
    requires Consistent(d, all, minimum) && h in d.held
    ensures Consistent(PostFrame(d, h, kind), all, minimum)
  {
    if d.hasWindow { MovesAcross(d.withCamera, d.window, h); }
  }

  lemma TakeBackStaysOwned(d: Display, h: Handle, all: set<Handle>, minimum: nat)
    requires Owned(d.(tokens := d.tokens + 1), all, minimum) && d.hasWindow && h in d.window
    ensures Owned(TakeBack(d, Got(h)), all, minimum)
  {
    MovesAcross(d.window, d.withCamera, h);
    assert d.window + d.withCamera == all;
  }

  lemma TakeBackStaysTyped(d: Display, h: Handle, all: set<Handle>)
    requires Typed(d, all) && d.pending.None?
    ensures Typed(TakeBack(d, Got(h)), all)
  {
  }

  lemma TokenStaysConsistent(d: Display, answer: Answer, all: set<Handle>, minimum: nat)
    requires Consistent(d, all, minimum) && Legal(d, Token(answer))
    ensures Consistent(ProcessToken(d, answer), all, minimum)
  {
    if answer.Got? && d.hasWindow && d.phase.Started? {
      TakeBackStaysOwned(d.(tokens := d.tokens - 1), answer.h, all, minimum);
      TakeBackStaysTyped(d.(tokens := d.tokens - 1), answer.h, all);
    }
  }

  lemma StepStaysConsistent(d: Display, e: Event, all: set<Handle>, minimum: nat)
    requires Consistent(d, all, minimum) && Legal(d, e)
    ensures Consistent(Step(d, e), all, minimum)
  {
    match e
    case Post(h, kind) => PostStaysConsistent(d, h, kind, all, minimum);
    case Token(answer) => TokenStaysConsistent(d, answer, all, minimum);
    case _ =>
  }

  /** A dequeue never eats into the window's minimum. */
  lemma DequeueLeavesMinimum(d: Display, all: set<Handle>, minimum: nat)
    requires Consistent(d, all, minimum) && d.tokens > 0
    ensures |d.window| > minimum
  {
  }

  // ---- no buffer is lost ----

  /**
   * A buffer the camera will never see again: in the window without a type, about to be so because it was sent
   * out again before its old type was forgotten, or in the camera map without the camera having it.
   */
  ghost predicate Lost(d: Display, h: Handle) {
    || (h in d.window && h !in d.types)
    || (h in d.window && d.pending == Some(h))
    || (h in d.withCamera && h !in d.held)
  }

  ghost predicate Sound(d: Display, all: set<Handle>, minimum: nat) {
    Consistent(d, all, minimum) && forall h :: h in all ==> !Lost(d, h)
  }

  /** The frame arrives while the display thread is still about to forget the same buffer's type, or no window is left. */
  predicate Loses(d: Display, e: Event) {
    e.Post? && (d.pending == Some(e.h) || !d.hasWindow)
  }

  lemma PostKeepsFound(d: Display, h: Handle, kind: FrameType, x: Handle)
    requires d.hasWindow && d.pending != Some(h) && !Lost(d, x) && !Lost(d, h)
    ensures !Lost(PostFrame(d, h, kind), x)
  {
  }

  lemma TokenKeepsFound(d: Display, answer: Answer, x: Handle)
    requires d.pending.None? && (answer.Got? ==> answer.h in d.window && !Lost(d, answer.h)) && !Lost(d, x)
    ensures !Lost(ProcessToken(d, answer), x)
  {
  }

  lemma StepKeepsFound(d: Display, e: Event, x: Handle, all: set<Handle>, minimum: nat)
    requires Sound(d, all, minimum) && Legal(d, e) && !Loses(d, e) && x in all
    ensures !Lost(Step(d, e), x)
  {
    assert !Lost(d, x);
    match e
    case Post(h, kind) => PostKeepsFound(d, h, kind, x);
    case Token(answer) => TokenKeepsFound(d, answer, x);
    case _ =>
  }

  /** One step loses nothing exactly when it is not such a frame. */
  lemma StepSoundExactlyWhen(d: Display, e: Event, all: set<Handle>, minimum: nat)
    requires Sound(d, all, minimum) && Legal(d, e)
    ensures Sound(Step(d, e), all, minimum) <==> !Loses(d, e)
  {
    StepStaysConsistent(d, e, all, minimum);
    if Loses(d, e) {
      assert Lost(Step(d, e), e.h);
    } else {
      forall x | x in all
        ensures !Lost(Step(d, e), x)
      {
        StepKeepsFound(d, e, x, all, minimum);
      }
    }
  }

  lemma LostForGood(d: Display, e: Event, h: Handle, all: set<Handle>, minimum: nat)
    requires Consistent(d, all, minimum) && Legal(d, e) && h in all && Lost(d, h)
    ensures Lost(Step(d, e), h)
  {
  }

  function After(d: Display, es: seq<Event>): Display {
    if es == [] then d else Step(After(d, es[..|es| - 1]), es[|es| - 1])
  }

  ghost predicate LegalRun(d: Display, es: seq<Event>) {
    es == [] || (LegalRun(d, es[..|es| - 1]) && Legal(After(d, es[..|es| - 1]), es[|es| - 1]))
  }

  /** Some event of the run loses a buffer. */
  predicate SomeLoses(d: Display, es: seq<Event>) {
    es != [] && (SomeLoses(d, es[..|es| - 1]) || Loses(After(d, es[..|es| - 1]), es[|es| - 1]))
  }

  /**
   * Every run of both threads, in any interleaving: ownership stays consistent, and no buffer is lost exactly
   * when no frame was posted in the window between its return and the forgetting of its type, or without a window.
   */
  lemma {:induction false} RunsSoundExactlyWhen(d: Display, es: seq<Event>, all: set<Handle>, minimum: nat)
    requires Sound(d, all, minimum) && LegalRun(d, es)
    ensures Consistent(After(d, es), all, minimum)
    ensures Sound(After(d, es), all, minimum) <==> !SomeLoses(d, es)
  {
    if es != [] {
      var front, e := es[..|es| - 1], es[|es| - 1];
      RunsSoundExactlyWhen(d, front, all, minimum);
      var was := After(d, front);
      StepStaysConsistent(was, e, all, minimum);
      if Sound(was, all, minimum) {
        StepSoundExactlyWhen(was, e, all, minimum);
      } else {
        var h :| h in all && Lost(was, h);
        LostForGood(was, e, h, all, minimum);
      }
    }
  }

  // ---- which frames are displayed ----

  /** What the last command and the last pause of a run said. */
  function LastPhase(d: Display, es: seq<Event>): Phase {
    if es == [] then d.phase
    else if es[|es| - 1].SetPhase? then es[|es| - 1].phase else LastPhase(d, es[..|es| - 1])
  }
  function LastPause(d: Display, es: seq<Event>): bool {
    if es == [] then d.paused
    else if es[|es| - 1].Pause? then es[|es| - 1].paused else LastPause(d, es[..|es| - 1])
  }

  /** The window was left at the start and no dequeue was abandoned since, while running with a token waiting. */
  predicate WindowLeft(d: Display, es: seq<Event>) {
    if es == [] then d.hasWindow
    else
      var front, e := es[..|es| - 1], es[|es| - 1];
      WindowLeft(d, front) && !(e == Token(Abandoned) && LastPhase(d, front).Started? && After(d, front).tokens > 0)
  }

  /** The posted frames for which the display was last started, and last not paused unless they are snapshots. */
  function Displayed(d: Display, es: seq<Event>): seq<Handle> {
    if es == [] then []
    else
      var front, e := es[..|es| - 1], es[|es| - 1];
      Displayed(d, front) +
      if e.Post? && WindowLeft(d, front) && LastPhase(d, front).Started? && (e.kind.SnapshotFrame? || !LastPause(d, front))
      then [e.h] else []
  }

  /** In any interleaving exactly these are displayed, in the order they were posted, while a window is left. */
  lemma {:induction false} ShownExactly(d: Display, es: seq<Event>)
    ensures var a := After(d, es);
      && a.phase == LastPhase(d, es) && a.paused == LastPause(d, es) && a.hasWindow == WindowLeft(d, es)
      && a.shown == d.shown + Displayed(d, es)
  {
    if es != [] {
      var front, e := es[..|es| - 1], es[|es| - 1];
      ShownExactly(d, front);
      assert e.Post? ==> After(d, es) == PostFrame(After(d, front), e.h, e.kind);
    }
  }

  /** Frames given to the window since tokens were last flushed, less the turns the display thread took. */
  function Waiting(d: Display, es: seq<Event>): int {
    if es == [] then d.tokens
    else
      var front, e := es[..|es| - 1], es[|es| - 1];
      match e
      case Post(_, _) => Waiting(d, front) + if WindowLeft(d, front) then 1 else 0
      case Token(_) => Waiting(d, front) - if LastPhase(d, front).Init? then 0 else 1
      case SetPhase(phase) => if phase.Stopped? then 0 else Waiting(d, front)
      case _ => Waiting(d, front)
  }

  /** In any interleaving the tokens waiting are these, and only stopping flushes them. */
  lemma {:induction false} TokensExactly(d: Display, es: seq<Event>)
    requires LegalRun(d, es)
    ensures After(d, es).tokens == Waiting(d, es)
  {
    if es != [] {
      var front, e := es[..|es| - 1], es[|es| - 1];
      TokensExactly(d, front);
      ShownExactly(d, front);
      assert After(d, es) == Step(After(d, front), e);
    }
  }

  // ---- the type a frame comes back with ----

  /** The kind of the last frame the run posted in a buffer, or the type the buffer started with if there was none. */
  function LastKind(d: Display, es: seq<Event>, h: Handle): Option<FrameType> {
    if es == [] then (if h in d.types then Some(d.types[h]) else None)
    else
      var front, e := es[..|es| - 1], es[|es| - 1];
      if e.Post? && e.h == h then Some(e.kind) else LastKind(d, front, h)
  }

  /** The type a return hands to the camera with the buffer, if it hands the buffer back. */
  function ReturnedKind(d: Display, answer: Answer): Option<FrameType> {
    if d.hasWindow && answer.Got? && answer.h in d.types then Some(d.types[answer.h]) else None
  }

  /** A buffer that is not lost has this type, if it has one. */
  ghost predicate HasKind(d: Display, h: Handle, kind: Option<FrameType>) {
    h in d.types && !Lost(d, h) ==> Some(d.types[h]) == kind
  }

  lemma StepKind(d: Display, e: Event, h: Handle, kind: Option<FrameType>, all: set<Handle>, minimum: nat)
    requires Consistent(d, all, minimum) && Legal(d, e) && HasKind(d, h, kind)
    ensures HasKind(Step(d, e), h, if e.Post? && e.h == h then Some(e.kind) else kind)
  {
    if h in all && Lost(d, h) { LostForGood(d, e, h, all, minimum); }
  }

  /** In every interleaving of any length: the type of a buffer that is not lost is the kind of its last frame. */
  lemma {:induction false} TypeIsLastKind(d: Display, es: seq<Event>, h: Handle, all: set<Handle>, minimum: nat)
    requires Consistent(d, all, minimum) && LegalRun(d, es)
    ensures Consistent(After(d, es), all, minimum) && HasKind(After(d, es), h, LastKind(d, es, h))
  {
    if es != [] {
      var front, e := es[..|es| - 1], es[|es| - 1];
      TypeIsLastKind(d, front, h, all, minimum);
      StepStaysConsistent(After(d, front), e, all, minimum);
      StepKind(After(d, front), e, h, LastKind(d, front, h), all, minimum);
    }
  }

  /**
   * Whatever happened before, a buffer in the window that is not lost has the kind of its last frame as its type,
   * and when it comes back that kind goes to the camera with it.
   */
  lemma ReturnsAsLastShown(d: Display, es: seq<Event>, h: Handle, all: set<Handle>, minimum: nat)
    requires Consistent(d, all, minimum) && LegalRun(d, es)
    requires h in After(d, es).window && !Lost(After(d, es), h)
    ensures var a := After(d, es);
      && h in a.types && Some(a.types[h]) == LastKind(d, es, h)
      && (a.hasWindow ==> ReturnedKind(a, Got(h)) == LastKind(d, es, h))
  {
    TypeIsLastKind(d, es, h, all, minimum);
  }

  /** In a sound state every buffer of the window has a type, and a returned one reaches the camera. */
  lemma SoundReturnsWithType(d: Display, h: Handle, all: set<Handle>, minimum: nat)
    requires Sound(d, all, minimum) && Legal(d, Token(Got(h))) && d.phase.Started? && d.hasWindow
    ensures h in d.types && h in Step(d, Token(Got(h))).held
    ensures d.types.Keys == d.window
  {
    assert !Lost(d, h);
    forall x | x in d.window
      ensures x in d.types
    {
      assert !Lost(d, x);
    }
    forall x | x in d.types
      ensures x in d.window
    {
      assert x in all && x !in d.withCamera;
    }
  }

  /** Between returns, the camera has all buffers but the window's minimum, one per token and one per dropped token. */
  lemma CameraHasTheRest(d: Display, all: set<Handle>, minimum: nat)
    requires Sound(d, all, minimum)
    ensures d.held == d.withCamera && |d.held| + minimum + d.tokens + d.dropped == |all|
  {
    forall h | h in d.withCamera
      ensures h in d.held
    {
      assert !Lost(d, h);
    }
    assert d.held == d.withCamera;
    assert |d.withCamera + d.window| == |d.withCamera| + |d.window|;
  }

  /**
   * The race: buffer 1 was shown and comes back, the camera refills and posts it at once, and only then does the
   * display thread forget its type.
   */
  lemma FrameOvertakesForgetting()
    ensures var d := Display(Started, true, false, 1, {}, map[1 := PreviewFrame], {1}, {}, None, 0, [1]);
      var e := Step(d, Token(Got(1)));
      var f := Step(e, Post(1, PreviewFrame));
      && Sound(d, {1}, 0) && Legal(d, Token(Got(1))) && Legal(e, Post(1, PreviewFrame)) && Legal(f, Forget)
      && Loses(e, Post(1, PreviewFrame)) && Lost(Step(f, Forget), 1)
  {
  }
}
