/**
 * The state table against what the states stand for: each combines some activities, every command starts or ends its
 * own ones, and needs some and excludes others.
 */
module CameraActivities {
  import opened Common
  import opened CameraStates

  // ---- the activities a state combines, besides recording (InVideo) ----

  predicate Previews(s: AdapterState) { !s.Initialized? && !s.LoadedPreview? }

  predicate Focuses(s: AdapterState) { s.Af? || s.VideoAf? || s.AfZoom? }

  predicate Zooms(s: AdapterState) { s.Zoom? || s.VideoZoom? || s.AfZoom? || s.BracketingZoom? }

  predicate LoadsCapture(s: AdapterState) { s.LoadedCapture? || s.VideoLoadedCapture? || s.LoadedReprocessCapture? }

  predicate Captures(s: AdapterState) { s.Capture? || s.Bracketing? || s.VideoCapture? || s.Reprocess? }

  predicate Brackets(s: AdapterState) { s.Bracketing? || s.BracketingZoom? }

  predicate LoadsReprocess(s: AdapterState) { s.LoadedReprocess? || s.LoadedReprocessCapture? }

  /** No two states combine the same activities. */
  lemma StatesDiffer(s: AdapterState, t: AdapterState)
    requires Previews(s) == Previews(t) && s.LoadedPreview? == t.LoadedPreview? && InVideo(s) == InVideo(t)
    requires Focuses(s) == Focuses(t) && Zooms(s) == Zooms(t) && Brackets(s) == Brackets(t) && s.Reprocess? == t.Reprocess?
    requires LoadsCapture(s) == LoadsCapture(t) && Captures(s) == Captures(t) && LoadsReprocess(s) == LoadsReprocess(t)
    ensures s == t
  {
  }

  // ---- what each command does to them ----

  predicate StopsCapture(op: Command) { op.StopImageCapture? || op.StopBracketCapture? }

  predicate PreviewMoves(s: AdapterState, op: Command, t: AdapterState) {
    && t.LoadedPreview? == (op.UseBuffersPreview? || (s.LoadedPreview? && !op.StartPreview?))
    && Previews(t) == (op.StartPreview? || (Previews(s) && !op.StopPreview?))
  }

  predicate VideoMoves(s: AdapterState, op: Command, t: AdapterState) {
    InVideo(t) == (op.StartVideo? || (InVideo(s) && !op.StopVideo?))
  }

  predicate FocusAndZoomMove(s: AdapterState, op: Command, t: AdapterState) {
    && Focuses(t) == (op.PerformAutofocus? || (Focuses(s) && !op.CancelAutofocus?))
    && Zooms(t) == (op.StartSmoothZoom? || (Zooms(s) && !op.StopSmoothZoom?))
  }

  predicate CaptureMoves(s: AdapterState, op: Command, t: AdapterState) {
    && LoadsCapture(t) == (op.UseBuffersImageCapture? || (LoadsCapture(s) && !op.StartImageCapture? && !op.StartBracketCapture?))
    && Captures(t) == (op.StartImageCapture? || op.StartBracketCapture? ||
                       (Captures(s) && !StopsCapture(op) && (op.UseBuffersReprocess? ==> s.Reprocess?)))
    && Brackets(t) == (op.StartBracketCapture? || (Brackets(s) && !StopsCapture(op) && !op.StartImageCapture?))
  }

  predicate ReprocessMoves(s: AdapterState, op: Command, t: AdapterState) {
    && LoadsReprocess(t) == ((op.UseBuffersReprocess? && !s.Reprocess?) || (LoadsReprocess(s) && !op.StartImageCapture?))
    && t.Reprocess? == ((op.StartImageCapture? && LoadsReprocess(s)) || (s.Reprocess? && !op.StopImageCapture?))
  }

  lemma PreviewFollows(s: AdapterState, op: Command)
    requires Transition(s, op).Some?
    ensures PreviewMoves(s, op, Transition(s, op).value)
  {
  }

  lemma VideoFollows(s: AdapterState, op: Command)
    requires Transition(s, op).Some?
    ensures VideoMoves(s, op, Transition(s, op).value)
  {
  }

  lemma FocusAndZoomFollow(s: AdapterState, op: Command)
    requires Transition(s, op).Some?
    ensures FocusAndZoomMove(s, op, Transition(s, op).value)
  {
  }

  /** But for the state bracketing is zoomed in, which no run reaches: it is not capturing until the zoom ends. */
  lemma CaptureFollows(s: AdapterState, op: Command)
    requires Transition(s, op).Some? && !s.BracketingZoom?
    ensures CaptureMoves(s, op, Transition(s, op).value)
  {
  }

  lemma ReprocessFollows(s: AdapterState, op: Command)
    requires Transition(s, op).Some?
    ensures ReprocessMoves(s, op, Transition(s, op).value)
  {
  }

  // ---- which commands are accepted ----

  /** Previewing, and besides that focusing, zooming or recording at most. */
  predicate JustPreviews(s: AdapterState) {
    Previews(s) && !LoadsCapture(s) && !Captures(s) && !Brackets(s) && !LoadsReprocess(s)
  }

  /** Starting and ending focus, zoom, recording and preview. */
  predicate AcceptsMode(op: Command, s: AdapterState) {
    match op
    case StartPreview => s.LoadedPreview?
    case StopPreview => s.Preview?
    case PerformAutofocus => JustPreviews(s) && !Focuses(s) && !(Zooms(s) && InVideo(s))
    case CancelAutofocus => Focuses(s) || (JustPreviews(s) && !InVideo(s))
    case StartSmoothZoom => JustPreviews(s) && !Zooms(s) && !(Focuses(s) && InVideo(s))
    case StopSmoothZoom => Zooms(s) || s.Preview?
    case StartVideo => JustPreviews(s) && !Focuses(s) && !InVideo(s)
    case StopVideo => JustPreviews(s) && !Focuses(s) && InVideo(s)
    case _ => false
  }

  predicate AcceptsCapture(op: Command, s: AdapterState) {
    match op
    case StartImageCapture => LoadsCapture(s) || (Captures(s) && !InVideo(s))
    case StartBracketCapture => LoadsCapture(s) && !InVideo(s) && !LoadsReprocess(s)
    case StopImageCapture => Captures(s)
    case StopBracketCapture => Captures(s) && !InVideo(s) && !s.Reprocess?
    case _ => false
  }

  /** Registering buffers and asking for their sizes. */
  predicate AcceptsBuffers(op: Command, s: AdapterState) {
    match op
    case UseBuffersPreview => s.Initialized?
    case UseBuffersPreviewData => s.LoadedPreview?
    case UseBuffersImageCapture => Previews(s) && !LoadsCapture(s) && !Captures(s) && !Focuses(s) && !Zooms(s)
    case UseBuffersReprocess => s.Preview? || (Captures(s) && !InVideo(s) && !Brackets(s))
    case QueryResolutionPreview => s.Initialized?
    case QueryBufferSizeImageCapture => !LoadsCapture(s) && !Captures(s) && !Focuses(s) && !Zooms(s)
    case QueryBufferSizePreviewData => !Previews(s)
    case _ => false
  }

  predicate MovesMode(op: Command) {
    op.StartPreview? || op.StopPreview? || op.PerformAutofocus? || op.CancelAutofocus? || op.StartSmoothZoom? ||
    op.StopSmoothZoom? || op.StartVideo? || op.StopVideo?
  }

  predicate MovesCapture(op: Command) { op.StartImageCapture? || op.StartBracketCapture? || StopsCapture(op) }

  ghost predicate ModeAccepted(s: AdapterState, op: Command) { Transition(s, op).Some? <==> AcceptsMode(op, s) }

  ghost predicate CaptureAccepted(s: AdapterState, op: Command) { Transition(s, op).Some? <==> AcceptsCapture(op, s) }

  ghost predicate BufferAccepted(s: AdapterState, op: Command) { Transition(s, op).Some? <==> AcceptsBuffers(op, s) }

  lemma ModesAccepted(s: AdapterState, op: Command)
    requires MovesMode(op)
    ensures ModeAccepted(s, op)
  {
  }

  lemma CapturesAccepted(s: AdapterState, op: Command)
    requires MovesCapture(op)
    ensures CaptureAccepted(s, op)
  {
  }

  lemma BuffersAccepted(s: AdapterState, op: Command)
    requires !MovesMode(op) && !MovesCapture(op)
    ensures BufferAccepted(s, op)
  {
  }

  /** The table accepts a command exactly when the activities going on allow it. */
  lemma AcceptedExactlyWhen(s: AdapterState, op: Command)
    ensures if MovesMode(op) then ModeAccepted(s, op) else if MovesCapture(op) then CaptureAccepted(s, op)
            else BufferAccepted(s, op)
  {
    if MovesMode(op) {
      ModesAccepted(s, op);
    } else if MovesCapture(op) {
      CapturesAccepted(s, op);
    } else {
      BuffersAccepted(s, op);
    }
  }

  // ---- runs ----

  predicate AllMove(s: AdapterState, op: Command, t: AdapterState) {
    PreviewMoves(s, op, t) && VideoMoves(s, op, t) && FocusAndZoomMove(s, op, t) && CaptureMoves(s, op, t) && ReprocessMoves(s, op, t)
  }

  /**
   * One more command after any run: accepted and successful, it starts and ends its own activities and no others,
   * which leaves one possible state; anything else leaves the state alone.
   */
  lemma CommandMovesActivities(k: Core, cs: seq<Call>, c: Call)
    requires Settled(k)
    ensures var s, r := Run(k, cs).state, Send(Run(k, cs), c);
      if Accepted(Run(k, cs), c) && Transactional(c) && r.1 == NoError then AllMove(s, c.op, r.0.state) else r.0.state == s
  {
    RunsStaySettled(k, cs);
    OneMoves(Run(k, cs), c);
  }

  lemma OneMoves(k: Core, c: Call)
    requires Settled(k)
    ensures var r := Send(k, c);
      if Accepted(k, c) && Transactional(c) && r.1 == NoError then AllMove(k.state, c.op, r.0.state) else r.0.state == k.state
  {
    if Accepted(k, c) && Transactional(c) && Send(k, c).1 == NoError {
      SuccessFollowsTable(k, c);
      PreviewFollows(k.state, c.op);
      VideoFollows(k.state, c.op);
      FocusAndZoomFollow(k.state, c.op);
      CaptureFollows(k.state, c.op);
      ReprocessFollows(k.state, c.op);
    } else if Transactional(c) {
      RejectedMovesNothing(k, c);
    }
  }

  /** Rolling back ends the activity furthest from previewing first; a state with something loaded cannot be rolled back. */
  predicate UndoesLast(s: AdapterState, undo: Option<Command>) {
    undo == if s.Initialized? || s.LoadedPreview? || LoadsCapture(s) || LoadsReprocess(s) then None
            else if Zooms(s) then Some(StopSmoothZoom)
            else if Focuses(s) then Some(CancelAutofocus)
            else if Brackets(s) then Some(StopBracketCapture)
            else if Captures(s) then Some(StopImageCapture)
            else if InVideo(s) then Some(StopVideo)
            else Some(StopPreview)
  }

  lemma RollBackUndoesLast(s: AdapterState)
    ensures UndoesLast(s, UndoCommand(s))
  {
  }

  /** Registrations that run their hook even when the table rejects them. */
  predicate RegistersRegardless(op: Command) {
    op.UseBuffersPreview? || op.UseBuffersPreviewData? || op.UseBuffersImageCapture? || op.UseBuffersVideoCapture?
  }

  /** What a command answers: the first of these that applies. */
  predicate Answers(k: Core, c: Call, r: Status) {
    if (RegistersRegardless(c.op) || c.op.UseBuffersReprocess?) && !c.argPresent then r == BadArgument
    else if c.op.Unsupported? then r == NoError
    else if RegistersRegardless(c.op) || Stateless(c.op) then r == c.hook
    else if !Accepted(k, c) then r == InvalidOperation
    else if c.op.StartVideo? || c.op.StopVideo? then r == NoError
    else if (c.op.QueryResolutionPreview? || c.op.QueryBufferSizeImageCapture? || c.op.QueryBufferSizePreviewData?) && !c.argPresent
    then r == BadArgument
    else r == c.hook
  }

  /** In every run the answer to a command is decided by its arguments, the table and its hook. */
  lemma RunsAnswer(k: Core, cs: seq<Call>, c: Call)
    requires Settled(k)
    ensures Answers(Run(k, cs), c, Send(Run(k, cs), c).1)
  {
    RunsStaySettled(k, cs);
    SettledAnswers(Run(k, cs), c);
  }

  lemma SettledAnswers(k: Core, c: Call)
    requires Settled(k)
    ensures Answers(k, c, Send(k, c).1)
  {
    if Accepted(k, c) && (c.op.StartVideo? || c.op.StopVideo?) { VideoCommandsSucceed(k, c); }
  }

  /** The last of these two commands that succeeded in the run was the first one; `was` if none did. */
  predicate LastSucceeded(k: Core, cs: seq<Call>, start: Command, stop: Command, was: bool) {
    if cs == [] then was
    else
      var front, c := cs[..|cs| - 1], cs[|cs| - 1];
      if (c.op == start || c.op == stop) && Send(Run(k, front), c).1 == NoError then c.op == start
      else LastSucceeded(k, front, start, stop, was)
  }

  lemma ModesMove(k: Core, cs: seq<Call>, c: Call)
    requires Settled(k)
    ensures var s, r := Run(k, cs).state, Send(Run(k, cs), c);
      && Zooms(r.0.state) == Turned(c.op, StartSmoothZoom, StopSmoothZoom, r.1, Zooms(s))
      && Focuses(r.0.state) == Turned(c.op, PerformAutofocus, CancelAutofocus, r.1, Focuses(s))
      && InVideo(r.0.state) == Turned(c.op, StartVideo, StopVideo, r.1, InVideo(s))
  {
    CommandMovesActivities(k, cs, c);
  }

  /** A mode after a command: turned on or off by its own commands if they succeed. */
  predicate Turned(op: Command, start: Command, stop: Command, r: Status, was: bool) {
    if (op == start || op == stop) && r == NoError then op == start else was
  }

  /** The modes are on exactly when the last of their commands that succeeded started them. */
  ghost predicate Remembered(k: Core, cs: seq<Call>, s: AdapterState) {
    && Zooms(s) == LastSucceeded(k, cs, StartSmoothZoom, StopSmoothZoom, Zooms(k.state))
    && Focuses(s) == LastSucceeded(k, cs, PerformAutofocus, CancelAutofocus, Focuses(k.state))
    && InVideo(s) == LastSucceeded(k, cs, StartVideo, StopVideo, InVideo(k.state))
  }

  lemma RememberOne(k: Core, cs: seq<Call>, t: AdapterState)
    requires cs != []
    requires var front, c := cs[..|cs| - 1], cs[|cs| - 1];
      var s, r := Run(k, front).state, Send(Run(k, front), c).1;
      && Remembered(k, front, s)
      && Zooms(t) == Turned(c.op, StartSmoothZoom, StopSmoothZoom, r, Zooms(s))
      && Focuses(t) == Turned(c.op, PerformAutofocus, CancelAutofocus, r, Focuses(s))
      && InVideo(t) == Turned(c.op, StartVideo, StopVideo, r, InVideo(s))
    ensures Remembered(k, cs, t)
  {
  }

  /** In every run the camera zooms, focuses and records exactly when the last such command that succeeded started it. */
  lemma {:induction false} RunsRememberModes(k: Core, cs: seq<Call>)
    requires Settled(k)
    ensures Remembered(k, cs, Run(k, cs).state)
  {
    if cs != [] {
      var front, c := cs[..|cs| - 1], cs[|cs| - 1];
      RunsRememberModes(k, front);
      ModesMove(k, front, c);
      RememberOne(k, cs, Send(Run(k, front), c).0.state);
    }
  }
}
