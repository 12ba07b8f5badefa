/**
 * The camera adapter's state machine: the transition table, the three shapes a command takes, and what holds
 * after every command of every run, whatever the hardware hooks answer.
 */
module CameraStates {
  import opened Common

  datatype AdapterState =
    | Initialized | LoadedPreview | Preview | LoadedCapture | Capture | Bracketing | Af | Zoom | Video | VideoAf
    | VideoZoom | VideoLoadedCapture | VideoCapture | AfZoom | BracketingZoom
    | LoadedReprocess | LoadedReprocessCapture | Reprocess

  datatype Command =
    | UseBuffersPreview | UseBuffersPreviewData | UseBuffersImageCapture | UseBuffersVideoCapture | UseBuffersReprocess
    | StartSmoothZoom | StopSmoothZoom | StartPreview | StopPreview | StartVideo | StopVideo
    | StartImageCapture | StopImageCapture | StartBracketCapture | StopBracketCapture
    | PerformAutofocus | CancelAutofocus
    | QueryResolutionPreview | QueryBufferSizeImageCapture | QueryBufferSizePreviewData
    | StartFaceDetection | StopFaceDetection | SwitchToExecuting | PreviewInitialization | Unsupported

  datatype Status = NoError | InvalidOperation | NoInit | BadArgument | HookError

  /** The state a command leads to, if the table allows it. */
  function Transition(s: AdapterState, op: Command): Option<AdapterState> {
    match (s, op)
    case (Initialized, UseBuffersPreview) => Some(LoadedPreview)
    case (Initialized, QueryResolutionPreview) => Some(Initialized)
    case (Initialized, QueryBufferSizeImageCapture) => Some(Initialized)
    case (Initialized, QueryBufferSizePreviewData) => Some(Initialized)
    case (LoadedPreview, StartPreview) => Some(Preview)
    case (LoadedPreview, QueryBufferSizeImageCapture) => Some(LoadedPreview)
    case (LoadedPreview, QueryBufferSizePreviewData) => Some(LoadedPreview)
    case (LoadedPreview, UseBuffersPreviewData) => Some(LoadedPreview)
    case (Preview, StopPreview) => Some(Initialized)
    case (Preview, PerformAutofocus) => Some(Af)
    case (Preview, StartSmoothZoom) => Some(Zoom)
    case (Preview, UseBuffersImageCapture) => Some(LoadedCapture)
    case (Preview, UseBuffersReprocess) => Some(LoadedReprocess)
    case (Preview, StartVideo) => Some(Video)
    case (Preview, CancelAutofocus) => Some(Preview)
    case (Preview, QueryBufferSizeImageCapture) => Some(Preview)
    case (Preview, StopSmoothZoom) => Some(Preview)
    case (LoadedReprocess, UseBuffersImageCapture) => Some(LoadedReprocessCapture)
    case (LoadedReprocess, QueryBufferSizeImageCapture) => Some(LoadedReprocess)
    case (LoadedReprocessCapture, StartImageCapture) => Some(Reprocess)
    case (LoadedCapture, StartImageCapture) => Some(Capture)
    case (LoadedCapture, StartBracketCapture) => Some(Bracketing)
    case (Capture, StopImageCapture) => Some(Preview)
    case (Capture, StopBracketCapture) => Some(Preview)
    case (Capture, StartImageCapture) => Some(Capture)
    case (Capture, UseBuffersReprocess) => Some(LoadedReprocess)
    case (Bracketing, StopImageCapture) => Some(Preview)
    case (Bracketing, StopBracketCapture) => Some(Preview)
    case (Bracketing, StartImageCapture) => Some(Capture)
    case (Af, CancelAutofocus) => Some(Preview)
    case (Af, StartSmoothZoom) => Some(AfZoom)
    case (Zoom, CancelAutofocus) => Some(Zoom)
    case (Zoom, StopSmoothZoom) => Some(Preview)
    case (Zoom, PerformAutofocus) => Some(AfZoom)
    case (Zoom, StartVideo) => Some(VideoZoom)
    case (Video, StopVideo) => Some(Preview)
    case (Video, PerformAutofocus) => Some(VideoAf)
    case (Video, StartSmoothZoom) => Some(VideoZoom)
    case (Video, UseBuffersImageCapture) => Some(VideoLoadedCapture)
    case (Video, QueryBufferSizeImageCapture) => Some(Video)
    case (VideoAf, CancelAutofocus) => Some(Video)
    case (VideoLoadedCapture, StartImageCapture) => Some(VideoCapture)
    case (VideoCapture, StopImageCapture) => Some(Video)
    case (AfZoom, StopSmoothZoom) => Some(Af)
    case (AfZoom, CancelAutofocus) => Some(Zoom)
    case (VideoZoom, StopSmoothZoom) => Some(Video)
    case (VideoZoom, StopVideo) => Some(Zoom)
    case (BracketingZoom, StopSmoothZoom) => Some(Bracketing)
    case (Reprocess, StopImageCapture) => Some(Preview)
    case (Reprocess, StartImageCapture) => Some(Reprocess)
    case (Reprocess, UseBuffersReprocess) => Some(Reprocess)
    case _ => None
  }

  /** Commands that need a buffer descriptor or a frame. */
  predicate NeedsBuffers(op: Command) {
    op.UseBuffersPreview? || op.UseBuffersPreviewData? || op.UseBuffersImageCapture? || op.UseBuffersVideoCapture? ||
    op.UseBuffersReprocess?
  }
  predicate NeedsFrame(op: Command) {
    op.QueryResolutionPreview? || op.QueryBufferSizeImageCapture? || op.QueryBufferSizePreviewData?
  }

  /** These run their hook, and overwrite the status, even after the table rejected them. */
  predicate RunsHookRegardless(op: Command) { NeedsBuffers(op) && !op.UseBuffersReprocess? }

  /** Commands that leave the state machine alone. */
  predicate Stateless(op: Command) {
    op.StartFaceDetection? || op.StopFaceDetection? || op.SwitchToExecuting? || op.PreviewInitialization? || op.Unsupported?
  }

  /** The arguments of a command and what its hardware hook answers. */
  datatype Call = Call(op: Command, argPresent: bool, hook: Status)

  datatype Core = Core(state: AdapterState, next: AdapterState, recording: bool)

  /** Takes part in a state transaction, so it holds the state lock while it runs. */
  predicate Transactional(c: Call) { !Stateless(c.op) && (NeedsBuffers(c.op) ==> c.argPresent) }

  predicate Accepted(k: Core, c: Call) { Transition(k.state, c.op).Some? }

  function Begun(k: Core, c: Call): Core {
    if Accepted(k, c) then k.(next := Transition(k.state, c.op).value) else k
  }

  /** The command's own work, between the table and the commit: its status and the recording flag. */
  function Work(k: Core, c: Call): (Status, bool) {
    if RunsHookRegardless(c.op) then (c.hook, k.recording)
    else if !Accepted(k, c) then (InvalidOperation, k.recording)
    else if c.op.StartVideo? then (if k.recording then NoInit else NoError, true)
    else if c.op.StopVideo? then (if !k.recording then NoInit else NoError, false)
    else if NeedsFrame(c.op) && !c.argPresent then (BadArgument, k.recording)
    else (c.hook, k.recording)
  }

  function Send(k: Core, c: Call): (Core, Status) {
    if NeedsBuffers(c.op) && !c.argPresent then (k, BadArgument)
    else if c.op.Unsupported? then (k, NoError)
    else if Stateless(c.op) then (k, c.hook)
    else
      var b := Begun(k, c);
      var (status, recording) := Work(k, c);
      if status == NoError then (Core(b.next, b.next, recording), status)
      else (Core(b.state, b.state, recording), status)
  }

  // ---- invariants ----

  predicate InVideo(s: AdapterState) {
    s.Video? || s.VideoAf? || s.VideoZoom? || s.VideoLoadedCapture? || s.VideoCapture?
  }

  /**
   * Between commands: no transition is pending, the recording flag says exactly whether the state is one of
   * the video states, and bracketing is never zoomed.
   */
  ghost predicate Settled(k: Core) {
    k.next == k.state && (k.recording <==> InVideo(k.state)) && !k.state.BracketingZoom?
  }

  /** Every allowed transition other than starting or stopping video stays on its side of recording. */
  lemma TransitionsKeepVideo(s: AdapterState, op: Command)
    requires Transition(s, op).Some? && !s.BracketingZoom?
    ensures var t := Transition(s, op).value;
      && !t.BracketingZoom?
      && (op.StartVideo? ==> !InVideo(s) && InVideo(t))
      && (op.StopVideo? ==> InVideo(s) && !InVideo(t))
      && (!op.StartVideo? && !op.StopVideo? ==> (InVideo(s) <==> InVideo(t)))
  {
  }

  lemma SendSettles(k: Core, c: Call)
    requires Settled(k)
    ensures Settled(Send(k, c).0)
  {
    if Accepted(k, c) { TransitionsKeepVideo(k.state, c.op); }
  }

  /** Starting and stopping video never fail once the table allows them. */
  lemma VideoCommandsSucceed(k: Core, c: Call)
    requires Settled(k) && Accepted(k, c) && (c.op.StartVideo? || c.op.StopVideo?)
    ensures Send(k, c) == (Core(Transition(k.state, c.op).value, Transition(k.state, c.op).value, c.op.StartVideo?), NoError)
  {
    TransitionsKeepVideo(k.state, c.op);
  }

  /** A command the table rejects, or whose work fails, moves neither the state nor the recording flag. */
  lemma RejectedMovesNothing(k: Core, c: Call)
    requires Settled(k) && (!Accepted(k, c) || Send(k, c).1 != NoError)
    ensures Send(k, c).0 == k
  {
    if Accepted(k, c) && (c.op.StartVideo? || c.op.StopVideo?) { VideoCommandsSucceed(k, c); }
  }

  /**
   * A rejected transaction reports success exactly when it is one of the four buffer registrations that run
   * their hook regardless and the hook succeeds.
   */
  lemma RejectedReportsSuccessExactlyWhen(k: Core, c: Call)
    requires Transactional(c) && !Accepted(k, c)
    ensures Send(k, c).1 == NoError <==> RunsHookRegardless(c.op) && c.hook == NoError
  {
  }

  /** It does happen, in every state: no state accepts video buffers, and registering them succeeds all the same. */
  lemma RejectedRegistrationSucceeds(k: Core)
    requires Settled(k)
    ensures var c := Call(UseBuffersVideoCapture, true, NoError);
      Transactional(c) && !Accepted(k, c) && Send(k, c) == (k, NoError)
  {
  }

  /** A transaction that succeeds lands where the table says, or was such a rejected registration. */
  lemma SuccessFollowsTable(k: Core, c: Call)
    requires Settled(k) && Transactional(c) && Send(k, c).1 == NoError
    ensures Send(k, c).0.state == if Accepted(k, c) then Transition(k.state, c.op).value else k.state
  {
  }

  function Run(k: Core, cs: seq<Call>): Core {
    if cs == [] then k else Send(Run(k, cs[..|cs| - 1]), cs[|cs| - 1]).0
  }

  lemma {:induction false} RunsStaySettled(k: Core, cs: seq<Call>)
    requires Settled(k)
    ensures Settled(Run(k, cs))
  {
    if cs != [] {
      RunsStaySettled(k, cs[..|cs| - 1]);
      SendSettles(Run(k, cs[..|cs| - 1]), cs[|cs| - 1]);
    }
  }

  // ---- rolling back ----

  predicate Loaded(s: AdapterState) {
    s.LoadedPreview? || s.LoadedCapture? || s.VideoLoadedCapture? || s.LoadedReprocess? || s.LoadedReprocessCapture?
  }

  /** The command that leads one state back. */
  function UndoCommand(s: AdapterState): Option<Command> {
    match s
    case Preview => Some(StopPreview)
    case Capture => Some(StopImageCapture)
    case Reprocess => Some(StopImageCapture)
    case Bracketing => Some(StopBracketCapture)
    case Af => Some(CancelAutofocus)
    case Zoom => Some(StopSmoothZoom)
    case Video => Some(StopVideo)
    case VideoAf => Some(CancelAutofocus)
    case VideoCapture => Some(StopImageCapture)
    case AfZoom => Some(StopSmoothZoom)
    case VideoZoom => Some(StopSmoothZoom)
    case BracketingZoom => Some(StopSmoothZoom)
    case _ => None
  }

  /** How many commands away from INITIALIZED a state is. */
  function Rank(s: AdapterState): (n: nat)
    ensures n <= 3 <==> !Loaded(s)
    ensures n == 0 <==> s.Initialized?
  {
    match s
    case Initialized => 0
    case Preview => 1
    case Capture => 2 case Reprocess => 2 case Bracketing => 2 case Af => 2 case Zoom => 2 case Video => 2
    case VideoAf => 3 case VideoCapture => 3 case AfZoom => 3 case VideoZoom => 3 case BracketingZoom => 3
    case _ => 4
  }

  function StepBack(k: Core, hook: Status): (Core, Status) {
    if k.state.Initialized? then (k, NoError)
    else match UndoCommand(k.state)
      case None => (k, InvalidOperation)
      case Some(op) => Send(k, Call(op, false, hook))
  }

  /** The undo command is allowed, leads one rank down and never into a LOADED state. */
  lemma UndoLeadsDown(s: AdapterState)
    requires UndoCommand(s).Some?
    ensures var op := UndoCommand(s).value;
      && Transition(s, op).Some?
      && Rank(Transition(s, op).value) + 1 == Rank(s)
      && !Loaded(s) && !Loaded(Transition(s, op).value)
      && !NeedsBuffers(op) && !NeedsFrame(op) && !Stateless(op)
  {
  }

  lemma StepBackDescends(k: Core, hook: Status)
    requires Settled(k) && !k.state.Initialized?
    ensures var (k', r) := StepBack(k, hook);
      && Settled(k')
      && (r == NoError ==> Rank(k'.state) + 1 == Rank(k.state))
      && (r != NoError ==> k' == k)
      && (Loaded(k.state) <==> UndoCommand(k.state).None?)
      && (r == NoError ==> !Loaded(k.state) && !Loaded(k'.state))
      && (hook == NoError && !Loaded(k.state) ==> r == NoError)
      && (Loaded(k.state) ==> r == InvalidOperation)
  {
    if UndoCommand(k.state).Some? {
      var c := Call(UndoCommand(k.state).value, false, hook);
      UndoLeadsDown(k.state);
      SendSettles(k, c);
      if c.op.StopVideo? { VideoCommandsSucceed(k, c); }
      if Send(k, c).1 != NoError { RejectedMovesNothing(k, c); }
    }
  }

  /**
   * Rolling back to INITIALIZED: the resulting core, status and number of commands sent.  It takes at most three
   * commands.  From every reachable state that is not a LOADED one it ends INITIALIZED and not recording when the
   * hooks succeed; from a LOADED state it fails at once, changing nothing.
   */
  function RollBack(k: Core, hooks: nat -> Status, sent: nat): (r: (Core, Status, nat))
    requires Settled(k)
    ensures Settled(r.0)
    ensures r.1 == NoError <==> r.0.state.Initialized?
    ensures r.0.state.Initialized? ==> !r.0.recording
    ensures !Loaded(k.state) ==> sent <= r.2 <= sent + Rank(k.state) <= sent + 3
    ensures !Loaded(k.state) && (forall i :: hooks(i) == NoError) ==> r.1 == NoError && r.2 == sent + Rank(k.state)
    ensures Loaded(k.state) ==> r == (k, InvalidOperation, sent)
    decreases Rank(k.state)
  {
    if k.state.Initialized? then (k, NoError, sent)
    else
      StepBackDescends(k, hooks(sent));
      var (k', r) := StepBack(k, hooks(sent));
      if r == NoError then RollBack(k', hooks, sent + 1)
      else (k', r, if UndoCommand(k.state).Some? then sent + 1 else sent)
  }
}
