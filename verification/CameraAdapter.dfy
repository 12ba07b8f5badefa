/**
 * The camera adapter as a class: the state lock, the two-phase commands and the buffer count maps are updated
 * in place, and every method is proved against `CameraStates` and `CameraBuffers`.
 */
module CameraAdapter {
  import opened Common
  import opened CameraStates
  import opened CameraBuffers

  /** Buffers for preview; the first `queueable` go to the camera, the rest stay with their provider. */
  datatype Descriptor = Descriptor(buffers: seq<Buffer>, queueable: nat) {
    ghost predicate Valid() {
      queueable <= |buffers| && forall i, j :: 0 <= i < j < |buffers| ==> buffers[i] != buffers[j]
    }
  }

  /** Initial preview counts of a descriptor's first n buffers. */
  function Registered(d: Descriptor, n: nat): map<Buffer, int>
    requires n <= |d.buffers|
  {
    if n == 0 then map[] else Registered(d, n - 1)[d.buffers[n - 1] := if n - 1 < d.queueable then 0 else 1]
  }

  ghost predicate NoneNegative(m: map<Buffer, int>) { forall b :: b in m ==> m[b] >= 0 }

  lemma {:induction false} RegisteredNotNegative(d: Descriptor, n: nat)
    requires n <= |d.buffers|
    ensures NoneNegative(Registered(d, n))
  {
    if n > 0 { RegisteredNotNegative(d, n - 1); }
  }

  /** The holders' view of a descriptor's first n buffers: with the camera, or out with their provider. */
  function Placed(d: Descriptor, n: nat): map<Buffer, Place>
    requires n <= |d.buffers|
  {
    if n == 0 then map[] else Placed(d, n - 1)[d.buffers[n - 1] := if n - 1 < d.queueable then WithCamera else Out(1, 0)]
  }

  /** Registering buffers makes counts and holders agree, so every run from then on keeps them so. */
  lemma {:induction false} RegistrationAgrees(d: Descriptor, n: nat, filled: multiset<Buffer>)
    requires n <= |d.buffers|
    ensures Agrees(Counts(false, Registered(d, n), map[], filled), Ledger(false, Placed(d, n)))
  {
    if n > 0 {
      RegistrationAgrees(d, n - 1, filled);
      var c, l := Counts(false, Registered(d, n - 1), map[], filled), Ledger(false, Placed(d, n - 1));
      forall b | b in Placed(d, n)
        ensures PlaceIs(Counts(false, Registered(d, n), map[], filled), Placed(d, n)[b], b)
      {
        if b != d.buffers[n - 1] { assert PlaceIs(c, l.places[b], b); }
      }
    }
  }

  /** Each buffer of a descriptor is where the number of queueable ones says. */
  lemma {:induction false} PlacedWhere(d: Descriptor, n: nat, i: nat)
    requires d.Valid() && i < n <= |d.buffers|
    ensures d.buffers[i] in Placed(d, n) && Placed(d, n)[d.buffers[i]] == if i < d.queueable then WithCamera else Out(1, 0)
  {
    if i < n - 1 { PlacedWhere(d, n - 1, i); }
  }

  lemma SomeMemberOrEmpty(s: set<Buffer>)
    ensures s == {} || exists b :: b in s
  {
    if forall b :: b !in s { assert s == {}; }
  }

  /** The next buffer of a walk over a count map's keys; the walk's order does not matter. */
  method Pick(s: set<Buffer>) returns (b: Buffer)
    requires s != {}
    ensures b in s
  {
    SomeMemberOrEmpty(s);
    b :| b in s;
  }

  lemma OneMoreZero(m: map<Buffer, int>, s: set<Buffer>, b: Buffer)
    ensures (m + Zeroes(s))[b := 0] == m + Zeroes(s + {b})
  {
  }

  class Adapter {
    var adapterState: AdapterState
    var nextState: AdapterState
    var recording: bool
    var locked: bool
    ghost var acquired: nat // times the state lock was taken
    ghost var released: nat // and given back
    var preview: map<Buffer, int>
    var video: map<Buffer, int>
    ghost var filled: multiset<Buffer> // buffers handed to the camera

    ghost function CoreNow(): Core
      reads this
    {
      Core(adapterState, nextState, recording)
    }

    ghost function CountsNow(): Counts
      reads this
    {
      Counts(recording, preview, video, filled)
    }

    /** The state lock is free and every taking of it was matched. */
    ghost predicate Free()
      reads this
    {
      !locked && acquired == released
    }

    ghost predicate Valid()
      reads this
    {
      && Free()
      && Settled(CoreNow())
      && video.Keys == (if recording then preview.Keys else {})
    }

    /** No count is negative. */
    ghost predicate NonNegative()
      reads this
    {
      NoneNegative(preview) && NoneNegative(video)
    }

    constructor ()
      ensures Valid() && NonNegative() && adapterState == Initialized && !recording && preview == map[] && filled == multiset{}
    {
      adapterState, nextState, recording := Initialized, Initialized, false;
      locked, acquired, released := false, 0, 0;
      preview, video, filled := map[], map[], multiset{};
    }

    // ---- frames ----

    method GetFrameRefCount(b: Buffer, k: Kind) returns (n: int)
      ensures n == Get(CountsNow(), b, k)
    {
      match k {
        case PreviewFrame => n := if b in preview then preview[b] else 0;
        case VideoFrame => n := if b in video then video[b] else 0;
      }
    }

    method SetFrameRefCount(b: Buffer, k: Kind, n: int)
      modifies this`preview, this`video
      ensures CountsNow() == Put(old(CountsNow()), b, k, n)
    {
      match k {
        case PreviewFrame => if b in preview { preview := preview[b := n]; }
        case VideoFrame => if b in video { video := video[b := n]; }
      }
    }

    /** A delivered frame starts with one count per subscriber of each kind in its mask. */
    method SetInitFrameRefCount(b: Buffer, withVideo: bool, previews: nat, videos: nat)
      modifies this`preview, this`video
      ensures CountsNow() == Deliver(old(CountsNow()), b, previews, withVideo, videos)
      ensures old(Valid() && NonNegative()) ==> Valid() && NonNegative()
    {
      SetFrameRefCount(b, PreviewFrame, previews);
      if withVideo {
        SetFrameRefCount(b, VideoFrame, videos);
      }
    }

    /** A holder returns a frame; the camera refills the buffer when nobody holds it any more. */
    method ReturnFrame(b: Buffer, k: Kind)
      modifies this`preview, this`video, this`filled
      ensures CountsNow() == Return(old(CountsNow()), b, k)
      ensures old(Valid() && NonNegative()) ==> Valid() && NonNegative()
    {
      ReturnKeepsCounts(CountsNow(), b, k);
      TakeBack(b, k);
    }

    lemma ReturnKeepsCounts(c: Counts, b: Buffer, k: Kind)
      ensures var d := Return(c, b, k);
        && d.preview.Keys == c.preview.Keys && d.video.Keys == c.video.Keys
        && (NoneNegative(c.preview) && NoneNegative(c.video) ==> NoneNegative(d.preview) && NoneNegative(d.video))
    {
    }

    method TakeBack(b: Buffer, k: Kind)
      modifies this`preview, this`video, this`filled
      ensures CountsNow() == Return(old(CountsNow()), b, k)
    {
      var refCount := GetFrameRefCount(b, k);
      if refCount <= 0 {
        return;
      }
      refCount := refCount - 1;
      SetFrameRefCount(b, k, refCount);
      if recording {
        var other := GetFrameRefCount(b, OtherKind(k));
        refCount := refCount + other;
      }
      if refCount == 0 {
        filled := filled + multiset{b};
      }
    }

    method StartVideoCapture() returns (ret: Status)
      modifies this`recording, this`video
      ensures ret == (if old(recording) then NoInit else NoError)
      ensures CountsNow() == if old(recording) then old(CountsNow()) else BeginRecording(old(CountsNow()))
    {
      if recording {
        return NoInit;
      }
      var left := preview.Keys;
      ghost var done: set<Buffer> := {};
      while left != {}
        invariant left + done == preview.Keys
        invariant video == old(video) + Zeroes(done)
      {
        var b := Pick(left);
        OneMoreZero(old(video), done, b);
        video := video[b := 0];
        left := left - {b};
        done := done + {b};
      }
      recording := true;
      return NoError;
    }

    /** What stopping has given back to the camera once the buffers in `done` were visited. */
    ghost function FilledSoFar(c: Counts, done: set<Buffer>): multiset<Buffer> {
      c.filled + multiset(set b | b in done && b in HeldOnceByVideo(c))
    }

    /** Gives back what the encoder still holds of one buffer. */
    method WriteOff(b: Buffer, ghost c: Counts, ghost done: set<Buffer>)
      requires recording && b in video && b !in done && c.video.Keys == video.Keys
      requires preview == c.preview && preview.Keys == video.Keys && preview[b] >= 0 && video[b] == c.video[b]
      requires filled == FilledSoFar(c, done)
      modifies this`preview, this`video, this`filled
      ensures preview == c.preview && video.Keys == c.video.Keys && filled == FilledSoFar(c, done + {b})
      ensures forall x :: x in video && x != b ==> video[x] == old(video)[x]
    {
      var n := GetFrameRefCount(b, VideoFrame);
      if n > 0 {
        ReturnFrame(b, VideoFrame);
      }
      VisitOne(c, done, b);
    }

    method WriteOffAll()
      requires recording && video.Keys == preview.Keys && NoneNegative(preview)
      modifies this`preview, this`video, this`filled
      ensures preview == old(preview) && filled == old(filled) + multiset(HeldOnceByVideo(old(CountsNow())))
    {
      ghost var c := CountsNow();
      var left := video.Keys;
      ghost var done: set<Buffer> := {};
      while left != {}
        invariant preview == c.preview && video.Keys == c.video.Keys == left + done && left !! done
        invariant forall b :: b in left ==> video[b] == c.video[b]
        invariant filled == FilledSoFar(c, done)
      {
        var b := Pick(left);
        WriteOff(b, c, done);
        left := left - {b};
        done := done + {b};
      }
      AllVisited(c, done);
    }

    method StopVideoCapture() returns (ret: Status)
      requires recording ==> video.Keys == preview.Keys && NoneNegative(preview)
      modifies this`recording, this`preview, this`video, this`filled
      ensures ret == (if old(recording) then NoError else NoInit)
      ensures CountsNow() == if old(recording) then EndRecording(old(CountsNow())) else old(CountsNow())
    {
      if !recording {
        return NoInit;
      }
      WriteOffAll();
      video := map[];
      recording := false;
      return NoError;
    }

    lemma VisitOne(c: Counts, done: set<Buffer>, b: Buffer)
      requires b !in done && b in c.video
      ensures FilledSoFar(c, done + {b}) ==
              FilledSoFar(c, done) + (if c.video[b] == 1 && CountOf(c.preview, b) == 0 then multiset{b} else multiset{})
    {
      var was := set x | x in done && x in HeldOnceByVideo(c);
      var now := set x | x in done + {b} && x in HeldOnceByVideo(c);
      assert now == if b in HeldOnceByVideo(c) then was + {b} else was;
    }

    lemma AllVisited(c: Counts, done: set<Buffer>)
      requires done == c.video.Keys
      ensures FilledSoFar(c, done) == c.filled + multiset(HeldOnceByVideo(c))
    {
      assert (set b | b in done && b in HeldOnceByVideo(c)) == HeldOnceByVideo(c);
    }

    // ---- state transactions ----

    method Lock()
      requires !locked
      modifies this`locked, this`acquired
      ensures locked && acquired == old(acquired) + 1
    {
      locked := true;
      acquired := acquired + 1;
    }

    method Unlock()
      requires locked
      modifies this`locked, this`released
      ensures !locked && released == old(released) + 1
    {
      locked := false;
      released := released + 1;
    }

    /** Takes the lock and looks the command up; the lock stays taken even when the table rejects it. */
    method SetState(c: Call) returns (ret: Status)
      requires !locked
      modifies this`locked, this`acquired, this`nextState
      ensures locked && acquired == old(acquired) + 1
      ensures CoreNow() == Begun(old(CoreNow()), c)
      ensures ret == if Accepted(old(CoreNow()), c) then NoError else InvalidOperation
    {
      Lock();
      match Transition(adapterState, c.op) {
        case Some(s) => nextState := s; ret := NoError;
        case None => ret := InvalidOperation;
      }
    }

    method CommitState()
      requires locked
      modifies this`locked, this`released, this`adapterState
      ensures !locked && released == old(released) + 1 && adapterState == nextState
    {
      adapterState := nextState;
      Unlock();
    }

    method RollbackState()
      requires locked
      modifies this`locked, this`released, this`nextState
      ensures !locked && released == old(released) + 1 && nextState == adapterState
    {
      nextState := adapterState;
      Unlock();
    }

    /** Registers the preview buffers' initial counts. */
    method RegisterPreview(d: Descriptor)
      requires d.Valid()
      modifies this`preview
      ensures preview == Registered(d, |d.buffers|)
      ensures !recording && video == map[] ==> Agrees(CountsNow(), Ledger(false, Placed(d, |d.buffers|)))
    {
      preview := map[];
      for i := 0 to d.queueable
        invariant preview == Registered(d, i)
      {
        preview := preview[d.buffers[i] := 0];
      }
      for i := d.queueable to |d.buffers|
        invariant preview == Registered(d, i)
      {
        preview := preview[d.buffers[i] := 1];
      }
      RegistrationAgrees(d, |d.buffers|, filled);
    }

    /** What a command does to the buffer counts. */
    ghost function CountsAfterCommand(k: Core, n: Counts, c: Call, d: Descriptor): Counts
      requires d.Valid()
    {
      if !Transactional(c) || !Accepted(k, c) then n
      else if c.op.UseBuffersPreview? then n.(preview := Registered(d, |d.buffers|))
      else if c.op.StartVideo? && !n.recording then BeginRecording(n)
      else if c.op.StopVideo? && n.recording then EndRecording(n)
      else n
    }

    /** The command's own work while the lock is held; `accepted` is the status of SetState. */
    method DoWork(c: Call, d: Descriptor, accepted: Status, ghost k: Core) returns (ret: Status)
      requires d.Valid() && Transactional(c)
      requires accepted == (if Accepted(k, c) then NoError else InvalidOperation) && k.recording == recording
      requires recording ==> video.Keys == preview.Keys && NoneNegative(preview)
      modifies this`recording, this`preview, this`video, this`filled
      ensures (ret, recording) == Work(k, c)
      ensures CountsNow() == CountsAfterCommand(k, old(CountsNow()), c, d)
    {
      ret := accepted;
      if c.op.UseBuffersPreview? {
        if ret == NoError {
          RegisterPreview(d);
        }
        ret := c.hook;
      } else if RunsHookRegardless(c.op) {
        ret := c.hook;
      } else if ret == NoError {
        match c.op {
          case StartVideo => ret := StartVideoCapture();
          case StopVideo => ret := StopVideoCapture();
          case QueryResolutionPreview => ret := if c.argPresent then c.hook else BadArgument;
          case QueryBufferSizeImageCapture => ret := if c.argPresent then c.hook else BadArgument;
          case QueryBufferSizePreviewData => ret := if c.argPresent then c.hook else BadArgument;
          case _ => ret := c.hook;
        }
      }
    }

    /** Looks the command up, does its work and ends the transaction one way or the other. */
    method Transact(c: Call, d: Descriptor) returns (ret: Status)
      requires Valid() && NonNegative() && d.Valid() && Transactional(c)
      modifies this
      ensures Free()
      ensures (CoreNow(), ret) == Send(old(CoreNow()), c)
      ensures acquired == old(acquired) + 1 && released == old(released) + 1
      ensures CountsNow() == CountsAfterCommand(old(CoreNow()), old(CountsNow()), c, d)
    {
      ghost var k := CoreNow();
      ret := SetState(c);
      ret := DoWork(c, d, ret, k);
      if ret == NoError {
        CommitState();
      } else {
        RollbackState();
      }
    }

    /**
     * One command: the state machine makes exactly the specified move, a transactional command takes and gives
     * back the state lock once, any other not at all, and buffer counts change only as stated.
     */
    method SendCommand(c: Call, d: Descriptor) returns (ret: Status)
      requires Valid() && NonNegative() && d.Valid()
      modifies this
      ensures Valid()
      ensures (CoreNow(), ret) == Send(old(CoreNow()), c)
      ensures acquired == old(acquired) + (if Transactional(c) then 1 else 0)
      ensures released == old(released) + (if Transactional(c) then 1 else 0)
      ensures CountsNow() == CountsAfterCommand(old(CoreNow()), old(CountsNow()), c, d)
      ensures NonNegative()
    {
      ghost var k := CoreNow();
      SendSettles(k, c);
      if NeedsBuffers(c.op) && !c.argPresent {
        return BadArgument;
      }
      if c.op.Unsupported? {
        return NoError;
      }
      if Stateless(c.op) {
        return c.hook;
      }
      ret := Transact(c, d);
      KeysFollow(k, c);
      CommandKeepsCounts(k, old(CountsNow()), c, d);
    }

    lemma CommandKeepsCounts(k: Core, n: Counts, c: Call, d: Descriptor)
      requires d.Valid() && NoneNegative(n.preview) && NoneNegative(n.video)
      ensures var m := CountsAfterCommand(k, n, c, d); NoneNegative(m.preview) && NoneNegative(m.video)
    {
      RegisteredNotNegative(d, |d.buffers|);
    }

    lemma KeysFollow(k: Core, c: Call)
      requires Settled(k)
      ensures Accepted(k, c) && c.op.UseBuffersPreview? ==> !k.recording
      ensures Accepted(k, c) && c.op.StartVideo? ==> !k.recording
      ensures Accepted(k, c) && c.op.StopVideo? ==> k.recording
    {
      if Accepted(k, c) { TransitionsKeepVideo(k.state, c.op); }
    }

    // ---- rolling back ----

    method RollbackToPreviousState(hook: Status, d: Descriptor) returns (ret: Status)
      requires Valid() && NonNegative() && d.Valid()
      modifies this
      ensures Valid() && NonNegative()
      ensures (CoreNow(), ret) == StepBack(old(CoreNow()), hook)
    {
      if adapterState.Initialized? {
        return NoError;
      }
      match UndoCommand(adapterState) {
        case None => ret := InvalidOperation;
        case Some(op) =>
          UndoLeadsDown(adapterState);
          ret := SendCommand(Call(op, false, hook), d);
      }
    }

    /** Undoes one state after the other until INITIALIZED or an error; `hooks` answers the commands in order. */
    method RollbackToInitializedState(hooks: nat -> Status, d: Descriptor) returns (ret: Status, ghost sent: nat)
      requires Valid() && NonNegative() && d.Valid()
      modifies this
      ensures Valid()
      ensures (CoreNow(), ret, sent) == RollBack(old(CoreNow()), hooks, 0)
    {
      ret := NoError;
      sent := 0;
      var i := 0;
      while adapterState != Initialized && ret == NoError
        invariant Valid() && NonNegative()
        invariant ret == NoError ==> sent == i && RollBack(old(CoreNow()), hooks, 0) == RollBack(CoreNow(), hooks, sent)
        invariant ret != NoError ==> RollBack(old(CoreNow()), hooks, 0) == (CoreNow(), ret, sent)
        decreases Rank(adapterState), ret == NoError
      {
        StepBackDescends(CoreNow(), hooks(i));
        if UndoCommand(adapterState).Some? {
          sent := sent + 1;
        }
        ret := RollbackToPreviousState(hooks(i), d);
        i := i + 1;
      }
    }
  }
}
