/** Who holds a buffer, counted from the deliveries and returns of a run alone. */
module CameraHolders {
  import opened CameraBuffers

  /** Holders of a kind that the last delivery named, less the frames returned since; stopping writes the encoder's off. */
  function Holding(start: Place, es: seq<Event>, b: Buffer, k: Kind): nat {
    if es == [] then Holders(start, k)
    else
      var was, e := Holding(start, es[..|es| - 1], b, k), es[|es| - 1];
      match e
      case DeliverFrame(x, previews, videos) => if x != b then was else if k == VideoFrame then videos else previews
      case ReturnFrame(x, kind) => if x == b && kind == k && was > 0 then was - 1 else was
      case StopRecording => if k == VideoFrame then 0 else was
      case _ => was
  }

  function Holders(p: Place, k: Kind): nat {
    match p
    case WithCamera => 0
    case Out(previews, videos) => if k == PreviewFrame then previews else videos
  }

  /** Every buffer's place is that of its holders. */
  lemma {:induction false} PlacesHold(l: Ledger, es: seq<Event>, b: Buffer, k: Kind)
    requires LegalRun(l, es) && b in l.places
    ensures b in LedgerAfter(l, es).places && Holders(LedgerAfter(l, es).places[b], k) == Holding(l.places[b], es, b, k)
  {
    if es != [] {
      var front, e := es[..|es| - 1], es[|es| - 1];
      PlacesHold(l, front, b, k);
      StepHolds(LedgerAfter(l, front), e, b, k);
    }
  }

  lemma StepHolds(l: Ledger, e: Event, b: Buffer, k: Kind)
    requires Legal(l, e) && b in l.places
    ensures b in Step(l, e).places
    ensures var was := Holders(l.places[b], k);
      Holders(Step(l, e).places[b], k) ==
      match e
      case DeliverFrame(x, previews, videos) => if x != b then was else if k == VideoFrame then videos else previews
      case ReturnFrame(x, kind) => if x == b && kind == k && was > 0 then was - 1 else was
      case StopRecording => if k == VideoFrame then 0 else was
      case _ => was
  {
  }

  /** The adapter's counts are the holders read off the run, for every buffer and kind. */
  lemma CountsAreHolders(c: Counts, l: Ledger, es: seq<Event>, b: Buffer, k: Kind)
    requires Agrees(c, l) && LegalRun(l, es) && b in l.places
    ensures Get(CountsAfter(c, es), b, k) == Holding(l.places[b], es, b, k)
  {
    RunsAgree(c, l, es);
    PlacesHold(l, es, b, k);
    assert PlaceIs(CountsAfter(c, es), LedgerAfter(l, es).places[b], b);
  }

  /**
   * One more return after any run: the buffer is given to the camera exactly when this was the last frame of it held
   * by anyone, and never on a surplus return.
   */
  lemma FilledByLastReturn(c: Counts, l: Ledger, es: seq<Event>, b: Buffer, k: Kind)
    requires Agrees(c, l) && LegalRun(l, es) && b in l.places
    ensures var n, m := Holding(l.places[b], es, b, k), Holding(l.places[b], es, b, OtherKind(k));
      CountsAfter(c, es + [ReturnFrame(b, k)]).filled
      == CountsAfter(c, es).filled + if n == 1 && m == 0 then multiset{b} else multiset{}
  {
    var e := ReturnFrame(b, k);
    assert (es + [e])[..|es|] == es;
    RunsAgree(c, l, es);
    PlacesHold(l, es, b, k);
    PlacesHold(l, es, b, OtherKind(k));
    ReturnedBuffer(CountsAfter(c, es), LedgerAfter(l, es), b, k);
    GivenBackToCamera(LedgerAfter(l, es).places[b], k);
  }

  lemma GivenBackToCamera(p: Place, k: Kind)
    ensures p.Out? && GivenBack(p, k).WithCamera? <==> Holders(p, k) == 1 && Holders(p, OtherKind(k)) == 0
  {
  }
}
