/**
 * Red and blue on the screen.  Buffers keep them in one of two byte orders, the DSS reads all of them as straight,
 * and the display manager may exchange the two colours of the whole screen.  Every colour comes out right exactly
 * when each overlay's byte order matches the manager's setting.
 */
module HwcColours {
  import opened Common
  import opened HwcLayers
  import opened HwcAllocator
  import opened HwcPicture
  import opened HwcCounting
  import opened HwcFrame
  import opened HwcAllotment

  /** Contributions whose red and blue can be exchanged. */
  datatype Colours<!P(!new)> = Colours(c: Compositor<P>, exchange: P -> P) {
    function If(b: bool, x: P): P { if b then exchange(x) else x }
    ghost predicate Undone(x: P) { exchange(exchange(x)) == x && (c.solid(exchange(x)) <==> c.solid(x)) }
    ghost predicate Distributes(x: P, y: P) { exchange(c.Over(x, y)) == c.Over(exchange(x), exchange(y)) }
    ghost predicate Lawful() {
      && c.Lawful()
      && exchange(c.clear) == c.clear
      && (forall x :: Undone(x))
      && (forall x, y :: Distributes(x, y))
    }
  }

  datatype Rgba = Rgba(red: real, green: real, blue: real, alpha: real) {
    function Red(): Pixel { Pixel(red, alpha) }
    function Green(): Pixel { Pixel(green, alpha) }
    function Blue(): Pixel { Pixel(blue, alpha) }
  }

  /** Premultiplied blending of the three colours with one coverage. */
  function RgbaOver(top: Rgba, below: Rgba): Rgba {
    var c := PremultipliedOver();
    var r, g, b := c.Over(top.Red(), below.Red()), c.Over(top.Green(), below.Green()), c.Over(top.Blue(), below.Blue());
    Rgba(r.colour, g.colour, b.colour, r.alpha)
  }

  function RedForBlue(p: Rgba): Rgba { Rgba(p.blue, p.green, p.red, p.alpha) }

  function RgbaColours(): Colours<Rgba> {
    Colours(Compositor((top: Rgba, below: Rgba) => RgbaOver(top, below), Rgba(0.0, 0.0, 0.0, 0.0), (p: Rgba) => p.alpha == 1.0),
            RedForBlue)
  }

  lemma RgbaChannels(x: Rgba, y: Rgba)
    ensures var c, o := PremultipliedOver(), RgbaOver(x, y);
      && o.Red() == c.Over(x.Red(), y.Red()) && o.Green() == c.Over(x.Green(), y.Green())
      && o.Blue() == c.Over(x.Blue(), y.Blue())
  {
  }

  lemma RgbaAssociates(x: Rgba, y: Rgba, z: Rgba)
    ensures RgbaOver(RgbaOver(x, y), z) == RgbaOver(x, RgbaOver(y, z))
  {
    var l, r := RgbaOver(RgbaOver(x, y), z), RgbaOver(x, RgbaOver(y, z));
    RgbaChannels(x, y);
    RgbaChannels(y, z);
    RgbaChannels(RgbaOver(x, y), z);
    RgbaChannels(x, RgbaOver(y, z));
    assert l.Red() == r.Red() by { PremultipliedOverAssociates(x.Red(), y.Red(), z.Red()); }
    assert l.Green() == r.Green() by { PremultipliedOverAssociates(x.Green(), y.Green(), z.Green()); }
    assert l.Blue() == r.Blue() by { PremultipliedOverAssociates(x.Blue(), y.Blue(), z.Blue()); }
  }

  lemma RgbaExchanges(x: Rgba, y: Rgba)
    ensures RedForBlue(RgbaOver(x, y)) == RgbaOver(RedForBlue(x), RedForBlue(y))
  {
  }

  /** Premultiplied blending of real colours, with red and blue exchanged, satisfies the laws. */
  lemma RgbaIsLawful()
    ensures RgbaColours().Lawful()
  {
    var e := RgbaColours();
    forall x, y, z ensures e.c.Associates(x, y, z) { RgbaAssociates(x, y, z); }
    forall x, y ensures e.Distributes(x, y) { RgbaExchanges(x, y); }
  }

  lemma Undo<P(!new)>(e: Colours<P>, x: P)
    requires e.Lawful()
    ensures e.exchange(e.exchange(x)) == x
  {
    assert e.Undone(x);
  }

  // ---- what is read, and what is seen ----

  /**
   * What the DSS reads from a buffer that holds x.  The display driver prepares the conversion of video formats for
   * the manager's setting.
   */
  function Read<P(!new)>(e: Colours<P>, o: ByteOrder, swap: bool, x: P): P {
    e.If(o == Exchanged || (o == Video && swap), x)
  }

  /** What is read from the layers' buffers. */
  function ReadShot<P(!new)>(e: Colours<P>, swap: bool, ls: seq<Layer>, shot: Shot<P>): (r: Shot<P>)
    requires |shot| == |ls|
    ensures |r| == |ls|
  {
    seq(|ls|, i requires 0 <= i < |ls| =>
      if shot[i].Some? then Some(Read(e, LayerOrder(ls[i]), swap, shot[i].value)) else None)
  }

  /** The framebuffer is in the order of the display's own format. */
  function FramebufferOrder(s: Settings): ByteOrder { if s.fbBgr then Exchanged else Straight }

  /** What SGX leaves in the framebuffer; without SGX nothing is drawn. */
  function Drawn<P(!new)>(e: Colours<P>, p: Plan, hints: seq<bool>, shot: Shot<P>): P
    requires |p.internal.marks| == |hints| == |shot|
  {
    if p.frame.useSgx then FbContent(e.c, p.internal.marks, hints, shot) else e.c.clear
  }

  /** What is seen at one position: the overlays as they are read, stacked, and exchanged if the manager does. */
  ghost function Seen<P(!new)>(e: Colours<P>, s: Settings, p: Plan, ls: seq<Layer>, hints: seq<bool>, shot: Shot<P>): P
    requires ZPermutation(p.internal.ovls) && |p.internal.marks| == |hints| == |shot| == |ls|
  {
    var swap, ovls := p.frame.swapRb, p.internal.ovls;
    var fb := Read(e, FramebufferOrder(s), swap, Drawn(e, p, hints, shot));
    e.If(swap, DssStack(e.c, ovls, fb, ReadShot(e, swap, ls, shot), |ovls|))
  }

  /** The manager's exchange applied to every contribution. */
  function EachExchanged<P(!new)>(e: Colours<P>, b: bool, shot: Shot<P>): (r: Shot<P>)
    ensures |r| == |shot|
  {
    seq(|shot|, i requires 0 <= i < |shot| => if shot[i].Some? then Some(e.If(b, shot[i].value)) else None)
  }

  /** Exchanging the finished screen is exchanging everything on it. */
  lemma {:induction false} ExchangeStack<P(!new)>(e: Colours<P>, b: bool, ovls: seq<Overlay>, fb: P, shot: Shot<P>, z: nat)
    requires e.Lawful() && ZPermutation(ovls) && z <= |ovls|
    ensures e.If(b, DssStack(e.c, ovls, fb, shot, z)) == DssStack(e.c, ovls, e.If(b, fb), EachExchanged(e, b, shot), z)
  {
    if z > 0 {
      ExchangeStack(e, b, ovls, fb, shot, z - 1);
      assert HasZ(ovls, z - 1);
      var o := ovls[ZIndex(ovls, z - 1)];
      assert e.Distributes(ShownBy(e.c, o, fb, shot), DssStack(e.c, ovls, fb, shot, z - 1));
      assert ShownBy(e.c, o, e.If(b, fb), EachExchanged(e, b, shot)) == e.If(b, ShownBy(e.c, o, fb, shot));
    }
  }

  /** What layer i looks like on the screen: itself, or with red and blue exchanged. */
  function Appears<P(!new)>(e: Colours<P>, swap: bool, ls: seq<Layer>, shot: Shot<P>, i: nat): P
    requires |shot| == |ls|
  {
    if i < |ls| then e.If(!Matches(LayerOrder(ls[i]), swap), At(e.c, shot, i)) else e.c.clear
  }

  lemma ReadAndExchanged<P(!new)>(e: Colours<P>, o: ByteOrder, swap: bool, x: P)
    requires e.Lawful()
    ensures e.If(swap, Read(e, o, swap, x)) == e.If(!Matches(o, swap), x)
  {
    Undo(e, x);
  }

  lemma LayerAppears<P(!new)>(e: Colours<P>, swap: bool, ls: seq<Layer>, shot: Shot<P>, i: nat)
    requires e.Lawful() && |shot| == |ls|
    ensures At(e.c, EachExchanged(e, swap, ReadShot(e, swap, ls, shot)), i) == Appears(e, swap, ls, shot, i)
  {
    if i < |ls| && shot[i].Some? {
      ReadAndExchanged(e, LayerOrder(ls[i]), swap, shot[i].value);
    }
  }

  // ---- when the screen looks as painted ----

  /** The overlays of a frame: the framebuffer, if SGX draws, and one for each marked layer. */
  ghost predicate ShowsMarked(ovls: seq<Overlay>, marks: seq<Mark>) {
    && (forall k :: 0 <= k < |ovls| ==> OfMarked(ovls[k], marks))
    && (forall i :: 0 <= i < |marks| && marks[i].ByDss? ==> HasLayer(ovls, i))
    && (forall j, k :: 0 <= j < k < |ovls| && ovls[j].src.FromLayer? ==> ovls[j].src != ovls[k].src)
  }

  predicate OfMarked(o: Overlay, marks: seq<Mark>) {
    o.src.Framebuffer? || (o.src.FromLayer? && o.src.i < |marks| && marks[o.src.i].ByDss?)
  }

  ghost predicate HasLayer(ovls: seq<Overlay>, i: nat) { exists k :: 0 <= k < |ovls| && ovls[k].src == FromLayer(i) }

  lemma FinishKeepsSources(f: Frame, st: Alloc, k: nat)
    requires k < |st.ovls| && (f.useSgx ==> st.ovls[0].src == Framebuffer)
    ensures |Finish(f, st).ovls| == |st.ovls| && Finish(f, st).ovls[k].src == st.ovls[k].src
  {
  }

  /** The sources the loop hands out: the framebuffer's, then the chosen layers'. */
  ghost predicate SourcesAre(ovls: seq<Overlay>, sgx: nat, c: seq<nat>) {
    && |ovls| == sgx + |c|
    && forall k :: 0 <= k < |ovls| ==> ovls[k].src == if k < sgx then Framebuffer else FromLayer(c[k - sgx])
  }

  lemma AllocationSources(f: Frame, ls: seq<Layer>)
    ensures |Allocate(f, ls).marks| == |ls|
    ensures SourcesAre(Allocate(f, ls).ovls, Sgx(f), Chosen(Allocate(f, ls).marks))
  {
    AssignSources(f, ls);
    var raw, st := Assign(f, ls), Allocate(f, ls);
    forall k | 0 <= k < |raw.ovls|
      ensures |st.ovls| == |raw.ovls| && st.ovls[k].src == raw.ovls[k].src
    {
      FinishKeepsSources(f, raw, k);
    }
  }

  lemma ChosenSourcesShow(ovls: seq<Overlay>, sgx: nat, marks: seq<Mark>)
    requires SourcesAre(ovls, sgx, Chosen(marks))
    ensures ShowsMarked(ovls, marks)
  {
    var c := Chosen(marks);
    ChosenAreMarked(marks);
    forall i | 0 <= i < |marks| && marks[i].ByDss?
      ensures HasLayer(ovls, i)
    {
      var j :| 0 <= j < |c| && c[j] == i;
      assert ovls[j + sgx].src == FromLayer(i);
    }
  }

  lemma AllocationShowsMarked(f: Frame, ls: seq<Layer>)
    ensures |Allocate(f, ls).marks| == |ls| && ShowsMarked(Allocate(f, ls).ovls, Allocate(f, ls).marks)
  {
    AllocationSources(f, ls);
    ChosenSourcesShow(Allocate(f, ls).ovls, Sgx(f), Allocate(f, ls).marks);
  }

  lemma {:induction false} StackCongruent<P(!new)>(c: Compositor<P>, ovls: seq<Overlay>, fb: P, s1: Shot<P>, s2: Shot<P>, z: nat)
    requires ZPermutation(ovls) && z <= |ovls|
    requires forall k :: 0 <= k < |ovls| ==> ShownBy(c, ovls[k], fb, s1) == ShownBy(c, ovls[k], fb, s2)
    ensures DssStack(c, ovls, fb, s1, z) == DssStack(c, ovls, fb, s2, z)
  {
    if z > 0 {
      StackCongruent(c, ovls, fb, s1, s2, z - 1);
      assert HasZ(ovls, z - 1);
    }
  }

  /** A stack in which only overlay k contributes shows just that. */
  lemma {:induction false} StackOfOne<P(!new)>(c: Compositor<P>, ovls: seq<Overlay>, fb: P, shot: Shot<P>, k: nat, z: nat)
    requires c.Lawful() && ZPermutation(ovls) && z <= |ovls| && k < |ovls|
    requires forall j :: 0 <= j < |ovls| && j != k ==> ShownBy(c, ovls[j], fb, shot) == c.clear
    ensures DssStack(c, ovls, fb, shot, z) == if ovls[k].zorder < z then ShownBy(c, ovls[k], fb, shot) else c.clear
  {
    if z > 0 {
      StackOfOne(c, ovls, fb, shot, k, z - 1);
      ZIndexIs(ovls, k);
      Unital(c, ShownBy(c, ovls[k], fb, shot));
      Unital(c, c.clear);
    }
  }

  /** Every overlay's byte order matches the manager's setting. */
  ghost predicate OrdersMatch(p: Plan, ls: seq<Layer>)
    requires |p.internal.marks| == |ls|
  {
    forall i :: 0 <= i < |ls| && p.internal.marks[i].ByDss? ==> Matches(LayerOrder(ls[i]), p.frame.swapRb)
  }

  /** A prepared frame: what the colours need to know of it. */
  ghost predicate Prepared(s: Settings, p: Plan, ls: seq<Layer>) {
    && ZPermutation(p.internal.ovls) && |p.internal.marks| == |ls|
    && ShowsMarked(p.internal.ovls, p.internal.marks)
    && (p.frame.useSgx ==> p.frame.swapRb == s.fbBgr)
  }

  /** The exchange reaches every contribution, and leaves the framebuffer as it was drawn. */
  lemma SeenIs<P(!new)>(e: Colours<P>, s: Settings, p: Plan, ls: seq<Layer>, hints: seq<bool>, shot: Shot<P>)
    requires e.Lawful() && Prepared(s, p, ls) && |hints| == |shot| == |ls|
    ensures var swap, ovls := p.frame.swapRb, p.internal.ovls;
      Seen(e, s, p, ls, hints, shot)
      == DssStack(e.c, ovls, Drawn(e, p, hints, shot), EachExchanged(e, swap, ReadShot(e, swap, ls, shot)), |ovls|)
  {
    var swap, ovls, fb := p.frame.swapRb, p.internal.ovls, Drawn(e, p, hints, shot);
    ExchangeStack(e, swap, ovls, Read(e, FramebufferOrder(s), swap, fb), ReadShot(e, swap, ls, shot), |ovls|);
    ReadAndExchanged(e, FramebufferOrder(s), swap, fb);
  }

  /** With matching orders the colours change nothing. */
  lemma MatchingIsFaithful<P(!new)>(e: Colours<P>, s: Settings, p: Plan, ls: seq<Layer>, hints: seq<bool>, shot: Shot<P>)
    requires e.Lawful() && Prepared(s, p, ls) && |hints| == |shot| == |ls| && OrdersMatch(p, ls)
    ensures Seen(e, s, p, ls, hints, shot) == Screen(e.c, p.frame, p.internal, hints, shot)
  {
    var swap, ovls, fb := p.frame.swapRb, p.internal.ovls, Drawn(e, p, hints, shot);
    var seen := EachExchanged(e, swap, ReadShot(e, swap, ls, shot));
    SeenIs(e, s, p, ls, hints, shot);
    forall k | 0 <= k < |ovls|
      ensures ShownBy(e.c, ovls[k], fb, seen) == ShownBy(e.c, ovls[k], fb, shot)
    {
      assert OfMarked(ovls[k], p.internal.marks);
      if ovls[k].src.FromLayer? {
        LayerAppears(e, swap, ls, shot, ovls[k].src.i);
      }
    }
    StackCongruent(e.c, ovls, fb, seen, shot, |ovls|);
  }

  /** A framebuffer into which nothing is drawn stays clear. */
  lemma {:induction false} NothingDrawn<P(!new)>(c: Compositor<P>, marks: seq<Mark>, hints: seq<bool>, i: nat, px: P)
    requires c.Lawful() && |hints| == |marks| && (i < |marks| ==> marks[i].ByDss?)
    ensures FbContent(c, marks, hints, Only(|marks|, i, px)) == c.clear
  {
    if marks != [] {
      var n := |marks| - 1;
      assert Only(|marks|, i, px)[..n] == Only(n, i, px);
      NothingDrawn(c, marks[..n], hints[..n], i, px);
      Unital(c, c.clear);
    }
  }

  /** A layer whose order does not match is seen with red and blue exchanged. */
  lemma MismatchIsSeen<P(!new)>(e: Colours<P>, s: Settings, p: Plan, ls: seq<Layer>, hints: seq<bool>, i: nat, px: P)
    requires e.Lawful() && Prepared(s, p, ls) && |hints| == |ls| && i < |ls|
    requires p.internal.marks[i].ByDss? && !Matches(LayerOrder(ls[i]), p.frame.swapRb)
    ensures Seen(e, s, p, ls, hints, Only(|ls|, i, px)) == e.exchange(px)
  {
    var shot: Shot<P> := Only(|ls|, i, px);
    var swap, ovls, fb := p.frame.swapRb, p.internal.ovls, Drawn(e, p, hints, shot);
    var seen := EachExchanged(e, swap, ReadShot(e, swap, ls, shot));
    SeenIs(e, s, p, ls, hints, shot);
    NothingDrawn(e.c, p.internal.marks, hints, i, px);
    assert HasLayer(ovls, i);
    var k :| 0 <= k < |ovls| && ovls[k].src == FromLayer(i);
    forall j | 0 <= j < |ovls| && j != k
      ensures ShownBy(e.c, ovls[j], fb, seen) == e.c.clear
    {
      assert OfMarked(ovls[j], p.internal.marks);
    }
    LayerAppears(e, swap, ls, shot, i);
    StackOfOne(e.c, ovls, fb, seen, k, |ovls|);
  }

  /** What is seen is, everywhere and for any content and hints, the layers painted in list order in their colours. */
  ghost predicate ShowsColours<P(!new)>(e: Colours<P>, s: Settings, p: Plan, ls: seq<Layer>)
    requires ZPermutation(p.internal.ovls) && |p.internal.marks| == |ls|
  {
    forall hints: seq<bool>, shot: Shot<P> :: Covers(p.internal.marks, hints) && Shows(e.c, ls, shot) ==>
      Seen(e, s, p, ls, hints, shot) == Paint(e.c, shot)
  }

  lemma OnlyShows<P(!new)>(e: Colours<P>, ls: seq<Layer>, marks: seq<Mark>, i: nat, px: P)
    requires e.c.Lawful() && e.c.solid(px) && i < |ls| == |marks|
    ensures Shows(e.c, ls, Only(|ls|, i, px)) && Covers(marks, seq(|ls|, _ => true)) && Paint(e.c, Only(|ls|, i, px)) == px
  {
    PaintOnly(e.c, |ls|, i, px);
  }

  lemma ColoursNeedMatch<P(!new)>(e: Colours<P>, px: P, s: Settings, p: Plan, ls: seq<Layer>)
    requires e.Lawful() && Prepared(s, p, ls) && e.c.solid(px) && e.exchange(px) != px
    requires ShowsColours(e, s, p, ls)
    ensures OrdersMatch(p, ls)
  {
    forall i | 0 <= i < |ls| && p.internal.marks[i].ByDss?
      ensures Matches(LayerOrder(ls[i]), p.frame.swapRb)
    {
      if !Matches(LayerOrder(ls[i]), p.frame.swapRb) {
        OnlyShows(e, ls, p.internal.marks, i, px);
        MismatchIsSeen(e, s, p, ls, seq(|ls|, _ => true), i, px);
        assert false;
      }
    }
  }

  /** While orders match, the colours are right exactly when the picture is. */
  lemma MatchingShowsBoth<P(!new)>(e: Colours<P>, s: Settings, p: Plan, ls: seq<Layer>)
    requires e.Lawful() && Prepared(s, p, ls) && OrdersMatch(p, ls)
    ensures ShowsColours(e, s, p, ls) <==> ShowsList(e.c, p.frame, p.internal, ls)
  {
    forall hints: seq<bool>, shot: Shot<P> | Covers(p.internal.marks, hints) && Shows(e.c, ls, shot)
      ensures Seen(e, s, p, ls, hints, shot) == Screen(e.c, p.frame, p.internal, hints, shot)
    {
      MatchingIsFaithful(e, s, p, ls, hints, shot);
    }
  }

  /** The check for consistent byte orders is what makes them match. */
  lemma {:induction false} RgbOrderMatches(s: Settings, ls: seq<Layer>, hdmi: Hdmi)
    requires Decide(s, Stats(ls).dockable).maxHw >= 0 && s.rgbOrder
    ensures MarkedMatch(Prepare(s, ls, hdmi), ls)
  {
    var p := Prepare(s, ls, hdmi);
    AllocationShowsMarked(p.frame, ls);
    forall i | 0 <= i < |ls| && p.internal.marks[i].ByDss?
      ensures Matches(LayerOrder(ls[i]), p.frame.swapRb)
    {
      OverlayExactlyWhen(s, ls, hdmi, i);
      MarkedIsAllowed(s, p, ls, i);
    }
  }

  lemma MarkedIsAllowed(s: Settings, p: Plan, ls: seq<Layer>, i: nat)
    requires i < |ls| && OverlayWhen(s, ls, p, i) && p.internal.marks[i].ByDss?
    ensures Allowed(s, p.decision.current, p.frame.useSgx, p.frame.swapRb, ls[i])
  {
  }

  ghost predicate MarkedMatch(p: Plan, ls: seq<Layer>) { |p.internal.marks| == |ls| && OrdersMatch(p, ls) }

  /** A layer the frame's own test lets through although a TV cannot show its byte order. */
  predicate DroppedOnTv(s: Settings, d: Decision, ls: seq<Layer>) {
    !s.rgbOrder && s.onTv && d.current.enabled && SomeExchanged(ls)
  }

  ghost predicate ColoursWhen<P(!new)>(e: Colours<P>, s: Settings, p: Plan, ls: seq<Layer>) {
    && Prepared(s, p, ls)
    && (ShowsColours(e, s, p, ls) <==>
        OrdersMatch(p, ls) &&
        (p.frame.useSgx || (TotalMem(ls) < MAX_TILER_SLOT && !DroppedOnTv(s, p.decision, ls))))
    && (s.rgbOrder ==> OrdersMatch(p, ls))
  }

  /**
   * A prepared frame shows its list in its colours exactly when it shows its list and every overlay's byte order
   * matches the manager's setting; the check for consistent byte orders always makes them match.
   */
  lemma {:induction false} FrameShowsColours<P(!new)>(e: Colours<P>, px: P, s: Settings, ls: seq<Layer>, hdmi: Hdmi)
    requires e.Lawful() && Reserved(s) && Decide(s, Stats(ls).dockable).maxHw >= 0
    requires e.c.solid(px) && e.exchange(px) != px
    ensures ColoursWhen(e, s, Prepare(s, ls, hdmi), ls)
  {
    var p := Prepare(s, ls, hdmi);
    FrameShowsList(e.c, px, s, ls, hdmi);
    AllocationShowsMarked(p.frame, ls);
    SwapFollows(s, ls, hdmi);
    ExchangedIsBgr(ls);
    if s.rgbOrder { RgbOrderMatches(s, ls, hdmi); }
    if ShowsColours(e, s, p, ls) { ColoursNeedMatch(e, px, s, p, ls); }
    if OrdersMatch(p, ls) { MatchingShowsBoth(e, s, p, ls); }
  }
}
