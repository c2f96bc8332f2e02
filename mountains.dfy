/** The parallax mountain range of `BackgroundScene`: a fixed number of
    peaks that scroll left by half a pixel per frame; a peak whose right edge
    has gone past the left buffer is re-placed after the rightmost edge,
    which the scene tracks in `lastPeakEndX`. */
module Mountains {
  import opened Difficulty

  const PeakSpacing: real := -150.0
  const PeakSpacingVariance: real := 100.0
  const MinWidth: real := 400.0
  const MaxWidth: real := 800.0
  const ScrollSpeed: real := 0.5
  const BufferDistance: real := 800.0
  const SafetyPeaks: int := 3

  /** A peak's left edge and its width; the silhouette drawn inside it is
      presentation only. */
  datatype Peak = Peak(x: real, peakWidth: real)

  /** The two random draws spent on one placement: the gap to the previous
      peak and the width of the new one. */
  datatype PeakDraw = PeakDraw(spacing: real, width: real)

  predicate ValidDraws(ds: seq<PeakDraw>) {
    forall i :: 0 <= i < |ds| ==> IsUnitDraw(ds[i].spacing) && IsUnitDraw(ds[i].width)
  }

  function RightEdge(p: Peak): real {
    p.x + p.peakWidth
  }

  /** The recycle test of `update`: the right edge is left of the buffer. */
  predicate OffScreenLeft(p: Peak) {
    RightEdge(p) < -BufferDistance
  }

  /** The gap between a peak and the previous right edge. It is always
      negative, so neighbouring peaks overlap; nothing clamps it. */
  function Spacing(r: real): (s: real)
    requires IsUnitDraw(r)
    ensures PeakSpacing <= s < PeakSpacing + PeakSpacingVariance
    ensures s < 0.0
  {
    PeakSpacing + r * PeakSpacingVariance
  }

  /** `recyclePeak`, as far as placement goes: the peak starts at `startX`
      and gets a fresh width. */
  function RecyclePeak(startX: real, rWidth: real): (p: Peak)
    requires IsUnitDraw(rWidth)
    ensures p.x == startX
    ensures MinWidth <= p.peakWidth <= MaxWidth
  {
    Peak(startX, MinWidth + rWidth * (MaxWidth - MinWidth))
  }

  /** What both callers of `recyclePeak` do: start the peak one spacing
      after the tracked right edge `t`. The new peak starts at or left of
      `t` and ends well right of it. */
  function PlaceAfter(t: real, d: PeakDraw): (p: Peak)
    requires IsUnitDraw(d.spacing) && IsUnitDraw(d.width)
    ensures t + PeakSpacing <= p.x < t
    ensures t + PeakSpacing + MinWidth <= RightEdge(p) <= t + PeakSpacing + PeakSpacingVariance + MaxWidth
  {
    RecyclePeak(t + Spacing(d.spacing), d.width)
  }

  // ----- the initial count -----

  /** The least integer not below `v`. */
  function Ceil(v: real): (c: int)
    ensures c as real - 1.0 < v <= c as real
  {
    -((-v).Floor)
  }

  /** The spacing the count is based on: the average width plus the base
      spacing, but never less than half the average width. */
  function EffectiveSpacing(): (s: real)
    ensures s >= (MinWidth + MaxWidth) / 2.0 + PeakSpacing
    ensures s >= (MinWidth + MaxWidth) / 4.0
    ensures s == (MinWidth + MaxWidth) / 2.0 + PeakSpacing || s == (MinWidth + MaxWidth) / 4.0
  {
    var avgWidth := (MinWidth + MaxWidth) / 2.0;
    if avgWidth + PeakSpacing >= avgWidth * 0.5 then avgWidth + PeakSpacing else avgWidth * 0.5
  }

  /** The number of peaks `createMountains` builds for a screen
      `screenWidth` wide: just enough average spacings to span the screen and
      both buffers, plus three. */
  function PeakCount(screenWidth: real): (n: int)
    ensures (n - SafetyPeaks - 1) as real * EffectiveSpacing() < screenWidth + 2.0 * BufferDistance
    ensures screenWidth + 2.0 * BufferDistance <= (n - SafetyPeaks) as real * EffectiveSpacing()
  {
    Ceil((screenWidth + 2.0 * BufferDistance) / EffectiveSpacing()) + SafetyPeaks
  }

  lemma PeakCountSamples()
    ensures EffectiveSpacing() == 450.0
    ensures PeakCount(0.0) == 4 + SafetyPeaks
    ensures PeakCount(800.0) == 6 + SafetyPeaks
    ensures PeakCount(2560.0) == 10 + SafetyPeaks
  {
  }

  // ----- the invariant of the range -----

  predicate InPeak(p: Peak, y: real) {
    p.x <= y <= RightEdge(p)
  }

  ghost predicate CoveredAt(ps: seq<Peak>, y: real) {
    exists i :: 0 <= i < |ps| && InPeak(ps[i], y)
  }

  /** No gap: every point of (lo, hi] lies under some peak. */
  ghost predicate Covers(ps: seq<Peak>, lo: real, hi: real) {
    forall y :: lo < y <= hi ==> CoveredAt(ps, y)
  }

  /** The tracker is the rightmost right edge of all peaks. */
  ghost predicate TrackerIsMaxEnd(ps: seq<Peak>, t: real) {
    && (forall i :: 0 <= i < |ps| ==> RightEdge(ps[i]) <= t)
    && (|ps| > 0 ==> exists i :: 0 <= i < |ps| && RightEdge(ps[i]) == t)
  }

  ghost predicate RangeInvariant(ps: seq<Peak>, t: real) {
    && TrackerIsMaxEnd(ps, t)
    && Covers(ps, -BufferDistance, t)
    && forall i :: 0 <= i < |ps| ==> MinWidth <= ps[i].peakWidth <= MaxWidth
  }

  // ----- createMountains -----

  /** The peaks and tracker after `createMountains` has placed one peak per
      draw, starting from an empty range with the tracker at the left
      buffer. */
  function Chain(ds: seq<PeakDraw>): (r: (seq<Peak>, real))
    requires ValidDraws(ds)
    ensures |r.0| == |ds|
    ensures RangeInvariant(r.0, r.1)
    ensures r.1 >= -BufferDistance + (PeakSpacing + MinWidth) * |ds| as real
    decreases |ds|
  {
    if ds == [] then ([], -BufferDistance)
    else
      var n := |ds| - 1;
      var (ps, t) := Chain(ds[..n]);
      var p := PlaceAfter(t, ds[n]);
      AppendKeepsInvariant(ps, t, p);
      (ps + [p], RightEdge(p))
  }

  /** Adding a peak that starts at or left of the tracker and ends right of
      it keeps the invariant, with its right edge as the new tracker. */
  lemma AppendKeepsInvariant(ps: seq<Peak>, t: real, p: Peak)
    requires RangeInvariant(ps, t)
    requires p.x < t < RightEdge(p) && MinWidth <= p.peakWidth <= MaxWidth
    ensures RangeInvariant(ps + [p], RightEdge(p))
  {
    var qs := ps + [p];
    assert qs[|ps|] == p;
    forall y | -BufferDistance < y <= RightEdge(p) ensures CoveredAt(qs, y) {
      if y <= t {
        assert CoveredAt(ps, y);
        var i :| 0 <= i < |ps| && InPeak(ps[i], y);
        assert qs[i] == ps[i];
      } else {
        assert InPeak(qs[|ps|], y);
      }
    }
  }

  /** Peak `i` of the chain is placed one spacing after the tracker left by
      the peaks before it, and the tracker then becomes its right edge. */
  lemma {:induction false} ChainAt(ds: seq<PeakDraw>, i: nat)
    requires ValidDraws(ds) && i < |ds|
    ensures Chain(ds).0[i] == PlaceAfter(Chain(ds[..i]).1, ds[i])
    ensures Chain(ds[..i + 1]).1 == RightEdge(Chain(ds).0[i])
    decreases |ds|
  {
    var n := |ds| - 1;
    assert ds[..n][..i] == ds[..i];
    if i < n {
      assert ds[..n][..i + 1] == ds[..i + 1];
      ChainAt(ds[..n], i);
    } else {
      assert ds[..i + 1] == ds;
    }
  }

  /** Draws that give every peak the most negative spacing and the
      smallest width. */
  function ShortestDraws(n: nat): (ds: seq<PeakDraw>)
    ensures |ds| == n && ValidDraws(ds)
  {
    seq(n, _ => PeakDraw(0.0, 0.0))
  }

  /** With the shortest draws each peak advances the tracker by exactly
      PeakSpacing + MinWidth = 250, the least it can. */
  lemma {:induction false} ChainOfShortestDraws(n: nat)
    ensures Chain(ShortestDraws(n)).1 == -BufferDistance + (PeakSpacing + MinWidth) * n as real
  {
    if n > 0 {
      assert ShortestDraws(n)[..n - 1] == ShortestDraws(n - 1);
      ChainOfShortestDraws(n - 1);
    }
  }

  /** The count is sized by the average spacing, so the peaks
      `createMountains` builds need not reach the right edge of a wide
      screen: on a 2560-pixel screen the 13 peaks built from the shortest
      draws end at 2450, and the point 2500 lies under no peak. */
  lemma WideScreenRightGap()
    ensures PeakCount(2560.0) == 13
    ensures Chain(ShortestDraws(13)).1 == 2450.0
    ensures !CoveredAt(Chain(ShortestDraws(13)).0, 2500.0)
  {
    ChainOfShortestDraws(13);
  }

  // ----- update -----

  /** The first half of `update`: every peak moves left by the scroll
      speed. */
  function Scrolled(ps: seq<Peak>): (r: seq<Peak>)
    ensures |r| == |ps|
    ensures forall i :: 0 <= i < |ps| ==> r[i] == ps[i].(x := ps[i].x - ScrollSpeed)
  {
    seq(|ps|, i requires 0 <= i < |ps| => ps[i].(x := ps[i].x - ScrollSpeed))
  }

  /** Peaks and tracker after the recycle loop of `update` has visited the
      first `k` peaks, in order, each peak that is off the screen on the left
      being placed after the current tracker. Peaks not yet visited are
      untouched. */
  function RecycleUpTo(ps: seq<Peak>, t: real, ds: seq<PeakDraw>, k: nat): (r: (seq<Peak>, real))
    requires ValidDraws(ds) && |ds| == |ps| && k <= |ps|
    ensures |r.0| == |ps|
    ensures forall j :: k <= j < |ps| ==> r.0[j] == ps[j]
    decreases k
  {
    if k == 0 then (ps, t)
    else
      var (qs, t1) := RecycleUpTo(ps, t, ds, k - 1);
      if OffScreenLeft(qs[k - 1]) then
        var p := PlaceAfter(t1, ds[k - 1]);
        (qs[k - 1 := p], RightEdge(p))
      else (qs, t1)
  }

  /** One frame of `BackgroundScene.update`, with one pair of draws per
      peak (used only if that peak is recycled). */
  function Scroll(ps: seq<Peak>, t: real, ds: seq<PeakDraw>): (r: (seq<Peak>, real))
    requires ValidDraws(ds) && |ds| == |ps|
    ensures |r.0| == |ps|
  {
    RecycleUpTo(Scrolled(ps), t - ScrollSpeed, ds, |ps|)
  }

  /** Replacing a peak that lies wholly left of the buffer by one placed
      after the tracker keeps the invariant. */
  lemma ReplaceKeepsInvariant(ps: seq<Peak>, t: real, i: nat, p: Peak)
    requires RangeInvariant(ps, t)
    requires i < |ps| && OffScreenLeft(ps[i])
    requires p.x < t < RightEdge(p) && MinWidth <= p.peakWidth <= MaxWidth
    ensures RangeInvariant(ps[i := p], RightEdge(p))
  {
    var qs := ps[i := p];
    assert RightEdge(qs[i]) == RightEdge(p);
    forall y | -BufferDistance < y <= RightEdge(p) ensures CoveredAt(qs, y) {
      if y <= t {
        assert CoveredAt(ps, y);
        var j :| 0 <= j < |ps| && InPeak(ps[j], y);
        assert j != i;
        assert InPeak(qs[j], y);
      } else {
        assert InPeak(qs[i], y);
      }
    }
  }

  /** The recycle loop keeps the invariant at every step. */
  lemma {:induction false} RecycleUpToKeepsInvariant(ps: seq<Peak>, t: real, ds: seq<PeakDraw>, k: nat)
    requires ValidDraws(ds) && |ds| == |ps| && k <= |ps|
    requires RangeInvariant(ps, t)
    ensures RangeInvariant(RecycleUpTo(ps, t, ds, k).0, RecycleUpTo(ps, t, ds, k).1)
    decreases k
  {
    if k > 0 {
      RecycleUpToKeepsInvariant(ps, t, ds, k - 1);
      var (qs, t1) := RecycleUpTo(ps, t, ds, k - 1);
      if OffScreenLeft(qs[k - 1]) {
        ReplaceKeepsInvariant(qs, t1, k - 1, PlaceAfter(t1, ds[k - 1]));
      }
    }
  }

  /** Scrolling moves every edge and the tracker alike, so the invariant
      holds with the tracker moved too. */
  lemma ScrolledKeepsInvariant(ps: seq<Peak>, t: real)
    requires RangeInvariant(ps, t)
    ensures RangeInvariant(Scrolled(ps), t - ScrollSpeed)
  {
    var qs := Scrolled(ps);
    if |ps| > 0 {
      var i :| 0 <= i < |ps| && RightEdge(ps[i]) == t;
      assert RightEdge(qs[i]) == t - ScrollSpeed;
    }
    forall y | -BufferDistance < y <= t - ScrollSpeed ensures CoveredAt(qs, y) {
      assert -BufferDistance < y + ScrollSpeed <= t;
      assert CoveredAt(ps, y + ScrollSpeed);
      var i :| 0 <= i < |ps| && InPeak(ps[i], y + ScrollSpeed);
      assert InPeak(qs[i], y);
    }
  }

  /** A frame keeps the invariant: the tracker is still the rightmost edge
      and the peaks still cover (-BufferDistance, tracker] without a gap. */
  lemma ScrollKeepsInvariant(ps: seq<Peak>, t: real, ds: seq<PeakDraw>)
    requires ValidDraws(ds) && |ds| == |ps|
    requires RangeInvariant(ps, t)
    ensures RangeInvariant(Scroll(ps, t, ds).0, Scroll(ps, t, ds).1)
  {
    ScrolledKeepsInvariant(ps, t);
    RecycleUpToKeepsInvariant(Scrolled(ps), t - ScrollSpeed, ds, |ps|);
  }

  /** What the recycle loop did to peak `i`: if it was off the screen on the
      left it was placed after the tracker of that moment, and the tracker
      became its right edge; otherwise it is untouched. */
  lemma {:induction false} RecycleUpToAt(ps: seq<Peak>, t: real, ds: seq<PeakDraw>, k: nat, i: nat)
    requires ValidDraws(ds) && |ds| == |ps| && i < k <= |ps|
    ensures OffScreenLeft(ps[i]) ==>
      && RecycleUpTo(ps, t, ds, k).0[i] == PlaceAfter(RecycleUpTo(ps, t, ds, i).1, ds[i])
      && RecycleUpTo(ps, t, ds, i + 1).1 == RightEdge(RecycleUpTo(ps, t, ds, k).0[i])
    ensures !OffScreenLeft(ps[i]) ==>
      && RecycleUpTo(ps, t, ds, k).0[i] == ps[i]
      && RecycleUpTo(ps, t, ds, i + 1).1 == RecycleUpTo(ps, t, ds, i).1
    decreases k
  {
    if i < k - 1 {
      RecycleUpToAt(ps, t, ds, k - 1, i);
    }
  }

  /** Peak `i` after a frame: it moved left by exactly the scroll speed,
      unless its right edge was then past the buffer, in which case it was
      re-placed one spacing after the tracker of that moment. */
  lemma ScrollAt(ps: seq<Peak>, t: real, ds: seq<PeakDraw>, i: nat)
    requires ValidDraws(ds) && |ds| == |ps| && i < |ps|
    ensures var moved := ps[i].(x := ps[i].x - ScrollSpeed);
      && (!OffScreenLeft(moved) ==> Scroll(ps, t, ds).0[i] == moved)
      && (OffScreenLeft(moved) ==>
            Scroll(ps, t, ds).0[i] == PlaceAfter(RecycleUpTo(Scrolled(ps), t - ScrollSpeed, ds, i).1, ds[i]))
  {
    RecycleUpToAt(Scrolled(ps), t - ScrollSpeed, ds, |ps|, i);
  }

  /** A frame in which no peak crosses the buffer only moves everything
      left by the scroll speed. */
  lemma {:induction false} ScrollWithoutRecycle(ps: seq<Peak>, t: real, ds: seq<PeakDraw>, k: nat)
    requires ValidDraws(ds) && |ds| == |ps| && k <= |ps|
    requires forall j :: 0 <= j < |ps| ==> !OffScreenLeft(Scrolled(ps)[j])
    ensures RecycleUpTo(Scrolled(ps), t - ScrollSpeed, ds, k) == (Scrolled(ps), t - ScrollSpeed)
    decreases k
  {
    if k > 0 {
      ScrollWithoutRecycle(ps, t, ds, k - 1);
    }
  }

  /** The recycle test on two sample peaks: a right edge of -320 stays, a
      right edge of -810 is recycled. */
  lemma RecycleThresholdSamples()
    ensures !OffScreenLeft(Peak(-820.0, 500.0))
    ensures OffScreenLeft(Peak(-850.0, 40.0))
  {
  }

  // ----- the scene -----

  class BackgroundScene {
    var mountainPeaks: array<Peak>
    var lastPeakEndX: real

    ghost predicate Valid()
      reads this, mountainPeaks
    {
      RangeInvariant(mountainPeaks[..], lastPeakEndX)
    }

    /** `create`, as far as the mountains go. */
    constructor (screenWidth: real, draws: seq<PeakDraw>)
      requires ValidDraws(draws) && |draws| >= PeakCount(screenWidth)
      ensures Valid() && fresh(mountainPeaks)
      ensures mountainPeaks.Length == if PeakCount(screenWidth) < 0 then 0 else PeakCount(screenWidth)
      ensures (mountainPeaks[..], lastPeakEndX) == Chain(draws[..mountainPeaks.Length])
    {
      mountainPeaks := new Peak[0];
      lastPeakEndX := -BufferDistance;
      new;
      CreateMountains(screenWidth, draws);
    }

    /** `createMountains`: a fresh array of `PeakCount(screenWidth)` peaks,
        each placed one spacing after the previous right edge. Run again on
        a resize. */
    method CreateMountains(screenWidth: real, draws: seq<PeakDraw>)
      requires ValidDraws(draws) && |draws| >= PeakCount(screenWidth)
      modifies this
      ensures Valid() && fresh(mountainPeaks)
      ensures mountainPeaks.Length == if PeakCount(screenWidth) < 0 then 0 else PeakCount(screenWidth)
      ensures (mountainPeaks[..], lastPeakEndX) == Chain(draws[..mountainPeaks.Length])
    {
      lastPeakEndX := -BufferDistance;
      var count := PeakCount(screenWidth);
      var n := if count < 0 then 0 else count;
      mountainPeaks := new Peak[n];
      var i := 0;
      while i < count
        invariant 0 <= i <= n && mountainPeaks.Length == n && fresh(mountainPeaks)
        invariant (mountainPeaks[..i], lastPeakEndX) == Chain(draws[..i])
      {
        var spacing := Spacing(draws[i].spacing);
        mountainPeaks[i] := RecyclePeak(lastPeakEndX + spacing, draws[i].width);
        lastPeakEndX := mountainPeaks[i].x + mountainPeaks[i].peakWidth;
        assert draws[..i + 1][..i] == draws[..i];
        assert mountainPeaks[..i + 1] == mountainPeaks[..i] + [mountainPeaks[i]];
        i := i + 1;
      }
      assert mountainPeaks[..] == mountainPeaks[..i];
    }

    /** `update`: move every peak and the tracker left, then recycle in
        order each peak whose right edge is past the left buffer. */
    method Update(draws: seq<PeakDraw>)
      requires Valid() && ValidDraws(draws) && |draws| == mountainPeaks.Length
      modifies this`lastPeakEndX, mountainPeaks
      ensures Valid()
      ensures (mountainPeaks[..], lastPeakEndX) == Scroll(old(mountainPeaks[..]), old(lastPeakEndX), draws)
    {
      ScrollPeaks();
      RecyclePeaks(draws);
      ScrollKeepsInvariant(old(mountainPeaks[..]), old(lastPeakEndX), draws);
    }

    /** The first pass of `update`: every peak and the tracker move left. */
    method ScrollPeaks()
      modifies this`lastPeakEndX, mountainPeaks
      ensures mountainPeaks[..] == Scrolled(old(mountainPeaks[..]))
      ensures lastPeakEndX == old(lastPeakEndX) - ScrollSpeed
    {
      var i := 0;
      while i < mountainPeaks.Length
        invariant 0 <= i <= mountainPeaks.Length
        invariant mountainPeaks[..i] == Scrolled(old(mountainPeaks[..i]))
        invariant forall j :: i <= j < mountainPeaks.Length ==> mountainPeaks[j] == old(mountainPeaks[j])
        invariant lastPeakEndX == old(lastPeakEndX)
      {
        mountainPeaks[i] := mountainPeaks[i].(x := mountainPeaks[i].x - ScrollSpeed);
        i := i + 1;
      }
      lastPeakEndX := lastPeakEndX - ScrollSpeed;
      assert mountainPeaks[..] == mountainPeaks[..i];
    }

    /** The second pass of `update`: each peak in turn that is off the
        screen on the left is placed one spacing after the tracker, which
        then moves to its right edge. */
    method RecyclePeaks(draws: seq<PeakDraw>)
      requires ValidDraws(draws) && |draws| == mountainPeaks.Length
      modifies this`lastPeakEndX, mountainPeaks
      ensures (mountainPeaks[..], lastPeakEndX)
           == RecycleUpTo(old(mountainPeaks[..]), old(lastPeakEndX), draws, mountainPeaks.Length)
    {
      var i := 0;
      while i < mountainPeaks.Length
        invariant 0 <= i <= mountainPeaks.Length
        invariant (mountainPeaks[..], lastPeakEndX) == RecycleUpTo(old(mountainPeaks[..]), old(lastPeakEndX), draws, i)
      {
        var peak := mountainPeaks[i];
        if peak.x + peak.peakWidth < -BufferDistance {
          var spacing := Spacing(draws[i].spacing);
          mountainPeaks[i] := RecyclePeak(lastPeakEndX + spacing, draws[i].width);
          lastPeakEndX := mountainPeaks[i].x + mountainPeaks[i].peakWidth;
        }
        i := i + 1;
      }
    }
  }
}
