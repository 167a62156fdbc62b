/**
  The frame differencer of ud.cxx (HasBitmapChanged): a one-slot state
  machine that keeps the last accepted screen capture and decides whether
  the latest capture differs from it.  The header queries (GetDIBits with
  no buffer) can fail independently on each call; their outcome is an input.
*/
module Differencer {
  import opened Wrappers

  /** The bitmap description GetDIBits reports (the whole BITMAPINFO):
      width, height, bits per pixel, compression, image size, and `rest`,
      the remaining bytes (planes, resolution, colour counts and the first
      colour entry).  Two headers are equal when every byte is equal. */
  datatype Header = Header(width: nat, height: int, bitCount: nat, compression: nat, sizeImage: nat, rest: seq<int>)

  /** A captured bitmap: its header and the 32-bit RGB pixel values it
      reads out as, row after row. */
  datatype Frame = Frame(header: Header, bits: seq<int>)

  /** Did the header query for the retained frame and for the latest frame succeed? */
  datatype Queries = Queries(priorOk: bool, latestOk: bool)

  /** The answer of one call and the frame retained afterwards. */
  datatype Observation = Observation(changed: bool, retained: Frame)

  function Abs(x: int): nat {
    if x < 0 then -x else x
  }

  /** The number of pixels compared: width times the absolute height
      (a negative height only marks a top-down bitmap). */
  function Extent(h: Header): nat {
    h.width * Abs(h.height)
  }

  /** Pixel `i` of the read-out buffer; the buffer is zero-initialised, so
      entries the read-out does not fill compare as zero. */
  function Pixel(f: Frame, i: nat): int {
    if i < |f.bits| then f.bits[i] else 0
  }

  /** Same header and the same value at every one of the Extent pixels. */
  predicate SamePicture(a: Frame, b: Frame) {
    a.header == b.header && forall i: nat :: i < Extent(a.header) ==> Pixel(a, i) == Pixel(b, i)
  }

  /** Reference behaviour of one call.  With nothing retained the latest
      frame becomes the baseline and no change is reported.  If the retained
      frame's header cannot be read, the latest frame is dropped and no change
      is reported.  Otherwise the latest frame is dropped only when its header
      was read and the two pictures are the same; in every other case (its
      header unreadable, a different header, a different pixel) a change is
      reported and the latest frame replaces the retained one. */
  function Observe(prior: Option<Frame>, latest: Frame, q: Queries): (r: Observation)
    ensures r.changed <==> prior.Some? && q.priorOk && !(q.latestOk && SamePicture(prior.value, latest))
    ensures r.changed ==> r.retained == latest
    ensures !r.changed ==> r.retained == (if prior.Some? then prior.value else latest)
  {
    match prior
    case None => Observation(false, latest)
    case Some(p) =>
      if !q.priorOk then Observation(false, p)
      else if q.latestOk && SamePicture(p, latest) then Observation(false, p)
      else Observation(true, latest)
  }

  /** HasBitmapChanged as the source computes it: header comparison first,
      then a pixel-by-pixel scan that stops at the first difference. */
  method HasBitmapChanged(prior: Option<Frame>, latest: Frame, q: Queries) returns (changed: bool, retained: Frame)
    ensures Observation(changed, retained) == Observe(prior, latest, q)
  {
    if prior.None? {
      return false, latest;
    }
    var hbPrior := prior.value;
    if !q.priorOk {
      return false, hbPrior;
    }
    var identical := false;
    if q.latestOk && latest.header == hbPrior.header {
      var extent := Extent(latest.header);
      identical := true;
      var x: nat := 0;
      while x < extent
        invariant x <= extent
        invariant identical
        invariant forall i: nat :: i < x ==> Pixel(hbPrior, i) == Pixel(latest, i)
      {
        if Pixel(hbPrior, x) != Pixel(latest, x) {
          identical := false;
          break;
        }
        x := x + 1;
      }
    }
    if identical {
      return false, hbPrior;
    }
    return true, latest;
  }

  /** The latest frame has no effect on a "no change" answer once a frame is retained. */
  lemma NoChangeKeepsRetained(p: Frame, latest: Frame, q: Queries)
    ensures !Observe(Some(p), latest, q).changed ==> Observe(Some(p), latest, q).retained == p
  {
  }

  /** With both header queries succeeding, a change is reported exactly when
      the pictures differ: in the header, or in some pixel within the extent. */
  lemma ChangedIffDifferent(p: Frame, latest: Frame)
    ensures Observe(Some(p), latest, Queries(true, true)).changed <==>
      (p.header != latest.header || exists i: nat :: i < Extent(p.header) && Pixel(p, i) != Pixel(latest, i))
  {
  }

  /** The two failing header queries: when the retained frame's header
      cannot be read the call answers "no change" and keeps the retained
      frame, whatever the latest frame is; when only the latest frame's
      header cannot be read the call answers "change" and adopts it. */
  lemma QueryFailures(p: Frame, latest: Frame, latestOk: bool)
    ensures Observe(Some(p), latest, Queries(false, latestOk)) == Observation(false, p)
    ensures Observe(Some(p), latest, Queries(true, false)) == Observation(true, latest)
  {
  }

  /** A change of dimensions is a change even when every compared pixel agrees. */
  lemma ResizeIsChange(p: Frame, latest: Frame)
    requires p.header.width != latest.header.width || p.header.height != latest.header.height
    ensures Observe(Some(p), latest, Queries(true, true)) == Observation(true, latest)
  {
  }

  /** Feeding a sequence of frames through the differencer: the answers and
      the frame retained at the end. */
  function ObserveAll(prior: Option<Frame>, frames: seq<Frame>, qs: seq<Queries>): (r: (seq<bool>, Option<Frame>))
    requires |qs| == |frames|
    ensures |r.0| == |frames|
    ensures frames != [] ==> r.1.Some?
    ensures frames == [] ==> r.1 == prior
    decreases |frames|
  {
    if frames == [] then ([], prior)
    else
      var o := Observe(prior, frames[0], qs[0]);
      var rest := ObserveAll(Some(o.retained), frames[1..], qs[1..]);
      ([o.changed] + rest.0, rest.1)
  }

  /** The first frame of a fresh run is never reported as a change. */
  lemma FirstFrameNeverChanged(frames: seq<Frame>, qs: seq<Queries>)
    requires |qs| == |frames| && frames != []
    ensures !ObserveAll(None, frames, qs).0[0]
    ensures ObserveAll(None, frames, qs).1.Some?
  {
  }

  /** Capturing the same picture again and again reports no change, however
      many times it is observed, and keeps the retained frame. */
  lemma {:induction false} RepeatedPictureNeverChanged(p: Frame, frames: seq<Frame>, qs: seq<Queries>)
    requires |qs| == |frames|
    requires forall k :: 0 <= k < |frames| ==> SamePicture(p, frames[k])
    requires forall k :: 0 <= k < |qs| ==> qs[k].latestOk
    ensures forall k :: 0 <= k < |frames| ==> !ObserveAll(Some(p), frames, qs).0[k]
    ensures ObserveAll(Some(p), frames, qs).1 == Some(p)
  {
    if frames != [] {
      var o := Observe(Some(p), frames[0], qs[0]);
      assert o == Observation(false, p);
      RepeatedPictureNeverChanged(p, frames[1..], qs[1..]);
      var r := ObserveAll(Some(p), frames, qs);
      var rest := ObserveAll(Some(p), frames[1..], qs[1..]);
      assert r.0 == [false] + rest.0;
      forall k | 0 <= k < |frames| ensures !r.0[k] {
        if k > 0 { assert r.0[k] == rest.0[k - 1]; }
      }
    }
  }
}
