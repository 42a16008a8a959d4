/**
  The capture/display loop of the live detector (`main` and
  `scale_frame_to_max_width`): downscale each frame to the maximum width,
  forward every Nth frame to the worker's pending slot, and show the
  worker's latest annotated frame, or the current scaled frame while there
  is none.
 */
module CaptureLoop {
  import opened Wrappers
  import opened InferenceWorker
  import opened Arith

  /**
    An image: a frame as read from the source, or the output of
    `cv2.resize` on another image (kept symbolic: pixels are not modelled).
   */
  datatype Image = Captured(index: nat, width: int, height: int)
                 | Resized(original: Image, width: int, height: int)

  /** Python's `int(x)` on a float: truncation toward zero. */
  function Trunc(x: real): (r: int)
    ensures x >= 0.0 ==> r as real <= x < r as real + 1.0
    ensures x < 0.0 ==> r as real - 1.0 < x <= r as real
  {
    if x >= 0.0 then x.Floor else -((-x).Floor)
  }

  /**
    The arithmetic of `scale_frame_to_max_width`: frames no wider than
    `maxW` pass through; wider ones are resized by `scale = maxW / w` on
    both sides. Whether the source gets that far is `Scale`.
   */
  function ScaleFrame(img: Image, maxW: int): (r: Image)
    requires img.width <= maxW || img.width != 0
    ensures img.width <= maxW ==> r == img
  {
    if img.width <= maxW then img
    else
      var scale := maxW as real / img.width as real;
      Resized(img, Trunc(img.width as real * scale), Trunc(img.height as real * scale))
  }

  /**
    `scale_frame_to_max_width` with its failures: `None` when `maxW / w`
    raises `ZeroDivisionError`, and when the target size has a side of 0
    or less, which `cv2.resize` rejects.
   */
  function Scale(img: Image, maxW: int): (r: Option<Image>)
    ensures img.width <= maxW ==> r == Some(img)
  {
    if img.width <= maxW then Some(img)
    else if img.width == 0 then None
    else
      var scaled := ScaleFrame(img, maxW);
      if scaled.width <= 0 || scaled.height <= 0 then None else Some(scaled)
  }

  /**
    Scaling fails exactly when the frame is wider than the maximum and
    either the maximum is not positive or `h * maxW / w` is under one row.
   */
  lemma ScaleFailsExactly(img: Image, maxW: int)
    ensures Scale(img, maxW).None? <==> img.width > maxW && (maxW <= 0 || img.height * maxW < img.width)
  {
    var w, h := img.width, img.height;
    if w > maxW && w != 0 {
      ScaledWidth(img, maxW);
      if maxW > 0 {
        var r := ScaleFrame(img, maxW);
        if h >= 0 {
          ScaledHeight(img, maxW);
          if r.height >= 1 {
            MulMono(1, r.height, w);
          }
        } else {
          assert r.height == Trunc(h as real * (maxW as real / w as real));
          assert maxW as real / w as real > 0.0;
          assert h as real * (maxW as real / w as real) < 0.0;
          assert h * maxW < 0 by {
            MulMono(h, -1, maxW);
          }
        }
      }
    }
  }

  /**
    A frame wider than a non-negative maximum comes out exactly `maxW`
    wide, and its height keeps the aspect ratio up to truncation:
    `newH * w <= h * maxW < (newH + 1) * w`.
   */
  lemma ScaleKeepsAspect(img: Image, maxW: int)
    requires maxW >= 0 && img.width > maxW && img.height >= 0
    ensures var r := ScaleFrame(img, maxW);
            r.Resized? && r.original == img && r.width == maxW
            && r.height * img.width <= img.height * maxW < (r.height + 1) * img.width
            && 0 <= r.height <= img.height
  {
    ScaledWidth(img, maxW);
    ScaledHeight(img, maxW);
  }

  /** `int(w * (maxW / w))` is exactly `maxW`. */
  lemma ScaledWidth(img: Image, maxW: int)
    requires img.width > maxW && img.width != 0
    ensures var r := ScaleFrame(img, maxW);
            r.Resized? && r.original == img && r.width == maxW
  {
    var w := img.width;
    assert w as real * (maxW as real / w as real) == maxW as real;
    assert (maxW as real).Floor == maxW;
    assert (-maxW as real).Floor == -maxW;
  }

  /** The height of a downscaled frame, in integer terms. */
  lemma ScaledHeight(img: Image, maxW: int)
    requires maxW >= 0 && img.width > maxW && img.height >= 0
    ensures var r := ScaleFrame(img, maxW);
            r.height * img.width <= img.height * maxW < (r.height + 1) * img.width
            && 0 <= r.height <= img.height
  {
    var w, h := img.width, img.height;
    var r := ScaleFrame(img, maxW);
    assert r.height == Trunc(h as real * (maxW as real / w as real));
    HeightBounds(h, w, maxW, r.height);
  }

  /** `int(h * (maxW / w))` is the floor of `h * maxW / w`. */
  lemma HeightBounds(h: nat, w: int, maxW: nat, nh: int)
    requires w > maxW && nh == Trunc(h as real * (maxW as real / w as real))
    ensures nh * w <= h * maxW < (nh + 1) * w && 0 <= nh <= h
  {
    var y := h as real * (maxW as real / w as real);
    assert y == (h * maxW) as real / w as real;
    assert 0.0 <= y;
    assert nh as real <= y < nh as real + 1.0;
    FloorBounds(nh, h * maxW, w, y);
    if h > 0 {
      MulMono(maxW, w, h);
    }
    if nh > h {
      MulMono(h + 1, nh, w);
    }
  }

  /** From `nh <= x / w < nh + 1` over the reals to the same bounds over the integers. */
  lemma FloorBounds(nh: int, x: int, w: int, y: real)
    requires w > 0 && y == x as real / w as real
    requires nh as real <= y < nh as real + 1.0
    ensures nh * w <= x < (nh + 1) * w
  {
    var wr := w as real;
    var lo, hi := nh as real, nh as real + 1.0;
    assert y * wr == x as real;
    calc {
      (nh * w) as real;
    ==
      lo * wr;
    <= { RealMulMono(lo, y, wr); }
      y * wr;
    }
    calc {
      y * wr;
    < { RealMulStrict(y, hi, wr); }
      hi * wr;
    ==
      ((nh + 1) * w) as real;
    }
  }

  lemma RealMulMono(a: real, b: real, c: real)
    requires a <= b && c > 0.0
    ensures a * c <= b * c
  {
    assert b * c - a * c == (b - a) * c;
  }

  lemma RealMulStrict(a: real, b: real, c: real)
    requires a < b && c > 0.0
    ensures a * c < b * c
  {
    assert b * c - a * c == (b - a) * c;
  }

  /** Frame number `k` (counting from 1) goes to the worker when `k % skip == 0`. */
  predicate Forwards(k: nat, skip: int)
    requires skip != 0
  {
    k % skip == 0
  }

  /** The numbers of the frames, among the first `n`, that go to the worker. */
  function ForwardedFrames(n: nat, skip: int): (ks: seq<nat>)
    requires skip != 0
    ensures forall i :: 0 <= i < |ks| ==> 1 <= ks[i] <= n && Forwards(ks[i], skip)
  {
    if n == 0 then [] else ForwardedFrames(n - 1, skip) + if Forwards(n, skip) then [n] else []
  }

  /** Every frame number the rule selects is in the list: nothing is skipped that should go. */
  lemma {:induction false} ForwardedFramesComplete(n: nat, skip: int, k: nat)
    requires skip != 0 && 1 <= k <= n && Forwards(k, skip)
    ensures k in ForwardedFrames(n, skip)
  {
    if k < n {
      ForwardedFramesComplete(n - 1, skip, k);
    }
  }

  /** With `skip = N > 0`, exactly `n / N` of the first `n` frames go to the worker. */
  lemma {:induction false} ForwardedCount(n: nat, skip: int)
    requires skip > 0
    ensures |ForwardedFrames(n, skip)| == n / skip
  {
    if n > 0 {
      ForwardedCount(n - 1, skip);
      DivStep(n, skip);
    }
  }

  lemma DivStep(n: nat, d: int)
    requires d > 0 && n > 0
    ensures n / d == (n - 1) / d + if n % d == 0 then 1 else 0
  {
    var q, r := (n - 1) / d, (n - 1) % d;
    if r == d - 1 {
      assert n == (q + 1) * d + 0;
      DivUnique(n, d, q + 1, 0);
    } else {
      assert n == q * d + (r + 1);
      DivUnique(n, d, q, r + 1);
    }
  }

  /** With N = 3, of nine frames the worker gets frames 3, 6 and 9. */
  lemma EveryThirdFrame()
    ensures ForwardedFrames(9, 3) == [3, 6, 9]
  {
    assert ForwardedFrames(3, 3) == [3];
    assert ForwardedFrames(6, 3) == [3, 6];
  }

  /** Every frame of `source` passed through `Scale`, in order. */
  function ScaleAll(source: seq<Image>, maxW: int): (scaled: seq<Option<Image>>)
    ensures |scaled| == |source|
  {
    if source == [] then [] else ScaleAll(source[..|source| - 1], maxW) + [Scale(source[|source| - 1], maxW)]
  }

  /** The `k`-th scaled frame is the `k`-th source frame, scaled. */
  lemma {:induction false} ScaleAllAt(source: seq<Image>, maxW: int, k: nat)
    requires k < |source|
    ensures ScaleAll(source, maxW)[k] == Scale(source[k], maxW)
    decreases |source|
  {
    if k < |source| - 1 {
      var front := source[..|source| - 1];
      ScaleAllAt(front, maxW, k);
      assert front[k] == source[k];
    }
  }

  /** The frame on screen: the worker's latest annotated frame, or the current scaled frame. */
  function ToShow(annotated: Option<Image>, scaled: Image): (shown: Image)
    ensures annotated.Some? ==> shown == annotated.value
    ensures annotated.None? ==> shown == scaled
  {
    annotated.GetOr(scaled)
  }

  /** Every frame shown so far is the one `ToShow` picks for the source frame at the same position. */
  predicate ShowsScaled(shown: seq<Image>, annotated: Option<Image>, source: seq<Image>, maxW: int)
    requires |shown| <= |source|
  {
    var scaled := ScaleAll(source, maxW);
    forall k :: 0 <= k < |shown| ==> scaled[k].Some? && shown[k] == ToShow(annotated, scaled[k].value)
  }

  /** Showing the next frame's choice keeps `ShowsScaled`. */
  lemma ShowsScaledNext(shown: seq<Image>, annotated: Option<Image>, source: seq<Image>, maxW: int)
    requires |shown| < |source| && Scale(source[|shown|], maxW).Some?
    requires ShowsScaled(shown, annotated, source, maxW)
    ensures ShowsScaled(shown + [ToShow(annotated, Scale(source[|shown|], maxW).value)], annotated, source, maxW)
  {
    ScaleAllAt(source, maxW, |shown|);
  }

  /**
    Counts one frame and hands it to the worker when the frame-skip rule
    selects it. With `skip == 0` the `%` raises `ZeroDivisionError`
    (`crashed`), after the counter was incremented and before any handover.
   */
  method Forward(worker: Worker<Image>, scaled: Image, count: nat, skip: int) returns (newCount: nat, sent: bool, crashed: bool)
    modifies worker`pending
    ensures newCount == count + 1
    ensures crashed <==> skip == 0
    ensures sent <==> !crashed && Forwards(newCount, skip)
    ensures worker.pending == if sent then Some(scaled) else old(worker.pending)
  {
    newCount := count + 1;
    if skip == 0 {
      return newCount, false, true;
    }
    crashed := false;
    sent := newCount % skip == 0;
    if sent {
      worker.UpdateFrame(scaled);
    }
  }

  /**
    The worker's pending slot after the first `n` frames: the scaled copy
    of the last frame forwarded, or what it held before when none was.
   */
  predicate HoldsLastForwarded(pending: Option<Image>, initial: Option<Image>, source: seq<Image>, maxW: int, n: nat, skip: int)
    requires skip != 0 && n <= |source|
  {
    var ks := ForwardedFrames(n, skip);
    if ks == [] then pending == initial else pending == ScaleAll(source, maxW)[ks[|ks| - 1] - 1]
  }

  /** Handing frame `n + 1` over when the rule selects it keeps `HoldsLastForwarded`. */
  lemma HoldsLastForwardedNext(pending: Option<Image>, initial: Option<Image>, source: seq<Image>, maxW: int, n: nat, skip: int)
    requires skip != 0 && n < |source|
    requires HoldsLastForwarded(pending, initial, source, maxW, n, skip)
    ensures HoldsLastForwarded(if Forwards(n + 1, skip) then Scale(source[n], maxW) else pending,
                               initial, source, maxW, n + 1, skip)
  {
    var ks := ForwardedFrames(n + 1, skip);
    if Forwards(n + 1, skip) {
      ScaleAllAt(source, maxW, n);
      assert ks == ForwardedFrames(n, skip) + [n + 1];
      assert ks[|ks| - 1] - 1 == n;
    } else {
      assert ks == ForwardedFrames(n, skip);
    }
  }

  /** How the capture loop ended. */
  datatype Exit = SourceEnded | Quit | ZeroSkip | ResizeFailed

  /**
    One pass of the `while True` loop of `main` on a frame that was read:
    scale it (a failure ends the loop before the frame is counted), count
    it and hand it over by the frame-skip rule, then, when display is on,
    show the worker's annotated frame or the scaled one and read the quit
    key. `ended` says how the loop ends here, if it does.
   */
  method CaptureFrame(worker: Worker<Image>, frame: Image, count: nat, maxW: int, skip: int, show: bool, quitKey: bool)
    returns (newCount: nat, display: Option<Image>, ended: Option<Exit>)
    modifies worker`pending
    ensures Scale(frame, maxW).None? ==>
              newCount == count && display.None? && ended == Some(ResizeFailed) && worker.pending == old(worker.pending)
    ensures Scale(frame, maxW).Some? ==> newCount == count + 1
    ensures Scale(frame, maxW).Some? && skip == 0 ==>
              display.None? && ended == Some(ZeroSkip) && worker.pending == old(worker.pending)
    ensures Scale(frame, maxW).Some? && skip != 0 ==>
              worker.pending == (if Forwards(newCount, skip) then Scale(frame, maxW) else old(worker.pending))
              && display == (if show then Some(ToShow(worker.annotated, Scale(frame, maxW).value)) else None)
              && ended == (if show && quitKey then Some(Quit) else None)
  {
    var scaled := Scale(frame, maxW);
    if scaled.None? {
      return count, None, Some(ResizeFailed);
    }
    var forwarded, crashed;
    newCount, forwarded, crashed := Forward(worker, scaled.value, count, skip);
    display, ended := None, None;
    if crashed {
      ended := Some(ZeroSkip);
      return;
    }
    var annotated := worker.GetAnnotated();
    if show {
      display := Some(ToShow(annotated, scaled.value));
      if quitKey {
        ended := Some(Quit);
      }
    }
  }

  /**
    How the loop over `source` can have ended after counting `frameCount`
    frames: every counted frame could be scaled and no frame before the
    last one counted saw the quit key; then either the source ran out, or
    the last frame counted saw the quit key, or the next frame could not
    be scaled, or the first frame met `--skip-frames 0`.
   */
  predicate LoopEnded(source: seq<Image>, maxW: int, skip: int, show: bool, quitKey: nat -> bool, frameCount: nat, exit: Exit) {
    frameCount <= |source|
    && (forall k :: 0 <= k < frameCount ==> ScaleAll(source, maxW)[k].Some?)
    && (forall k :: 0 <= k < frameCount - 1 ==> !(show && quitKey(k)))
    && (exit == SourceEnded ==> frameCount == |source|)
    && (exit == ResizeFailed ==> frameCount < |source| && ScaleAll(source, maxW)[frameCount].None?)
    && (exit == ZeroSkip <==> skip == 0 && frameCount > 0)
    && (exit == ZeroSkip ==> frameCount == 1)
    && (exit == Quit ==> show && frameCount > 0 && quitKey(frameCount - 1))
    && ((exit == SourceEnded || exit == ResizeFailed) && frameCount > 0 ==> !(show && quitKey(frameCount - 1)))
  }

  /** The loop ends at frame `i` with `exit`, as `CaptureFrame` reports it. */
  lemma EndsAtFrame(source: seq<Image>, maxW: int, skip: int, show: bool, quitKey: nat -> bool, i: nat, count: nat, exit: Exit)
    requires i < |source|
    requires forall k :: 0 <= k < i ==> ScaleAll(source, maxW)[k].Some?
    requires forall k :: 0 <= k < i ==> !(show && quitKey(k))
    requires skip == 0 ==> i == 0
    requires Scale(source[i], maxW).None? ==> count == i && exit == ResizeFailed
    requires Scale(source[i], maxW).Some? ==> count == i + 1
    requires Scale(source[i], maxW).Some? && skip == 0 ==> exit == ZeroSkip
    requires Scale(source[i], maxW).Some? && skip != 0 ==> exit == Quit && show && quitKey(i)
    ensures LoopEnded(source, maxW, skip, show, quitKey, count, exit)
  {
    ScaleAllAt(source, maxW, i);
  }

  /**
    The loop's state after `n` frames were counted without it ending:
    each of them was scaled and passed over the quit key, the pending slot
    holds the last one forwarded, and the frames shown are the `ToShow`
    choices.
   */
  predicate Running(pending: Option<Image>, initial: Option<Image>, annotated: Option<Image>, source: seq<Image>, maxW: int,
                    skip: int, show: bool, quitKey: nat -> bool, n: nat, shown: seq<Image>)
  {
    n <= |source|
    && (forall k :: 0 <= k < n ==> ScaleAll(source, maxW)[k].Some?)
    && (forall k :: 0 <= k < n ==> !(show && quitKey(k)))
    && (skip == 0 ==> n == 0 && pending == initial)
    && (skip != 0 ==> HoldsLastForwarded(pending, initial, source, maxW, n, skip))
    && |shown| == (if show then n else 0)
    && ShowsScaled(shown, annotated, source, maxW)
  }

  /** A frame that is scaled, forwarded by the rule and not quit on keeps the loop `Running`. */
  lemma RunsOn(before: Option<Image>, after: Option<Image>, initial: Option<Image>, annotated: Option<Image>,
               source: seq<Image>, maxW: int, skip: int, show: bool, quitKey: nat -> bool, n: nat, shown: seq<Image>,
               count: nat, shown': seq<Image>)
    requires n < |source| && Running(before, initial, annotated, source, maxW, skip, show, quitKey, n, shown)
    requires Scale(source[n], maxW).Some? && skip != 0 && !(show && quitKey(n)) && count == n + 1
    requires after == if Forwards(n + 1, skip) then Scale(source[n], maxW) else before
    requires shown' == if show then shown + [ToShow(annotated, Scale(source[n], maxW).value)] else shown
    ensures Running(after, initial, annotated, source, maxW, skip, show, quitKey, count, shown')
  {
    ScaleAllAt(source, maxW, n);
    HoldsLastForwardedNext(before, initial, source, maxW, n, skip);
    if show {
      ShowsScaledNext(shown, annotated, source, maxW);
    }
  }

  /**
    A frame that ends the loop leaves it in the state `Capture` promises:
    the pending slot and the frames shown are those of the frames counted.
   */
  lemma StopsAt(before: Option<Image>, after: Option<Image>, initial: Option<Image>, annotated: Option<Image>,
                source: seq<Image>, maxW: int, skip: int, show: bool, quitKey: nat -> bool, n: nat, shown: seq<Image>,
                count: nat, shown': seq<Image>, exit: Exit)
    requires n < |source| && Running(before, initial, annotated, source, maxW, skip, show, quitKey, n, shown)
    requires Scale(source[n], maxW).None? ==> count == n && exit == ResizeFailed && after == before && shown' == shown
    requires Scale(source[n], maxW).Some? ==> count == n + 1
    requires Scale(source[n], maxW).Some? && skip == 0 ==> exit == ZeroSkip && after == before && shown' == shown
    requires Scale(source[n], maxW).Some? && skip != 0 ==>
               exit == Quit && show && quitKey(n)
               && after == (if Forwards(n + 1, skip) then Scale(source[n], maxW) else before)
               && shown' == shown + [ToShow(annotated, Scale(source[n], maxW).value)]
    ensures LoopEnded(source, maxW, skip, show, quitKey, count, exit)
    ensures skip == 0 ==> after == initial
    ensures skip != 0 ==> HoldsLastForwarded(after, initial, source, maxW, count, skip)
    ensures |shown'| == if show && exit != ZeroSkip then count else 0
    ensures ShowsScaled(shown', annotated, source, maxW)
  {
    EndsAtFrame(source, maxW, skip, show, quitKey, n, count, exit);
    if Scale(source[n], maxW).Some? && skip != 0 {
      HoldsLastForwardedNext(before, initial, source, maxW, n, skip);
      ShowsScaledNext(shown, annotated, source, maxW);
    }
  }

  /** One pass of the loop on frame `n`: it either keeps the loop `Running` or ends it. */
  method CaptureNext(worker: Worker<Image>, ghost initial: Option<Image>, source: seq<Image>, maxW: int, skip: int, show: bool,
                     quitKey: nat -> bool, n: nat, shown: seq<Image>)
    returns (count: nat, shown': seq<Image>, ended: Option<Exit>)
    requires n < |source| && Running(worker.pending, initial, worker.annotated, source, maxW, skip, show, quitKey, n, shown)
    modifies worker`pending
    ensures ended.None? ==> count == n + 1
                            && Running(worker.pending, initial, worker.annotated, source, maxW, skip, show, quitKey, count, shown')
    ensures ended.Some? ==> LoopEnded(source, maxW, skip, show, quitKey, count, ended.value)
    ensures ended.Some? && skip == 0 ==> worker.pending == initial
    ensures ended.Some? && skip != 0 ==> HoldsLastForwarded(worker.pending, initial, source, maxW, count, skip)
    ensures ended.Some? ==> |shown'| == if show && ended.value != ZeroSkip then count else 0
    ensures ended.Some? ==> ShowsScaled(shown', worker.annotated, source, maxW)
  {
    ghost var before := worker.pending;
    var display;
    count, display, ended := CaptureFrame(worker, source[n], n, maxW, skip, show, quitKey(n));
    shown' := if display.Some? then shown + [display.value] else shown;
    if ended.None? {
      RunsOn(before, worker.pending, initial, worker.annotated, source, maxW, skip, show, quitKey, n, shown, count, shown');
    } else {
      StopsAt(before, worker.pending, initial, worker.annotated, source, maxW, skip, show, quitKey, n, shown, count, shown', ended.value);
    }
  }

  /**
    The body of `main` from the first `cap.read()` to the `finally`
    block: each frame is scaled, every Nth goes to the worker's pending
    slot, and when display is on the frame to show is chosen and the key
    checked. `quitKey(k)` says whether `q` was pressed while frame `k`
    (from 0) was on screen. The loop ends at the end of the source, on the
    quit key, when a frame cannot be scaled, or on the first frame with
    `--skip-frames 0`; the `finally` block then asks the worker to stop.
   */
  method Capture(worker: Worker<Image>, source: seq<Image>, maxW: int, skip: int, show: bool, quitKey: nat -> bool)
    returns (frameCount: nat, shown: seq<Image>, exit: Exit)
    modifies worker`pending, worker`stopRequested
    ensures LoopEnded(source, maxW, skip, show, quitKey, frameCount, exit)
    ensures skip == 0 ==> worker.pending == old(worker.pending)
    ensures skip != 0 ==> HoldsLastForwarded(worker.pending, old(worker.pending), source, maxW, frameCount, skip)
    ensures |shown| == if show && exit != ZeroSkip then frameCount else 0
    ensures ShowsScaled(shown, worker.annotated, source, maxW)
    ensures worker.stopRequested
  {
    frameCount, shown, exit := 0, [], SourceEnded;
    ghost var initial := worker.pending;
    while frameCount < |source|
      invariant Running(worker.pending, initial, worker.annotated, source, maxW, skip, show, quitKey, frameCount, shown)
    {
      var ended;
      frameCount, shown, ended := CaptureNext(worker, initial, source, maxW, skip, show, quitKey, frameCount, shown);
      if ended.Some? {
        exit := ended.value;
        worker.Stop();
        return;
      }
    }
    worker.Stop();
  }
}
