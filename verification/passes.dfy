/** One repetition of a filter over a raster: the scan of the loop range
    [0, w) x [0, h), rows top to bottom and each row left to right, where
    (w, h) is the configured size, not the raster's rectangle.

    The xor and random filters change the scanned pixel only (a "point
    pass"). The dither filters never touch the scanned pixel: each scan
    position rewrites four neighbours, each from that neighbour's own
    current value (a "kernel pass"). Each pass is a method with the loops of
    the source, proved equal to a closed form that says, pixel by pixel,
    what the pass leaves there. The pixel operation is a parameter, so this
    module is about the shape of the scan only. */
module Passes {
  import opened Pixels
  import opened Grid

  /** The new value of the pixel at (x, y), from its current value. */
  type PointFn = (Pixel, int, int) -> Pixel

  /** The new value of a kernel target, from its current value and the
      numerator k of the weight k/16. */
  type StepFn = (Pixel, int) -> Pixel

  predicate InLoop(x: int, y: int, w: int, h: int)
  {
    0 <= x < w && 0 <= y < h
  }

  /** The scan position (sx, sy) lies in the loop range and comes before the
      position (px, py) in scan order. */
  predicate Visited(sx: int, sy: int, w: int, h: int, px: int, py: int)
  {
    InLoop(sx, sy, w, h) && (sy < py || (sy == py && sx < px))
  }

  // ---------------------------------------------------------------- point passes

  /** `xor(img, x, y)` and the body of the random filter's inner loop: only
      the pixel at (x, y) changes, and only when it lies inside the raster. */
  function PointAt(img: Raster, x: int, y: int, f: PointFn): (r: Raster)
    requires img.Valid()
    ensures r.Valid() && r.rect == img.rect
    ensures forall u, v :: At(r, u, v) == (if u == x && v == y && img.rect.Contains(x, y) then f(At(img, x, y), x, y) else At(img, u, v))
  {
    Set(img, x, y, f(At(img, x, y), x, y))
  }

  /** The value a point pass has left at (x, y), starting from p, once the
      scan stands at (px, py). */
  function PointTrace(f: PointFn, p: Pixel, x: int, y: int, w: int, h: int, px: int, py: int): Pixel
  {
    if Visited(x, y, w, h, px, py) then f(p, x, y) else p
  }

  /** A whole point pass: every pixel of the loop range transformed once,
      every other pixel as it was. */
  function PointPassSpec(img: Raster, w: int, h: int, f: PointFn): (r: Raster)
    requires img.Valid()
    ensures r.Valid() && r.rect == img.rect
  {
    Tabulate(img.rect, (x, y) => if InLoop(x, y, w, h) then f(At(img, x, y), x, y) else At(img, x, y))
  }

  /** What a point pass leaves at one pixel. */
  lemma PointPassAt(img: Raster, w: int, h: int, f: PointFn, x: int, y: int)
    requires img.Valid()
    ensures At(PointPassSpec(img, w, h, f), x, y) ==
      if InLoop(x, y, w, h) && img.rect.Contains(x, y) then f(At(img, x, y), x, y) else At(img, x, y)
  {
  }

  /** The two nested loops of `XorFilter` / `RandFilter` for one repetition. */
  method PointPass(img: Raster, w: int, h: int, f: PointFn) returns (out: Raster)
    requires img.Valid()
    ensures out == PointPassSpec(img, w, h, f)
  {
    out := img;
    var y := 0;
    while y < h
      invariant 0 <= y
      invariant out.Valid() && out.rect == img.rect
      invariant forall u, v :: img.rect.Contains(u, v) ==>
        At(out, u, v) == PointTrace(f, At(img, u, v), u, v, w, h, 0, y)
    {
      var x := 0;
      while x < w
        invariant 0 <= x && y < h
        invariant out.Valid() && out.rect == img.rect
        invariant forall u, v :: img.rect.Contains(u, v) ==>
          At(out, u, v) == PointTrace(f, At(img, u, v), u, v, w, h, x, y)
      {
        out := PointAt(out, x, y, f);
        x := x + 1;
      }
      y := y + 1;
    }
    Extensionality(out, PointPassSpec(img, w, h, f));
  }

  // --------------------------------------------------------------- kernel passes

  /** `dither(img, x, y, k/16)` and `dithercolor(img, x, y, k/16)`: only the
      pixel at (x, y) changes, to the diffusion of its own value, and only
      when it lies inside the raster. */
  function DiffuseAt(img: Raster, x: int, y: int, step: StepFn, k: int): (r: Raster)
    requires img.Valid()
    ensures r.Valid() && r.rect == img.rect
    ensures forall u, v :: At(r, u, v) == (if u == x && v == y && img.rect.Contains(x, y) then step(At(img, x, y), k) else At(img, u, v))
  {
    Set(img, x, y, step(At(img, x, y), k))
  }

  /** The value a kernel pass has left at (x, y), starting from p, once the
      scan stands at (px, py). Four scan positions write to (x, y): in scan
      order (x-1, y-1) with 1/16, (x, y-1) with 5/16, (x+1, y-1) with 3/16
      and (x-1, y) with 7/16; each write diffuses the value the previous one
      left. */
  function DitherTrace(step: StepFn, p: Pixel, x: int, y: int, w: int, h: int, px: int, py: int): Pixel
  {
    var p1 := if Visited(x - 1, y - 1, w, h, px, py) then step(p, 1) else p;
    var p2 := if Visited(x, y - 1, w, h, px, py) then step(p1, 5) else p1;
    var p3 := if Visited(x + 1, y - 1, w, h, px, py) then step(p2, 3) else p2;
    if Visited(x - 1, y, w, h, px, py) then step(p3, 7) else p3
  }

  /** A whole kernel pass: each pixel ends as its own value run through the
      writes of those of its four sources that lie in the loop range. */
  function DitherPassSpec(img: Raster, w: int, h: int, step: StepFn): (r: Raster)
    requires img.Valid()
    ensures r.Valid() && r.rect == img.rect
  {
    Tabulate(img.rect, (x, y) => DitherTrace(step, At(img, x, y), x, y, w, h, 0, h))
  }

  /** Visiting scan position (x, y) adds exactly one write, on top of those
      already made, to each of its four targets, and none elsewhere. */
  lemma DitherTraceStep(step: StepFn, p: Pixel, u: int, v: int, w: int, h: int, x: int, y: int)
    requires InLoop(x, y, w, h)
    ensures DitherTrace(step, p, u, v, w, h, x + 1, y) ==
      var before := DitherTrace(step, p, u, v, w, h, x, y);
      if u == x + 1 && v == y then step(before, 7)
      else if u == x - 1 && v == y + 1 then step(before, 3)
      else if u == x && v == y + 1 then step(before, 5)
      else if u == x + 1 && v == y + 1 then step(before, 1)
      else before
  {
  }

  /** Finishing a row is the same as standing at the start of the next. */
  lemma DitherTraceRowEnd(step: StepFn, p: Pixel, u: int, v: int, w: int, h: int, x: int, y: int)
    requires 0 <= x && w <= x
    ensures DitherTrace(step, p, u, v, w, h, x, y) == DitherTrace(step, p, u, v, w, h, 0, y + 1)
  {
  }

  /** Past the last row every position of the loop range has been visited. */
  lemma DitherTraceDone(step: StepFn, p: Pixel, u: int, v: int, w: int, h: int, y: int)
    requires 0 <= y && h <= y
    ensures DitherTrace(step, p, u, v, w, h, 0, y) == DitherTrace(step, p, u, v, w, h, 0, h)
  {
  }

  /** The kernel weight (in sixteenths) a scan position gives the pixel at
      offset (dx, dy) from it, 0 for a pixel it does not write. */
  function WeightTo(dx: int, dy: int): int
  {
    if dx == 1 && dy == 0 then 7
    else if dx == -1 && dy == 1 then 3
    else if dx == 0 && dy == 1 then 5
    else if dx == 1 && dy == 1 then 1
    else 0
  }

  /** The four `dither` calls of scan position (x, y), in source order. The
      four targets are distinct, so each target inside the raster is
      diffused once from its own value with its weight, and every other
      pixel is unchanged. */
  function KernelWrites(img: Raster, x: int, y: int, step: StepFn): (r: Raster)
    requires img.Valid()
    ensures r.Valid() && r.rect == img.rect
    ensures forall u, v :: At(r, u, v) ==
              if img.rect.Contains(u, v) && WeightTo(u - x, v - y) != 0 then step(At(img, u, v), WeightTo(u - x, v - y))
              else At(img, u, v)
  {
    var o1 := DiffuseAt(img, x + 1, y, step, 7);
    var o2 := DiffuseAt(o1, x - 1, y + 1, step, 3);
    var o3 := DiffuseAt(o2, x, y + 1, step, 5);
    DiffuseAt(o3, x + 1, y + 1, step, 1)
  }

  /** If `cur` holds what the scan has left up to (x, y), the writes of
      (x, y) leave what the scan has left up to (x + 1, y). */
  lemma KernelWritesAdvance(img: Raster, cur: Raster, w: int, h: int, step: StepFn, x: int, y: int)
    requires img.Valid() && cur.Valid() && cur.rect == img.rect
    requires InLoop(x, y, w, h)
    requires forall u, v :: img.rect.Contains(u, v) ==>
      At(cur, u, v) == DitherTrace(step, At(img, u, v), u, v, w, h, x, y)
    ensures forall u, v :: img.rect.Contains(u, v) ==>
      At(KernelWrites(cur, x, y, step), u, v) == DitherTrace(step, At(img, u, v), u, v, w, h, x + 1, y)
  {
    var o1 := DiffuseAt(cur, x + 1, y, step, 7);
    var o2 := DiffuseAt(o1, x - 1, y + 1, step, 3);
    var o3 := DiffuseAt(o2, x, y + 1, step, 5);
    var o4 := DiffuseAt(o3, x + 1, y + 1, step, 1);
    assert o4 == KernelWrites(cur, x, y, step);
    forall u, v | img.rect.Contains(u, v)
      ensures At(o4, u, v) == DitherTrace(step, At(img, u, v), u, v, w, h, x + 1, y)
    {
      DitherTraceStep(step, At(img, u, v), u, v, w, h, x, y);
    }
  }

  /** The two nested loops of `DitherFilter` / `DitherFilterColor` for one
      repetition, with the four kernel writes of each scan position. */
  method DitherPass(img: Raster, w: int, h: int, step: StepFn) returns (out: Raster)
    requires img.Valid()
    ensures out == DitherPassSpec(img, w, h, step)
  {
    out := img;
    var y := 0;
    while y < h
      invariant 0 <= y
      invariant out.Valid() && out.rect == img.rect
      invariant forall u, v :: img.rect.Contains(u, v) ==>
        At(out, u, v) == DitherTrace(step, At(img, u, v), u, v, w, h, 0, y)
    {
      var x := 0;
      while x < w
        invariant 0 <= x && y < h
        invariant out.Valid() && out.rect == img.rect
        invariant forall u, v :: img.rect.Contains(u, v) ==>
          At(out, u, v) == DitherTrace(step, At(img, u, v), u, v, w, h, x, y)
      {
        KernelWritesAdvance(img, out, w, h, step, x, y);
        out := KernelWrites(out, x, y, step);
        x := x + 1;
      }
      forall u, v | img.rect.Contains(u, v)
        ensures At(out, u, v) == DitherTrace(step, At(img, u, v), u, v, w, h, 0, y + 1)
      {
        DitherTraceRowEnd(step, At(img, u, v), u, v, w, h, x, y);
      }
      y := y + 1;
    }
    var spec := DitherPassSpec(img, w, h, step);
    forall u, v | img.rect.Contains(u, v)
      ensures At(out, u, v) == At(spec, u, v)
    {
      DitherTraceDone(step, At(img, u, v), u, v, w, h, y);
    }
    Extensionality(out, spec);
  }

  // ------------------------------------------------------------ repetitions

  /** n point passes in a row; repetition i uses the operation ops(i), and a
      count of zero or less runs none. */
  function PointRepeat(img: Raster, w: int, h: int, ops: int -> PointFn, n: int): (r: Raster)
    requires img.Valid()
    ensures r.Valid() && r.rect == img.rect
    decreases n
  {
    if n <= 0 then img else PointPassSpec(PointRepeat(img, w, h, ops, n - 1), w, h, ops(n - 1))
  }

  /** n kernel passes in a row; a count of zero or less runs none. */
  function DitherRepeat(img: Raster, w: int, h: int, step: StepFn, n: int): (r: Raster)
    requires img.Valid()
    ensures r.Valid() && r.rect == img.rect
    decreases n
  {
    if n <= 0 then img else DitherPassSpec(DitherRepeat(img, w, h, step, n - 1), w, h, step)
  }

  /** The repetition loop `for i := 0; i < timesFry; i++` around point
      passes. */
  method PointFry(img: Raster, w: int, h: int, ops: int -> PointFn, times: int) returns (out: Raster)
    requires img.Valid()
    ensures out == PointRepeat(img, w, h, ops, times)
  {
    out := img;
    var i := 0;
    while i < times
      invariant 0 <= i && (i <= times || i == 0)
      invariant out == PointRepeat(img, w, h, ops, i)
    {
      out := PointPass(out, w, h, ops(i));
      i := i + 1;
    }
  }

  /** The repetition loop around kernel passes. */
  method DitherFry(img: Raster, w: int, h: int, step: StepFn, times: int) returns (out: Raster)
    requires img.Valid()
    ensures out == DitherRepeat(img, w, h, step, times)
  {
    out := img;
    var i := 0;
    while i < times
      invariant 0 <= i && (i <= times || i == 0)
      invariant out == DitherRepeat(img, w, h, step, i)
    {
      out := DitherPass(out, w, h, step);
      i := i + 1;
    }
  }

  /** The value at one pixel after n repetitions of point operations. */
  function Iterate(ops: int -> PointFn, p: Pixel, x: int, y: int, n: int): Pixel
    decreases n
  {
    if n <= 0 then p else ops(n - 1)(Iterate(ops, p, x, y, n - 1), x, y)
  }

  /** The last of n > 0 point passes at one pixel. */
  lemma PointRepeatStepAt(img: Raster, w: int, h: int, ops: int -> PointFn, n: int, x: int, y: int)
    requires img.Valid() && n > 0
    ensures var prev := PointRepeat(img, w, h, ops, n - 1);
      At(PointRepeat(img, w, h, ops, n), x, y) ==
      if InLoop(x, y, w, h) && img.rect.Contains(x, y) then ops(n - 1)(At(prev, x, y), x, y) else At(prev, x, y)
  {
    PointPassAt(PointRepeat(img, w, h, ops, n - 1), w, h, ops(n - 1), x, y);
  }

  /** Repeated point passes act on each pixel of the loop range alone,
      applying the operations of the repetitions in turn, and leave every
      other pixel as it was. */
  lemma PointRepeatAt(img: Raster, w: int, h: int, ops: int -> PointFn, n: int, x: int, y: int)
    requires img.Valid()
    ensures At(PointRepeat(img, w, h, ops, n), x, y) ==
      if InLoop(x, y, w, h) && img.rect.Contains(x, y) then Iterate(ops, At(img, x, y), x, y, n) else At(img, x, y)
  {
    var i := 0;
    while i < n
      invariant 0 <= i && (i <= n || i == 0)
      invariant At(PointRepeat(img, w, h, ops, i), x, y) ==
        if InLoop(x, y, w, h) && img.rect.Contains(x, y) then Iterate(ops, At(img, x, y), x, y, i) else At(img, x, y)
    {
      i := i + 1;
      PointRepeatStepAt(img, w, h, ops, i, x, y);
    }
  }

  lemma IterateStep(ops: int -> PointFn, p: Pixel, x: int, y: int, n: int)
    requires n > 0
    ensures Iterate(ops, p, x, y, n) == ops(n - 1)(Iterate(ops, p, x, y, n - 1), x, y)
  {
  }

  /** No operation of any repetition changes a pixel's alpha. */
  ghost predicate OpsKeepAlpha(ops: int -> PointFn)
  {
    forall i: int, p: Pixel, x: int, y: int :: ops(i)(p, x, y).a == p.a
  }

  lemma {:induction false} IterateKeepsAlpha(ops: int -> PointFn, p: Pixel, x: int, y: int, n: int)
    requires OpsKeepAlpha(ops)
    ensures Iterate(ops, p, x, y, n).a == p.a
    decreases n
  {
    if n > 0 {
      IterateKeepsAlpha(ops, p, x, y, n - 1);
    }
  }

  /** Repeated point passes whose operations keep alpha keep every pixel's
      alpha. */
  lemma PointRepeatKeepsAlpha(img: Raster, w: int, h: int, ops: int -> PointFn, n: int, x: int, y: int)
    requires img.Valid() && OpsKeepAlpha(ops)
    ensures At(PointRepeat(img, w, h, ops, n), x, y).a == At(img, x, y).a
  {
    PointRepeatAt(img, w, h, ops, n, x, y);
    if InLoop(x, y, w, h) && img.rect.Contains(x, y) {
      IterateKeepsAlpha(ops, At(img, x, y), x, y, n);
    }
  }

  /** The operations of `later` are those of `ops` numbered from m on. */
  ghost predicate Continues(ops: int -> PointFn, later: int -> PointFn, m: int)
  {
    forall i: int, q: Pixel, u: int, v: int :: later(i)(q, u, v) == ops(i + m)(q, u, v)
  }

  /** Iterating m operations and then n more, the later ones numbered from
      m on, is iterating k == m + n. */
  lemma {:induction false} IterateAdd(ops: int -> PointFn, later: int -> PointFn, p: Pixel, x: int, y: int, m: nat, n: nat, k: nat)
    requires Continues(ops, later, m) && k == m + n
    ensures Iterate(later, Iterate(ops, p, x, y, m), x, y, n) == Iterate(ops, p, x, y, k)
    decreases n
  {
    if n > 0 {
      var q := Iterate(ops, p, x, y, m);
      IterateAdd(ops, later, p, x, y, m, n - 1, k - 1);
      IterateStep(later, q, x, y, n);
      IterateStep(ops, p, x, y, k);
      var prev := Iterate(later, q, x, y, n - 1);
      assert later(n - 1)(prev, x, y) == ops(k - 1)(prev, x, y);
    }
  }

  /** At one pixel: m point passes followed by n more whose operations
      continue the numbering from m leave what k == m + n passes leave. */
  lemma PointRepeatAddAt(img: Raster, w: int, h: int, ops: int -> PointFn, later: int -> PointFn, m: nat, n: nat, k: nat, x: int, y: int)
    requires img.Valid() && Continues(ops, later, m) && k == m + n
    ensures At(PointRepeat(PointRepeat(img, w, h, ops, m), w, h, later, n), x, y) == At(PointRepeat(img, w, h, ops, k), x, y)
  {
    var mid := PointRepeat(img, w, h, ops, m);
    PointRepeatAt(img, w, h, ops, m, x, y);
    PointRepeatAt(mid, w, h, later, n, x, y);
    PointRepeatAt(img, w, h, ops, k, x, y);
    if InLoop(x, y, w, h) && img.rect.Contains(x, y) {
      IterateAdd(ops, later, At(img, x, y), x, y, m, n, k);
    }
  }

  /** m point passes followed by n more whose operations continue the
      numbering from m give the same raster as m + n passes. */
  lemma PointRepeatAdd(img: Raster, w: int, h: int, ops: int -> PointFn, later: int -> PointFn, m: nat, n: nat)
    requires img.Valid()
    requires Continues(ops, later, m)
    ensures PointRepeat(PointRepeat(img, w, h, ops, m), w, h, later, n) == PointRepeat(img, w, h, ops, m + n)
  {
    var a, b := PointRepeat(PointRepeat(img, w, h, ops, m), w, h, later, n), PointRepeat(img, w, h, ops, m + n);
    forall x, y | img.rect.Contains(x, y)
      ensures At(a, x, y) == At(b, x, y)
    {
      PointRepeatAddAt(img, w, h, ops, later, m, n, m + n, x, y);
    }
    Extensionality(a, b);
  }

  lemma DitherRepeatStep(img: Raster, w: int, h: int, step: StepFn, n: int)
    requires img.Valid() && n > 0
    ensures DitherRepeat(img, w, h, step, n) == DitherPassSpec(DitherRepeat(img, w, h, step, n - 1), w, h, step)
  {
  }

  /** m kernel passes followed by n more are m + n kernel passes. */
  lemma {:induction false} DitherRepeatAdd(img: Raster, w: int, h: int, step: StepFn, m: nat, n: nat)
    requires img.Valid()
    ensures DitherRepeat(DitherRepeat(img, w, h, step, m), w, h, step, n) == DitherRepeat(img, w, h, step, m + n)
    decreases n
  {
    if n > 0 {
      DitherRepeatAdd(img, w, h, step, m, n - 1);
    }
  }

  // ------------------------------------------------------- properties of a pass

  /** None of the four scan positions that write to (x, y) lies in the loop
      range. */
  predicate OutOfReach(x: int, y: int, w: int, h: int)
  {
    && !InLoop(x - 1, y - 1, w, h)
    && !InLoop(x, y - 1, w, h)
    && !InLoop(x + 1, y - 1, w, h)
    && !InLoop(x - 1, y, w, h)
  }

  /** A kernel pass leaves a pixel out of reach of the loop range as it was:
      the origin, everything right of column w or below row h, everything
      left of column -1 or above row 0. */
  lemma DitherPassOutOfReach(img: Raster, w: int, h: int, step: StepFn, x: int, y: int)
    requires img.Valid()
    ensures (x == 0 && y == 0) || x > w || y > h || x < -1 || y < 0 ==> OutOfReach(x, y, w, h)
    ensures OutOfReach(x, y, w, h) ==> At(DitherPassSpec(img, w, h, step), x, y) == At(img, x, y)
  {
  }

  /** What a kernel pass leaves at (x, y) depends on the pixel at (x, y)
      alone, never on the pixels whose scan positions write to it. */
  lemma DitherPassPointwise(img: Raster, img': Raster, w: int, h: int, step: StepFn, x: int, y: int)
    requires img.Valid() && img'.Valid() && img.rect == img'.rect
    requires At(img, x, y) == At(img', x, y)
    ensures At(DitherPassSpec(img, w, h, step), x, y) == At(DitherPassSpec(img', w, h, step), x, y)
  {
  }

  /** Every write of the kernel leaves p as it is. */
  predicate Stable(step: StepFn, p: Pixel)
  {
    step(p, 1) == p && step(p, 3) == p && step(p, 5) == p && step(p, 7) == p
  }

  /** A raster whose every pixel is stable under the kernel writes goes
      through a kernel pass unchanged. */
  lemma DitherPassStable(img: Raster, w: int, h: int, step: StepFn)
    requires img.Valid()
    requires forall x, y :: img.rect.Contains(x, y) ==> Stable(step, At(img, x, y))
    ensures DitherPassSpec(img, w, h, step) == img
  {
    var r := DitherPassSpec(img, w, h, step);
    forall x, y | img.rect.Contains(x, y)
      ensures At(r, x, y) == At(img, x, y)
    {
      assert Stable(step, At(img, x, y));
    }
    Extensionality(r, img);
  }

  /** The step never changes a pixel's alpha. */
  ghost predicate KeepsAlpha(step: StepFn)
  {
    forall p: Pixel, k: int :: step(p, k).a == p.a
  }

  /** A step that keeps alpha gives a kernel pass that keeps every pixel's
      alpha. */
  lemma DitherPassKeepsAlpha(img: Raster, w: int, h: int, step: StepFn, x: int, y: int)
    requires img.Valid()
    requires KeepsAlpha(step)
    ensures At(DitherPassSpec(img, w, h, step), x, y).a == At(img, x, y).a
  {
  }

  /** Repeated kernel passes leave a pixel out of reach of the loop range as
      it was. */
  lemma DitherRepeatOutOfReach(img: Raster, w: int, h: int, step: StepFn, n: int, x: int, y: int)
    requires img.Valid() && OutOfReach(x, y, w, h)
    ensures At(DitherRepeat(img, w, h, step, n), x, y) == At(img, x, y)
  {
    var i := 0;
    while i < n
      invariant 0 <= i && (i <= n || i == 0)
      invariant At(DitherRepeat(img, w, h, step, i), x, y) == At(img, x, y)
    {
      DitherRepeatStep(img, w, h, step, i + 1);
      DitherPassOutOfReach(DitherRepeat(img, w, h, step, i), w, h, step, x, y);
      i := i + 1;
    }
  }

  /** A raster of pixels stable under the kernel writes survives any number
      of kernel passes. */
  lemma DitherRepeatStable(img: Raster, w: int, h: int, step: StepFn, n: int)
    requires img.Valid()
    requires forall x, y :: img.rect.Contains(x, y) ==> Stable(step, At(img, x, y))
    ensures DitherRepeat(img, w, h, step, n) == img
  {
    var i := 0;
    DitherPassStable(img, w, h, step);
    while i < n
      invariant 0 <= i && (i <= n || i == 0)
      invariant DitherRepeat(img, w, h, step, i) == img
    {
      DitherRepeatStep(img, w, h, step, i + 1);
      i := i + 1;
    }
  }

  /** One more kernel pass keeps the alpha that the earlier ones kept. */
  lemma DitherRepeatKeepsAlphaStep(img: Raster, w: int, h: int, step: StepFn, n: int, x: int, y: int)
    requires img.Valid() && KeepsAlpha(step)
    requires n > 0 ==> At(DitherRepeat(img, w, h, step, n - 1), x, y).a == At(img, x, y).a
    ensures At(DitherRepeat(img, w, h, step, n), x, y).a == At(img, x, y).a
  {
    if n > 0 {
      DitherRepeatStep(img, w, h, step, n);
      DitherPassKeepsAlpha(DitherRepeat(img, w, h, step, n - 1), w, h, step, x, y);
    } else {
      assert DitherRepeat(img, w, h, step, n) == img;
    }
  }

  /** Repeated kernel passes whose step keeps alpha keep every pixel's
      alpha. */
  lemma DitherRepeatKeepsAlpha(img: Raster, w: int, h: int, step: StepFn, n: int, x: int, y: int)
    requires img.Valid() && KeepsAlpha(step)
    ensures At(DitherRepeat(img, w, h, step, n), x, y).a == At(img, x, y).a
  {
    var i := 0;
    DitherRepeatKeepsAlphaStep(img, w, h, step, 0, x, y);
    while i < n
      invariant 0 <= i && (i <= n || i == 0)
      invariant At(DitherRepeat(img, w, h, step, i), x, y).a == At(img, x, y).a
    {
      i := i + 1;
      DitherRepeatKeepsAlphaStep(img, w, h, step, i, x, y);
    }
  }
}
