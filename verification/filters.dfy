/** The four filters of filters/filters.go: each copies its input raster
    and runs a number of repetitions of one pass over the loop range
    [0, w) x [0, h) given by the configured width and height. */
module Filters {
  import opened Pixels
  import opened Grid
  import opened Passes

  /** The three colour channels the random filter jitters. */
  datatype Channel = Red | Green | Blue

  /** The offsets the random filter draws: `noise(rep, x, y, c)` is the
      `rand.Intn(10)` value added to channel c of pixel (x, y) during
      repetition rep. */
  type Noise = (int, int, int, Channel) -> Offset

  /** Which filter runs: `RandFilter`, `DitherFilter`, `DitherFilterColor`
      or `XorFilter`. */
  datatype Filter = Jitter(noise: Noise) | Grey | Colour | Xor

  /** The random filter's pixel operation in repetition rep. */
  function JitterOp(noise: Noise, rep: int): PointFn
  {
    (p: Pixel, x: int, y: int) => RandPixel(p, noise(rep, x, y, Red), noise(rep, x, y, Green), noise(rep, x, y, Blue))
  }

  /** The xor filter's pixel operation. */
  function XorOp(): PointFn
  {
    (p: Pixel, x: int, y: int) => XorPixel(p)
  }

  /** The random filter's operations, by repetition. */
  function JitterOps(noise: Noise): int -> PointFn
  {
    rep => JitterOp(noise, rep)
  }

  /** The xor filter's operations: the same in every repetition. */
  function XorOps(): int -> PointFn
  {
    rep => XorOp()
  }

  /** The raster after the first n repetitions of filter f: each repetition
      runs on the result of the one before, and a count of zero or less runs
      none. */
  function Repeat(f: Filter, img: Raster, w: int, h: int, n: int): (r: Raster)
    requires img.Valid()
    ensures r.Valid() && r.rect == img.rect
    ensures n <= 0 ==> r == img
  {
    match f
    case Jitter(noise) => PointRepeat(img, w, h, JitterOps(noise), n)
    case Grey => DitherRepeat(img, w, h, Dither, n)
    case Colour => DitherRepeat(img, w, h, DitherColor, n)
    case Xor => PointRepeat(img, w, h, XorOps(), n)
  }

  /** The repetition loop shared by the four filters. The raster keeps its
      bounds, and with a count of zero or less it comes back unchanged. */
  method Fry(f: Filter, img: Raster, w: int, h: int, times: int) returns (out: Raster)
    requires img.Valid()
    ensures out.Valid() && out.rect == img.rect
    ensures times <= 0 ==> out == img
    ensures out == Repeat(f, img, w, h, times)
  {
    match f
    case Jitter(noise) =>
      out := PointFry(img, w, h, JitterOps(noise), times);
    case Grey =>
      out := DitherFry(img, w, h, Dither, times);
    case Colour =>
      out := DitherFry(img, w, h, DitherColor, times);
    case Xor =>
      out := PointFry(img, w, h, XorOps(), times);
  }

  /** `RandFilter` on the copied raster. */
  method RandFilter(img: Raster, w: int, h: int, times: int, noise: Noise) returns (out: Raster)
    requires img.Valid()
    ensures out.Valid() && out.rect == img.rect
    ensures times <= 0 ==> out == img
    ensures out == Repeat(Jitter(noise), img, w, h, times)
  {
    out := Fry(Jitter(noise), img, w, h, times);
  }

  /** `DitherFilter` on the copied raster. */
  method DitherFilter(img: Raster, w: int, h: int, times: int) returns (out: Raster)
    requires img.Valid()
    ensures out.Valid() && out.rect == img.rect
    ensures times <= 0 ==> out == img
    ensures out == Repeat(Grey, img, w, h, times)
  {
    out := Fry(Grey, img, w, h, times);
  }

  /** `XorFilter` on the copied raster. */
  method XorFilter(img: Raster, w: int, h: int, times: int) returns (out: Raster)
    requires img.Valid()
    ensures out.Valid() && out.rect == img.rect
    ensures times <= 0 ==> out == img
    ensures out == Repeat(Xor, img, w, h, times)
  {
    out := Fry(Xor, img, w, h, times);
  }

  /** `DitherFilterColor` on the copied raster. */
  method DitherFilterColor(img: Raster, w: int, h: int, times: int) returns (out: Raster)
    requires img.Valid()
    ensures out.Valid() && out.rect == img.rect
    ensures times <= 0 ==> out == img
    ensures out == Repeat(Colour, img, w, h, times)
  {
    out := Fry(Colour, img, w, h, times);
  }

  // ------------------------------------------------------------ repetitions

  /** The random numbers of the repetitions after the first m. */
  function Later(noise: Noise, m: int): Noise
  {
    (rep: int, x: int, y: int, c: Channel) => noise(rep + m, x, y, c)
  }

  /** The filter that continues f after its first m repetitions: the same
      filter, drawing the random numbers that come after those m used. */
  function After(f: Filter, m: int): Filter
  {
    if f.Jitter? then Jitter(Later(f.noise, m)) else f
  }

  /** Frying m times and then n more times, the second run continuing the
      random numbers where the first left off, is frying k == m + n times. */
  lemma RepeatAdd(f: Filter, img: Raster, w: int, h: int, m: nat, n: nat, k: nat)
    requires img.Valid() && k == m + n
    ensures Repeat(After(f, m), Repeat(f, img, w, h, m), w, h, n) == Repeat(f, img, w, h, k)
  {
    match f
    case Jitter(noise) =>
      assert Continues(JitterOps(noise), JitterOps(Later(noise, m)), m);
      PointRepeatAdd(img, w, h, JitterOps(noise), JitterOps(Later(noise, m)), m, n);
    case Grey =>
      DitherRepeatAdd(img, w, h, Dither, m, n);
    case Colour =>
      DitherRepeatAdd(img, w, h, DitherColor, m, n);
    case Xor =>
      assert Continues(XorOps(), XorOps(), m);
      PointRepeatAdd(img, w, h, XorOps(), XorOps(), m, n);
  }

  /** Every filter keeps the alpha of every pixel. */
  lemma FiltersKeepAlpha(f: Filter, img: Raster, w: int, h: int, n: int, x: int, y: int)
    requires img.Valid()
    ensures At(Repeat(f, img, w, h, n), x, y).a == At(img, x, y).a
  {
    match f
    case Jitter(noise) =>
      forall i: int, p: Pixel, u: int, v: int
        ensures JitterOps(noise)(i)(p, u, v).a == p.a
      {
        assert JitterOps(noise)(i)(p, u, v) == RandPixel(p, noise(i, u, v, Red), noise(i, u, v, Green), noise(i, u, v, Blue));
      }
      PointRepeatKeepsAlpha(img, w, h, JitterOps(noise), n, x, y);
    case Grey =>
      assert KeepsAlpha(Dither);
      DitherRepeatKeepsAlpha(img, w, h, Dither, n, x, y);
    case Colour =>
      assert KeepsAlpha(DitherColor);
      DitherRepeatKeepsAlpha(img, w, h, DitherColor, n, x, y);
    case Xor =>
      assert OpsKeepAlpha(XorOps());
      PointRepeatKeepsAlpha(img, w, h, XorOps(), n, x, y);
  }

  // ---------------------------------------------------------------- xor filter

  /** The xor operations iterated n times are the xor operation applied n
      times. */
  lemma {:induction false} IterateXor(p: Pixel, x: int, y: int, n: nat)
    ensures Iterate(XorOps(), p, x, y, n) == XorPow(p, n)
  {
    if n > 0 {
      IterateXor(p, x, y, n - 1);
      XorPowStep(p, n);
    }
  }

  /** n repetitions of the xor filter apply the xor operation n times to
      each pixel of the loop range and leave the rest alone. */
  lemma XorRepeatPointwise(img: Raster, w: int, h: int, n: nat, x: int, y: int)
    requires img.Valid()
    ensures At(Repeat(Xor, img, w, h, n), x, y) ==
      if InLoop(x, y, w, h) && img.rect.Contains(x, y) then XorPow(At(img, x, y), n) else At(img, x, y)
  {
    PointRepeatAt(img, w, h, XorOps(), n, x, y);
    IterateXor(At(img, x, y), x, y, n);
  }

  /** After two or more repetitions of `XorFilter` every pixel of the loop
      range has red and green cleared and blue xored with red and green. */
  lemma XorSettles(img: Raster, w: int, h: int, n: nat, x: int, y: int)
    requires img.Valid() && n >= 2
    requires InLoop(x, y, w, h) && img.rect.Contains(x, y)
    ensures At(Repeat(Xor, img, w, h, n), x, y) == XorSettled(At(img, x, y))
  {
    XorRepeatPointwise(img, w, h, n, x, y);
    XorPowSettles(At(img, x, y), n);
  }

  /** Repetitions of `XorFilter` beyond the second change nothing, whatever
      the loop range and the raster. */
  lemma XorSettlesAfterTwo(img: Raster, w: int, h: int, n: nat)
    requires img.Valid() && n >= 2
    ensures Repeat(Xor, img, w, h, n) == Repeat(Xor, img, w, h, 2)
  {
    var a, b := Repeat(Xor, img, w, h, n), Repeat(Xor, img, w, h, 2);
    forall u, v | img.rect.Contains(u, v)
      ensures At(a, u, v) == At(b, u, v)
    {
      XorRepeatPointwise(img, w, h, n, u, v);
      XorRepeatPointwise(img, w, h, 2, u, v);
      if InLoop(u, v, w, h) {
        XorPowSettles(At(img, u, v), n);
        XorPowSettles(At(img, u, v), 2);
      }
    }
    Extensionality(a, b);
  }

  // ------------------------------------------------------------- random filter

  /** q is p with each colour byte advanced by its offset, wrapping modulo
      256, and the same alpha. */
  predicate Jittered(p: Pixel, q: Pixel, dr: int, dg: int, db: int)
  {
    && q.r == (p.r + dr) % 256
    && q.g == (p.g + dg) % 256
    && q.b == (p.b + db) % 256
    && q.a == p.a
  }

  /** Two jitters in a row are one jitter by the summed offsets. */
  lemma JitteredCompose(p: Pixel, q: Pixel, s: Pixel, dr: int, dg: int, db: int, er: int, eg: int, eb: int)
    requires Jittered(p, q, dr, dg, db) && Jittered(q, s, er, eg, eb)
    ensures Jittered(p, s, dr + er, dg + eg, db + eb)
  {
    ModAdd(p.r, dr, er);
    ModAdd(p.g, dg, eg);
    ModAdd(p.b, db, eb);
  }

  lemma ModAdd(a: int, s: int, d: int)
    ensures ((a + s) % 256 + d) % 256 == (a + s + d) % 256
  {
  }

  /** Sum of the offsets added to channel c of pixel (x, y) in the first n
      repetitions. */
  function NoiseSum(noise: Noise, n: nat, x: int, y: int, c: Channel): nat
  {
    if n == 0 then 0 else NoiseSum(noise, n - 1, x, y, c) + noise(n - 1, x, y, c)
  }

  /** q jittered by the offsets of the first n repetitions. */
  predicate JitteredUpTo(noise: Noise, n: nat, x: int, y: int, p: Pixel, q: Pixel)
  {
    Jittered(p, q, NoiseSum(noise, n, x, y, Red), NoiseSum(noise, n, x, y, Green), NoiseSum(noise, n, x, y, Blue))
  }

  /** One more repetition's offsets on top of the first n - 1. */
  lemma JitteredAccumulate(noise: Noise, n: nat, x: int, y: int, p: Pixel, q: Pixel, s: Pixel)
    requires n > 0 && JitteredUpTo(noise, n - 1, x, y, p, q)
    requires Jittered(q, s, noise(n - 1, x, y, Red), noise(n - 1, x, y, Green), noise(n - 1, x, y, Blue))
    ensures JitteredUpTo(noise, n, x, y, p, s)
  {
    JitteredCompose(p, q, s,
      NoiseSum(noise, n - 1, x, y, Red), NoiseSum(noise, n - 1, x, y, Green), NoiseSum(noise, n - 1, x, y, Blue),
      noise(n - 1, x, y, Red), noise(n - 1, x, y, Green), noise(n - 1, x, y, Blue));
  }

  /** The random filter's operations iterated n times add, to each colour
      byte, all the offsets drawn for it. */
  lemma {:induction false} IterateJitter(noise: Noise, p: Pixel, x: int, y: int, n: nat)
    ensures JitteredUpTo(noise, n, x, y, p, Iterate(JitterOps(noise), p, x, y, n))
  {
    if n > 0 {
      IterateJitter(noise, p, x, y, n - 1);
      var q := Iterate(JitterOps(noise), p, x, y, n - 1);
      JitteredAccumulate(noise, n, x, y, p, q, Iterate(JitterOps(noise), p, x, y, n));
    }
  }

  /** After n repetitions of `RandFilter` each colour byte of a pixel of the
      loop range is its starting value plus all the offsets drawn for it,
      modulo 256, and alpha is as it was; pixels outside the loop range are
      untouched. */
  lemma JitterRepeat(noise: Noise, img: Raster, w: int, h: int, n: nat, x: int, y: int)
    requires img.Valid()
    ensures var p, q := At(img, x, y), At(Repeat(Jitter(noise), img, w, h, n), x, y);
      if InLoop(x, y, w, h) && img.rect.Contains(x, y) then JitteredUpTo(noise, n, x, y, p, q) else q == p
  {
    PointRepeatAt(img, w, h, JitterOps(noise), n, x, y);
    IterateJitter(noise, At(img, x, y), x, y, n);
  }

  // ------------------------------------------------------------ dither filters

  /** The two dither filters. */
  predicate Dithering(f: Filter)
  {
    f.Grey? || f.Colour?
  }

  /** The pixel step of a dither filter. */
  function StepOf(f: Filter): StepFn
    requires Dithering(f)
  {
    if f.Grey? then Dither else DitherColor
  }

  /** A raster of black and white pixels only goes through any number of
      repetitions of either dither filter unchanged. */
  lemma DitherFixesBlackAndWhiteRaster(f: Filter, img: Raster, w: int, h: int, n: int)
    requires img.Valid() && Dithering(f)
    requires forall x, y :: img.rect.Contains(x, y) ==> BlackOrWhite(At(img, x, y))
    ensures Repeat(f, img, w, h, n) == img
  {
    var step := StepOf(f);
    forall x, y | img.rect.Contains(x, y)
      ensures Stable(step, At(img, x, y))
    {
      var p := At(img, x, y);
      DitherFixesBlackAndWhite(p, 1);
      DitherFixesBlackAndWhite(p, 3);
      DitherFixesBlackAndWhite(p, 5);
      DitherFixesBlackAndWhite(p, 7);
    }
    DitherRepeatStable(img, w, h, step, n);
  }

  /** Whatever the number of repetitions, either dither filter leaves a pixel
      out of reach of the loop range as it was: the origin, and every pixel
      right of column w, below row h, left of column -1 or above row 0. */
  lemma DitherOutOfReach(f: Filter, img: Raster, w: int, h: int, n: int, x: int, y: int)
    requires img.Valid() && Dithering(f)
    requires (x == 0 && y == 0) || x > w || y > h || x < -1 || y < 0
    ensures At(Repeat(f, img, w, h, n), x, y) == At(img, x, y)
  {
    DitherPassOutOfReach(img, w, h, StepOf(f), x, y);
    DitherRepeatOutOfReach(img, w, h, StepOf(f), n, x, y);
  }
}
