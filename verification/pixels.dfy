/** Per-pixel arithmetic of the filters: the 16-bit colour read-back of an
    8-bit RGBA pixel, the binary threshold quantiser, one error-diffusion
    update (grey and per-channel), the channel xor and the random jitter.
    Channel values are integers; the source's `uint8` truncations are
    written out as remainders modulo 256. */
module Pixels {
  import opened Bits

  /** A Go `uint8`. */
  type Byte = x: int | 0 <= x < 256

  /** A 16-bit colour value as `color.Color.RGBA()` returns it. */
  type Word = x: int | 0 <= x < 65536

  /** `color.RGBA`: four 8-bit channels. */
  datatype Pixel = Pixel(r: Byte, g: Byte, b: Byte, a: Byte)

  /** What `image.RGBA.At` answers outside the image bounds. */
  const Transparent := Pixel(0, 0, 0, 0)

  /** A random offset as `rand.Intn(10)` draws it. */
  type Offset = d: int | 0 <= d < 10

  /** A value `rand.Intn(1)` can return. */
  type Coin = k: int | 0 <= k < 1

  /** `color.RGBA.RGBA()` widens each channel to 16 bits by repeating the
      byte (`v | v << 8`). */
  function Widen(v: Byte): Word
  {
    256 * v + v
  }

  /** Go's `uint8(x)`: keep the low byte, which for a negative `int` is the
      Euclidean remainder modulo 256. */
  function Lo8(n: int): Byte
  {
    n % 256
  }

  /** Reading a channel back through `RGBA()` and storing it through
      `uint8(...)` gives back the stored byte. */
  lemma LowByteOfWiden(v: Byte)
    ensures Lo8(Widen(v)) == v
  {
  }

  /** The low byte of 256 * hi + lo is lo. */
  lemma LowByteOfSum(hi: int, lo: Byte)
    ensures Lo8(256 * hi + lo) == lo
  {
  }

  /** r is `math.RoundToEven(num / den)` for an exact rational: the integer
      nearest to num/den, ties going to the even neighbour. */
  predicate RoundsTo(num: int, den: int, r: int)
  {
    && -den <= 2 * (den * r - num) <= den
    && (2 * (den * r - num) == den || 2 * (den * r - num) == -den ==> r % 2 == 0)
  }

  /** `math.RoundToEven` on an exact quotient. */
  function RoundToEven(num: int, den: int): (r: int)
    requires den > 0
    ensures RoundsTo(num, den, r)
  {
    var q := num / den;
    var rem := num % den;
    assert num == den * q + rem;
    if 2 * rem < den then q
    else if 2 * rem > den then q + 1
    else if q % 2 == 0 then q
    else q + 1
  }

  /** Rounding to even is well defined: no other integer than the result
      meets its description. */
  lemma RoundToEvenUnique(num: int, den: int, s: int)
    requires den > 0 && RoundsTo(num, den, s)
    ensures s == RoundToEven(num, den)
  {
    RoundsToUnique(num, den, RoundToEven(num, den), s);
  }

  /** Two integers that both round num/den to even are equal. */
  lemma RoundsToUnique(num: int, den: int, r: int, s: int)
    requires den > 0 && RoundsTo(num, den, r) && RoundsTo(num, den, s)
    ensures r == s
  {
    var a, b := den * r - num, den * s - num;
    var e := s - r;
    var de := den * e;
    assert b == a + de by {
      assert den * s == den * r + den * e;
    }
    if e >= 2 {
      MulMono(den, 2, e);
      assert false;
    } else if e <= -2 {
      MulMono(den, e, -2);
      assert false;
    } else if e == 1 {
      assert false;
    } else if e == -1 {
      assert false;
    }
  }

  lemma MulMono(d: int, a: int, b: int)
    requires d > 0 && a <= b
    ensures d * a <= d * b
  {
  }

  /** `findClosestColor`: `math.RoundToEven(float64(n) / 255)` compared with
      1. The float quotient is never within rounding distance of a half, so
      the exact quotient decides the same way. */
  function FindClosestColor(n: int): (c: int)
    ensures c == 0 || c == 255
    ensures c == 255 <==> 128 <= n <= 382
  {
    var t := RoundToEven(n, 255);
    if t == 1 then 255 else 0
  }

  /** The unused `findClosestColor2`: the same quantiser on a step of 64;
      the halfway points 32 and 96 are ties that round to 0 and 2. */
  function FindClosestColor2(n: int): (c: int)
    ensures c == 0 || c == 64
    ensures c == 64 <==> 33 <= n <= 95
  {
    var t := RoundToEven(n, 64);
    if t == 1 then 64 else 0
  }

  /** Of the 16-bit read-backs 257*v only the one of v == 1 lands in the
      upper band of the quantiser. */
  lemma ClosestOfWiden(v: Byte)
    ensures FindClosestColor(Widen(v)) == 255 <==> v == 1
  {
    if v == 0 {
      assert Widen(v) == 0;
    } else if v == 1 {
      assert Widen(v) == 257;
    } else {
      assert Widen(v) >= 514;
    }
  }

  /** One error-diffusion update of a level with weight k/16: the level plus
      the rounded weighted distance to its quantised value. */
  function DiffuseLevel(level: int, k: int): (d: int)
    ensures RoundsTo((level - FindClosestColor(level)) * k, 16, d - level)
  {
    level + RoundToEven((level - FindClosestColor(level)) * k, 16)
  }

  /** On a 16-bit level with a kernel weight the diffused value is never
      negative and stays below 2^17, so `uint8` truncates a value of the
      usual non-negative kind. */
  lemma DiffuseNonNeg(level: int, k: int)
    requires 0 <= level < 65536 && KernelWeight(k)
    ensures 0 <= DiffuseLevel(level, k) < 131072
  {
    var c := FindClosestColor(level);
    var num := (level - c) * k;
    var e := DiffuseLevel(level, k) - level;
    if c == 255 {
      assert -127 <= level - c <= 127;
      assert -889 <= num <= 889;
    } else {
      assert 0 <= num <= 65535 * 7;
    }
    assert -16 <= 2 * (16 * e - num) <= 16;
  }

  /** `dither`'s colour computation: the grey level is the truncated mean of
      the three 16-bit channels; all three channels get the same byte and the
      alpha byte is stored back unchanged. */
  function Dither(p: Pixel, k: int): (q: Pixel)
    ensures q.r == q.g == q.b
    ensures q.a == p.a
  {
    var level := (Widen(p.r) + Widen(p.g) + Widen(p.b)) / 3;
    var v := Lo8(DiffuseLevel(level, k));
    LowByteOfWiden(p.a);
    Pixel(v, v, v, Lo8(Widen(p.a)))
  }

  /** `dithercolor`'s colour computation: each 16-bit channel is quantised
      and diffused on its own. */
  function DitherColor(p: Pixel, k: int): (q: Pixel)
    ensures q.a == p.a
  {
    LowByteOfWiden(p.a);
    Pixel(Lo8(DiffuseLevel(Widen(p.r), k)),
          Lo8(DiffuseLevel(Widen(p.g), k)),
          Lo8(DiffuseLevel(Widen(p.b), k)),
          Lo8(Widen(p.a)))
  }

  /** The kernel's weight numerators (7, 3, 5 and 1 sixteenths). */
  predicate KernelWeight(k: int)
  {
    k == 7 || k == 3 || k == 5 || k == 1
  }

  /** On a grey pixel the grey and the colour variants agree. */
  lemma DitherOnGray(v: Byte, a: Byte, k: int)
    ensures Dither(Pixel(v, v, v, a), k) == DitherColor(Pixel(v, v, v, a), k)
  {
    assert (Widen(v) + Widen(v) + Widen(v)) / 3 == Widen(v);
  }

  /** `dithercolor` treats the channels independently: each output channel
      is a function of the same input channel only. */
  lemma DitherColorChannelwise(p: Pixel, p': Pixel, k: int)
    ensures p.r == p'.r ==> DitherColor(p, k).r == DitherColor(p', k).r
    ensures p.g == p'.g ==> DitherColor(p, k).g == DitherColor(p', k).g
    ensures p.b == p'.b ==> DitherColor(p, k).b == DitherColor(p', k).b
  {
  }

  /** Black: the level 0 quantises to 0, so there is no error to add. */
  lemma BlackFixed(k: int)
    ensures Lo8(DiffuseLevel(Widen(0), k)) == 0
  {
    var level := Widen(0);
    assert level == 0;
    assert FindClosestColor(level) == 0;
    var err := (level - FindClosestColor(level)) * k;
    assert err == 0;
    RoundToEvenUnique(err, 16, 0);
    assert DiffuseLevel(level, k) == 0;
  }

  /** White: the level 65535 quantises to 0, the error 65535*k/16 rounds to
      4096*k for the kernel weights, and 65535 + 4096*k ends in the byte 255. */
  lemma WhiteFixed(k: int)
    requires KernelWeight(k)
    ensures DiffuseLevel(Widen(255), k) == 65535 + 4096 * k
    ensures Lo8(DiffuseLevel(Widen(255), k)) == 255
  {
    assert FindClosestColor(65535) == 0;
    var e := 65535 * k;
    RoundToEvenUnique(e, 16, 4096 * k);
  }

  /** Black or white with any alpha. */
  predicate BlackOrWhite(p: Pixel)
  {
    (p.r == 0 && p.g == 0 && p.b == 0) || (p.r == 255 && p.g == 255 && p.b == 255)
  }

  /** A grey pixel of byte v whose channels diffuse back to v is left as it
      is by both dither variants. */
  lemma GreyFixed(v: Byte, a: Byte, k: int)
    requires Lo8(DiffuseLevel(Widen(v), k)) == v
    ensures Dither(Pixel(v, v, v, a), k) == Pixel(v, v, v, a)
    ensures DitherColor(Pixel(v, v, v, a), k) == Pixel(v, v, v, a)
  {
    LowByteOfWiden(a);
    DitherOnGray(v, a, k);
  }

  /** Black and white pixels are fixed points of both dither variants for
      every weight of the kernel. */
  lemma DitherFixesBlackAndWhite(p: Pixel, k: int)
    requires BlackOrWhite(p) && KernelWeight(k)
    ensures Dither(p, k) == p
    ensures DitherColor(p, k) == p
  {
    if p.r == 0 {
      BlackFixed(k);
      GreyFixed(0, p.a, k);
    } else {
      WhiteFixed(k);
      GreyFixed(255, p.a, k);
    }
  }

  /** Bitwise xor of two bytes. */
  function Xor8(a: Byte, b: Byte): Byte
  {
    Pow2Byte();
    XorBitsBound(a, b, 8);
    XorBits(a, b, 8)
  }

  lemma Pow2Byte()
    ensures Pow2(8) == 256
  {
  }

  lemma XorSelf(a: Byte)
    ensures Xor8(a, a) == 0
  {
    XorBitsSelf(a, 8);
  }

  lemma XorZero(a: Byte)
    ensures Xor8(a, 0) == a
  {
    XorBitsZero(a, 8);
    Pow2Byte();
    LowByteOfSum(0, a);
  }

  lemma XorCommutes(a: Byte, b: Byte)
    ensures Xor8(a, b) == Xor8(b, a)
  {
    XorBitsCommutes(a, b, 8);
  }

  /** The low byte of a 32-bit xor is the xor of the low bytes. */
  lemma LowByteOfXor(a: nat, b: nat)
    ensures Lo8(Xor32(a, b)) == Xor8(Lo8(a), Lo8(b))
  {
    Pow2Byte();
    XorBitsTruncate(a, b, 32, 8);
    XorBitsOfLow(a, b, 8);
  }

  /** `xor`: computed with Go's 32-bit xor on the 16-bit read-backs and truncated to bytes, red
      and green both become red xor green, blue is xored with that, and
      alpha is kept. */
  function XorPixel(p: Pixel): (q: Pixel)
    ensures q.r == q.g == Xor8(p.r, p.g)
    ensures q.b == Xor8(p.b, Xor8(p.r, p.g))
    ensures q.a == p.a
  {
    var r, g, b := Widen(p.r), Widen(p.g), Widen(p.b);
    var newr := Xor32(r, g);
    var newg := Xor32(g, r);
    var newb := Xor32(b, newr);
    LowByteOfWiden(p.r);
    LowByteOfWiden(p.g);
    LowByteOfWiden(p.b);
    LowByteOfWiden(p.a);
    LowByteOfXor(r, g);
    LowByteOfXor(g, r);
    LowByteOfXor(b, newr);
    XorCommutes(p.g, p.r);
    Pixel(Lo8(newr), Lo8(newg), Lo8(newb), Lo8(Widen(p.a)))
  }

  /** With green at 0, red is kept, green becomes red, and blue is xored
      with red; blue becomes red only when it was 0. */
  lemma XorWithoutGreen(p: Pixel)
    requires p.g == 0
    ensures XorPixel(p) == Pixel(p.r, p.r, Xor8(p.b, p.r), p.a)
  {
    XorZero(p.r);
  }

  /** The single pixel (10, 0, 0) comes out as (10, 10, 10). */
  lemma XorOfTenZeroZero(a: Byte)
    ensures XorPixel(Pixel(10, 0, 0, a)) == Pixel(10, 10, 10, a)
  {
    XorWithoutGreen(Pixel(10, 0, 0, a));
    XorCommutes(0, 10);
    XorZero(10);
  }

  /** What the xor operation settles on: red and green cleared, blue xored
      with red and green, alpha kept. */
  function XorSettled(p: Pixel): Pixel
  {
    Pixel(0, 0, Xor8(p.b, Xor8(p.r, p.g)), p.a)
  }

  /** Two xor steps reach the settled pixel. */
  lemma XorTwice(p: Pixel)
    ensures XorPixel(XorPixel(p)) == XorSettled(p)
  {
    var q := XorPixel(p);
    XorSelf(q.r);
    XorZero(q.b);
  }

  /** The settled pixel no longer changes. */
  lemma XorSettledFixed(p: Pixel)
    ensures XorPixel(XorSettled(p)) == XorSettled(p)
  {
    XorSelf(0);
    XorZero(Xor8(p.b, Xor8(p.r, p.g)));
  }

  /** After two xor steps the pixel no longer changes. */
  lemma XorThriceIsTwice(p: Pixel)
    ensures XorPixel(XorPixel(XorPixel(p))) == XorPixel(XorPixel(p))
  {
    XorTwice(p);
    XorSettledFixed(p);
  }

  /** The xor operation applied n times. */
  function XorPow(p: Pixel, n: nat): Pixel
  {
    if n == 0 then p else XorPixel(XorPow(p, n - 1))
  }

  lemma XorPowStep(p: Pixel, n: nat)
    requires n >= 1
    ensures XorPow(p, n) == XorPixel(XorPow(p, n - 1))
  {
  }

  lemma XorPowTwo(p: Pixel)
    ensures XorPow(p, 2) == XorSettled(p)
  {
    XorPowStep(p, 1);
    XorPowStep(p, 2);
    XorTwice(p);
  }

  lemma XorPowNext(p: Pixel, n: nat)
    requires n >= 3 && XorPow(p, n - 1) == XorSettled(p)
    ensures XorPow(p, n) == XorSettled(p)
  {
    XorPowStep(p, n);
    XorSettledFixed(p);
  }

  /** From the second application on the xor operation changes nothing. */
  lemma {:induction false} XorPowSettles(p: Pixel, n: nat)
    requires n >= 2
    ensures XorPow(p, n) == XorSettled(p)
  {
    if n == 2 {
      XorPowTwo(p);
    } else {
      XorPowSettles(p, n - 1);
      XorPowNext(p, n);
    }
  }

  /** `randColor`: the coin `rand.Intn(1)` only ever shows 0, so the offset
      is always added, wrapping modulo 256. */
  function RandColor(v: Byte, key: Coin, d: Offset): (c: Byte)
    ensures c == (v + d) % 256
  {
    if key == 0 then Lo8(v + d) else Lo8(v - d)
  }

  /** One pixel of `RandFilter`: the three colour bytes jittered by their own
      offsets, alpha stored back unchanged. */
  function RandPixel(p: Pixel, dr: Offset, dg: Offset, db: Offset): (q: Pixel)
    ensures q.r == (p.r + dr) % 256 && q.g == (p.g + dg) % 256 && q.b == (p.b + db) % 256
    ensures q.a == p.a
  {
    var r, g, b, a := Lo8(Widen(p.r)), Lo8(Widen(p.g)), Lo8(Widen(p.b)), Lo8(Widen(p.a));
    LowByteOfWiden(p.r);
    LowByteOfWiden(p.g);
    LowByteOfWiden(p.b);
    LowByteOfWiden(p.a);
    Pixel(RandColor(r, 0, dr), RandColor(g, 0, dg), RandColor(b, 0, db), a)
  }
}
