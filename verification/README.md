# go-dither filter engine in Dafny

A model of the filter engine of go-dither, with proofs about it. The engine
takes an image (or every frame of an animated GIF) and runs one of four
pixel filters over it a given number of times:

- **RandFilter** jitters each colour byte by a random offset.
- **DitherFilter** is a grey error-diffusion dither.
- **DitherFilterColor** is the same dither per channel.
- **XorFilter** mixes the channels with xor.

The model covers the filters in `filters/filters.go` and their copies in
`dither.go`. It also covers the GIF frame loop `SplitAnimatedGIF` and the
argument rules of `inputParseAndOpen` and `main`.

## Modules

| file | module | what it holds |
|---|---|---|
| `bits.dfy` | `Bits` | Bitwise xor on naturals, bit by bit. Go's 32-bit `^` on `uint32` is `Xor32`. |
| `pixels.dfy` | `Pixels` | Per-pixel arithmetic: the 16-bit read-back `257*v`, `uint8` truncation, round-half-to-even, the threshold quantiser, the `dither`/`dithercolor` update, `xor`, `randColor`. |
| `grid.dfy` | `Grid` | The `image.RGBA` raster: a rectangle that need not start at the origin. `At` outside it answers transparent black, and `Set` outside it does nothing. |
| `passes.dfy` | `Passes` | One repetition as nested loops over [0, w) x [0, h), proved equal to a pixel-by-pixel closed form. Repetitions of a pass, and what they keep. |
| `filters.dfy` | `Filters` | The four filters and their properties. |
| `frames.dfy` | `Frames` | `SplitAnimatedGIF`. |
| `cli.dfy` | `Cli` | `inputParseAndOpen` and the choice of path and output name in `main`. |

### How the Go code is represented

- **Channels.** Pixels hold 8-bit channels. A channel read back through
  `RGBA()` is `Widen(v) = 257*v`. A value stored through `uint8(...)` is
  `Lo8(n) = n mod 256`. The diffused value `dither` truncates is never
  negative and stays below 2^17 (`Pixels.DiffuseNonNeg`).
- **Rounding.** The products with the weights k/16 are exact. The quotient
  `n/255` is rounded, but it never lands within rounding distance of a half,
  so rounding the exact quotient decides the same way. So
  `math.RoundToEven` is modelled on exact quotients.
- **Scan shape.** A kernel pass writes to four neighbours of each scan
  position in the order (x+1, y) 7/16, (x-1, y+1) 3/16, (x, y+1) 5/16 and
  (x+1, y+1) 1/16. Each write reads only its target. So the closed form
  `DitherTrace` runs a pixel's own value through the writes of those of its
  four source positions that lie in the loop range. In scan order these are
  (x-1, y-1), (x, y-1), (x+1, y-1) and (x-1, y).
- **Helpers.** `Grid.Tabulate` builds the closed forms of a pass from a
  per-pixel function; it models no single line of the Go code.
  `Cli.Plan` (the path and output name `main` picks, dither.go:52-54) and
  `Cli.EncodingOf` (the encoder picked from the format name,
  dither.go:68-74) are helpers of `Cli.Run`.
- **Duplicates.** `randFilter`, `ditherFilter`, `dither`, `findClosestColor`
  and `randColor` in `dither.go` are the same code as their
  `filters/filters.go` counterparts, so one model serves both.

### Behaviour of the code worth knowing

- **Xor of (10, 0, 0).** The pixel (10, 0, 0) becomes (10, 10, 10): blue is
  xored with the new red (`Pixels.XorOfTenZeroZero`).
- **Blue with green at 0.** Red is kept, green becomes red, and blue becomes
  `B xor R` (`Pixels.XorWithoutGreen`).
- **Frame delays.** Every output frame gets the delay 8, whatever its input
  delay was.
- **Which filter runs.** The still path always runs the random filter, and
  the animated path always runs the grey dither (`Cli.Run`).
- **Repeat count.** Any integer is accepted. Zero or a negative count runs
  no repetition.
- **Order of argument checks.** A missing name is caught first. The file is
  opened before the number of extra arguments is checked, so an unopenable
  image name is reported as such even with too many arguments
  (`Cli.OpenCheckedFirst`).

## Model

| member | source | states |
|---|---|---|
| Bits.XorBitsTruncate | filters/filters.go:115-117 | Keeping the low m bits of an n-bit xor gives the m-bit xor, so truncating Go's 32-bit xor to a byte is the 8-bit xor. |
| Bits.XorBitsOfLow | filters/filters.go:118 | The m-bit xor looks only at the low m bits of its operands. |
| Pixels.LowByteOfXor | filters/filters.go:114-118 | The low byte of the 32-bit xor of two read-backs is the xor of their low bytes. |
| Pixels.RoundToEven | filters/filters.go:127 | The result is the integer nearest num/den, with ties going to the even neighbour. |
| Pixels.RoundToEvenUnique | filters/filters.go:148 | Any integer meeting the round-half-to-even description equals the result, so the description determines the rounding. |
| Pixels.FindClosestColor | filters/filters.go:147-153 | Returns 0 or 255, and 255 exactly when 128 <= n <= 382. |
| Pixels.FindClosestColor2 | filters/filters.go:155-161 | Returns 0 or 64, and 64 exactly when 33 <= n <= 95; the ties 32 and 96 round to even. |
| Pixels.DiffuseLevel | filters/filters.go:124-127 | The diffused level is the level plus the round-half-to-even value of its quantisation error times k/16. |
| Pixels.DiffuseNonNeg | filters/filters.go:124-128 | For a 16-bit level and a kernel weight the diffused value lies in [0, 2^17), so the `uint8` truncation never sees a negative value. |
| Pixels.ClosestOfWiden | filters/filters.go:123-126 | For a 16-bit read-back 257*v the quantiser answers 255 only when v == 1. |
| Pixels.Dither | filters/filters.go:122-130 | `dither` writes one grey byte to all three channels and keeps alpha. |
| Pixels.DitherColor | filters/filters.go:132-145 | `dithercolor` keeps alpha. |
| Pixels.DitherOnGray | filters/filters.go:122-145 | On a grey pixel (R = G = B), `dither` and `dithercolor` give the same pixel. |
| Pixels.DitherColorChannelwise | filters/filters.go:134-143 | Each output channel of `dithercolor` depends only on the same input channel. |
| Pixels.BlackFixed | filters/filters.go:124-128 | The black level quantises to itself, leaving no error, and stays byte 0 under any weight. |
| Pixels.WhiteFixed | filters/filters.go:124-128 | The white level 65535 diffuses to 65535 + 4096k for each kernel weight k/16, which truncates back to byte 255. |
| Pixels.DitherFixesBlackAndWhite | filters/filters.go:122-145 | Black and white pixels, with any alpha, are fixed points of both `dither` and `dithercolor` for the weights 7, 3, 5 and 1 sixteenths. |
| Pixels.XorPixel | filters/filters.go:113-120 | R' = G' = R xor G and B' = B xor (R xor G), computed with the 32-bit xor on the read-backs. Alpha is kept. |
| Pixels.XorWithoutGreen | filters/filters.go:115-117 | With G = 0: red is kept, green becomes red, and blue becomes B xor R. |
| Pixels.XorOfTenZeroZero | filters/filters.go:113-120 | The pixel (10, 0, 0) becomes (10, 10, 10). |
| Pixels.XorTwice | filters/filters.go:113-120 | Two xor steps give (0, 0, B xor R xor G), with alpha kept. |
| Pixels.XorSettledFixed | filters/filters.go:113-120 | The settled pixel (0, 0, B xor R xor G) is a fixed point of the xor step. |
| Pixels.XorThriceIsTwice | filters/filters.go:113-120 | Three xor steps equal two. |
| Pixels.XorPowSettles | filters/filters.go:78-84 | Any n >= 2 xor steps give the settled pixel. |
| Pixels.RandColor | filters/filters.go:163-170 | The result is (v + d) mod 256. The coin `rand.Intn(1)` has the single value 0, so the subtract branch is never taken. |
| Pixels.RandPixel | filters/filters.go:34-36 | Each colour byte is advanced by its own offset modulo 256, and alpha is stored back unchanged. |
| Grid.At | filters/filters.go:34 | A read outside the rectangle answers transparent black. |
| Grid.SetThenAt | filters/filters.go:34-36 | Reading back a written point gives the written pixel inside the rectangle and transparent black outside it. |
| Grid.Set | filters/filters.go:36 | Only the pixel at (x, y) changes, and only when it lies inside the rectangle. Every other read is unchanged. |
| Passes.PointAt | filters/filters.go:113-120 | A point operation at (x, y) changes that pixel alone, from its own value, and only inside the raster. |
| Passes.PointPassAt | filters/filters.go:31-37 | After a point pass, a pixel of both the loop range and the raster holds the operation applied to its old value, and every other pixel is unchanged. |
| Passes.PointPass | filters/filters.go:79-83 | The two nested loops of the xor and random filters leave exactly the closed-form point pass. |
| Passes.DiffuseAt | filters/filters.go:122-130 | A `dither` call changes only its target, from the target's own value, and only inside the raster. |
| Passes.DitherTraceStep | filters/filters.go:57-60 | Visiting scan position (x, y) adds one write to each of (x+1, y), (x-1, y+1), (x, y+1) and (x+1, y+1), with weights 7, 3, 5 and 1, and to no other pixel. |
| Passes.DitherTraceRowEnd | filters/filters.go:55 | Finishing a row is the same as standing at the start of the next. |
| Passes.DitherTraceDone | filters/filters.go:54 | Once past the last row, every scan position has been visited. |
| Passes.KernelWrites | filters/filters.go:57-60 | The four calls of one scan position diffuse (x+1, y) by 7/16, (x-1, y+1) by 3/16, (x, y+1) by 5/16 and (x+1, y+1) by 1/16, each once from its own value and only inside the raster; every other pixel is unchanged. |
| Passes.KernelWritesAdvance | filters/filters.go:57-60 | The four `dither` calls of one scan position, in source order, advance the closed form by exactly that position. |
| Passes.DitherPass | filters/filters.go:54-62 | The two nested loops with four kernel writes per position leave exactly the closed-form kernel pass. |
| Passes.PointFry | filters/filters.go:30-39 | The repetition loop around point passes runs the given number of passes, and none for a count <= 0. |
| Passes.DitherFry | filters/filters.go:53-63 | The repetition loop around kernel passes runs the given number of passes, and none for a count <= 0. |
| Passes.PointRepeatStepAt | filters/filters.go:30-37 | The last of n point passes transforms a loop-range pixel once more and leaves other pixels alone. |
| Passes.PointRepeatAt | filters/filters.go:30-39 | n point passes apply the operations of the repetitions in turn to each pixel of the loop range inside the raster, and leave every other pixel unchanged. |
| Passes.IterateKeepsAlpha | filters/filters.go:35 | Operations that keep alpha, iterated any number of times, keep alpha. |
| Passes.PointRepeatKeepsAlpha | filters/filters.go:30-39 | Repeated point passes whose operations keep alpha keep every pixel's alpha. |
| Passes.IterateAdd | filters/filters.go:30 | Iterating m operations and then n more, numbered on from m, is iterating m + n. |
| Passes.PointRepeatAddAt | filters/filters.go:30-39 | At each pixel, m point passes followed by n more, numbered on from m, give what m + n passes give. |
| Passes.PointRepeatAdd | filters/filters.go:78-84 | m point passes followed by n more, numbered on from m, give the raster of m + n passes. |
| Passes.DitherRepeatStep | filters/filters.go:53-54 | The last of n kernel passes runs on the result of the first n - 1. |
| Passes.DitherRepeatAdd | filters/filters.go:53-63 | m kernel passes and then n more are m + n kernel passes. |
| Passes.DitherPassOutOfReach | filters/filters.go:54-60 | No kernel write reaches the origin, any pixel right of column w or below row h, or any pixel left of column -1 or above row 0. A kernel pass leaves such pixels unchanged. |
| Passes.DitherPassPointwise | filters/filters.go:122-124 | What a kernel pass leaves at (x, y) depends only on the input pixel at (x, y), not on the pixels of its sources. |
| Passes.DitherPassStable | filters/filters.go:54-62 | A raster whose pixels are all unchanged by every kernel weight goes through a kernel pass unchanged. |
| Passes.DitherPassKeepsAlpha | filters/filters.go:128 | A kernel pass whose step keeps alpha keeps every pixel's alpha. |
| Passes.DitherRepeatOutOfReach | filters/filters.go:53-63 | Any number of kernel passes leaves out-of-reach pixels unchanged. |
| Passes.DitherRepeatStable | filters/filters.go:53-63 | Any number of kernel passes leaves a raster of stable pixels unchanged. |
| Passes.DitherRepeatKeepsAlphaStep | filters/filters.go:53-63 | One more kernel pass keeps the alpha that the earlier passes kept. |
| Passes.DitherRepeatKeepsAlpha | filters/filters.go:53-63 | Any number of kernel passes whose step keeps alpha keep every pixel's alpha. |
| Filters.Repeat | filters/filters.go:20-41 | Every filter returns a raster with the input's rectangle. With a count <= 0 it returns the input unchanged. |
| Filters.Fry | filters/filters.go:30-39 | The repetition loop keeps the rectangle, returns the input for a count <= 0, and runs the chosen filter's passes. |
| Filters.RandFilter | filters/filters.go:20-41 | `RandFilter`: the input's rectangle; the input itself for a count <= 0; otherwise the given number of jitter passes. |
| Filters.DitherFilter | filters/filters.go:43-66 | `DitherFilter`: the input's rectangle; the input itself for a count <= 0; otherwise the given number of grey kernel passes. |
| Filters.XorFilter | filters/filters.go:68-86 | `XorFilter`: the input's rectangle; the input itself for a count <= 0; otherwise the given number of xor passes. |
| Filters.DitherFilterColor | filters/filters.go:88-111 | `DitherFilterColor`: the input's rectangle; the input itself for a count <= 0; otherwise the given number of per-channel kernel passes. |
| Filters.RepeatAdd | filters/filters.go:30-39 | Repetitions compose. Frying m times and then n more times, with the random filter continuing its random numbers, is frying m + n times. |
| Filters.FiltersKeepAlpha | filters/filters.go:35 | Every filter keeps the alpha of every pixel. |
| Filters.IterateXor | filters/filters.go:81 | The xor filter's operations iterated n times are n xor steps. |
| Filters.XorRepeatPointwise | filters/filters.go:78-84 | n xor repetitions apply n xor steps to each pixel of the loop range and leave every other pixel unchanged. |
| Filters.XorSettles | filters/filters.go:78-84 | After n >= 2 repetitions each loop-range pixel inside the raster is (0, 0, B xor R xor G) with its alpha. |
| Filters.XorSettlesAfterTwo | filters/filters.go:78-84 | For any raster and loop range, n >= 2 repetitions give the raster of 2 repetitions. |
| Filters.JitteredCompose | filters/filters.go:166 | Two jitters in a row are one jitter by the summed offsets, modulo 256. |
| Filters.JitteredAccumulate | filters/filters.go:30-36 | One more repetition's offsets add on top of the sums of the earlier ones. |
| Filters.IterateJitter | filters/filters.go:30-36 | n jitter operations advance each colour byte by the sum of its n offsets, modulo 256, and keep alpha. |
| Filters.JitterRepeat | filters/filters.go:30-39 | After n repetitions of `RandFilter`, each loop-range byte is its start value plus all its offsets, modulo 256. Alpha is kept, and pixels outside the loop range are unchanged. |
| Filters.DitherFixesBlackAndWhiteRaster | filters/filters.go:53-63 | A raster of only black and white pixels goes through any number of repetitions of either dither filter unchanged. |
| Filters.DitherOutOfReach | filters/filters.go:98-108 | Whatever the count, either dither filter leaves unchanged the origin and every pixel right of column w, below row h, left of column -1 or above row 0. |
| Frames.Dithered | dither.go:209-211 | Each frame is dithered over its own Dx by Dy loop range and keeps its rectangle. |
| Frames.FryFrame | dither.go:212-214 | The output frame has the dithered raster's rectangle, which is the source frame's rectangle, and the source frame's palette. |
| Frames.FryGif | dither.go:201-221 | The decoder's error comes back as it is. Otherwise there is one fried frame per decoded frame, in order, each with delay 8. |
| Frames.SplitAnimatedGif | dither.go:195-222 | A decode error comes back with no frames. Otherwise there is one output frame per input frame, in order, each its input frame fried. Every delay is 8, whatever the input delays. The loop gives exactly `FryGif`. |
| Frames.BlackAndWhiteFrame | dither.go:208-214 | A copied raster of only black and white pixels is quantised unchanged, whatever the count. |
| Frames.BeyondSizeUnchanged | dither.go:152-159 | The loop covers [0, Dx) x [0, Dy), not the frame's rectangle. A pixel right of column Dx or below row Dy keeps the value of the copied raster. |
| Frames.FarFrameUnchanged | dither.go:210 | A frame whose rectangle starts right of column Dx or below row Dy is not changed by the dither at all. |
| Cli.ParseArgs | dither.go:81-117 | Accepted exactly when there are 2 or 3 arguments, the name ends in .png, .jpg or .gif, the file opens, and a third argument parses. The count is 1 for two arguments, otherwise the parsed value with no sign check. Each error is characterised by its condition, and the open failure wins over the argument count. |
| Cli.Run | dither.go:47-79 | An argument list is rejected exactly when `inputParseAndOpen` rejects it, with the same error. An accepted `.gif` name gives `FryGif` of the decoded GIF; any other accepted name gives that many `RandFilter` repetitions over the header's width and height, with the encoder picked from the format name. The count is 1 for two arguments and otherwise the parsed third one. The output name is "fryd" + the input name. |
| Cli.TwoArgumentsFryOnce | dither.go:105-106 | With only an image name that opens, the program runs and fries exactly once, on either path. |
| Cli.OpenCheckedFirst | dither.go:87-92 | An image name that does not open stops the program with the open error, whatever follows it. |
| Cli.OutputKeepsSuffix | dither.go:54 | The output name of an accepted image name is itself an image name with the same suffix, so it takes the same path. |

## Left out

- File I/O, decoding and encoding, `image.RegisterFormat`, printing and `os.Exit` (dither.go:21-79, filters/filters.go:15-18). An error exit is an `Err` result.
- The `draw.Draw` copy into a fresh `image.RGBA` at the start of each filter (filters/filters.go:24, dither.go:146). Each filter takes the RGBA raster that copy makes. The copy uses the source point (0, 0), so for an image or frame whose rectangle does not start at the origin the copy is shifted by the rectangle's corner and partly transparent black; the model does not relate the copy to the decoded pixels.
- `draw.Draw` onto an `image.Paletted` (dither.go:214) is a library nearest-colour mapping. It is the parameter `quantize` of `Frames.SplitAnimatedGif`.
- `rand.Seed` and `rand.Intn`. The offsets are the parameter `noise(rep, x, y, channel)`, which can hold any value in [0, 9] for each draw. The coin `rand.Intn(1)` is a type with the single value 0.
- `os.Open` and `strconv.Atoi` are the parameters `opens` and `atoi` of `Cli.ParseArgs`.
- `panic`/`recover` in `SplitAnimatedGIF`, and the `gif.GIF` fields the code never sets.
- The GIF path's error in `main` (dither.go:53-58, 78). `main` ignores the error `SplitAnimatedGIF` returns and creates the output file, then panics in `gif.EncodeAll`, which dereferences the nil GIF; the success message is never printed. `Cli.Run` returns the `Failed` outcome, with the decoder's message, in place of what is encoded; the model does not follow the panic.
- `openDecodeFilterStatic` (dither.go:26-45). This covers its decode-error path: it prints the error and carries on with a nil image, and then either exits when `image.DecodeConfig` also fails (dither.go:34-39) or panics at `imageData.Bounds()` inside `randFilter` (dither.go:122). On the still path the filter is `Filters.RandFilter` with the header's width and height as `w` and `h`.
- Go's 64-bit `int`. Counts and coordinates are unbounded integers. No computation here comes near the bound: channel sums stay below 2^18.
