/** `SplitAnimatedGIF` in dither.go: every frame of a decoded animated GIF
    goes through the grey dither filter over its own width and height, is
    mapped back onto its own palette, and joins a new frame list in which
    every delay is 8 hundredths of a second.

    Decoding is done before this model starts: a frame comes as the RGBA
    raster `draw.Draw` copies it into, with the frame's palette. That copy
    takes the source point (0, 0), so for a frame whose rectangle does not
    start at the origin it is shifted against the decoded frame. Mapping a
    raster back onto a palette is a library routine and comes in as the
    parameter `quantize`. */
module Frames {
  import opened Pixels
  import opened Grid
  import opened Passes
  import opened Filters

  /** `color.Palette`. */
  type Palette = seq<Pixel>

  /** One decoded frame: the RGBA raster its pixels are copied into, and its
      palette. */
  datatype Frame = Frame(image: Raster, palette: Palette)

  /** What `gif.DecodeAll` gives back: the frames with their delays, or an
      error. */
  datatype Decoded = Decoded(frames: seq<Frame>, delays: seq<int>) | DecodeError(msg: string)

  /** `image.Paletted`: a rectangle, a palette and one palette index per
      pixel. */
  datatype Paletted = Paletted(rect: Rect, palette: Palette, indices: seq<seq<int>>)

  /** The `Image` and `Delay` lists of a `gif.GIF`. */
  datatype Gif = Gif(images: seq<Paletted>, delays: seq<int>)

  /** The two results of `SplitAnimatedGIF`: the decoder's error and no GIF,
      or no error and the new GIF. */
  datatype Outcome = Failed(err: string) | Fried(gif: Gif)

  /** `draw.Draw` of an RGBA raster onto a fresh `image.Paletted` with the
      given palette. */
  type Quantizer = (Raster, Palette) -> seq<seq<int>>

  /** The frame delay every output frame gets. */
  const FrameDelay := 8

  predicate FramesValid(frames: seq<Frame>)
  {
    forall i :: 0 <= i < |frames| ==> frames[i].image.Valid()
  }

  /** The raster `ditherFilter` makes of a frame: the grey dither filter over
      the loop range [0, Dx) x [0, Dy) of the frame's own rectangle. */
  function Dithered(f: Frame, times: int): (r: Raster)
    requires f.image.Valid()
    ensures r.Valid() && r.rect == f.image.rect
  {
    Repeat(Grey, f.image, f.image.rect.Dx(), f.image.rect.Dy(), times)
  }

  /** The output frame for a frame: the dithered raster mapped onto the
      frame's own palette, over the frame's own rectangle. */
  function FryFrame(f: Frame, times: int, quantize: Quantizer): (p: Paletted)
    requires f.image.Valid()
    ensures p.rect == f.image.rect && p.palette == f.palette
  {
    var altered := Dithered(f, times);
    Paletted(altered.rect, f.palette, quantize(altered, f.palette))
  }

  /** The result of `SplitAnimatedGIF` as a value: the decoder's error, or
      the fried frames of the decoded GIF with delay 8 each. */
  function FryGif(decoded: Decoded, times: int, quantize: Quantizer): (out: Outcome)
    requires decoded.Decoded? ==> FramesValid(decoded.frames)
    ensures decoded.DecodeError? <==> out.Failed?
    ensures decoded.DecodeError? ==> out.err == decoded.msg
    ensures decoded.Decoded? ==>
      && |out.gif.images| == |decoded.frames|
      && |out.gif.delays| == |decoded.frames|
      && (forall i :: 0 <= i < |decoded.frames| ==> out.gif.delays[i] == FrameDelay)
      && (forall i :: 0 <= i < |decoded.frames| ==> out.gif.images[i] == FryFrame(decoded.frames[i], times, quantize))
  {
    match decoded
    case DecodeError(msg) => Failed(msg)
    case Decoded(frames, _) =>
      Fried(Gif(seq(|frames|, i requires 0 <= i < |frames| => FryFrame(frames[i], times, quantize)),
                seq(|frames|, _ => FrameDelay)))
  }

  /** The frame loop. A decoder error comes back as it is, with no frames;
      otherwise there is one output frame per input frame, in the same
      order, each the fried version of its input frame, and every delay is 8
      whatever the input delays were. */
  method SplitAnimatedGif(decoded: Decoded, times: int, quantize: Quantizer) returns (out: Outcome)
    requires decoded.Decoded? ==> FramesValid(decoded.frames)
    ensures decoded.DecodeError? <==> out.Failed?
    ensures decoded.DecodeError? ==> out.err == decoded.msg
    ensures decoded.Decoded? ==>
      && |out.gif.images| == |decoded.frames|
      && |out.gif.delays| == |decoded.frames|
      && (forall i :: 0 <= i < |decoded.frames| ==> out.gif.delays[i] == FrameDelay)
      && (forall i :: 0 <= i < |decoded.frames| ==> out.gif.images[i] == FryFrame(decoded.frames[i], times, quantize))
    ensures out == FryGif(decoded, times, quantize)
  {
    if decoded.DecodeError? {
      return Failed(decoded.msg);
    }
    var frames := decoded.frames;
    var images: seq<Paletted> := [];
    var delays: seq<int> := [];
    for i := 0 to |frames|
      invariant |images| == i && |delays| == i
      invariant forall j :: 0 <= j < i ==> delays[j] == FrameDelay
      invariant forall j :: 0 <= j < i ==> images[j] == FryFrame(frames[j], times, quantize)
    {
      var src := frames[i];
      var altered := DitherFilter(src.image, src.image.rect.Dx(), src.image.rect.Dy(), times);
      var bounds := altered.rect;
      var frame := Paletted(bounds, src.palette, quantize(altered, src.palette));
      delays := delays + [FrameDelay];
      images := images + [frame];
    }
    out := Fried(Gif(images, delays));
    var spec := FryGif(decoded, times, quantize);
    assert images == spec.gif.images;
    assert delays == spec.gif.delays;
  }

  /** A copied raster of black and white pixels only is mapped onto the
      frame's palette unchanged, whatever the number of repetitions. */
  lemma BlackAndWhiteFrame(f: Frame, times: int, quantize: Quantizer)
    requires f.image.Valid()
    requires forall x, y :: f.image.rect.Contains(x, y) ==> BlackOrWhite(At(f.image, x, y))
    ensures FryFrame(f, times, quantize) == Paletted(f.image.rect, f.palette, quantize(f.image, f.palette))
  {
    DitherFixesBlackAndWhiteRaster(Grey, f.image, f.image.rect.Dx(), f.image.rect.Dy(), times);
  }

  /** The loop range is [0, Dx) x [0, Dy), not the frame's rectangle: in a
      frame that does not start at the origin, a pixel right of column Dx or
      below row Dy keeps the value of the copied raster. */
  lemma BeyondSizeUnchanged(f: Frame, times: int, x: int, y: int)
    requires f.image.Valid()
    requires x > f.image.rect.Dx() || y > f.image.rect.Dy()
    ensures At(Dithered(f, times), x, y) == At(f.image, x, y)
  {
    DitherOutOfReach(Grey, f.image, f.image.rect.Dx(), f.image.rect.Dy(), times, x, y);
  }

  /** A frame whose rectangle starts right of column Dx or below row Dy is
      not touched by the dither filter at all. */
  lemma FarFrameUnchanged(f: Frame, times: int)
    requires f.image.Valid()
    requires f.image.rect.minX > f.image.rect.Dx() || f.image.rect.minY > f.image.rect.Dy()
    ensures Dithered(f, times) == f.image
  {
    var r := Dithered(f, times);
    forall x, y | f.image.rect.Contains(x, y)
      ensures At(r, x, y) == At(f.image, x, y)
    {
      BeyondSizeUnchanged(f, times, x, y);
    }
    Extensionality(r, f.image);
  }
}
