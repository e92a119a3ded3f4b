/** The command line of dither.go: `inputParseAndOpen` decides from the
    argument list (program name first) which file to fry and how many times,
    and `main` picks the animated or the still path and the output name.

    Opening the file and `strconv.Atoi` are outside the model and come in as
    parameters: `opens(name)` says whether `os.Open` succeeds, `atoi(s)` is
    the number `s` spells, if any. */
module Cli {
  import Grid
  import Filters
  import Frames

  datatype Option<T> = None | Some(value: T)

  datatype Result<T, E> = Ok(value: T) | Err(error: E)

  /** Why `inputParseAndOpen` exits. A missing name and a name without an
      image suffix give the same message. */
  datatype ArgError = NoImageName | CannotOpen | NotANumber | TooManyArguments

  /** The file to fry and the number of repetitions. */
  datatype Request = Request(name: string, times: int)

  /** `strings.HasSuffix`. */
  predicate EndsWith(s: string, suffix: string)
  {
    |suffix| <= |s| && s[|s| - |suffix|..] == suffix
  }

  /** The three suffixes the program accepts. */
  predicate IsImageName(name: string)
  {
    EndsWith(name, ".png") || EndsWith(name, ".jpg") || EndsWith(name, ".gif")
  }

  /** `inputParseAndOpen`. */
  function ParseArgs(args: seq<string>, opens: string -> bool, atoi: string -> Option<int>): (r: Result<Request, ArgError>)
    ensures r.Ok? <==>
      && (|args| == 2 || |args| == 3)
      && IsImageName(args[1]) && opens(args[1])
      && (|args| == 3 ==> atoi(args[2]).Some?)
    ensures r.Ok? ==> r.value.name == args[1]
    ensures r.Ok? && |args| == 2 ==> r.value.times == 1
    ensures r.Ok? && |args| == 3 ==> r.value.times == atoi(args[2]).value
    ensures r == Err(NoImageName) <==> |args| <= 1 || !IsImageName(args[1])
    ensures r == Err(CannotOpen) <==> 1 < |args| && IsImageName(args[1]) && !opens(args[1])
    ensures r == Err(NotANumber) <==> |args| == 3 && IsImageName(args[1]) && opens(args[1]) && atoi(args[2]).None?
    ensures r == Err(TooManyArguments) <==> 3 < |args| && IsImageName(args[1]) && opens(args[1])
  {
    if |args| <= 1 then Err(NoImageName)
    else if !IsImageName(args[1]) then Err(NoImageName)
    else if !opens(args[1]) then Err(CannotOpen)
    else if |args| == 3 then
      match atoi(args[2])
      case None => Err(NotANumber)
      case Some(n) => Ok(Request(args[1], n))
    else if |args| > 3 then Err(TooManyArguments)
    else Ok(Request(args[1], 1))
  }

  /** The two paths of `main`. */
  datatype Route = Animated | Still

  /** What `main` does with an accepted request: which path, the repetition
      count, and the name of the file it writes. */
  datatype Job = Job(input: string, output: string, route: Route, times: int)

  const OutputPrefix := "fryd"

  /** `main` after a successful `inputParseAndOpen`: a `.gif` name takes the
      frame path, every other accepted name the random filter. */
  function Plan(req: Request): (j: Job)
    ensures j.input == req.name && j.times == req.times
    ensures j.output == OutputPrefix + req.name
    ensures j.route == Animated <==> EndsWith(req.name, ".gif")
  {
    Job(req.name, OutputPrefix + req.name, if EndsWith(req.name, ".gif") then Animated else Still, req.times)
  }

  /** The encoder `main` picks on the still path from the format name the
      decoder reported. */
  datatype Encoding = PngOut | JpegOut | Unrecognized

  function EncodingOf(format: string): (e: Encoding)
    ensures e == PngOut <==> format == "png"
    ensures e == JpegOut <==> format == "jpeg"
  {
    if format == "png" then PngOut else if format == "jpeg" then JpegOut else Unrecognized
  }

  /** What the still path works on: the RGBA copy of the decoded image, the
      width and height `image.DecodeConfig` reports, and the format name
      `image.Decode` reports. */
  datatype StillFile = StillFile(copy: Grid.Raster, width: int, height: int, format: string)

  /** What `main` hands to the encoder of the output file: the fried still
      image with the encoder picked for it, or the outcome of the frame
      loop. A `Failed` outcome stands for the nil GIF `main` passes on when
      decoding failed; the decoder's message in it is not written anywhere,
      since `main` drops that error, and the program then panics in
      `gif.EncodeAll` on the nil GIF after creating an empty output file. */
  datatype Written =
    | StillWritten(output: string, image: Grid.Raster, encoding: Encoding)
    | GifWritten(output: string, outcome: Frames.Outcome)

  /** `main`: parse the arguments, then fry either the frames of the GIF or
      the still image, and name the output after the input. The decoded
      file comes in both ways, as `still` and as `decoded`; only the one of
      the chosen path is used. */
  function Run(args: seq<string>, opens: string -> bool, atoi: string -> Option<int>,
               still: StillFile, decoded: Frames.Decoded, noise: Filters.Noise,
               quantize: Frames.Quantizer): (r: Result<Written, ArgError>)
    requires still.copy.Valid()
    requires decoded.Decoded? ==> Frames.FramesValid(decoded.frames)
    ensures r.Err? <==> ParseArgs(args, opens, atoi).Err?
    ensures r.Err? ==> r.error == ParseArgs(args, opens, atoi).error
    ensures r.Ok? ==>
      var times := if |args| == 2 then 1 else atoi(args[2]).value;
      && (EndsWith(args[1], ".gif") ==>
            r.value == GifWritten(OutputPrefix + args[1], Frames.FryGif(decoded, times, quantize)))
      && (!EndsWith(args[1], ".gif") ==>
            r.value == StillWritten(OutputPrefix + args[1],
                                    Filters.Repeat(Filters.Jitter(noise), still.copy, still.width, still.height, times),
                                    EncodingOf(still.format)))
  {
    match ParseArgs(args, opens, atoi)
    case Err(e) => Err(e)
    case Ok(req) =>
      var job := Plan(req);
      if job.route == Animated then
        Ok(GifWritten(job.output, Frames.FryGif(decoded, job.times, quantize)))
      else
        Ok(StillWritten(job.output,
                        Filters.Repeat(Filters.Jitter(noise), still.copy, still.width, still.height, job.times),
                        EncodingOf(still.format)))
  }

  // ------------------------------------------------------------------ lemmas

  /** With only an image name the file is fried exactly once: one `RandFilter`
      repetition on the still path, one dither repetition per frame on the
      GIF path. */
  lemma TwoArgumentsFryOnce(args: seq<string>, opens: string -> bool, atoi: string -> Option<int>,
                            still: StillFile, decoded: Frames.Decoded, noise: Filters.Noise,
                            quantize: Frames.Quantizer)
    requires still.copy.Valid()
    requires decoded.Decoded? ==> Frames.FramesValid(decoded.frames)
    requires |args| == 2 && IsImageName(args[1]) && opens(args[1])
    ensures Run(args, opens, atoi, still, decoded, noise, quantize).Ok?
    ensures EndsWith(args[1], ".gif") ==>
      Run(args, opens, atoi, still, decoded, noise, quantize).value.outcome == Frames.FryGif(decoded, 1, quantize)
    ensures !EndsWith(args[1], ".gif") ==>
      Run(args, opens, atoi, still, decoded, noise, quantize).value.image
        == Filters.Repeat(Filters.Jitter(noise), still.copy, still.width, still.height, 1)
  {
  }

  /** An unopenable image name stops the program with `CannotOpen` before
      the rest of the argument list is looked at, however long it is. */
  lemma OpenCheckedFirst(args: seq<string>, opens: string -> bool, atoi: string -> Option<int>,
                         still: StillFile, decoded: Frames.Decoded, noise: Filters.Noise,
                         quantize: Frames.Quantizer)
    requires still.copy.Valid()
    requires decoded.Decoded? ==> Frames.FramesValid(decoded.frames)
    requires |args| >= 2 && IsImageName(args[1]) && !opens(args[1])
    ensures Run(args, opens, atoi, still, decoded, noise, quantize) == Err(CannotOpen)
  {
  }

  /** A name ending in the suffix still ends in it with anything put in
      front. */
  lemma EndsWithAfterPrefix(prefix: string, s: string, suffix: string)
    requires EndsWith(s, suffix)
    ensures EndsWith(prefix + s, suffix)
  {
    var t := prefix + s;
    assert t[|t| - |suffix|..] == s[|s| - |suffix|..];
  }

  /** The prefix cannot make a name end in a suffix no longer than the name
      when the name itself does not. */
  lemma EndsWithPrefixOnly(prefix: string, s: string, suffix: string)
    requires |suffix| <= |s| && EndsWith(prefix + s, suffix)
    ensures EndsWith(s, suffix)
  {
    var t := prefix + s;
    assert t[|t| - |suffix|..] == s[|s| - |suffix|..];
  }

  /** The output file of an accepted name is an image name with the same
      suffix, so it takes the same path if it is fed back in. */
  lemma OutputKeepsSuffix(req: Request)
    requires IsImageName(req.name)
    ensures IsImageName(Plan(req).output)
    ensures EndsWith(Plan(req).output, ".gif") <==> EndsWith(req.name, ".gif")
    ensures Plan(Request(Plan(req).output, req.times)).route == Plan(req).route
  {
    var out := OutputPrefix + req.name;
    if EndsWith(req.name, ".png") { EndsWithAfterPrefix(OutputPrefix, req.name, ".png"); }
    if EndsWith(req.name, ".jpg") { EndsWithAfterPrefix(OutputPrefix, req.name, ".jpg"); }
    if EndsWith(req.name, ".gif") {
      EndsWithAfterPrefix(OutputPrefix, req.name, ".gif");
    } else {
      assert |".gif"| <= |req.name|;
      if EndsWith(out, ".gif") {
        EndsWithPrefixOnly(OutputPrefix, req.name, ".gif");
      }
    }
  }
}
