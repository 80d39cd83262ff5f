/** The benchmark driver: it picks the input and output paths and the kernel
    from the command line, loads the bitmap, convolves it into a zero-filled
    buffer over warm-up and timed rounds, and saves the result. Files are
    abstracted as functions from paths to byte strings, and `std::stoi` as a
    function that yields None where it would throw. */
module Harness {
  import opened Options
  import opened Bytes
  import opened Bitmap
  import opened Convolution
  import opened ConvolutionLaws

  const DefaultInput := "test.bmp"
  const DefaultOutput := "output.bmp"
  /** The kernel size every call passes, whatever the kernel's length. */
  const KernelSize := 3
  const WarmupRounds := 10
  const TimedRoundsDefault := 1
  const TimedRoundsCustom := 10

  /** How the argument vector (program name first) is read. */
  datatype Mode =
    | DefaultRun
    | UsageError
    | CustomRun(input: string, output: string, kernelArgs: seq<string>)

  function SelectMode(args: seq<string>): Mode {
    if |args| == 1 then DefaultRun
    else if |args| < 3 then UsageError
    else CustomRun(args[1], args[2], args[3..])
  }

  /** The weights parsed from the kernel arguments; None when some argument is
      not a number (the conversion throws and the program stops). */
  function ParseKernel(texts: seq<string>, stoi: string -> Option<int>): (r: Option<seq<int>>)
    ensures r.Some? ==> |r.value| == |texts| && forall i :: 0 <= i < |texts| ==> stoi(texts[i]) == Some(r.value[i])
    ensures r.None? ==> exists i :: 0 <= i < |texts| && stoi(texts[i]).None?
  {
    if texts == [] then Some([])
    else match stoi(texts[0])
      case None => None
      case Some(w) =>
        match ParseKernel(texts[1..], stoi)
        case None => None
        case Some(ws) => Some([w] + ws)
  }

  /** The edge-detection kernel unless kernel arguments are given. */
  function CustomKernel(texts: seq<string>, stoi: string -> Option<int>): Option<seq<int>> {
    if texts == [] then Some(EdgeDetect) else ParseKernel(texts, stoi)
  }

  /** The kernel of a run: the sharpening kernel without arguments. */
  function ChosenKernel(kernelArgs: Option<seq<string>>, stoi: string -> Option<int>): Option<seq<int>> {
    match kernelArgs
    case None => Some(Sharpen)
    case Some(texts) => CustomKernel(texts, stoi)
  }

  /** Why a run stops without an exit code of its own. */
  datatype Fault =
    | ImageSizeOutOfRange   // width*height*3 is negative or overflows: resize throws
    | InvalidKernelArgument // std::stoi throws on a kernel argument
    | KernelTooShort        // fewer than 3*3 weights: the kernel is read out of bounds

  datatype SavedFile = SavedFile(path: string, bytes: seq<byte>)

  datatype Outcome =
    | Exited(code: int, saved: Option<SavedFile>)
    | Stopped(fault: Fault)

  const FreshImage := Image(DefaultFileHeader, DefaultInfoHeader, [])

  function Zeros(n: nat): (r: seq<byte>)
    ensures |r| == n && forall i :: 0 <= i < n ==> r[i] == 0
  {
    seq(n, _ => 0)
  }

  /** The convolution parameters of a loaded image and a kernel. */
  function ImageParams(img: Image, kernel: seq<int>): Params {
    Params(img.data, img.info.width, img.info.height, kernel, KernelSize)
  }

  /** What one run does once the paths and the kernel are chosen. */
  function Process(inPath: string, outPath: string, kernel: Option<seq<int>>,
                   files: string -> Option<seq<byte>>, writable: string -> bool): Outcome
  {
    var (status, img) := LoadImage(FreshImage, files(inPath));
    if status == CannotOpen || status == NotBitmap then Exited(1, None)
    else if status == BadDimensions then Stopped(ImageSizeOutOfRange)
    else if kernel.None? then Stopped(InvalidKernelArgument)
    else
      var p := ImageParams(img, kernel.value);
      if HasInterior(p) && |kernel.value| < KernelSize * KernelSize then Stopped(KernelTooShort)
      else
        LoadStatusCases(FreshImage, files(inPath));
        var result := Convolved(Zeros(|img.data|), p);
        Exited(0, if writable(outPath) then Some(SavedFile(outPath, Encode(Image(img.header, img.info, result))))
                  else None)
  }

  /** The outcome of the whole program for an argument vector, a file system and
      a number parser. */
  function ProgramOutcome(args: seq<string>, files: string -> Option<seq<byte>>,
                          writable: string -> bool, stoi: string -> Option<int>): Outcome
  {
    match SelectMode(args)
    case UsageError => Exited(1, None)
    case DefaultRun => Process(DefaultInput, DefaultOutput, ChosenKernel(None, stoi), files, writable)
    case CustomRun(i, o, ks) => Process(i, o, ChosenKernel(Some(ks), stoi), files, writable)
  }

  // ---------------------------------------------------------------------------
  // The driver

  /** Convolves the loaded image into a zero-filled buffer for the warm-up and
      the timed rounds, stores the result as the image's pixels and saves it. */
  method ConvolveAndSave(bmp: Bmp, kernel: seq<int>, timedRounds: nat, outPath: string, writable: string -> bool)
    returns (outcome: Outcome)
    requires |bmp.data| == bmp.infoHeader.width * bmp.infoHeader.height * 3
    modifies bmp
    ensures var p := ImageParams(old(bmp.Contents()), kernel);
      outcome ==
        if HasInterior(p) && |kernel| < KernelSize * KernelSize then Stopped(KernelTooShort)
        else
          var result := Convolved(Zeros(|old(bmp.data)|), p);
          Exited(0, if writable(outPath)
                    then Some(SavedFile(outPath, Encode(Image(old(bmp.header), old(bmp.infoHeader), result))))
                    else None)
    ensures var p := ImageParams(old(bmp.Contents()), kernel);
      if outcome.Stopped? then bmp.Contents() == old(bmp.Contents())
      else bmp.header == old(bmp.header) && bmp.infoHeader == old(bmp.infoHeader)
           && bmp.data == Convolved(Zeros(|old(bmp.data)|), p)
  {
    var input := bmp.data;
    var width, height := bmp.infoHeader.width, bmp.infoHeader.height;
    var p := Params(input, width, height, kernel, KernelSize);
    if HasInterior(p) && |kernel| < KernelSize * KernelSize {
      return Stopped(KernelTooShort);
    }
    var output := new byte[|input|](_ => 0);
    ghost var zeros := output[..];
    assert zeros == Zeros(|input|);
    var round := 0;
    while round < WarmupRounds + timedRounds
      invariant 0 <= round <= WarmupRounds + timedRounds
      invariant output[..] == if round == 0 then zeros else Convolved(zeros, p)
      modifies output
    {
      ApplyConvolution(input, output, width, height, kernel, KernelSize);
      ConvolveIdempotent(zeros, p);
      round := round + 1;
    }
    bmp.data := output[..];
    var written := bmp.Save(writable(outPath));
    assert written.Some? ==> written.value == written.value[..HeadersSize] + written.value[HeadersSize..];
    outcome := Exited(0, if written.Some? then Some(SavedFile(outPath, written.value)) else None);
  }

  /** Loads the input, picks the kernel (the sharpening kernel for a run without
      arguments, otherwise CustomKernel of the kernel arguments) and runs the rounds. */
  method LoadAndConvolve(inPath: string, outPath: string, kernelArgs: Option<seq<string>>, timedRounds: nat,
                         files: string -> Option<seq<byte>>, writable: string -> bool, stoi: string -> Option<int>)
    returns (outcome: Outcome)
    ensures outcome == Process(inPath, outPath, ChosenKernel(kernelArgs, stoi), files, writable)
  {
    var bmp := new Bmp();
    var status := bmp.Load(files(inPath));
    LoadStatusCases(FreshImage, files(inPath));
    if status == CannotOpen || status == NotBitmap {
      return Exited(1, None);
    }
    if status == BadDimensions {
      return Stopped(ImageSizeOutOfRange);
    }
    var kernel := Sharpen;
    if kernelArgs.Some? {
      var parsed := CustomKernel(kernelArgs.value, stoi);
      if parsed.None? {
        return Stopped(InvalidKernelArgument);
      }
      kernel := parsed.value;
    }
    outcome := ConvolveAndSave(bmp, kernel, timedRounds, outPath, writable);
  }

  /** The program: argument handling, load, convolution rounds and save. */
  method RunProgram(args: seq<string>, files: string -> Option<seq<byte>>,
                    writable: string -> bool, stoi: string -> Option<int>)
    returns (outcome: Outcome)
    ensures outcome == ProgramOutcome(args, files, writable, stoi)
  {
    if |args| == 1 {
      outcome := LoadAndConvolve(DefaultInput, DefaultOutput, None, TimedRoundsDefault, files, writable, stoi);
    } else if |args| < 3 {
      outcome := Exited(1, None);
    } else {
      outcome := LoadAndConvolve(args[1], args[2], Some(args[3..]), TimedRoundsCustom, files, writable, stoi);
    }
  }
}

module HarnessLaws {
  import opened Options
  import opened Bytes
  import opened Bitmap
  import opened Convolution
  import opened ConvolutionLaws
  import opened Harness

  /** The input path, output path and kernel of the run SelectMode picks;
      a usage error has none of them. */
  function InputPath(args: seq<string>): string {
    match SelectMode(args)
    case DefaultRun => DefaultInput
    case CustomRun(i, _, _) => i
    case UsageError => ""
  }

  function OutputPath(args: seq<string>): string {
    match SelectMode(args)
    case DefaultRun => DefaultOutput
    case CustomRun(_, o, _) => o
    case UsageError => ""
  }

  function KernelOf(args: seq<string>, stoi: string -> Option<int>): Option<seq<int>> {
    match SelectMode(args)
    case DefaultRun => ChosenKernel(None, stoi)
    case CustomRun(_, _, ks) => ChosenKernel(Some(ks), stoi)
    case UsageError => None
  }

  /** Any invocation that is not a run without arguments needs an input and an
      output path; without them the program exits with 1 and writes nothing. */
  lemma MissingPathsExitOne(args: seq<string>, files: string -> Option<seq<byte>>,
                            writable: string -> bool, stoi: string -> Option<int>)
    requires |args| != 1 && |args| < 3
    ensures ProgramOutcome(args, files, writable, stoi) == Exited(1, None)
  {
  }

  /** An input that cannot be opened, or that does not start with "BM", makes
      the program exit with 1 without writing anything. */
  lemma BadInputExitsOne(args: seq<string>, files: string -> Option<seq<byte>>,
                         writable: string -> bool, stoi: string -> Option<int>)
    requires |args| == 1 || |args| >= 3
    requires var f := files(InputPath(args));
      f.None? || (|f.value| >= 2 && (f.value[0] != 'B' as int || f.value[1] != 'M' as int))
    ensures ProgramOutcome(args, files, writable, stoi) == Exited(1, None)
  {
    LoadStatusCases(FreshImage, files(InputPath(args)));
  }

  /** The kernel of a run without arguments is the sharpening kernel; with only
      paths it is the edge-detection kernel; otherwise the parsed arguments. */
  lemma KernelSelection(args: seq<string>, stoi: string -> Option<int>)
    ensures |args| == 1 ==> KernelOf(args, stoi) == Some(Sharpen)
    ensures |args| == 3 ==> KernelOf(args, stoi) == Some(EdgeDetect)
    ensures |args| > 3 && KernelOf(args, stoi).Some? ==>
      |KernelOf(args, stoi).value| == |args| - 3 &&
      forall i :: 3 <= i < |args| ==> stoi(args[i]) == Some(KernelOf(args, stoi).value[i - 3])
  {
  }

  /** What a run that saved a file did: it loaded the input, found a usable
      kernel and saved the headers it loaded over the convolution of a
      zero-filled buffer. */
  lemma SavedRun(args: seq<string>, files: string -> Option<seq<byte>>,
                 writable: string -> bool, stoi: string -> Option<int>)
    requires ProgramOutcome(args, files, writable, stoi).Exited?
    requires ProgramOutcome(args, files, writable, stoi).saved.Some?
    ensures files(InputPath(args)).Some? && KernelOf(args, stoi).Some?
    ensures var out := ProgramOutcome(args, files, writable, stoi);
      var (status, img) := LoadImage(FreshImage, files(InputPath(args)));
      var p := ImageParams(img, KernelOf(args, stoi).value);
      && out.code == 0 && status == Loaded
      && img.header.fileType == BmpMagic && ValidDimensions(img.info)
      && |img.data| == img.info.width * img.info.height * 3
      && WellShaped(p)
      && out.saved.value.path == OutputPath(args)
      && out.saved.value.bytes == Encode(Image(img.header, img.info, Convolved(Zeros(|img.data|), p)))
  {
    var inPath, outPath, kernel := InputPath(args), OutputPath(args), KernelOf(args, stoi);
    assert ProgramOutcome(args, files, writable, stoi) == Process(inPath, outPath, kernel, files, writable);
    SavedProcess(inPath, outPath, kernel, files, writable);
  }

  lemma SavedProcess(inPath: string, outPath: string, kernel: Option<seq<int>>,
                     files: string -> Option<seq<byte>>, writable: string -> bool)
    requires Process(inPath, outPath, kernel, files, writable).Exited?
    requires Process(inPath, outPath, kernel, files, writable).saved.Some?
    ensures files(inPath).Some? && kernel.Some?
    ensures var out := Process(inPath, outPath, kernel, files, writable);
      var (status, img) := LoadImage(FreshImage, files(inPath));
      var p := ImageParams(img, kernel.value);
      && out.code == 0 && status == Loaded
      && img.header.fileType == BmpMagic && ValidDimensions(img.info)
      && |img.data| == img.info.width * img.info.height * 3
      && WellShaped(p)
      && out.saved.value.path == outPath
      && out.saved.value.bytes == Encode(Image(img.header, img.info, Convolved(Zeros(|img.data|), p)))
  {
    LoadStatusCases(FreshImage, files(inPath));
    var loaded := LoadImage(FreshImage, files(inPath));
    assert loaded.0 == Loaded;
  }

  /** A successful run exits with 0, and a saved file starts with the input's
      headers byte for byte, followed by one pixel buffer of the input's size. */
  lemma SavedFileLayout(args: seq<string>, files: string -> Option<seq<byte>>,
                        writable: string -> bool, stoi: string -> Option<int>)
    requires ProgramOutcome(args, files, writable, stoi).Exited?
    requires ProgramOutcome(args, files, writable, stoi).saved.Some?
    ensures files(InputPath(args)).Some?
    ensures var out := ProgramOutcome(args, files, writable, stoi);
      var img := LoadImage(FreshImage, files(InputPath(args))).1;
      && out.code == 0
      && out.saved.value.path == OutputPath(args)
      && |out.saved.value.bytes| == HeadersSize + |img.data|
      && out.saved.value.bytes[..HeadersSize] == SerializeHeaders(img.header, img.info)
    ensures |files(InputPath(args)).value| >= HeadersSize ==>
      ProgramOutcome(args, files, writable, stoi).saved.value.bytes[..HeadersSize]
        == files(InputPath(args)).value[..HeadersSize]
  {
    SavedRun(args, files, writable, stoi);
    var f := files(InputPath(args));
    if |f.value| >= HeadersSize {
      LoadReadsPixelsAtOffset(FreshImage, f.value);
    }
  }

  /** Each saved pixel byte: the clamped weighted sum at an interior pixel, and 0
      at a border pixel, since the output buffer starts zero-filled. */
  lemma SavedPixel(args: seq<string>, files: string -> Option<seq<byte>>,
                   writable: string -> bool, stoi: string -> Option<int>, x: int, y: int, c: int)
    requires ProgramOutcome(args, files, writable, stoi).Exited?
    requires ProgramOutcome(args, files, writable, stoi).saved.Some?
    requires var img := LoadImage(FreshImage, files(InputPath(args))).1;
      0 <= x < img.info.width && 0 <= y < img.info.height && 0 <= c < 3
    ensures var img := LoadImage(FreshImage, files(InputPath(args))).1;
      var p := ImageParams(img, KernelOf(args, stoi).value);
      var bytes := ProgramOutcome(args, files, writable, stoi).saved.value.bytes;
      && KernelOf(args, stoi).Some? && WellShaped(p)
      && 0 <= HeadersSize + Idx(p.width, x, y, c) < |bytes|
      && bytes[HeadersSize + Idx(p.width, x, y, c)]
           == if Interior(p, x, y) then ExpectedChannel(p, x, y, c) else 0
  {
    SavedRun(args, files, writable, stoi);
    var img := LoadImage(FreshImage, files(InputPath(args))).1;
    var p := ImageParams(img, KernelOf(args, stoi).value);
    var zeros := Zeros(|img.data|);
    IdxInBounds(p.width, p.height, x, y, c);
    if Interior(p, x, y) {
      ConvolvedInterior(zeros, p, x, y, c);
    } else {
      ConvolvedBorder(zeros, p, x, y, c);
    }
  }

  /** A saved file whose input had its pixels right after the headers loads back
      as the convolved image. */
  lemma SavedFileReloads(args: seq<string>, files: string -> Option<seq<byte>>,
                         writable: string -> bool, stoi: string -> Option<int>, prev: Image)
    requires ProgramOutcome(args, files, writable, stoi).Exited?
    requires ProgramOutcome(args, files, writable, stoi).saved.Some?
    requires LoadImage(FreshImage, files(InputPath(args))).1.header.offsetData == HeadersSize
    ensures var img := LoadImage(FreshImage, files(InputPath(args))).1;
      var p := ImageParams(img, KernelOf(args, stoi).value);
      && KernelOf(args, stoi).Some? && WellShaped(p)
      && LoadImage(prev, Some(ProgramOutcome(args, files, writable, stoi).saved.value.bytes))
           == (Loaded, Image(img.header, img.info, Convolved(Zeros(|img.data|), p)))
  {
    SavedRun(args, files, writable, stoi);
    var img := LoadImage(FreshImage, files(InputPath(args))).1;
    var p := ImageParams(img, KernelOf(args, stoi).value);
    LoadOfEncode(prev, Image(img.header, img.info, Convolved(Zeros(|img.data|), p)));
  }
}
