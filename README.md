# CUDA convolution analyzer: the CPU convolution benchmark and the result validator, in Dafny

This project models two programs of the convolution analyzer.

- The OpenMP benchmark (`Convolution.cpp`):
  - reads a 24-bit BMP file: a packed 14-byte file header, a packed 40-byte info header, and `width*height*3` pixel bytes read from the header's data offset;
  - convolves the interior pixels with a 3×3 kernel, clamping each channel to [0, 255];
  - runs the convolution for 10 warm-up rounds and then the timed rounds;
  - writes the headers it loaded, followed by the convolved pixels;
  - chooses its paths and kernel from the command line. With no arguments it uses `test.bmp` → `output.bmp` with the sharpening kernel. With two paths it uses the edge-detection kernel. Extra arguments are the user's kernel weights.
- The validator (`validate_results.cpp`):
  - for each benchmark size, collects the output files whose path contains `output_<size>_`;
  - adds the GPU build's file when that file exists;
  - byte-compares every collected file with the first one, reading both in 4096-byte chunks.

Modules:

- `Options`, `Bytes` (bytes.dfy): fixed-width unsigned and signed integers and their little-endian byte codecs.
- `Bitmap` (bitmap.dfy):
  - the header records with their serialisation and parsing;
  - `LoadImage`, a function stating what `load` does;
  - the `Bmp` class, whose `Load` and `Save` update or read its fields.
- `Convolution` (convolution.dfy):
  - the convolution's specification functions (`ChannelSum`, `ExpectedChannel`, `Convolved`);
  - `ApplyConvolution`, the in-place loop nest over an `array`, proved against those functions.
- `ConvolutionLaws` and `IdentityKernel` (convolution.dfy): what those functions imply:
  - border pixels are left alone;
  - rows write disjoint byte ranges, so any order of rows gives the same result;
  - the convolution is idempotent;
  - effect on uniform images and behaviour with the identity kernel.
- `Harness` and `HarnessLaws` (harness.dfy):
  - `main` as a function of the argument vector, the file system, writability and a number parser;
  - the imperative driver, proved equal to that function;
  - the laws about exit codes, kernel choice and the saved file.
- `Validate` and `ValidateLaws` (validate.dfy):
  - an input-stream class with `read`/`gcount`/`eof` semantics;
  - the chunked `FilesAreIdentical`;
  - the per-size candidate collection and verdict.

Files are byte strings: `None` stands for a file that cannot be opened.

## Model

| member | source | states |
|---|---|---|
| Bytes.LeValueOfLeBytes | Convolution.cpp:8-32 | decoding the n little-endian bytes of any value below 256^n gives the value back |
| Bytes.LeBytesOfLeValue | Convolution.cpp:8-32 | encoding the decoded value of a byte string in as many bytes gives the string back |
| Bytes.I32Bytes | Convolution.cpp:19-20 | a signed 32-bit field is written as four bytes whose two's-complement reading is the field |
| Bytes.ReadI32 | Convolution.cpp:19-20 | reading a signed field from four bytes and writing it again gives the same four bytes |
| Bitmap.ParseSerializeFileHeader | Convolution.cpp:9-15 | parsing the 14 serialised file-header bytes gives back every field |
| Bitmap.SerializeParseFileHeader | Convolution.cpp:9-15 | any 14 bytes are the serialisation of the header parsed from them |
| Bitmap.ParseSerializeInfoHeader | Convolution.cpp:17-31 | parsing the 40 serialised info-header bytes gives back every field, signed ones included |
| Bitmap.SerializeParseInfoHeader | Convolution.cpp:17-31 | any 40 bytes are the serialisation of the info header parsed from them |
| Bitmap.HeadersRoundTrip | Convolution.cpp:8-32 | the 54-byte header block and the pair of records are in one-to-one correspondence, both directions |
| Bitmap.Overlay | Convolution.cpp:46-47 | after the two header reads, each of the 54 header bytes is the file's byte where the file reaches it, and the previous byte otherwise |
| Bitmap.Available | Convolution.cpp:55-56 | the pixel read gets at most n bytes, exactly the file's bytes [offset, offset+n) when the file is long enough |
| Bitmap.LoadStatusCases | Convolution.cpp:39-58 | the CannotOpen status arises exactly when the file cannot be opened; a file of at least two bytes not starting with "BM" gets NotBitmap; a successful load has width*height*3 pixel bytes |
| Bitmap.LoadReadsPixelsAtOffset | Convolution.cpp:46-56 | after a successful load of a file of at least 54 bytes, the headers are the file's first 54 bytes and the pixels are the bytes at the data offset when the file holds them |
| Bitmap.LoadShortPixelRead | Convolution.cpp:54-56 | a short pixel read goes undetected: the buffer holds the bytes the file has from the data offset, then what resizing left (zeros for a fresh bitmap) |
| Bitmap.Encode | Convolution.cpp:68-70 | the saved file is 54 + \|data\| bytes long and ends with the pixel buffer |
| Bitmap.LoadOfEncode | Convolution.cpp:39-73 | loading a saved bitmap whose pixels follow the headers restores its headers and pixels, whatever the loading object held |
| Bitmap.Bmp.Load | Convolution.cpp:39-59 | the status and the new fields are those LoadImage gives for the old fields and the file |
| Bitmap.Bmp.Save | Convolution.cpp:61-73 | a file is written exactly when it can be opened: the serialised headers followed by the pixel buffer |
| Convolution.Clamp | Convolution.cpp:95-97 | a sum saturates to 0 below zero and to 255 above 255, and is kept unchanged in between |
| Convolution.IdxOfCoords | Convolution.cpp:87-94 | every buffer index is the index of its own pixel column, row and channel |
| Convolution.PixelSums | Convolution.cpp:84-93 | the three accumulators end as the weighted window sums of channels 0, 1, 2 over the kernel in row-major order |
| Convolution.ConvolveRow | Convolution.cpp:83-98 | one parallel iteration sets every interior pixel of its row to the clamped sum and changes nothing else |
| Convolution.ApplyConvolution | Convolution.cpp:78-100 | the output becomes Convolved(old output): the clamped sums at interior pixels, the old bytes elsewhere |
| Convolution.RowsUpdatedAddRow | Convolution.cpp:82 | running one more row after a set of rows is running the set with that row |
| ConvolutionLaws.ConvolvedInterior | Convolution.cpp:82-97 | each channel of an interior pixel is min(max(weighted sum, 0), 255) |
| ConvolutionLaws.ConvolvedBorder | Convolution.cpp:82-83 | each byte of a pixel within kHalf of an edge is left as it was |
| ConvolutionLaws.SmallImageUntouched | Convolution.cpp:82-83 | an image narrower or lower than the kernel is not written at all |
| ConvolutionLaws.ConvolveIdempotent | Convolution.cpp:116-121 | convolving again into the same output buffer leaves it unchanged |
| ConvolutionLaws.InteriorIndependentOfOutput | Convolution.cpp:89-97 | interior output bytes depend only on the input and the kernel, not on what the output held |
| ConvolutionLaws.RowWriteFootprint | Convolution.cpp:81-94 | iteration y writes only indices in [y*width*3, (y+1)*width*3) |
| ConvolutionLaws.RowWritesDisjoint | Convolution.cpp:81-94 | two different row iterations never change the same byte |
| ConvolutionLaws.RowsUpdatedCompose | Convolution.cpp:81-82 | running one set of rows and then another equals running their union |
| ConvolutionLaws.RunRowsAnyOrder | Convolution.cpp:81-82 | running rows one after another in any order, with repetitions, updates exactly the set of rows run |
| ConvolutionLaws.AnyScheduleConvolves | Convolution.cpp:81-82 | any schedule that runs each interior row gives the same output as the sequential loop |
| ConvolutionLaws.UniformRowTaps | Convolution.cpp:86-91 | over a uniform image, a kernel row's taps add up to the value times the sum of that row's weights |
| ConvolutionLaws.UniformWindowSum | Convolution.cpp:85-92 | over a uniform image, the window sum is the value times the sum of the kernel weights read so far |
| ConvolutionLaws.UniformImage | Convolution.cpp:84-97 | over a uniform image, an interior pixel becomes the clamped value times the kernel's weight sum |
| ConvolutionLaws.SharpenKeepsUniform | Convolution.cpp:112 | the default sharpening kernel leaves a uniform image's interior as it is |
| ConvolutionLaws.EdgeDetectZeroesUniform | Convolution.cpp:142 | the edge-detection kernel turns a uniform image's interior to 0 |
| IdentityKernel.IdentityRowTaps | Convolution.cpp:86-91 | with the identity kernel only the centre tap of the middle kernel row contributes |
| IdentityKernel.IdentityWindowSum | Convolution.cpp:85-92 | with the identity kernel the window sum is the centre input byte |
| IdentityKernel.IdentityKernelCopiesInterior | Convolution.cpp:84-97 | the identity kernel copies every interior byte of the input |
| Harness.ParseKernel | Convolution.cpp:143-148 | the kernel holds one weight per argument, each the parse of its argument, in order; parsing fails exactly when some argument does not parse |
| Harness.ConvolveAndSave | Convolution.cpp:114-128 | after the warm-up and timed rounds, the bitmap keeps its headers and holds the convolution of a zero-filled buffer, and the file saved is those headers over those pixels; a kernel too short for a non-empty interior stops the run with the bitmap unchanged |
| Harness.LoadAndConvolve | Convolution.cpp:136-177 | load, kernel choice, rounds and save give the outcome Process specifies |
| Harness.RunProgram | Convolution.cpp:105-181 | the program's outcome for an argument vector is ProgramOutcome |
| HarnessLaws.MissingPathsExitOne | Convolution.cpp:131-134 | an invocation with exactly one command-line argument (argument vector of length 2), or an empty argument vector, exits with 1 without writing |
| HarnessLaws.BadInputExitsOne | Convolution.cpp:107-139 | an input that does not open or does not start with "BM" makes the program exit with 1 without writing |
| HarnessLaws.KernelSelection | Convolution.cpp:112-148 | no arguments: the sharpening kernel; only two paths: the edge-detection kernel; otherwise one parsed weight per extra argument |
| HarnessLaws.SavedRun | Convolution.cpp:105-181 | a run that saved a file exited 0 after a successful load with a usable kernel, and saved the loaded headers followed by the convolution of zeros |
| HarnessLaws.SavedProcess | Convolution.cpp:136-177 | the same for one load-convolve-save pass with given paths and kernel |
| HarnessLaws.SavedFileLayout | Convolution.cpp:127-177 | the saved file is 54 + \|pixels\| bytes and starts with the input's first 54 bytes |
| HarnessLaws.SavedPixel | Convolution.cpp:82-150 | each saved pixel byte is the clamped weighted sum at an interior pixel and 0 at a border pixel |
| HarnessLaws.SavedFileReloads | Convolution.cpp:39-73 | loading the saved file gives back the loaded headers and the convolved pixels when the input's pixels followed its headers |
| Validate.InStream.Read | validate_results.cpp:33-37 | a read copies min(n, remaining) bytes from the position into the buffer, advances by that count, and sets end-of-file exactly when fewer than n bytes remained |
| Validate.FilesAreIdentical | validate_results.cpp:8-47 | the result is true exactly when both files open and hold the same bytes, so a file that does not open and a size difference give false |
| Validate.CheckSize | validate_results.cpp:59-101 | the candidates collected, the files reported as differing and the closing message are those SizeVerdict specifies |
| Validate.ValidateAll | validate_results.cpp:51-58 | every size is checked in order against the listing of the first argument's directory, "./output" without one |
| ValidateLaws.MatchingMembers | validate_results.cpp:61-68 | a path is collected exactly when some regular file with that path contains the size token |
| ValidateLaws.CandidatesShape | validate_results.cpp:61-79 | the candidates are the matching files in listing order, with the GPU file appended last when it exists; no matching file means no candidates |
| ValidateLaws.NoCandidatesSkipped | validate_results.cpp:70-73 | a size without matching files is skipped with nothing compared |
| ValidateLaws.DifferingMembers | validate_results.cpp:83-91 | a path is reported as differing exactly when it is a candidate after the reference whose file is not identical to the reference's; the report is empty exactly when every later candidate is identical |
| ValidateLaws.VerdictMeaning | validate_results.cpp:81-101 | all files match iff each later candidate is identical to the reference; "all valid" needs more than one candidate; a lone candidate gets the single-file message |

## Left out

- Timing and statistics (`Convolution.cpp:120-125, 155-175`): wall-clock measurements and double-precision mean and variance are outside the model. The timed loops are modelled only as repeated convolution rounds.
- Printed messages: the text on stdout and stderr is not modelled. The validator's differing files and closing message are modelled as data in `SizeReport`.
- OpenMP scheduling (`Convolution.cpp:81`): the row loop runs sequentially. `ConvolutionLaws.AnyScheduleConvolves` and `RowWritesDisjoint` state why any split of rows among threads gives the same bytes.
- Operating-system calls are parameters: file contents, whether the output can be written, `std::filesystem::exists`, the directory listing and its order, and `std::stoi` (a function that returns None where `stoi` would throw).
- A directory that cannot be listed makes `directory_iterator` throw. This is not modelled: the listing is a given sequence of entries.
- Convolution.ApplyConvolution: does not model the 32-bit `int` accumulators and index products. Sums use unbounded integers, so a weighted sum that would overflow `int` (undefined behaviour in C++) is not reproduced.
- Harness.Process: the abnormal endings are modelled as a `Stopped` outcome rather than as the behaviour the C++ program actually shows. These endings are:
  - a `width*height*3` that is negative or does not fit in `int`, where `resize` throws or the product overflows;
  - a kernel argument that `stoi` rejects;
  - a user kernel with fewer than 9 weights for an image that has interior pixels, where the C++ program reads out of bounds.
- A pixel read shorter than width*height*3 bytes is not detected: `LoadImage` keeps what the short read delivered, and the rest of the resized buffer holds the old contents or zeros (`Bitmap.LoadShortPixelRead`). A file shorter than the 54 header bytes leaves the remaining header bytes as they were and reads no pixels.
- Any kernel with at least 9 weights is accepted and only the first 9 are read; a weight count that is not a square is not rejected (`WellShaped`).
- `generateImages.cpp` (image generation through the stb libraries) and `plot.cpp` (gnuplot scripts) are not part of this model.
