# Image2Hex_Converter in Dafny

Image2Hex_Converter is a console tool. It loads an image as an 8-bit grey-level
grid, adds salt-and-pepper noise to a copy, writes grids to and reads them from
a `.hex` text file, and compares two grids by PSNR. This project models the
three parts of `main.cpp` that carry logic, and proves what they do.

- **PixelGrid.dfy**: the single-channel image. A grid is `rows`, `cols` and `rows * cols`
  samples (`Byte`, 0 to 255) in row-major order. It also holds the offset
  arithmetic behind `at<uchar>(j, i)` and `ptr<uchar>(i)`.
- **TextStream.dfy**: the parts of C++ stream behaviour the codec relies on,
  written as pure functions on the unread text:
  - `>> ch` skips white space;
  - `>> n` reads a decimal number;
  - `>> hex >> x` reads a hex number;
  - `getline`;
  - `<< n` writes a number in decimal;
  - `setfill('0') << setw(2) << hex` writes a byte as two hex digits.
- **HexCodec.dfy**: `saveHex` and `loadHex`.
  - `Encode` is `saveHex` as a function from grid to text.
  - `Decode` is the decoder as a function returning `Result<Grid, DecodeError>`.
  - `LoadHex` is the decoder as a method. It runs `loadHex`'s loops and writes
    each row's tokens through an advancing position into an `array<Byte>`. It is
    proved equal to `Decode`.
  - The round trip `Decode(Encode(g)) == Ok(g)` is proved.
- **NoiseInjector.dfy**: `salt`, `pepper` and `salt_and_pepper` as methods that
  update an `array<Byte>` in place, plus the percent check of the `addnoise`
  command.
  - `rand()` becomes a sequence of draws that the caller passes in.
  - Each sample takes two draws: a column draw, then a row draw.
  - The pepper pass continues the same sequence after the salt pass.
- **QualityMetric.dfy**: the integer part of `PSNR`. This is the sum of squared
  absolute differences, and the sentinel 0 returned when that sum is zero.
- **Wrappers.dfy**: `Option` and `Result`.

## Model

| member | source | states |
|---|---|---|
| PixelGrid.Grid.Row | Image2Hex_Converter/main.cpp:97 | `ptr<uchar>(i)` of a valid grid is a run of exactly `cols` samples |
| PixelGrid.OffsetInBounds | Image2Hex_Converter/main.cpp:51 | the sample at row `j < rows`, column `i < cols` lies inside the `rows * cols` buffer |
| PixelGrid.OffsetCoordinates | Image2Hex_Converter/main.cpp:51 | the offset `j * cols + i` gives back row `j` (by division) and column `i` (by remainder), so row-major addressing is one-to-one |
| PixelGrid.RowOfRest | Image2Hex_Converter/main.cpp:95-97 | once the first row is dropped, the remaining samples form a valid grid whose row `i - 1` is the original row `i` |
| TextStream.DecimalText | Image2Hex_Converter/main.cpp:94 | `<< n` writes a non-empty run of decimal digits whose value is `n`, with no leading zero unless `n` is 0, so the text is the one canonical decimal form of `n` |
| TextStream.HexPair | Image2Hex_Converter/main.cpp:100 | a byte is written as exactly two lower-case hex digits whose value is the byte; the first digit is the fill `'0'` exactly when the byte is below 16 |
| TextStream.ReadChar | Image2Hex_Converter/main.cpp:115 | `>> ch` returns a character that is not white space and consumes at least one character; ReadCharFindsFirst pins it to the first such character |
| TextStream.ReadInt | Image2Hex_Converter/main.cpp:117 | `>> M` and `>> N` (line 124) consume at least one character when they succeed; DigitRunSpan and ReadIntDecimal state which digits they read and the value |
| TextStream.ReadHex | Image2Hex_Converter/main.cpp:135 | one `row >> hex >> x` consumes at least one character when it yields a byte; ReadHexEnd, HexRunSpan and ReadHexPair state when it ends and what it reads |
| TextStream.GetLine | Image2Hex_Converter/main.cpp:128-130 | `getline` fails exactly at the end of the text and otherwise consumes at least one character; LineLengthSpan and GetLineSplit state where the line ends |
| TextStream.ReadCharFindsFirst | Image2Hex_Converter/main.cpp:115 | `>> ch` returns the first character that is not white space, and the text after it; it fails exactly when only white space is left |
| TextStream.SkipSpaceDropsSpace | Image2Hex_Converter/main.cpp:115 | skipping white space removes exactly a prefix made only of white space |
| TextStream.DigitRunSpan | Image2Hex_Converter/main.cpp:117 | the digits `>> M` consumes are all decimal digits, and are the longest such run |
| TextStream.HexRunSpan | Image2Hex_Converter/main.cpp:135 | the digits `>> hex >> x` consumes are all hex digits, and are the longest such run |
| TextStream.LineLengthSpan | Image2Hex_Converter/main.cpp:128-130 | `getline` stops at the first line break, and never before it |
| TextStream.ReadHexEnd | Image2Hex_Converter/main.cpp:135 | `row >> hex >> x` finds nothing to read exactly when only white space is left |
| TextStream.ReadIntDecimal | Image2Hex_Converter/main.cpp:117-124 | a decimal number followed by a non-digit is read back as that number, leaving exactly the following text |
| TextStream.ReadHexPair | Image2Hex_Converter/main.cpp:135 | a two-digit hex pair followed by white space or the end of the line is read back as that byte |
| TextStream.SkipLeadingSpace | Image2Hex_Converter/main.cpp:115-135 | every extraction skips white space in front of its token |
| TextStream.GetLineSplit | Image2Hex_Converter/main.cpp:128-130 | `getline` on a line ended by a line break returns that line and leaves exactly the text after the break |
| HexCodec.HeaderText | Image2Hex_Converter/main.cpp:94 | the header line `M = <rows> N = <cols>` holds no line break; HeaderRoundTrip reads it back |
| HexCodec.RowText | Image2Hex_Converter/main.cpp:98-101 | a row of `n` samples is written as `3 * n` characters; RowTextAt and RowTextChars give each character |
| HexCodec.RowsText | Image2Hex_Converter/main.cpp:95-103 | the data lines, one per row; RowsTextLines shows that line `i` is row `i`'s text |
| HexCodec.Encode | Image2Hex_Converter/main.cpp:90-105 | `saveHex` without the file; its layout is stated by EncodeLayout and its inverse by RoundTrip |
| HexCodec.RowTextChars | Image2Hex_Converter/main.cpp:98-101 | a row's text holds only spaces and lower-case hex digits, and so no line break |
| HexCodec.RowTextAt | Image2Hex_Converter/main.cpp:98-101 | sample `j` of a row occupies characters `3j` to `3j + 2` of the row's text: its two hex digits, then one space |
| HexCodec.RowsTextLines | Image2Hex_Converter/main.cpp:95-103 | the data text splits into exactly `rows` lines, and line `i` is the text of row `i` |
| HexCodec.EncodeLayout | Image2Hex_Converter/main.cpp:94-103 | the encoded text has `rows + 1` lines; the first is `M = <rows> N = <cols>`; every data line has `3 * cols` characters; token `j` of data line `i` is sample `(i, j)` as two hex digits and a space; the text ends with a line break, the one written after the last row (or after the header when there are no rows) |
| HexCodec.EncodeExample | Image2Hex_Converter/main.cpp:94-103 | the 2 by 3 grid 255 0 127 / 1 2 3 is written as `M = 2 N = 3`, `ff 00 7f `, `01 02 03 ` |
| HexCodec.ScanToEquals | Image2Hex_Converter/main.cpp:113-116 | the `'='` scan as a function, characterised by ScanToEqualsFirst and ScanPast |
| HexCodec.ScanToEqualsFirst | Image2Hex_Converter/main.cpp:113-116 | the scan for `'='` stops right after the first `'='`, and fails when there is none |
| HexCodec.ScanPast | Image2Hex_Converter/main.cpp:113-123 | after a label without `'='`, the scan leaves exactly the text that follows the `'='` |
| HexCodec.DecodeRequiresEquals | Image2Hex_Converter/main.cpp:113-123 | a text with no `'='` is rejected with `MissingEquals` (the original never stops reading) |
| HexCodec.ScanEquals | Image2Hex_Converter/main.cpp:113-116 | the `while (ch != '=')` loop computes the scan, and stops at the end of the text |
| HexCodec.ParseHeader | Image2Hex_Converter/main.cpp:111-128 | the header part of `loadHex` as a function; HeaderRoundTrip shows it reads back the header `saveHex` writes, and DecodeRequiresEquals its error for a missing `'='` |
| HexCodec.ReadHeader | Image2Hex_Converter/main.cpp:111-128 | the header part of `loadHex`: `M` after the first `'='`, `N` after the second, then the rest of the header line is skipped |
| HexCodec.HeaderRoundTrip | Image2Hex_Converter/main.cpp:94-128 | the header `saveHex` writes is read back as the same `rows` and `cols`, followed by exactly the data text |
| HexCodec.Lines | Image2Hex_Converter/main.cpp:130 | the lines the `getline` loop returns, one after another; GetLineSplit and RowsTextLines state them for the text `saveHex` writes |
| HexCodec.ParseRow | Image2Hex_Converter/main.cpp:132-136 | an accepted data line yields exactly `cols` samples; ParseRowCounts gives both directions against the token list |
| HexCodec.DecodeLines | Image2Hex_Converter/main.cpp:129-137 | accepted data yields exactly `rows * cols` samples; DecodeLinesAccepts and DecodeLinesPlacement state when data is accepted and where each token goes |
| HexCodec.ParseRowCounts | Image2Hex_Converter/main.cpp:132-136 | a data line is accepted exactly when all its tokens are well formed and there are exactly `cols` of them; fewer give `RowTooShort`, more give `RowTooLong` |
| HexCodec.DecodeLinesAccepts | Image2Hex_Converter/main.cpp:129-137 | the data lines are accepted exactly when there are at least `rows` of them (or the rows have no columns), those that stand for rows are rows of `cols` tokens, and every later line is blank |
| HexCodec.DecodeLinesRowOk | Image2Hex_Converter/main.cpp:129-137 | in accepted data, each of the first `rows` lines exists when rows have columns, and every such line that exists is a well-formed row |
| HexCodec.DecodeLinesPlacement | Image2Hex_Converter/main.cpp:130-136 | in accepted data, the tokens of an existing data line `i` become samples `i * cols` to `i * cols + cols - 1`, in order |
| HexCodec.Decode | Image2Hex_Converter/main.cpp:107-141 | an accepted text yields a grid whose sample count is `rows * cols` |
| HexCodec.ReadRow | Image2Hex_Converter/main.cpp:132-136 | The loop that reads one line's hex tokens into the buffer changes only the row's own segment, leaving the samples before and after it as they were. On success the segment holds exactly the line's tokens. Otherwise the error is the one the line's tokens call for |
| HexCodec.CopyTokens | Image2Hex_Converter/main.cpp:135-136 | the copy loop writes only from `start` to the end of what it wrote, never past the row; it stops at the first extraction with no token or when the row is full, and what it wrote, in front of what the rest of the line reads as, is what the whole line reads as |
| HexCodec.ReadLine | Image2Hex_Converter/main.cpp:130 | one `getline` takes the first line off the text and leaves a shorter text |
| HexCodec.ReadBody | Image2Hex_Converter/main.cpp:126-137 | the `getline` loop fills the `rows * cols` buffer exactly as the data lines are decoded, or stops with the same error |
| HexCodec.LoadHex | Image2Hex_Converter/main.cpp:107-141 | the method, with its loops and in-place writes, returns exactly what the decoder function returns |
| HexCodec.RowRoundTrip | Image2Hex_Converter/main.cpp:98-136 | a row as `saveHex` writes it is read back as the same samples |
| HexCodec.RowsRoundTrip | Image2Hex_Converter/main.cpp:95-137 | the data lines `saveHex` writes are read back as the same samples, in row-major order |
| HexCodec.RoundTrip | Image2Hex_Converter/main.cpp:90-141 | decoding the encoded text of any grid gives back the same `rows`, `cols` and samples |
| HexCodec.SaveThenLoad | Image2Hex_Converter/main.cpp:90-141 | `loadHex` run on what `saveHex` wrote returns the grid that was saved |
| HexCodec.ZeroColumnsExample | Image2Hex_Converter/main.cpp:111-137 | the header `M = 2 N = 0` with no data lines after it reads as a grid of 2 rows, no columns and no samples |
| HexCodec.DecodeExample | Image2Hex_Converter/main.cpp:107-141 | the example text is read back as the 2 by 3 grid |
| NoiseInjector.DrawnOffset | Image2Hex_Converter/main.cpp:46-51 | every drawn sample, column `rand() % cols` and row `rand() % rows`, lies inside the buffer |
| NoiseInjector.DrawnCoordinates | Image2Hex_Converter/main.cpp:46-51 | the drawn offset is the sample `at(j, i)`: its row is the second draw modulo `rows` and its column is the first draw modulo `cols` |
| NoiseInjector.Sprinkled | Image2Hex_Converter/main.cpp:44-52 | one pass of `salt` or `pepper` over the samples, in draw order, keeping their number; SprinkledAt states the value of each sample |
| NoiseInjector.SprinkledAt | Image2Hex_Converter/main.cpp:44-52 | after a pass, a sample holds the pass's value if any draw of the pass landed on it, and its old value otherwise |
| NoiseInjector.Sprinkle | Image2Hex_Converter/main.cpp:44-52 | the shared loop of `salt` and `pepper` makes the buffer the pass's result, writing in draw order |
| NoiseInjector.Salt | Image2Hex_Converter/main.cpp:42-60 | `salt` sets the `n` drawn samples to 255, in draw order, and changes nothing else |
| NoiseInjector.Pepper | Image2Hex_Converter/main.cpp:62-80 | `pepper` sets the `n` drawn samples to 0, in draw order, and changes nothing else |
| NoiseInjector.DrawnSetSize | Image2Hex_Converter/main.cpp:44-52 | a pass of `n` draws lands on at most `n` distinct samples; repeated draws are not replaced by fresh ones |
| NoiseInjector.NoiseCount | Image2Hex_Converter/main.cpp:84-85 | `noise` as the pixel count times the percent over 200, rounded down; NoiseCountBounds bounds it |
| NoiseInjector.NoiseCountBounds | Image2Hex_Converter/main.cpp:84-85 | `noise` is 0 at 0 percent, at most half the pixel count up to 100 percent, and exactly half (rounded down) at 100 percent |
| NoiseInjector.NoiseNeedsPixels | Image2Hex_Converter/main.cpp:84-85 | a non-zero `noise` implies a grid with rows and columns, so `% rows` and `% cols` are defined |
| NoiseInjector.SaltAndPepper | Image2Hex_Converter/main.cpp:82-88 | `salt_and_pepper` makes the buffer the salt pass followed by the pepper pass, both with `noise` draws |
| NoiseInjector.Noisy | Image2Hex_Converter/main.cpp:82-88 | the samples after `salt_and_pepper`, as many as before; NoisyAt and NoisyChangesFew state what changed |
| NoiseInjector.NoisyAt | Image2Hex_Converter/main.cpp:82-88 | after `salt_and_pepper`, a sample is 0 if a pepper draw hit it (pepper runs last), else 255 if a salt draw hit it, else unchanged |
| NoiseInjector.ZeroPercentUnchanged | Image2Hex_Converter/main.cpp:84-87 | at 0 percent the grid comes out unchanged |
| NoiseInjector.NoisyChangesFew | Image2Hex_Converter/main.cpp:82-88 | `salt_and_pepper` changes at most `2 * noise` samples, and every changed sample becomes 0 or 255 |
| NoiseInjector.AddNoise | Image2Hex_Converter/main.cpp:238-256 | `addnoise` is accepted exactly for a percent in [0, 100]. If refused, the noisy grid is left as it was. If accepted, the noisy grid is a fresh copy of the original with `salt_and_pepper` applied |
| QualityMetric.AbsDiff | Image2Hex_Converter/main.cpp:170 | `absdiff` of two samples is their difference taken in whichever order makes it non-negative |
| QualityMetric.SquaredError | Image2Hex_Converter/main.cpp:170-172 | the squared difference of two samples is at most 255 * 255, and zero exactly when the samples are equal |
| QualityMetric.Sse | Image2Hex_Converter/main.cpp:170-176 | `sum(s1)` of the squared differences; SseSymmetric, SseZeroIff, SseBound and SseMonotone state its properties |
| QualityMetric.SseSymmetric | Image2Hex_Converter/main.cpp:170-176 | the sum of squared differences does not depend on which grid comes first |
| QualityMetric.SseZeroIff | Image2Hex_Converter/main.cpp:170-179 | the sum of squared differences is zero exactly when the two sample sequences are equal |
| QualityMetric.SseChanged | Image2Hex_Converter/main.cpp:170-176 | the sum is at most 255 * 255 times the number of differing samples |
| QualityMetric.SseBound | Image2Hex_Converter/main.cpp:170-176 | the sum over `n` samples is at most `n` times 255 * 255 |
| QualityMetric.SseMonotone | Image2Hex_Converter/main.cpp:170-176 | if every sample of `a` is at least as close to the reference as the same sample of `b`, the sum for `a` is at most the sum for `b` |
| QualityMetric.Psnr | Image2Hex_Converter/main.cpp:167-186 | comparing grids of different shapes is an error. Otherwise the result is the sentinel 0 exactly when the grids are equal, and otherwise a ratio whose error energy is the sum of squared differences and lies in (0, 255 * 255 * samples] |
| QualityMetric.PsnrMonotone | Image2Hex_Converter/main.cpp:167-186 | a copy no farther from the reference, sample by sample, than another copy scores the sentinel whenever the other does, and otherwise has no larger error energy |
| QualityMetric.PsnrSymmetric | Image2Hex_Converter/main.cpp:167-186 | comparing `x` with `y` gives the same result as comparing `y` with `x` |
| QualityMetric.NoisyScore | Image2Hex_Converter/main.cpp:266-268 | comparing the original with its noisy copy always succeeds. The error energy is at most 255 * 255 * 2 * `noise`, and at 0 percent the result is the sentinel 0 |

## Left out

- `loadImage` (`main.cpp:143-165`) is not modelled.
  - It is OpenCV `imread`, `cvtColor` and `resize`, with a floating-point scale factor.
  - As written, it converts its `image` parameter to grey levels (line 151),
    but takes the size from the global `oImg` (line 152) and resizes `oImg`
    (line 158). At its only call (line 213) `image` is `oImg`, so there the two agree.
- The floating-point part of `PSNR` is not modelled: the `mse` division, `10 * log10(...)` and the
  `1e-10` threshold. `QualityMetric.Score.Ratio` carries the two integers the
  decibel value is computed from.
  - On integer squared differences the `sse <= 1e-10` test is `sse == 0`.
  - The float32 squares and the double sums are exact for any grid of fewer than
    2^53 / 65025 samples. The model sums exact integers.
- The colour (`Vec3b`) branches of `salt` and `pepper` (lines 53-58, 73-78) are left out.
  Every grid that reaches them has already been converted to grey levels.
- `rand()` is not modelled. Its values are a sequence of draws passed in, each in
  [0, 0x7FFF] (`RAND_MAX` of the Microsoft C runtime the program targets).
- The console and GUI are not modelled: `clear_screen`, `main`, the command
  loop, the command dispatch and help text of `decode_cmd`, `imshow`, `waitKey`
  and `imwrite`.
- File open and close in `saveHex` and `loadHex` are left out, as are the `.hex`
  suffix and the fixed paths. The codec works on in-memory text.
  - `Encode` is the text as the stream is given it, not the bytes on disk. The
    program targets Windows, where a text-mode `ofstream` writes each `endl` as
    a carriage return and a line feed, and `ifstream` reads that pair back as
    one `'\n'`. The layout proved here is that of the text before this translation.
- The global `Mat` slots `oImg`, `nImg` and `fImg` (line 40) are not modelled;
  grids are passed explicitly.
- NoiseInjector.AddNoise: the `saveHex` and `imwrite` calls in the accepted branch
  are file output and are left out. The text written is `HexCodec.Encode` of the result.
- NoiseInjector.AddNoise: `copyTo` may reuse the buffer of `nImg` when it already
  has the right size. The model always allocates a fresh copy, so it does not
  capture that aliasing.
- NoiseInjector.SaltAndPepper: `image.rows * image.cols` and the conversion of
  `noise` to `uint` are taken as exact. Overflow of the pixel count in `int` is not modelled.
- NoiseInjector.Salt: with `n > 0` on an empty grid the original divides by
  zero. The model requires a non-empty grid whenever a sample is drawn.
- HexCodec.Decode: a token of more than two hex digits is rejected (`BadToken`).
  The original reads it as an `int` and stores it truncated to 8 bits. A token
  whose value exceeds `INT_MAX` (`100000000`, `80000000`) fails to extract, so
  the original stores nothing for it and ends the row there.
- HexCodec.Decode: a `0x` prefix or a sign in a data token is rejected
  (`BadToken`). The original accepts the prefix and the sign.
- HexCodec.Decode: a token whose hex digits are followed directly by other
  characters (`ffg`) is rejected (`BadToken`). The original stores the value of
  the digits (255 here) and then carries on from the other characters. The row
  ends there unless they begin a signed number: `ff-1` stores 255, then 255
  again, and `ff+1` stores 255, then 1.
- HexCodec.Decode: a token with no hex digit at all (`ff ;`, or a line starting
  with `#`) is rejected (`BadToken`). The original stores the tokens before it
  and ends the row there without an error.
- HexCodec.Decode: a header whose `N` has no digits (`M = 2 N = x`) is rejected
  (`BadDimension`). The original's failed `file >> N` stores 0, so it returns an
  image of `M` rows and no columns.
- HexCodec.Decode: a header whose `M` has no digits is rejected
  (`BadDimension`). The original's failed `file >> M` leaves the stream failed,
  so its second scan for `'='` never ends.
- HexCodec.Decode: a dimension with a sign, or too large for `int`, is not read
  as the original reads it. Only unsigned decimal digits are accepted, and their
  value is unbounded.
- HexCodec.Decode: the original's pointer overruns are rejected rather than
  followed. There are four cases:
  - a line with more than `cols` tokens (`RowTooLong`): the original writes into
    the next row or past the image;
  - a line with fewer tokens (`RowTooShort`): the original leaves samples
    uninitialised;
  - a non-blank line after `rows` data lines (`TooManyRows`): when the line
    starts with a hex token, the original writes past the image; when it does
    not (`#`), the original writes nothing and ignores the line;
  - fewer than `rows` data lines when `cols > 0` (`TooFewRows`): the original
    leaves rows uninitialised. With `cols == 0` there is nothing to fill, and
    the model, like the original, returns a grid of `rows` rows and no samples.

  A blank line inside the data is a row with no tokens, so it gives
  `RowTooShort`. Blank lines after the last row are accepted, as in the original.
- QualityMetric.Psnr: the sentinel 0 for identical grids breaks the order of
  the returned values. Identical grids score 0, below every `Ratio`, although
  a smaller error energy otherwise means a higher score. SseMonotone and
  PsnrMonotone state the order on the error energy, and the sentinel case separately.
- HexCodec.DecodeRequiresEquals: a header without its `'='` makes the original
  read for ever. The model returns `MissingEquals` instead.
