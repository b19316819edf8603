# Gaussian blur and Sobel edge detection over PGM images, in Dafny

This project models the grayscale image pipeline of `q3b.c` (image size
taken at run time) and `q3a.c` (image size fixed at 512 × 512). It also
proves what the pipeline computes. The pipeline has four stages:

1. `read_image` loads a Netpbm PGM file into the row-major buffer `frame1`.
   It reads plain (P2) or raw (P5) files. Before the samples, `openfile`
   reads the magic token, and the comment-tolerant scanner `getint` reads
   the width, height and maximum value.
2. `Gaussian_Blur` convolves `frame1` with a 5 × 5 mask. Neighbours outside
   the image count as 0, the weights sum to 159, and the result goes into
   `filt`.
3. `Sobel` applies the 3 × 3 `GxMask` and `GyMask` to the interior pixels of
   `filt`. It stores the truncated gradient magnitude in `gradient`.
4. `write_image2` writes a buffer as a plain (P2) PGM text.

Files and data are modelled as follows:

- An input file is a sequence of bytes plus a read position. `Scanner.Getc`
  is `getc`: it returns the byte at the position and moves one place on;
  at the end of the data it returns `EOF`, which is -1, and stays put.
- An output file is the string of characters that `fprintf` emits. When it
  is read back, `RoundTrip.Encode` turns each character into one byte, in
  order.
- `Raster.Window` is the zero-padded neighbourhood of a pixel: entry
  (a, b) is the sample at offset (a - r, b - r) from the centre, or 0
  outside the image.
- The three buffers are arrays of bytes that the methods fill in place,
  inside nested loops that carry invariants.
- Each loop method is proved against a specification function:
  - `BlurAt`, `SobelX`, `SobelY` and `Magnitude` for the convolutions;
  - `GetIntSpec` for the scanner;
  - `OpenFileSpec`, `RawSamples`, `P2Scan` and `ReadPgm` for the reader;
  - `PgmText` for the writer.

  The model's properties are proved about these functions.

The main theorem is `RoundTrip.ReadWritten`. It states that when the P2
text written for any `M` × `N` buffer is read back byte by byte:

- `openfile` returns the magic `P2`, the width `M`, the height `N` and the
  maximum value 255;
- `read_image` with that width and height stores exactly the buffer that
  was written.

This holds whatever value the uninitialised `temp` has at the start.

`RoundTrip.ReadRawWritten` is the same statement for the raw (P5) file of
a buffer: the header with the magic `P5`, then one byte per sample. The
program never writes such a file, so it is defined in `RoundTrip.RawFile`.
`RoundTrip.LoadersAgree` puts the two together: the P5 and the P2 loaders
store the same buffer for the same image.

Modules:

- `PgmTypes`: bytes, results and row-major index arithmetic.
- `Kernels`: the masks and the weighted-sum bounds.
- `Raster`: the value each pixel gets.
- `Convolution`: the two passes of `q3b.c`.
- `Scanner`: `getint`, `%s` and `%d`.
- `Reader`: `openfile` and `read_image`.
- `Writer`: `write_image2`.
- `RoundTrip`: reading the written text back.
- `FixedImage`: the static 512 × 512 buffers of `q3a.c`. Its `getint`
  (`q3a.c:209-244`) and `openfile` (`q3a.c:191-207`) are the same code as
  in `q3b.c`, so `Scanner.GetInt` and `Reader.OpenFile` model both.

In three places the code does something other than what one might expect.
The model follows the code:

- **Gradient magnitude.** The magnitude is truncated, not rounded. The code
  converts `sqrt(Gx² + Gy²)` to `unsigned char`, which drops the fraction,
  so the model uses the integer floor square root.
- **Magnitudes above 255.** These are not guaranteed to wrap modulo 256.
  Converting an out-of-range `double` to `unsigned char` is undefined
  behaviour under section 6.3.1.4 of ISO C11, so the model leaves the
  stored value unspecified.
- **Short P5 files.** Trailing samples are not undefined. `getc` returns
  `EOF` there, and narrowing `EOF` to `unsigned char` stores 255.

## Model

| member | source | states |
|---|---|---|
| Kernels.GaussWeights | q3b.c:25-31 | The Gaussian mask is 5 × 5. Its weights are non-negative and sum to the divisor 159. |
| Kernels.SobelWeights | q3b.c:33-43 | Each Sobel mask is 3 × 3 and sums to zero. In each mask the positive weights sum to 4, and so do the negative ones. |
| Kernels.WeightedSumBounds | q3b.c:129 | A weighted sum of samples in [0, hi] lies between -hi times the negative weights and hi times the positive weights. |
| Kernels.WeightedSumOfConstant | q3b.c:129 | Over a constant neighbourhood, the weighted sum is that constant times the sum of the weights. |
| Raster.Padded | q3b.c:124-127 | The neighbour read by the blur is a byte inside the image and 0 outside it. |
| Raster.PaddedInside | q3b.c:127 | Inside the image, the padded read is the buffer entry `M*y+x`, and that index lies in the buffer. |
| Raster.GaussSum | q3b.c:120-131 | The accumulator `newPixel` lies between 0 and 255·159. |
| Raster.BlurAt | q3b.c:132 | `newPixel / 159` lies in 0..255, so the `unsigned char` cast loses nothing. |
| Raster.SobelX | q3b.c:145-153 | \|Gx\| ≤ 1020. |
| Raster.SobelY | q3b.c:145-153 | \|Gy\| ≤ 1020. |
| Raster.FloorSqrt | q3b.c:157 | The truncated square root: r·r ≤ v < (r+1)·(r+1). |
| Raster.Magnitude | q3b.c:157 | The magnitude m satisfies m·m ≤ 2·1020², so it is at most 1442. |
| Raster.BlurOfConstant | q3b.c:118-132 | A pixel whose zero-padded 5 × 5 neighbourhood is constant c blurs to exactly c. |
| Raster.BlurOfZero | q3b.c:118-132 | An all-zero image blurs to 0 at every pixel. |
| Raster.SobelOfConstant | q3b.c:145-157 | On a constant 3 × 3 neighbourhood, Gx = Gy = 0 and the magnitude is 0. |
| Convolution.BlurSum | q3b.c:120-131 | The two offset loops leave `newPixel` equal to the zero-padded Gaussian weighted sum at (row, col). |
| Convolution.BlurTap | q3b.c:124-129 | At offset (dr, dc), a neighbour inside the image is read at `M*(row+dr)+col+dc`, inside the buffer. A neighbour outside contributes 0. |
| Convolution.GaussianBlur | q3b.c:118-134 | Every `filt[k]` for k < M·N becomes the blurred sample of `frame1` at row k/M, column k%M. `frame1` is unchanged. |
| Convolution.SobelSums | q3b.c:145-155 | The offset loops leave `Gx` and `Gy` equal to the two Sobel responses of `filt` at an interior pixel. |
| Convolution.SobelTap | q3b.c:149-153 | At an interior pixel, every read `filt[M*(row+dr)+col+dc]` lies in the buffer and adds its weighted value to both sums. |
| Convolution.Sobel | q3b.c:142-159 | Border pixels of `gradient` keep their values, and `filt` is unchanged. Each interior pixel gets the truncated magnitude when that is at most 255. With M < 3 or N < 3, nothing changes. |
| Scanner.LineEnd | q3b.c:252-259 | A comment runs up to the first newline, or to the end of the data, and contains no newline. |
| Scanner.DigitEnd | q3b.c:271-276 | A digit run ends at the first non-digit, or at the end of the data. |
| Scanner.FirstDigit | q3b.c:246-268 | Skipping stops at a digit outside every comment, or at the end of the data. |
| Scanner.GetIntSpec | q3b.c:243-278 | `getint` never moves backwards, never passes the end, and returns a non-negative value. |
| Scanner.ReadComment | q3b.c:248-262 | The comment block reads up to and including the next newline, or up to `EOF`, and returns that character. |
| Scanner.SkipToDigit | q3b.c:246-268 | The skipping loop stops just after the first digit outside a comment. At `EOF` it stops at the end. |
| Scanner.CommentStep | q3b.c:248-267 | Skipping from a `#` stops where skipping from the newline that closes the comment stops. |
| Scanner.ReadDigits | q3b.c:270-277 | The accumulation loop returns the decimal value of the digit run. It consumes the one character that ends the run. |
| Scanner.DecValueStep | q3b.c:272 | One more digit multiplies the value by ten and adds the digit. |
| Scanner.GetInt | q3b.c:243-278 | The loops of `getint` compute exactly `GetIntSpec`. |
| Scanner.SkipPlain | q3b.c:264-267 | Characters that are neither digits nor `#` are passed over. |
| Scanner.SkipComment | q3b.c:248-262 | A closed comment is passed over whole, including any digits in it. |
| Scanner.UnclosedComment | q3b.c:256-264 | A comment that is never closed makes `getint` return 0 at the end of the data. |
| Scanner.GetIntOver | q3b.c:264-277 | After non-digits, `getint` returns the value of the next digit run and consumes exactly one more character. |
| Scanner.ReadToken | q3b.c:234 | `fscanf("%s")` returns a run of non-space bytes after white space. It stops on the space that ends the run. The token is empty only at end of file. |
| Scanner.ReadSample | q3b.c:183 | `fscanf("%d")` does one of three things: it converts the next digit run, fails on a character no number starts with (which it does not read), or reports `EOF` exactly when only white space is left. |
| Scanner.ReadSampleOver | q3b.c:183 | White space followed by a digit run is converted to the run's value. The read stops at the first non-digit. |
| Reader.OpenFileSpec | q3b.c:234-240 | `openfile` stays inside the data. The width, height and maximum value it reads are non-negative. |
| Reader.OpenFile | q3b.c:225-241 | One `%s` and three `getint` calls compute exactly `OpenFileSpec`. |
| Reader.RawSamples | q3b.c:173-178 | A P5 body of n samples stores n bytes. |
| Reader.RawSampleAt | q3b.c:175-176 | P5 sample k is the byte at offset k after the header. Past the end of the data it is 255, which is `EOF` narrowed. |
| Reader.ReadRaw | q3b.c:171-179 | The P5 loops fill `frame1` with `RawSamples`. |
| Reader.P2Scan | q3b.c:181-188 | n iterations of the P2 loop either store n samples and end inside the data, or fail with `Truncated`. |
| Reader.P2Step | q3b.c:183-186 | One P2 iteration fails exactly when only white space is left. Otherwise it appends one sample and keeps the earlier ones. |
| Reader.P2ScanNext | q3b.c:181-188 | n+1 iterations are n iterations followed by one `P2Step`. |
| Reader.P2ScanStaysFailed | q3b.c:183-184 | Once the P2 loop has hit end of file, a longer loop hits it too. |
| Reader.ScanSample | q3b.c:183-186 | One `fscanf` plus store extends the P2 state by one sample, or stops at end of file. |
| Reader.ScanRow | q3b.c:182-188 | The inner P2 loop stores the M samples of one row, or reports where end of file stopped it. |
| Reader.ReadPlain | q3b.c:180-189 | The P2 loops fill `frame1` with the samples of `P2Scan`, or return `Truncated` when that fails. |
| Reader.ReadImage | q3b.c:162-197 | `read_image` returns `ReadPgm`, and on success `frame1` holds the samples. |
| Reader.ReadPgmLength | q3b.c:171-189 | A successful read stores exactly M·N samples, whatever the header says. |
| Reader.ReadPgmDispatch | q3b.c:171-193 | Only "P5" and "P2" as the first two characters are accepted, and anything else exits. P5 always succeeds. P2 fails only at end of file. |
| Reader.P2Stuck | q3b.c:183-186 | A P2 body starting with a character no number starts with is never read past. Every sample is then the initial `temp`, narrowed. |
| Writer.DigitChar | q3b.c:217 | The digit character has the digit's value. |
| Writer.Dec | q3b.c:212-213 | `%d` of a natural number prints only digits, with no leading zero. |
| Writer.DecLength | q3b.c:217 | A byte prints as 1, 2 or 3 digits. |
| Writer.Field | q3b.c:217 | `"%3d "` gives exactly four characters, ending in a space, with no newline. |
| Writer.WriteRow | q3b.c:216-220 | One row of output is appended to the text. |
| Writer.WriteImage | q3b.c:211-221 | `write_image2` emits exactly the header followed by the rows. |
| Writer.RowTextLayout | q3b.c:216-219 | The first i fields take 4·i + i/32 characters. The newlines are exactly at the positions k with k % 129 = 128. |
| Writer.LastColumn | q3b.c:218-220 | The last column gets its own newline exactly when the row-end newline is left out. |
| Writer.LineLayout | q3b.c:215-220 | A row takes 4·M + (M+31)/32 characters with (M+31)/32 newlines. A non-empty row ends in a space followed by exactly one newline. |
| Writer.LineLength | q3b.c:215-220 | Every row has the same length. |
| Writer.BodyLength | q3b.c:215-221 | The first j rows take j times the length of one row. |
| RoundTrip.DecAt | q3b.c:212-213 | The digits `%d` printed for v, read back as a digit run, give v. |
| RoundTrip.FieldAt | q3b.c:217 | A stored `"%3d "` field is padding spaces, then the digits of the value, then one space. |
| RoundTrip.ReadField | q3b.c:183 | `fscanf("%d")` from white space before a stored field reads its value and stops on the space after its digits. |
| RoundTrip.ReadAfterGap | q3b.c:217-220 | After one field, across its space and up to two newlines, `%d` reads the next field's value. |
| RoundTrip.ReadStored | q3b.c:215-221 | From the stop before sample c of the written body, `%d` reads sample c and stops at the next stop. |
| RoundTrip.BodyChain | q3b.c:215-221 | The stops of a written body form a chain whose values are the samples in row-major order. |
| RoundTrip.ChainScan | q3b.c:181-188 | The P2 loop started on a chain stores the chain's values, whatever the initial `temp`. |
| RoundTrip.BodyScan | q3b.c:180-189 | Reading a written body with the same M and N returns exactly the written samples. |
| RoundTrip.HeaderToken | q3b.c:234 | `%s` at the start of a stored header reads its two-character magic, "P2" or "P5" alike. |
| RoundTrip.IntAt | q3b.c:243-278 | `getint` reads back a written decimal and consumes the one separator after it. |
| RoundTrip.ReadHeader | q3b.c:225-241 | `openfile` on a stored header with any two-character magic returns that magic, M, N and 255, and stops right after the header. |
| RoundTrip.WrittenHeader | q3b.c:225-241 | `openfile` on the header `write_image2` writes returns "P2", M, N and 255. |
| RoundTrip.MagicP2 | q3b.c:180 | The written magic selects the P2 branch and not the P5 branch. |
| RoundTrip.ReadWritten | q3b.c:162-197 | `read_image` on the text `write_image2` writes for any M × N buffer gets back that buffer, with the header M, N, 255. |
| RoundTrip.MagicP5 | q3b.c:171 | The magic "P5" selects the P5 branch and not the P2 branch. |
| RoundTrip.RawFileHeader | q3b.c:225-241 | `openfile` on the raw file of a buffer returns "P5", M, N and 255, and stops right after the header. |
| RoundTrip.RawFileBody | q3b.c:173-178 | The P5 loops on the raw file of a buffer read back exactly that buffer's bytes. |
| RoundTrip.ReadRawWritten | q3b.c:162-197 | `read_image` on the raw (P5) file of any M × N buffer gets back that buffer, with the header M, N, 255. |
| RoundTrip.LoadersAgree | q3b.c:171-189 | The P5 and P2 loaders, given the raw file and the plain text of the same buffer, store the same buffer, whatever `temp` starts at. |
| FixedImage.Buffers.constructor | q3a.c:24-26 | The three static buffers have 512·512 entries each, start at zero, and have a zero `gradient` border. |
| FixedImage.Buffers.ReadImage | q3a.c:126-162 | `read_image` stores exactly 512·512 samples, whatever width and height the header gives. A P5 file is always read. |
| FixedImage.Buffers.GaussianBlur | q3a.c:81-97 | Every `filt` entry becomes the blurred `frame1` sample, a value in 0..255. |
| FixedImage.Buffers.Sobel | q3a.c:106-123 | Only `filt` is read. Rows and columns 1..510 get the truncated magnitude when it is at most 255. The zero border of `gradient` stays zero. |
| FixedImage.WriteImage | q3a.c:164-189 | `write_image2` writes the P2 text of the buffer, and it starts "P2\n512 512\n255\n". |
| FixedImage.FixedHeader | q3a.c:177-179 | The header is always "P2\n512 512\n255\n". |
| FixedImage.FixedLine | q3a.c:181-187 | No row-end newline is added. Each row is 16 lines of 32 four-character fields, each line closed by a newline. |
| FixedImage.FixedRoundTrip | q3a.c:145-153 | Reading a written 512 × 512 image back gives the buffer that was written. |

## Left out

- `main` in both files is not modelled. It covers directory traversal, path building, allocation and the argument check; the buffers are parameters or fields instead.
- File opening and closing, console output and `exit` are not modelled. A failure to open a file is not modelled at all, and the two `exit(EXIT_FAILURE)` paths of `read_image` become `Err` results.
- Convolution.Sobel: when the magnitude exceeds 255, the stored value is left unspecified, because the `double` to `unsigned char` conversion is undefined behaviour. Both `Sobel` methods are therefore weaker than a fully determined result.
- FixedImage.Buffers.Sobel: same weakening as `Convolution.Sobel`.
- Scanner.ReadSample: models `fscanf("%d")` for unsigned decimals only. It does not model signs, `int` overflow of long digit runs, or locale effects.
- Scanner.GetIntSpec: the value is an unbounded natural number; `int` overflow of very long digit runs is not modelled.
- Scanner.ReadToken: it does not model `fscanf("%s")` writing past the 100-byte `header` buffer. It also does not model that, at end of file, `header` keeps its previous contents. The model returns an empty token there, which the reader rejects as a bad magic number.
- The comment buffer `cmt` and the `firstchar` flag of `getint` are not modelled. The buffer is filled but never read. The flag only makes the first space anywhere in the comment be left out of that buffer.
- The `sqrt` of a `double` is replaced by the integer floor square root. Its argument is an exact integer of at most 2·1020², so the two agree.
- Integer accumulators are unbounded. The sums `newPixel`, `Gx` and `Gy` stay far below 2³¹, so these accumulators cannot overflow.
- The `int` index `M * (row + rowOffset) + col + colOffset` is unbounded in the model. In the C code it overflows once `M * N` exceeds `INT_MAX`; images that large are not modelled.
- `initialize_kernel` is declared but never defined.
- `question_1.cpp` is not part of this model. It is floating-point vector code using SIMD intrinsics.
- The writer is not modelled as producing a file. The output is the string of characters emitted; the `"wb"` mode and `fclose` have no effect on that string.
- Each method that models a C function splits the function's loop bodies into helper methods (`BlurSum`, `SobelSums`, `ScanRow`, `ScanSample`, `WriteRow`, `ReadComment`, `SkipToDigit`, `ReadDigits`). The loops and their order are kept.
