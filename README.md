# png2xga, modelled in Dafny

png2xga turns an 8-bit RGB image into a 16-colour XGA-style picture. It works
in three steps:

1. **Matching.** Each pixel is matched to the nearest of 16 fixed palette
   colours. Distance is squared Euclidean distance in a perceptual (L\*a\*b\*)
   space, and the lowest index wins a tie.
2. **Dithering.** The image is scanned in raster order with Floyd–Steinberg
   error diffusion. Each pixel is replaced in place by its palette colour. Its
   quantisation error is pushed into four later neighbours, with weights 7, 3,
   5 and 1 sixteenths, and each update is clamped to [0,255].
3. **Writing.** The resulting palette indices are written as run-length text:
   `"<w>x<h>;"`, then one token per maximal run of equal indices in flat order
   (runs may cross rows), where a token is `'a'+index` with its decimal length
   in front when the length is 2 or more, then a newline.

The model is five modules:

- `Colour` (`colour.dfy`): pixels, the palette table, the saturating clamp,
  and division truncated toward zero.
- `Matcher` (`matcher.dfy`): the nearest-palette scan. The RGB-to-L\*a\*b\*
  conversion is a parameter `toLab`.
- `Dither` (`dither.dfy`): the scan.
  - The sequence model: `Visit`, one pixel; `ScanTo`, the state
    at any scan point; `Dithered`, the whole image.
  - `DiffuseError`, `VisitPixel`, `DitherRow` and `DitherImage` do the same
    work in place on two arrays, and are proved equal to the sequence model.
- `RunLength` (`rle.dfy`): the text.
  - `Runs` is the run decomposition. `Serialise` is the text it gives.
  - `Decode` reads a text back.
  - `Encode` is the emitting loop, written with the source's `count`/`last`
    variables and proved to produce `Serialise`.
    The loop's two cases and its last step are stated by `EncodeExtendRun`,
    `EncodeCloseRun` and `EncodeFinish`.
- `Pipeline` (`pipeline.dfy`): the conversion as a whole.
  - `Convert` unpacks the image bytes, allocates the index buffer without
    initialising it, dithers, and encodes.
  - Its text decodes to the dithered indices.

Arithmetic of the channel update:

- The source multiplies the integer error by a `float` weight and converts the
  sum back to `int`.
- The weights are exact binary fractions. For an image of 8-bit bytes,
  channels stay in [0,255] at every point of the scan, and the error taken at
  any pixel is at most 255 in absolute value (`Pipeline.DitheredInRange`,
  from `Dither.ScanKeepsRange` and `Dither.InRangeErrorsBounded`). So every
  intermediate value is exact in single precision.
- The conversion to `int` truncates toward zero (section 6.3.1.4 of the C11
  standard).
- So the update is, exactly, `Clamp(TruncDiv(16*v + k*err, 16))`.
  `Dither.DiffusedIsTruncatedSum` proves this equals the real-number form
  `Clamp(trunc(v + err*k/16))`.

## Model

| member | source | states |
|---|---|---|
| Colour.PaletteWellFormed | main.c:11-16 | the palette has 16 entries, each a valid 8-bit colour, no two alike |
| Colour.Clamp | main.c:49 | the result is in [0,255]; an argument already in range is returned unchanged; negatives give 0 and values above 255 give 255 |
| Colour.ClampIdempotentMonotone | main.c:49 | clamping twice equals clamping once, and clamping preserves order |
| Colour.TruncDiv | main.c:89-91 | quotient rounded toward zero: the remainder has the dividend's sign and is smaller than the divisor |
| Colour.TruncDivExact | main.c:89-91 | a multiple of 16 divided by 16 gives its factor back, for either sign |
| Colour.TruncDivNegate | main.c:89-91 | truncating division is symmetric about zero |
| Matcher.SquaredDistance | main.c:37-40 | a colour is at distance 0 from itself |
| Matcher.PaletteLab | main.c:57-58 | definition, no contract: palette entry i under the same conversion toLab that is applied to pixels, standing for the precomputed table |
| Matcher.Distances | main.c:37-40 | one distance per palette entry, sixteen in all; entry i is, by definition, the squared distance to palette entry i, and FirstMinimum, NearestCharacterised and ClosestIndexLab state what is chosen from them |
| Matcher.FirstMinimum | main.c:36-45 | the chosen position is in range, no entry is smaller, and every earlier entry is strictly larger |
| Matcher.Nearest | main.c:34-46 | definition, no contract: the first minimum when it is below the 1e9 sentinel, otherwise 0; NearestCharacterised states what it means |
| Matcher.NearestCharacterised | main.c:32-47 | the scan's result satisfies IsNearest (minimal distance, strictly smaller than every lower index, 0 when nothing beats the 1e9 sentinel), and it is the only index that does |
| Matcher.ClosestIndexLab | main.c:32-47 | the loop with its running best and sentinel returns an index in 0..15 that is the nearest palette entry in the sense of IsNearest |
| Matcher.PaletteColourMatchesItself | main.c:32-47 | when the palette entries are apart in perceptual space, each palette colour is matched to its own index |
| Matcher.TieGoesToLowerIndex | main.c:41-44 | of two equally close entries, the higher index is never chosen |
| Dither.RowStart | main.c:71 | definition, no contract: the offset of row y, y copies of w added up; RowStartIsProduct shows it is y*w |
| Dither.RowStartIsProduct | main.c:71 | the row-start offset equals y*w |
| Dither.RowStartMonotone | main.c:71 | later rows start later, at least one full row later |
| Dither.Flat | main.c:71 | definition, no contract: the flat index RowStart(w, y) + x of pixel (x, y); FlatIndex, FlatInside and FlatOrdered state what it means |
| Dither.FlatOrdered | main.c:69-71 | raster order of pixels agrees with the order of their flat indices |
| Dither.FlatInside | main.c:71 | a pixel inside the image has a flat index inside the buffer |
| Dither.InBounds | main.c:86-87 | definition, no contract: neighbour k of (x, y) lies inside the w by h image; Target states that such a neighbour is a later cell of the buffer |
| Dither.Target | main.c:86-88 | every in-bounds neighbour has a flat index strictly after the current pixel and inside the buffer |
| Dither.TargetsDistinct | main.c:82-88 | the four neighbours are distinct cells |
| Dither.TargetsPairwiseDistinct | main.c:82-88 | all in-bounds neighbours of a pixel are pairwise different cells |
| Dither.Diffused | main.c:89-91 | an updated channel is in [0,255]; zero error leaves an in-range channel unchanged |
| Dither.DiffusedIsTruncatedSum | main.c:84-91 | the integer update equals clamp(trunc(v + err*k/16)) computed on exact values |
| Dither.DiffusedPixel | main.c:89-91 | all three updated channels are in [0,255], and a zero error leaves an in-range pixel unchanged |
| Dither.InRangeErrorsBounded | main.c:72-78 | for an in-range buffer, each pixel's error against the palette colour it is matched to is in [-255,255] per channel |
| Dither.Error | main.c:76-78 | the per-channel error old − palette is zero exactly when the pixel already has its palette colour |
| Dither.DiffuseOne | main.c:86-92 | keeps the buffer length; target k is updated only when it is in bounds, every other cell is left alone (DiffuseOneEffect) |
| Dither.Diffuse | main.c:85-92 | keeps the buffer length; the error goes into targets 0 .. n-1 in that order (effect stated by DiffuseEffect) |
| Dither.Visit | main.c:71-93 | keeps the shape of both buffers; the single visit of pixel (x, y), whose effect VisitRecords, VisitDiffuses and VisitKeepsEarlier state |
| Dither.ScanTo | main.c:69-95 | keeps the shape of both buffers; the state once the rows above y and the first x pixels of row y have been visited in raster order |
| Dither.Dithered | main.c:69-95 | keeps the shape of both buffers; the state after every pixel has been visited |
| Dither.DiffuseOneEffect | main.c:86-92 | diffusing into target k changes that target when it is in bounds and no other cell |
| Dither.DiffuseMissesAt | main.c:85-92 | a cell that is none of the in-bounds targets 0 .. n-1 keeps its value |
| Dither.DiffuseMisses | main.c:85-92 | every cell that is none of the in-bounds targets 0 .. n-1 keeps its value |
| Dither.DiffuseHitAt | main.c:85-92 | an in-bounds target k < n holds its diffused value, computed from its value before the loop |
| Dither.DiffuseEffect | main.c:85-93 | after the neighbour loop, each in-bounds neighbour holds its diffused value and every other cell is unchanged |
| Dither.VisitRecords | main.c:71-80 | a visit records the matched index at idx, changes no other index, and replaces the pixel by its palette colour |
| Dither.VisitDiffuses | main.c:72-93 | a visit gives each in-bounds neighbour the share of the error computed from the pixel before replacement; cells that are neither the pixel nor a neighbour keep their value |
| Dither.VisitKeepsEarlier | main.c:71-93 | a visit does not change any pixel or index before idx |
| Dither.VisitKeepsRange | main.c:80-91 | a visit keeps every channel of the buffer in [0,255] |
| Dither.ZeroErrorChangesNothing | main.c:76-91 | a pixel already equal to its matched palette colour has zero error, so the visit leaves the whole buffer unchanged |
| Dither.VisitExtendsMatched | main.c:73-80 | after the visit, pixel idx holds index 0..15 and its palette colour, and the earlier pixels still do |
| Dither.VisitIgnoresIndices | main.c:72-80 | a visit never reads the index buffer |
| Dither.ScanMatchesPalette | main.c:69-95 | at every scan point each visited pixel holds an index in 0..15 and that palette colour; unvisited indices are still the initial ones |
| Dither.ScanKeepsRange | main.c:69-95 | every channel stays in [0,255] during the whole scan |
| Dither.ScanSettled | main.c:69-95 | once a pixel is visited, neither it nor its index changes at any later scan point |
| Dither.ScanSettledWrap | main.c:69-70 | the same at the start of a row, which is the state at the end of the row above |
| Dither.ScanIgnoresInitialIndices | main.c:65-95 | the pixels and visited indices do not depend on what the index buffer held before the scan |
| Dither.ScanUniform | main.c:69-95 | an image of one palette colour that matches itself is left unchanged, and every visited pixel gets that index |
| Dither.Match | main.c:73 | definition, no contract: the program's matcher, Nearest of the sixteen Distances; ClosestIndexLab computes it and NearestCharacterised states what it chooses |
| Dither.FlatIndex | main.c:71 | the computed y*w + x is the flat index |
| Dither.DiffuseError | main.c:82-93 | the in-place neighbour loop leaves the buffer equal to the sequence model's `Diffuse` |
| Dither.VisitPixel | main.c:71-93 | one in-place visit of both arrays equals the sequence model's `Visit` |
| Dither.DitherRow | main.c:70-94 | the inner loop advances the arrays by one row of the sequence model's scan `ScanTo` |
| Dither.DitherImage | main.c:69-95 | the double loop leaves the arrays equal to Dithered, with every pixel holding the palette colour of its index in 0..15 |
| RunLength.Letter | main.c:106-107 | index i is written as a letter in 'a'..'p' |
| RunLength.LetterBijective | main.c:106-113 | letters and indices correspond one to one, and a letter is never a digit or a newline |
| RunLength.Decimal | main.c:100 | a number is written as at least one digit, with no leading zero unless it is 0 |
| RunLength.ValueOfDecimal | main.c:100 | the decimal form denotes the number |
| RunLength.ReadDecimal | main.c:100 | reading a number back from its decimal form gives the number and the rest of the text |
| RunLength.ReadNumber | main.c:100 | a number is read exactly when the text starts with a digit, and the whole digit sequence is consumed |
| RunLength.Runs | main.c:101-111 | definition, no contract: the left-to-right merge of equal neighbours; RunsCorrect and RunsOfExpand state what it means |
| RunLength.RunsMaximal | main.c:101-111 | all runs are non-empty, adjacent runs have different symbols, and the last run carries the last index |
| RunLength.ExpandSnoc | main.c:101-113 | one more run appends its symbol, repeated count times, to the expansion |
| RunLength.ExpandRunsSnoc | main.c:101-113 | appending one index to a sequence its runs expand to keeps the runs expanding to it |
| RunLength.ExpandRuns | main.c:101-113 | the runs expand back to the index sequence |
| RunLength.TotalIsLength | main.c:101-113 | the run lengths sum to the length of what the runs expand to |
| RunLength.RunsCorrect | main.c:101-113 | the run decomposition is maximal, lossless, sums to the length, and carries palette indices |
| RunLength.RunsAppendRepeat | main.c:102-104 | appending c copies of a new symbol adds exactly one run of length c |
| RunLength.RunsOfExpand | main.c:101-111 | maximal runs are the only decomposition: splitting the expansion of maximal runs gives them back |
| RunLength.RunsExtend | main.c:102-110 | one more index either extends the last run or starts a run of 1 |
| RunLength.Body | main.c:102-113 | definition, no contract: the tokens of the runs, concatenated in order; BodySnoc, BodyAlphabet and DecodeBodyOfBody state what it means |
| RunLength.BodySnoc | main.c:106-107 | the body of one more run is the old body followed by that run's token |
| RunLength.Token | main.c:106-113 | definition, no contract: the decimal count then the letter for a run of 2 or more, the bare letter for a run of 1 |
| RunLength.TokenForm | main.c:106-113 | a token ends in the run's letter, everything before it is a digit, and it is a lone letter exactly for a run of 1 |
| RunLength.Header | main.c:100 | definition, no contract: width in decimal, 'x', height in decimal, ';'; ReadHeaderOfHeader reads it back |
| RunLength.TextSnoc | main.c:106-107 | the text after one more run is the text so far followed by that run's token |
| RunLength.Serialise | main.c:100-113 | definition, no contract: the header, the tokens of the maximal runs in order, then a newline; DecodeSerialise inverts it |
| RunLength.DecodeBody | main.c:106-113 | decoded runs carry palette indices |
| RunLength.DecodeToken | main.c:106-113 | a run's token in front of decodable text decodes to that run in front of the rest |
| RunLength.DecodeBodyCons | main.c:106-113 | one more non-empty run in front of decodable runs still decodes to exactly those runs |
| RunLength.DecodeBodyOfBody | main.c:106-113 | the tokens of non-empty palette runs, followed by the newline, decode back to those runs |
| RunLength.ReadHeaderOfHeader | main.c:100 | the header is read back as (w, h) whatever follows it |
| RunLength.Decode | main.c:100-113 | a decoded picture has exactly width·height indices |
| RunLength.DecodeSerialise | main.c:100-113 | decoding the text of a w by h index buffer gives back w, h and the indices |
| RunLength.BodyAlphabet | main.c:106-113 | every character of the body is a digit or a letter in 'a'..'p' |
| RunLength.ExampleTwoByTwo | main.c:100-113 | the indices 15, 0, 0, 15 of a 2 by 2 picture are written "2x2;p2ap\n" |
| RunLength.ExampleDecodes | main.c:100-113 | "2x2;p2ap\n" decodes to that 2 by 2 picture |
| RunLength.EncodeExtendRun | main.c:103-104 | when index i equals the open run's symbol, the runs of the first i+1 indices are those of the first i with the open run one longer |
| RunLength.EncodeCloseRun | main.c:105-109 | when index i differs, the open run is closed and a run of 1 of index i opens, and the text grows by exactly the closed run's token |
| RunLength.EncodeFinish | main.c:112-113 | closing the open run and writing the newline yields the whole serialised text |
| RunLength.Encode | main.c:100-113 | the emitting loop over count/last writes exactly the serialised text of the index buffer |
| Pipeline.Output | main.c:64-95 | the program's index buffer has w·h entries, each in 0..15 |
| Pipeline.Pixels | main.c:66-67 | one pixel per three bytes, w·h in all; pixels are in [0,255] when the bytes are |
| Pipeline.DitheredInRange | main.c:66-95 | for an image of 8-bit bytes, at every scan point every channel is in [0,255] and the error against the matched palette colour, at any pixel and so at the one visited next, is in [-255,255]; the final buffer is in range |
| Pipeline.DitheredIgnoresInitialIndices | main.c:65-95 | the uninitialised index buffer does not affect the result of the scan |
| Pipeline.Convert | main.c:64-113 | for 8-bit bytes, the produced text is the serialisation of the dithered indices, it decodes back to a w by h picture of them, and the dithered pixels stay in [0,255] |
| Pipeline.SerialiseRepeat | main.c:101-113 | a buffer of one repeated index is written as the header, a single token and the newline |
| Pipeline.UniformImageIsOneRun | main.c:66-113 | an image of one palette colour, under a conversion that keeps the palette apart, is left unchanged, gets that index everywhere, and is written as one run of length w·h |

## Left out

- Image loading (`stbi_load`, `stbi_image_free`) is a foreign library. `Pipeline.Convert` takes the decoded bytes and the size as parameters.
- The command line is left out: the argument count check, the usage message, opening and closing the output file, their error messages, and the final confirmation line. These are I/O. The text is returned as a string rather than written to a stream.
- `malloc` and `free` become Dafny array allocation. Size overflow of `w * h * sizeof(RGB)` is not modelled.
- The body of `rgb_to_lab` (double arithmetic, `pow`, the companding threshold) is left out, because it is floating point. It is the parameter `toLab`, applied both to the pixel and to each palette entry.
- The precomputed `palette_lab` table is folded into `Matcher.PaletteLab`. It is computed from the same `toLab` on demand.
- Distances are exact reals, not doubles: rounding, overflow and NaN are not modelled.
- No statement depends on actual L\*a\*b\* values. Where a property needs the palette entries to be distinct in perceptual space, it takes `PaletteSeparated(toLab)` as a hypothesis.
- Matcher.SquaredDistance: its contract states only the zero self-distance. It does not state non-negativity, because nothing in the model needs it.
- Channel values, offsets and counts are unbounded integers. The first place the source's `int` arithmetic would overflow is the byte copy at main.c:67: `i*3+2` exceeds 2^31-1 once w·h is above about 7.2·10^8 pixels. `w*h` itself (main.c:64-66, 102) and `y*w+x` (main.c:71, 88) overflow only later. The model does not capture any of these overflows.
- RunLength.Encode and Pipeline.Convert require `w*h >= 1`, because the source is undefined for an empty image (it reads `indices[0]`).
- RunLength.Encode requires every index to be in 0..15. The scan guarantees this, and letters beyond 'p' are never written.
- RunLength.DecodeBody reads a count prefix only when its value is at least 2, so `1a` is rejected. It is not limited to the texts the writer produces: it also accepts counts and header numbers with leading zeros (`02a`, `02x2;`) and neighbouring runs of one symbol (`2aa`). What is proved is that decoding inverts Serialise (DecodeSerialise), not that it recognises only the writer's texts.
- Dither.DitherImage states the array length as the row-by-row offset `RowStart(w, h)` rather than `w * h`, to keep the proofs in linear arithmetic. `Pipeline.Convert` connects the two with `Dither.RowStartIsProduct`.
