# AD_Tensor OCR pipeline: the integer and index logic, in Dafny

The Android app `AD_Tensor` reads text from a photo in two steps. A
detector model (EasyOCR's CRAFT) finds text regions and a recognizer model
decodes each region into characters. Both models run in TensorFlow Lite.
This project models the deterministic code around the two models and
proves properties about it:

- **Detector input** (`DetectorInput`). This is `MainActivity2.preprocessDetectorImage`
  with `writeToBuffer` and `getNumBytesPerChannel`.
  - The NHWC/NCHW layout is inferred from the model's 4-D input shape.
  - The byte size of an element follows the input type.
  - The UINT8/INT8 affine quantization clamps its values.
  - Every channel of every pixel goes to its place in the flat buffer.
  - The final size check is included.
- **Packed pixels** (`ArgbPixels`). These are the ARGB_8888 channel extraction and
  `MainActivity.preprocessImage`, which writes R, G, B floats interleaved.
- **Score/link mask** (`ScoreLinkMask`). This is `MainActivity2.postprocessScoreLink`.
  A mask cell is 1 exactly when the text test or the link test passes, and 0 otherwise.
  The same module models the detection step of `processImage`: the mask is
  passed to `findConnectedBoxes` with a minimum area of 10.
- **Connected boxes** (`ConnectedBoxes`). This is `MainActivity2.findConnectedBoxes`
  and its nested `Box`. The model is a breadth-first flood fill over the
  eight-connected non-zero cells. It uses a visited set, a queue, and the
  coordinate lists the boxes are built from.
- **Recognizer decoding** (`GreedyDecoder`). This is `MainActivity.decodeRecognizerOutput`.
  Each timestep takes its first argmax. An index is appended when it names an
  entry of the alphabet and differs from the index appended last.
  The module also has textbook greedy CTC, for comparison (see Findings).
- **Errors** (`Outcomes`). A `Result` value models the Java exceptions the code can raise.
  - `IllegalArgumentException` for a shape that is not 4-D, or a shape with no layout.
  - An unsupported input type.
  - A negative buffer capacity.
  - `BufferOverflowException`.
  - The size-mismatch `Exception`.
  - An index out of bounds.

Some parts are taken as given inputs:

- **Floats.** The float values are never interpreted. A channel sample
  (`Sample`) records only the integer channel levels it is computed from.
  `Math.round(value / scale)` is a function parameter of the quantization.
  The two `sigmoid(v) > threshold` tests are predicate parameters.
  Scores are reals.
- **Scaled bitmap.** `createScaledBitmap` followed by `getPixels` is an
  input function: it gives the row-major pixel array of the scaled bitmap.

## Model

| member | source | states |
|---|---|---|
| `ArgbPixels.ChannelsAreBytes` | app/src/main/java/com/example/myapplication/MainActivity.java:157-159 | red, green and blue extracted by shift-and-mask each lie in 0..255, so keeping them as unsigned bytes loses nothing |
| `ArgbPixels.UnpackPack` | app/src/main/java/com/example/myapplication/MainActivity.java:157-159 | extracting the channels of a packed ARGB pixel gives back the four bytes it was packed from |
| `ArgbPixels.PackUnpack` | app/src/main/java/com/example/myapplication/MainActivity.java:157-159 | the four extracted channels are the whole pixel: repacking them gives the pixel back |
| `ArgbPixels.Interleave` | app/src/main/java/com/example/myapplication/MainActivity.java:155-160 | the loop writes three floats per pixel: element 3i is pixel i's red, 3i+1 its green, 3i+2 its blue |
| `ArgbPixels.PreprocessImage` | app/src/main/java/com/example/myapplication/MainActivity.java:144-163 | the buffer holds 3*w*h floats, R,G,B interleaved in row-major pixel order, and its byte capacity is exactly four bytes per float written |
| `DetectorInput.InferLayout` | app/src/main/java/com/example/myapplication/MainActivity2.java:131-155 | a shape that is not 4-D is rejected; it succeeds iff d3 or d1 is 1 or 3; NHWC iff d3 is 1 or 3 (so NHWC wins when both are); the geometry read back as a shape is the input shape |
| `DetectorInput.InferShapeOf` | app/src/main/java/com/example/myapplication/MainActivity2.java:143-155 | inference inverts shape construction except exactly for NCHW tensors whose width is 1 or 3, which are taken for NHWC |
| `DetectorInput.BytesPerElement` | app/src/main/java/com/example/myapplication/MainActivity2.java:241-251 | 4 bytes for FLOAT32, 1 for UINT8 and INT8; every other type is rejected |
| `DetectorInput.WriteValue` | app/src/main/java/com/example/myapplication/MainActivity2.java:225-239 | FLOAT32 is written verbatim; UINT8 stores a byte in 0..255 and INT8 one reading back in -128..127; without int overflow the stored value is round(v/scale)+zeroPoint clamped to the range, so an in-range value is kept; other types are rejected |
| `DetectorInput.WriteMatchesElementSize` | app/src/main/java/com/example/myapplication/MainActivity2.java:225-251 | writeToBuffer and getNumBytesPerChannel reject the same types, and each write advances the buffer by the announced element size |
| `DetectorInput.QuantizedSumWraps` | app/src/main/java/com/example/myapplication/MainActivity2.java:229-231 | the Java int sum round(v/scale)+zeroPoint wraps: at the top of the int range with zero point 1 UINT8 stores 0 |
| `DetectorInput.LayoutSamples` | app/src/main/java/com/example/myapplication/MainActivity2.java:171-209 | both layouts write exactly C*H*W elements, element i being the sample the layout assigns to index i |
| `DetectorInput.NhwcSamples` | app/src/main/java/com/example/myapplication/MainActivity2.java:171-188 | the NHWC loops write C*H*W elements, pixel by pixel, channel by channel |
| `DetectorInput.NchwSamples` | app/src/main/java/com/example/myapplication/MainActivity2.java:189-208 | the NCHW loops write C*H*W elements, plane by plane, each plane in row-major order |
| `DetectorInput.Placement` | app/src/main/java/com/example/myapplication/MainActivity2.java:171-209 | channel c of pixel (y,x) is at (y*W+x)*C+c in NHWC and c*H*W+y*W+x in NCHW, inside the image; with one channel it is the pixel's gray value |
| `DetectorInput.ElementIndexInjective` | app/src/main/java/com/example/myapplication/MainActivity2.java:171-209 | no two (channel, row, column) triples are written to the same element |
| `DetectorInput.ElementIndexOnto` | app/src/main/java/com/example/myapplication/MainActivity2.java:171-209 | every element of the image part of the buffer is written for some channel of some pixel |
| `DetectorInput.NhwcRgbIsInterleave` | app/src/main/java/com/example/myapplication/MainActivity2.java:172-186 | for a channel-last RGB tensor the detector puts the same samples in the same order as the recognizer's preprocessImage |
| `DetectorInput.SignOfProduct` | app/src/main/java/com/example/myapplication/MainActivity2.java:166-168 | the allocated capacity batch*C*H*W*bytes is negative iff the batch is, and below one image iff the batch is below 1 |
| `DetectorInput.FillBuffer` | app/src/main/java/com/example/myapplication/MainActivity2.java:163-216 | allocation, writes and size check succeed iff batch >= 1; batch < 0 fails on allocation and batch 0 overflows; the buffer holds the encoded image followed by zero bytes |
| `DetectorInput.PreprocessDetectorImage` | app/src/main/java/com/example/myapplication/MainActivity2.java:129-223 | succeeds iff the layout is inferable, the target size positive, the type supported and batch >= 1, each failure reported with its own error; the size check never fails; capacity is batch*C*H*W*bytesPerElement; element i is writeToBuffer of the layout's i-th sample, the rest zero |
| `ConnectedBoxes.AdjacentIsShift` | app/src/main/java/com/example/myapplication/MainActivity2.java:301 | the neighbours table lists every one of the eight neighbours of a cell |
| `ConnectedBoxes.TreeWalk` | app/src/main/java/com/example/myapplication/MainActivity2.java:315-331 | every cell a flood fill enqueues is reached from the seed by a walk of adjacent enqueued cells |
| `ConnectedBoxes.Enqueue` | app/src/main/java/com/example/myapplication/MainActivity2.java:325-330 | marking and enqueuing a lit unvisited neighbour adds exactly that cell to the visited set and the queue and keeps the flood-fill state |
| `ConnectedBoxes.VisitNeighbours` | app/src/main/java/com/example/myapplication/MainActivity2.java:320-331 | after the neighbour loop every lit neighbour of the polled cell is visited; the queue only grows |
| `ConnectedBoxes.Explore` | app/src/main/java/com/example/myapplication/MainActivity2.java:306-333 | one flood fill enqueues each cell at most once, only lit cells not visited before, and exactly the eight-connected component of the seed; the coordinate lists follow the queue |
| `ConnectedBoxes.SeqMin` | app/src/main/java/com/example/myapplication/MainActivity2.java:335 | Collections.min returns an element no greater than any other |
| `ConnectedBoxes.SeqMax` | app/src/main/java/com/example/myapplication/MainActivity2.java:336 | Collections.max returns an element no smaller than any other |
| `ConnectedBoxes.BoxOfQueue` | app/src/main/java/com/example/myapplication/MainActivity2.java:335-338 | the box of the coordinate minima and maxima is the smallest box holding the component, each side touched by a cell |
| `ConnectedBoxes.Kept` | app/src/main/java/com/example/myapplication/MainActivity2.java:339-343 | exactly the boxes whose area reaches minArea are kept, and only those |
| `ConnectedBoxes.BoundsInGrid` | app/src/main/java/com/example/myapplication/MainActivity2.java:335-338 | the bounding box of lit cells satisfies 0 <= xMin <= xMax < w and 0 <= yMin <= yMax < h |
| `ConnectedBoxes.SeedIsFirst` | app/src/main/java/com/example/myapplication/MainActivity2.java:303-306 | a fill started at an unvisited cell, when every lit cell scanned earlier is visited, starts at the row-major first cell of its component |
| `ConnectedBoxes.AppendInOrder` | app/src/main/java/com/example/myapplication/MainActivity2.java:303-306 | a component started after every earlier one extends the discovery order |
| `ConnectedBoxes.ScanStep` | app/src/main/java/com/example/myapplication/MainActivity2.java:303-306 | after cell (y, x) every lit cell up to it is visited and every component so far started at or before it |
| `ConnectedBoxes.ScanCell` | app/src/main/java/com/example/myapplication/MainActivity2.java:305-344 | an unvisited lit cell starts a fill whose component, first cell and box are recorded; the scan invariant and the discovery order are kept and the scan moves past the cell |
| `ConnectedBoxes.ScanRow` | app/src/main/java/com/example/myapplication/MainActivity2.java:304-345 | after a row every lit cell up to the end of the row is visited; the scan invariant and the discovery order hold |
| `ConnectedBoxes.RowEnd` | app/src/main/java/com/example/myapplication/MainActivity2.java:303-304 | with rows all of width w, the end of row y is the start of row y + 1 |
| `ConnectedBoxes.ScanCoversLit` | app/src/main/java/com/example/myapplication/MainActivity2.java:303-305 | once the scan has passed the last row, the visited cells are exactly the non-zero cells |
| `ConnectedBoxes.KeptBoxesInGrid` | app/src/main/java/com/example/myapplication/MainActivity2.java:335-342 | every emitted box lies inside the grid and has area at least minArea |
| `ConnectedBoxes.NoLitNoBoxes` | app/src/main/java/com/example/myapplication/MainActivity2.java:303-348 | an all-zero mask yields no boxes |
| `ConnectedBoxes.FindConnectedBoxes` | app/src/main/java/com/example/myapplication/MainActivity2.java:295-349 | an empty mask fails on mask[0]; otherwise every non-zero cell is enqueued exactly once and no zero cell is; the components found partition the non-zero cells into eight-connected components; the components come in discovery order, each starting at its row-major first cell with those cells strictly increasing; the result is the bounding box of each component whose area reaches minArea, in that order, each inside the grid |
| `ScoreLinkMask.Combine` | app/src/main/java/com/example/myapplication/MainActivity2.java:368-371 | the OR of the two mask bytes is 1 iff either test passes and 0 iff neither does |
| `ScoreLinkMask.MaskRow` | app/src/main/java/com/example/myapplication/MainActivity2.java:360-375 | one row of w cells, each the combination of its two tests, or an index error when a cell is missing |
| `ScoreLinkMask.PostprocessScoreLink` | app/src/main/java/com/example/myapplication/MainActivity2.java:351-379 | the mask is h by w, taken from the first batch; a cell is 1 iff the text or link test passes and 0 otherwise; an out-of-range access fails |
| `ScoreLinkMask.LitIffHit` | app/src/main/java/com/example/myapplication/MainActivity2.java:368-372 | the non-zero cells of the mask are exactly the cells where a test passes |
| `ScoreLinkMask.DetectTextRegions` | app/src/main/java/com/example/myapplication/MainActivity2.java:402-405 | the detection step returns the bounding boxes, of area at least 10, of the eight-connected components of the thresholded mask, whose non-zero cells are exactly the cells where a test passes; the components partition those cells and come in row-major discovery order |
| `GreedyDecoder.FirstMaxUnique` | app/src/main/java/com/example/myapplication/MainActivity.java:170-177 | a row has only one first maximum |
| `GreedyDecoder.FirstMax` | app/src/main/java/com/example/myapplication/MainActivity.java:170-177 | reference argmax: the first index of a largest score |
| `GreedyDecoder.ArgMax` | app/src/main/java/com/example/myapplication/MainActivity.java:170-177 | the strict-greater scan from index 0 returns the lowest index attaining the maximum |
| `GreedyDecoder.Labels` | app/src/main/java/com/example/myapplication/MainActivity.java:169-177 | one pick per timestep, each the first maximum of its row |
| `GreedyDecoder.InTableMembers` | app/src/main/java/com/example/myapplication/MainActivity.java:180 | the alphabet test keeps exactly the labels below alphabet.length |
| `GreedyDecoder.DedupMembers` | app/src/main/java/com/example/myapplication/MainActivity.java:180-183 | collapsing runs loses no label and invents none |
| `GreedyDecoder.DedupRepeatFree` | app/src/main/java/com/example/myapplication/MainActivity.java:180-183 | the collapse has no two equal neighbours |
| `GreedyDecoder.DedupKeepsRepeatFree` | app/src/main/java/com/example/myapplication/MainActivity.java:180-183 | a sequence without equal neighbours is its own collapse |
| `GreedyDecoder.DedupIdempotent` | app/src/main/java/com/example/myapplication/MainActivity.java:180-183 | collapsing twice is collapsing once |
| `GreedyDecoder.DecodedStep` | app/src/main/java/com/example/myapplication/MainActivity.java:180-183 | one timestep appends its pick exactly when it is below alphabet.length and differs from the index appended last, whatever came between |
| `GreedyDecoder.WrittenStep` | app/src/main/java/com/example/myapplication/MainActivity.java:179-183 | the loop body keeps text, lastIndex and the appended labels in step with the reference decoding of the picks so far |
| `GreedyDecoder.DecodeRecognizerOutput` | app/src/main/java/com/example/myapplication/MainActivity.java:165-187 | an empty timestep fails; an empty output gives ""; otherwise the text spells the picks that name an entry with runs of equal ones collapsed, blanks not breaking a run |
| `GreedyDecoder.DecodedShape` | app/src/main/java/com/example/myapplication/MainActivity.java:165-187 | the appended indices are at most one per timestep, never two equal in a row, and exactly the picks that name an entry |
| `GreedyDecoder.SpellSingleChars` | app/src/main/java/com/example/myapplication/MainActivity.java:181 | with one-character entries the text has one character per appended index, the i-th being that index's entry |
| `GreedyDecoder.AlphabetSpelling` | app/src/main/java/com/example/myapplication/MainActivity.java:51-60 | the app's alphabet has 68 single-character entries, so the text has one character per appended index |
| `GreedyDecoder.OneHotLabels` | app/src/main/java/com/example/myapplication/MainActivity.java:170-177 | one-hot timesteps are picked as their hot classes |
| `GreedyDecoder.WrittenSteps` | app/src/main/java/com/example/myapplication/MainActivity.java:169-184 | a trace that follows the source's append rule step by step ends in the reference decoding |
| `GreedyDecoder.BlankDoesNotSeparate` | app/src/main/java/com/example/myapplication/MainActivity.java:180-183 | one-hot timesteps A, blank, A are decoded as written to a single A |
| `GreedyDecoder.BlankSeparatesUnderCtc` | app/src/main/java/com/example/myapplication/MainActivity.java:179-183 | the same timesteps under greedy CTC give A twice |
| `GreedyDecoder.SpellOneLetter` | app/src/main/java/com/example/myapplication/MainActivity.java:181 | the two texts of that example are "A" and "AA" |
| `GreedyDecoder.RepeatAcrossBlankWritten` | app/src/main/java/com/example/myapplication/MainActivity.java:180-183 | the labels A A blank A B B blank blank, blank = 68, are decoded as written to A B |
| `GreedyDecoder.RepeatAcrossBlankCtc` | app/src/main/java/com/example/myapplication/MainActivity.java:179-183 | the same labels under greedy CTC give A A B |
| `GreedyDecoder.SpellAB` | app/src/main/java/com/example/myapplication/MainActivity.java:51-60 | classes 10 and 11 of the app's alphabet spell "A" and "B" |
| `GreedyDecoder.CtcStep` | app/src/main/java/com/example/myapplication/MainActivity.java:179-183 | under greedy CTC a pick is appended exactly when it names an entry and differs from the previous timestep's pick |
| `GreedyDecoder.CtcTimestep` | app/src/main/java/com/example/myapplication/MainActivity.java:179-183 | the corrected loop body keeps the text in step with greedy CTC of the picks so far |
| `GreedyDecoder.CtcGreedyDecode` | app/src/main/java/com/example/myapplication/MainActivity.java:165-187 | the corrected decoder spells the picks with runs collapsed first and blanks dropped after, so a blank separates equal labels |
| `GreedyDecoder.CtcDecodedMembers` | app/src/main/java/com/example/myapplication/MainActivity.java:179-183 | greedy CTC appends exactly the same set of classes as the source |
| `GreedyDecoder.CtcSteps` | app/src/main/java/com/example/myapplication/MainActivity.java:179-183 | a trace that follows the greedy CTC rule step by step ends in its reference decoding |

## Left out

- Android glue is not modelled: the activity lifecycle, permissions, the gallery intent, the progress dialog, threads, logging and `printByteBuffer`. These are I/O, UI and concurrency.
- Model and label loading (`loadModelFile`, `loadLabels`) are file I/O and are not modelled. `Interpreter.run` and the tensor metadata getters are foreign calls. The detector's output maps, the input shape, the input type and the quantization parameters are therefore inputs.
- `createScaledBitmap` and `getPixels` are a library resize. They are the `scaled` parameter of `PreprocessDetectorImage`, and the `pixels` argument of `PreprocessImage`.
- Floating point is not interpreted: `/ 255.0f`, the luminance weights, `sigmoid`, the threshold comparisons and `Math.round(value / scale)`. The same goes for the native byte order of `putFloat`. Samples are symbolic and scores are reals, so NaN scores are not modelled.
- `ScoreLinkMask.PostprocessScoreLink`: the `ones` counter is computed and never read, so it is not modelled. The text and link tests are arbitrary predicates, not the sigmoid thresholds 0.7 and 0.4 of `processImage`.
- `DetectorInput.PreprocessDetectorImage`: the products `batch * channels * targetH * targetW` and `... * bytesPerChannel` are taken as unbounded integers. Java int overflow of these products is not modelled; only the overflow inside the quantization sum is. The `scaled` function must return w*h pixels for a positive size, as `getPixels` does. A non-positive target size is reported as the scaler's exception, without modelling the scaler.
- `ArgbPixels.PreprocessImage`: it requires a positive size and exactly w*h pixels, which is what `createScaledBitmap` and `getPixels` guarantee. Java int overflow of `1 * width * height * 3 * 4` is not modelled.
- `ConnectedBoxes.FindConnectedBoxes`: it requires a rectangular mask. Its only caller builds the mask as `new byte[h][w]`. A ragged mask, which could make the Java code throw part-way or ignore cells, is not modelled. Java int overflow of the box area is not modelled either.
- `GreedyDecoder.DecodeRecognizerOutput`: `decodeRecognizerOutput` receives a `float[][]` of T rows of class scores; its caller allocates it as `[MAX_SEQ_LEN][NUM_CLASSES]` (32 by 80) and has `recognizer.run` fill it. The model takes it as a sequence of score rows of any length and width. The filling by the interpreter is a foreign call, and the code checks no batch size.
- `MainActivity2.Box.toString`, `CustomOCRDetector.java` (constants only) and `Box.java` (a record that nothing here uses) are not modelled.
- Coordinate mapping of boxes back to the original image, recognizer-input encoding and any decoder that reads `blankIndex` are not modelled. The code sets `blankIndex` and never reads it: the decoder treats every index at or above `alphabet.length` as blank.
- The model follows the code in these points:
  - a blank between two equal picks does not separate them (see Findings);
  - an argmax at or above the alphabet size appends nothing;
  - there is no batch-size check on the recognizer's output;
  - only one image's worth of elements is written whatever the batch size, so a batch above 1 leaves trailing zero bytes, a batch of 0 overflows and a negative batch fails on allocation;
  - a shape that is not 4-D and a 4-D shape with no inferable layout raise two different errors.

## Findings

| source | as written | input that shows it | evidently intended | confidence | as-written member | corrected member |
|---|---|---|---|---|---|---|
| app/src/main/java/com/example/myapplication/MainActivity.java:180-183 | `lastIndex` is updated only when a character is appended, so a blank (an index at or above `alphabet.length`) between two equal picks does not separate them | one-hot timesteps A, blank, A with alphabet {"A"} decode to "A"; the picks A A blank A B B blank blank over the app's alphabet decode to "AB" | greedy CTC, which the comment on line 179 names: the repeat test compares with the previous timestep's pick, giving "AA" and "AAB" | medium, not executed | `GreedyDecoder.BlankDoesNotSeparate` | `GreedyDecoder.CtcGreedyDecode` |

`GreedyDecoder.DecodeRecognizerOutput` models the code as written, because
that is what the app runs. `GreedyDecoder.CtcGreedyDecode` is the corrected
decoder. `GreedyDecoder.BlankDoesNotSeparate` with
`GreedyDecoder.BlankSeparatesUnderCtc`, and
`GreedyDecoder.RepeatAcrossBlankWritten` with
`GreedyDecoder.RepeatAcrossBlankCtc`, prove that the two decoders disagree.
