# Image to MakeCode Arcade sprite converter, modelled in Dafny

The web page in `main.js` turns a picture, or every frame of an animated GIF, into the text
of a MakeCode Arcade sprite literal:

```
img`
<one line per row, one hexadecimal palette digit per pixel>
`
```

This project models the part of `main.js` that decides what that text is:

- the colour helpers: hex strings, packing, inversion and distance;
- the RGBA pixel buffer the canvas API hands out (`getPixelColor`, `setPixelColor`);
- the 15 palette colour pickers, with the palette text file reader and the reset to the
  default Arcade palette;
- the resampling of the source image onto the target size;
- the two colour modes:
  - "solid" picks the nearest palette colour by sorting the palette in place;
  - "dotMatrix" does Floyd–Steinberg error diffusion over a buffer of real-valued colours;
- the encoder that maps each output pixel back to a palette digit;
- the GIF path of `running`: frames converted one by one, the first failure stopping the
  run, and the output text listing every sprite and every frame delay;
- `updateImageDimensions`, which picks the target size from the size options.

Files and modules, one module per file:

| file | module | covers |
|---|---|---|
| `colour.dfy` | `Colour` | hex strings, packing, inversion, distance |
| `grid.dfy` | `Grid` | row-major grids as values, two arithmetic facts |
| `raster.dfy` | `Raster` | the `ImageData` class and its pixel accessors |
| `resample.dfy` | `Resample` | nearest-neighbour source coordinates |
| `palette.dfy` | `Palette` | the 16-entry Arcade palette and the stable distance sort |
| `palette_form.dfy` | `PaletteForm` | the colour pickers, `readPalText`, the reset to defaults |
| `solid.dfy` | `Solid` | solid mode |
| `dither.dfy` | `Dither` | dot-matrix mode |
| `encode.dfy` | `Encode` | palette lookup and the sprite literal |
| `convert.dfy` | `Convert` | `convert` end to end |
| `gif.dfy` | `Gif` | frame delays, the frame loop, the output text |
| `dimensions.dfy` | `Dimensions` | `updateImageDimensions` |

State and specification functions:

- State that the source updates in place is a class, or an array the methods update:
  - the pixel buffer is the class `Raster.Image`;
  - the colour pickers are `PaletteForm.Slots`;
  - the palette that `Array.prototype.sort` reorders is an `array<Entry>`;
  - the dither buffer is an `array2`.
- Each loop is a method. Its `ensures` ties the new state to a specification function over
  grids of pixels (`Solid.SolidAt`, `Dither.DitherAt`, `Encode.Sprite`, `Gif.GifText`).
- The properties are lemmas about those functions.

## Model

| member | source | states |
|---|---|---|
| Colour.HexDigit | main.js:117 | a `toString(16)` digit is lower-case and reads back as the value it encodes |
| Colour.ByteToHexIsPadded | main.js:117 | the two-digit form used throughout is exactly `c.toString(16).padStart(2, '0')` |
| Colour.ByteToHex | main.js:117 | `toHex` always gives two lower-case hex digits |
| Colour.RgbToHexRoundTrip | main.js:105-119 | `rgbToHex` always passes `isValidHex`, and `hexToRgb` gives back the three channels |
| Colour.HexToRgbRoundTrip | main.js:105-119 | a valid lower-case `#rrggbb` string is `rgbToHex` of its own `hexToRgb` |
| Colour.RgbToHexInjective | main.js:116-119 | two colours with the same hex string are the same colour, so a table keyed by hex is a table keyed by colour |
| Colour.RgbToValue | main.js:145-148 | the packed value fits in 24 bits |
| Colour.ValueRoundTrip | main.js:145-156 | `valueToRgb(rgbToValue(c))` is `c` with alpha 255 |
| Colour.RgbValueRoundTrip | main.js:145-156 | every 24-bit value unpacks and repacks to itself |
| Colour.ColorInvert | main.js:125-133 | the inverted colour never has alpha 0 (a missing or 0 alpha becomes 255) |
| Colour.InvertInvolutive | main.js:125-133 | inverting twice gives back any colour whose alpha is not 0 |
| Colour.DistanceSq | main.js:230-235 | the squared distance is never negative |
| Colour.DistanceToSelf | main.js:230-235 | a colour is at distance 0 from itself |
| Colour.DistanceSymmetric | main.js:230-235 | the distance does not depend on argument order |
| Colour.InvertPreservesDistance | main.js:125-133 | inverting both colours keeps their distance |
| Raster.ClampByte | main.js:221-227 | a store into the clamped byte array keeps 0..255, and sends values below 0 to 0 and above 255 to 255 |
| Raster.PixelIndexInRange | main.js:211-213 | `(y * width + x) * 4 .. +3` lies inside a `width * height * 4` buffer for every in-range pixel |
| Raster.PixelIndexInjective | main.js:211-222 | two different pixels never share a buffer index |
| Raster.Image.constructor | main.js:626 | `createImageData` gives a fresh buffer of the requested size, all zero |
| Raster.Image.SetPixelColor | main.js:221-227 | after the write, `getPixelColor` at (x, y) reads the clamped values back; every other byte and every other pixel is unchanged |
| Raster.Pixels | main.js:211-219 | reading every pixel of a w x h buffer gives a w x h grid |
| Raster.FromGrid | main.js:878-879 | `putImageData` then `getImageData` gives a fresh buffer whose pixels are exactly the frame's grid (the canvas keeps colours exactly only where alpha is 0 or 255, which holds for decoded GIF frames) |
| Resample.SourceCoord | main.js:653-661 | the clamped source coordinate always lies inside the source image |
| Resample.SourceCoordUnclamped | main.js:653-658 | the clamps never take effect: the coordinate is `floor(t * ws / wt)` |
| Resample.SourceCoordIdentity | main.js:628-658 | when target and source sizes agree, each pixel maps to itself |
| Resample.SourceCoordMonotone | main.js:653-658 | the source coordinate never decreases as the target coordinate grows |
| Resample.Resampled | main.js:647-661 | the resampled picture is a wt x ht grid |
| Resample.ResampledIdentity | main.js:628-661 | resampling to the source's own size gives the source unchanged |
| Resample.ResampleGrid | main.js:637-640 | resampling a grid gives a wt x ht grid |
| Resample.ResampledOfPixels | main.js:637-661 | resampling an image equals resampling its pixel grid |
| Palette.ArcadeColors | main.js:600-623 | the palette always has 16 entries |
| Palette.ArcadeColorsSlots | main.js:600-623 | entry 0 is black with digit `0`; entry i is `hexToRgb` of picker i with digit `i.toString(16)`; the 16 digits are distinct |
| Palette.StableSortPermutes | main.js:693-697 | sorting by distance is a permutation of the palette |
| Palette.StableSortSorted | main.js:693-697 | after the sort, distances to the target never decrease |
| Palette.StableSortKeepsColourOrder | main.js:693-697 | entries of the same colour keep their relative order |
| Palette.StableSortKeepsKeyOrder | main.js:693-697 | the sort is stable: entries the comparator ties (equal distance to the target, of any colour) keep their relative order |
| Palette.StableSortReordered | main.js:693-697 | the sorted palette has the same entries and the same order within each colour |
| Palette.StableSortHead | main.js:693-697 | `[0]` after the sort is the first entry, in the current order, at minimum distance |
| Palette.FirstNearestIndex | main.js:693-697 | a linear scan finds the first index at minimum distance |
| Palette.InsertLast | main.js:693-697 | one insertion step places a[i] among the already sorted prefix and leaves the rest alone |
| Palette.SortByDistance | main.js:693-697 | sorting the palette array in place leaves it equal to the stable sort of its old contents |
| PaletteForm.Split | main.js:365 | `split('\n')` always gives at least one line |
| PaletteForm.SplitJoin | main.js:365 | joining the lines with `\n` gives the text back, and no line contains `\n` |
| PaletteForm.TrimSlice | main.js:367 | `trim()` gives a contiguous slice with only white space cut off on each side, and the result neither starts nor ends with white space |
| PaletteForm.WithHash | main.js:370 | the candidate colour always starts with `#` |
| PaletteForm.ApplyLinesAt | main.js:364-381 | picker i takes line i's candidate, as the colour input stores it, exactly when i is among the lines read and the candidate is valid hex; otherwise it keeps its value |
| PaletteForm.ApplyLinesKeepsValid | main.js:364-381 | reading a palette file keeps every picker a lower-case six-digit colour, whatever the text |
| PaletteForm.BareHexLine | main.js:367-373 | a line holding six hex digits, with or without `#` and surrounding white space, is accepted as `#` + digits |
| PaletteForm.EmptyLineRejected | main.js:367-373 | a blank line never changes a picker |
| PaletteForm.DefaultColorsValid | main.js:341-347 | the 15 default Arcade colours are all valid lower-case hex, so a picker stores them unchanged |
| PaletteForm.PickerValue | main.js:374 | a colour input assigned any valid hex holds lower-case six-digit hex |
| PaletteForm.PickerValueSameColour | main.js:374 | storing a colour in a picker keeps the colour `hexToRgb` reads |
| PaletteForm.PickerValueIsRgbToHex | main.js:374 | the stored value is `rgbToHex` of the colour assigned |
| PaletteForm.PickerValueKeepsStored | main.js:249 | assigning a picker a value it could hold leaves it unchanged |
| PaletteForm.Slots.constructor | main.js:341-351 | a Valid form whose pickers and text fields hold the default colours, as the reset writes them |
| PaletteForm.Slots.SyncTextToColor | main.js:245-254 | typed text that is valid hex goes, lower-cased, to picker i and nothing else, and the text field keeps it as typed; any other text leaves every picker as it was and the text field shows its picker's value |
| PaletteForm.Slots.ReadPalText | main.js:364-381 | the pickers after `readPalText` are the lines applied one by one to the pickers before it; each text field whose line was applied shows its picker's new value, and the others keep theirs |
| PaletteForm.Slots.ResetToDefault | main.js:339-352 | with no file chosen, the pickers and their text fields are reset to the default Arcade colours |
| Solid.ReorderIsReordered | main.js:693-697 | sorting for one pixel reorders the palette without changing it |
| Solid.PaletteAfterRowsReordered | main.js:647-697 | however many rows have been converted, the palette is still the original 16 entries reordered |
| Solid.PaletteBeforeReordered | main.js:647-697 | the same holds before any pixel |
| Solid.ChoiceNearest | main.js:693-697 | the colour chosen for a pixel is in the palette and at minimum distance from the sampled colour |
| Solid.ChoiceFirstInCurrentOrder | main.js:693-697 | ties go to the first nearest entry in the order earlier sorts left the palette |
| Solid.QuantizeOpaque | main.js:693-705 | the palette array is sorted in place, and the pixel gets the nearest colour, opaque; no other pixel changes |
| Solid.QuantizePixel | main.js:653-705 | one pixel gets its specified colour (transparent stays clear) and the palette moves to its next state |
| Solid.QuantizeRow | main.js:647-705 | after row y, rows 0..y hold their specified colours and the rest are still clear |
| Solid.QuantizeSolid | main.js:647-705 | every output pixel holds its specified solid-mode colour, and the palette ends in its specified order |
| Dither.Clamp255 | main.js:742-744 | the diffused channel stays in 0..255: unchanged inside the range, clamped outside it |
| Dither.Seed | main.js:630-644 | the dither buffer starts as a w x h grid of the resampled colours |
| Dither.NearestIsFirstMinimum | main.js:715-720 | the map-then-sort nearest entry is the first palette entry at minimum distance |
| Dither.DiffuseKeepsRange | main.js:737-750 | diffusing an error keeps every buffer channel in 0..255 |
| Dither.BufferInRange | main.js:630-750 | the buffer stays in 0..255 after any number of rows |
| Dither.DiffuseTouchesOnlyNeighbours | main.js:737-750 | diffusion changes only the right, lower-left, lower and lower-right neighbours |
| Dither.PixelStepKeepsEarlier | main.js:713-750 | one pixel step never changes a cell that the scan has already passed |
| Dither.CellFrozen | main.js:713-750 | a cell's final buffer value is its value when the scan reached it |
| Dither.DitherAtFinalBuffer | main.js:713-727 | each opaque output pixel is the nearest palette colour to that cell of the final buffer, with alpha 255 |
| Dither.SeedBuffer | main.js:630-644 | the buffer the loop fills holds the seed grid |
| Dither.DistributeError | main.js:737-746 | one `distributeError` call updates the buffer as its specification says |
| Dither.DiffuseError | main.js:747-750 | the four calls apply the Floyd–Steinberg weights 7, 3, 5 and 1 sixteenths |
| Dither.NearestOf | main.js:715-720 | the scan over the palette array returns the specified nearest entry |
| Dither.DitherOpaque | main.js:713-750 | the pixel gets the nearest colour, the buffer receives its error, and no other pixel changes |
| Dither.DitherPixel | main.js:653-750 | one pixel gets its specified dithered colour and the buffer moves to its next state |
| Dither.DitherRow | main.js:647-750 | after row y, rows 0..y hold their specified colours and the rest are still clear |
| Dither.DitherRows | main.js:647-750 | every output pixel holds its specified dithered colour |
| Dither.DitherImage | main.js:630-750 | seeding and scanning give every pixel its specified dot-matrix colour |
| Encode.LookupAgrees | main.js:767-776 | the lookup keyed by hex string and the one keyed by colour agree on every colour |
| Encode.FoldLast | main.js:767-772 | when several entries share a colour, the lookup holds the last one's digit |
| Encode.AfterPixelReordered | main.js:800-804 | the encoder's fallback sort only reorders the palette |
| Encode.PaletteAfterRowsReordered | main.js:780-812 | after any number of rows, the encoder's palette is the original reordered |
| Encode.EncodeCharDigit | main.js:786-808 | every character written is a lower-case hex digit other than `0`; transparent and black pixels become `f` |
| Encode.HighestSlotWins | main.js:767-808 | an opaque, non-black pixel of a palette colour gets the digit of the highest slot holding that colour |
| Encode.NoFallback | main.js:789-805 | when every opaque pixel has a palette colour, the fallback sort never runs |
| Encode.RowStringAt | main.js:781-810 | character x of a row string encodes pixel x |
| Encode.LiteralChar | main.js:811-814 | the literal is `` img` ``, a newline, w + 1 characters per row and a closing backtick |
| Encode.SpriteShape | main.js:779-814 | character 5 + y(w + 1) + x of the sprite encodes pixel (x, y), and each row ends in a newline |
| Encode.EncodePixel | main.js:783-809 | one pixel's digit and the palette after it match their specification |
| Encode.EncodeRow | main.js:780-812 | the row string and palette match their specification |
| Encode.EncodeRows | main.js:780-812 | the string of rows and palette match their specification |
| Encode.EncodeSprite | main.js:766-814 | `spriteCode` is the specified sprite text of the output buffer |
| Convert.EncoderPaletteReordered | main.js:693-697 | whatever the mode, the palette the encoder starts from is the original reordered |
| Convert.QuantizedColoured | main.js:664-750 | a converted pixel is clear exactly when its source pixel is transparent; otherwise it is opaque and its colour is a palette colour |
| Convert.QuantizedIsPaletteColoured | main.js:664-750 | every opaque converted pixel is a palette colour |
| Convert.EncoderNeverSorts | main.js:789-805 | for the output of either mode, the encoder's fallback sort never runs |
| Convert.ConvertedDigit | main.js:557-814 | each pixel's character is a digit other than `0`; `f` for transparent or black; otherwise the highest palette slot holding that pixel's colour |
| Convert.BlankIsClear | main.js:626 | a fresh output buffer reads as clear everywhere |
| Convert.Convert | main.js:557-814 | `convert` returns the specified sprite text of the resampled source, in either mode |
| Gif.MinWith | main.js:478 | the running minimum is at most the new delay and the old minimum, and equals one of them |
| Gif.GifMinDelay | main.js:463-481 | the minimum is 0 for no frames; otherwise it is the smallest frame delay, so falling back to `gifMinDelay` for a delay of 0 (main.js:819) never changes a delay |
| Gif.DecimalRoundTrip | main.js:904 | the decimal text of a delay has no leading zero and reads back as that delay |
| Gif.ItemAt | main.js:899-905 | item i sits at a fixed offset, between its indent and its `,\n` |
| Gif.NumeralsRead | main.js:903-905 | every delay line reads back as that frame's delay |
| Gif.AssembleOutput | main.js:897-906 | the output text is the frames header, the sprites, the delays header, the delays and the footer |
| Gif.ConvertFrame | main.js:875-881 | a decoded frame converts to its specified sprite |
| Gif.ConvertFrames | main.js:871-889 | an error is reported exactly when some frame fails to decode, and then it is the first one; otherwise result j is frame j's sprite with frame j's delay |
| Gif.Running | main.js:853-906 | an error is reported exactly when some frame fails, and it is the first one; otherwise the text lists every frame's sprite and delay, in order |
| Gif.ZeroDelaysKept | main.js:463-481 | for delays of 0, 5 and 0 hundredths, any minimum within `GifMinDelay`'s bound is 0, no delay is replaced, and running's delay list is 0, 50, 0 |
| Gif.ZeroDelaysWritten | main.js:902-905 | for delays of 0, 5 and 0 hundredths the delay lines written are `0`, `50` and `0` |
| Dimensions.Round | main.js:953 | `Math.round` gives the integer within one half, a half rounding up |
| Dimensions.AtLeastOne | main.js:988-989 | `Math.max(1, n)` is at least 1 and at least n, and n itself when n is positive |
| Dimensions.UpdateImageDimensions | main.js:939-989 | both target sides are at least 1 in every mode |
| Dimensions.RoundWhole | main.js:988-989 | rounding a whole number gives it back |
| Dimensions.OriginalSizeKept | main.js:958-985 | the original mode, an unreadable scale, a scale of 1 and two empty custom fields all keep the original size |
| Dimensions.CustomBoth | main.js:947-949 | two custom fields are used as they are, raised to 1 |
| Dimensions.FullWidthKeepsAspect | main.js:973-976 | full width is 160 wide, and the height is the original height scaled by the same factor, to the nearest pixel (at least 1) |
| Dimensions.FullHeightKeepsAspect | main.js:977-980 | full height is 120 high, and the width is scaled the same way |
| Dimensions.ScreenModesAreCustom | main.js:950-980 | full width is the custom mode with only the width 160, and full height the custom mode with only the height 120 |
| Dimensions.ScaledSideBounds | main.js:951-957 | the scaled side n satisfies (n - 1/2) * from <= other * to < (n + 1/2) * from |

## Left out

- The page itself is not part of this model:
  - the DOM;
  - event listeners;
  - the preview canvas (`fillStyle`, `fillRect`, `clearRect`);
  - the status line;
  - the copy and download buttons;
  - the date-stamped file name (main.js:821-829).
- File reading (`FileReader`, `file.arrayBuffer()`) and the `async`/`await` sequencing are not modelled. `Slots.ReadPalText` takes the file's text as a parameter.
- GIF decoding is not modelled:
  - `gifHandler` and `omggif` are not part of this model;
  - frames arrive as already-decoded pixel grids, or as a decoding failure standing for the exception the inner `try` catches.
- GIF frames: the model takes each frame's raster as given. `getFrameImageData` (main.js:53-64) decodes frame i alone onto a fresh transparent buffer the size of the GIF screen; earlier frames are not drawn under it and the disposal method is not applied, so outside its own rectangle a frame is transparent.
- PaletteForm.Slots.constructor: the pickers' values at page load come from the page's HTML, which is not part of this model; the constructor starts from the defaults that the reset writes.
- PaletteForm.Slots.ResetToDefault: covers col1..col15 only. The dot-matrix foreground and background pickers (main.js:97-98) also carry the `colorpicker` class, so the source's `forEach` reaches them too. This model does not include them.
- The outer `try`/`catch` (main.js:890-895) is not modelled. It catches failures of the file re-read and the decoder set-up, which this model does not include.
- The static-image branch of `running` and of `convert` is not modelled: the drawing onto a temporary canvas, and the clipboard and download text. `Gif.Running` therefore requires at least one frame, as the GIF branch does.
- Floating point is not modelled:
  - colours and distances are exact reals;
  - the dither buffer holds exact reals where JavaScript holds doubles;
  - `Math.sqrt` is not taken: ordering by squared distance gives the same order.
- Resample.SourceCoord: uses exact integer division `t * ws / wt` for `Math.floor(t * (ws / wt))`. The two can differ by one when the double quotient rounds up to a whole number.
- Encode.LookupAgrees: the encoder looks colours up in a map keyed by colour. `Colour.RgbToHexInjective` and this lemma show it is the same as the source's table keyed by `rgbToHex` strings.
- Dot-matrix pattern mode is not modelled: `dotBlockSize`, the `pattern` and `solidApprox` variants and `pixelIndex`. The loop at main.js:647-762 converts one output pixel per target pixel in both modes.
- These helpers are not used on the conversion path, so they are not modelled: `compareColorsWithPalette`, `colorSqrt`, `colorDivide`, `getMaxPossibleDistance`, `rgb` and `getRatioChecking`.
- `sizeTotal` and `imgSizeTotal` (main.js:587-592) only feed the status line, so they are not modelled.
- Dimensions.UpdateImageDimensions: `parseInt` and `parseFloat` are not modelled. Their results arrive as `Option` values (`None` for `NaN`).
- Dimensions.UpdateImageDimensions: scale factors of `Infinity`, and products that overflow to `Infinity`, are not modelled.
- Dimensions.UpdateImageDimensions: requires an original size of at least 1 x 1. `Resample` requires the same of the source.
- The resulting size is passed to the conversion as plain numbers. The `img` element that carries it is not modelled.

Where the code and the documented behaviour differ, the model follows the code:

- GIF delays:
  - the documented behaviour substitutes the minimum delay for a frame delay of 0;
  - `running` pushes each frame's raw delay (main.js:882), so a delay of 0 is printed as 0;
  - `gifMinDelay` includes zero delays (main.js:478), so even `convert`'s substitution (main.js:819) would give 0 whenever some frame has delay 0;
  - `Gif.ZeroDelaysKept` and `Gif.ZeroDelaysWritten` state this.
- In solid mode each pixel sorts the shared palette array in place. Ties therefore go to the first nearest entry in the order left by earlier pixels, not in the original palette order (`Solid.ChoiceFirstInCurrentOrder`).
- When two palette slots hold the same colour, the encoder's lookup keeps the later slot (`Encode.HighestSlotWins`). Digit `0` is never printed: transparent and black both become `f`.
- `readPalText` checks `i < 15` against every line of the file, including blank ones. A blank line still uses up a picker position, and it leaves that picker unchanged.
