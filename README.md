# A verified model of the vtk.js `.npy` volume viewer

The viewer script `vtk.js` reads a NumPy `.npy` file and shows it as a volume. This project
models its core in Dafny:

- `parseNpy` decodes the file. It checks the signature, reads the major and minor version bytes
  and the little-endian header length (two bytes for version 1, four otherwise). It then picks
  the `'descr'` and `'shape'` entries out of the header text with two regular expressions,
  parses the shape items with `trim` and `parseInt`, multiplies them into an element count, and
  opens a `Float32Array` or `Uint8Array` view after the header.
- `vtkImageFromNpy` turns a 2-D or 3-D array into image data. The dimensions are the shape in
  reverse (a 2-D shape becomes one slice), and the payload becomes a one-component array
  called `Scalars`.
- `renderVTK` contributes three things:
  - the scalar range;
  - the black-to-white colour stops and the transparent-to-opaque opacity stops placed at the
    two ends of that range;
  - the mapper's sample distance: `parseFloat(value) || 1` at setup, and the bare
    `parseFloat(value)` on every slider input.

The modules follow the program's structure:

- `Base`: `Option` and `Result`.
- `JsText`: the JavaScript string operations the shape pipeline uses (`trim`, `split(',')`,
  `parseInt`).
- `NpyHeader`: the two regular-expression lookups as a leftmost search, the shape pipeline, and
  the header dictionary NumPy writes.
- `NpyFormat`:
  - the byte framing;
  - the decoder, twice: as the function `Decode` and as the step-by-step cursor method
    `ParseNpy`, which is proved equal to it;
  - the file NumPy's `save` writes, which serves as the decoder's partner for the round trip.
    Its header is the dictionary, any number of spare blanks, then the alignment padding. Older
    NumPy releases write no spare blanks. Current ones write `GrowthSpare(shape)` of them;
  - the two checks exactly as vtk.js writes them.
- `Volume`: `vtkImageFromNpy`.
- `Rendering`: the range, the transfer-function stops and their ramps, and a `RenderSession`
  class whose sample distance the slider handler overwrites.

Every failure of `parseNpy` is a value of `DecodeError`, in the order the JavaScript meets it:

- a thrown `Error`;
- a `RangeError` from a `DataView` read or a typed-array view;
- a `TypeError` from indexing a failed `match`, or from `reduce` on an empty array.

The file is treated as a sequence of bytes. A float32 element stays an opaque group of four
bytes. Where its value matters (for the range), the caller supplies how it reads as a number.

## Model

| member | source | states |
|---|---|---|
| JsText.TrimStart | vtk.js:28 | the result is a suffix of the input, does not start with white space, and everything removed was white space |
| JsText.Trim | vtk.js:28 | `trim()` yields a piece of the input that neither starts nor ends with white space, and everything before and after it is white space |
| JsText.ParseInt | vtk.js:28 | `parseInt` of a text that is empty or all white space is NaN, and a negative result needs a minus sign as the first character after the white space |
| JsText.SplitComma | vtk.js:27 | `split(',')` yields at least one piece, no piece holds a comma, and joining the pieces with commas gives the input back |
| JsText.SplitJoin | vtk.js:27 | splitting the comma-join of comma-free pieces gives exactly those pieces |
| JsText.JoinCommaConcat | vtk.js:27 | joining two runs of pieces is joining each, with one comma between them |
| JsText.SplitCommaConcat | vtk.js:27 | `split(',')` of two texts joined by a comma gives the pieces of the first, then those of the second |
| JsText.ParseDecimal | vtk.js:28 | `parseInt` of the decimal digits of any natural number, after any leading white space, is that number (as an exact integer; see Left out) |
| JsText.ParseTrimmedDecimal | vtk.js:28 | `parseInt(x.trim())` of a blank-padded decimal is its value |
| JsText.ParseNoDigit | vtk.js:28-29 | a text whose first character is not white space, a sign or a digit parses to NaN, so the filter drops it |
| JsText.ParseEmpty | vtk.js:28-29 | the empty item parses to NaN, so the filter drops it |
| NpyHeader.MatchAt | vtk.js:25-26 | a match at a position starts with the key there, and its capture holds no closing delimiter and is non-empty where the pattern demands it |
| NpyHeader.MatchAtIsRegexMatch | vtk.js:25-26 | for a pattern whose gap cannot cover its opening delimiter, the greedy match at a position yields a capture exactly when the regular expression matches there with that capture: the key, gap characters, the opening delimiter, a capture free of the closing delimiter, the closing delimiter |
| NpyHeader.Search | vtk.js:25-26 | a capture the search finds holds no closing delimiter, and is non-empty where the pattern demands it |
| NpyHeader.SearchIsLeftmost | vtk.js:25-26 | `String.prototype.match` finds nothing exactly when no position matches, and otherwise returns the capture of the leftmost matching position |
| NpyHeader.AsWrittenDescrNeedsBackslash | vtk.js:25 | the descr regular expression as written can only match a header that contains a backslash |
| NpyHeader.ShapeItemsAllParse | vtk.js:28-29 | when every item trims and parses to a number, the map-and-filter pipeline returns exactly those numbers in order |
| NpyHeader.ShapeItems | vtk.js:28-29 | the map-and-filter pipeline keeps at most one number per item |
| NpyHeader.ShapeItemsOne | vtk.js:28-29 | one item gives its number when `parseInt(x.trim())` reads one, and nothing when it reads NaN |
| NpyHeader.ShapeItemsConcat | vtk.js:28-29 | the pipeline works item by item: the numbers of `a + b` are those of `a` followed by those of `b` |
| NpyHeader.ShapeItemsAllNaN | vtk.js:28-29 | items that all parse to NaN give the empty shape |
| NpyHeader.ParseShape | vtk.js:26-29 | the shape has at most as many axes as the capture has comma-separated pieces |
| NpyHeader.ParseShapeConcat | vtk.js:27-29 | the axes of two captures joined by a comma are those of the first, then those of the second |
| NpyHeader.ShapeDropsNaNPiece | vtk.js:27-29 | a comma-free piece that reads as NaN is dropped, and the axes on either side of it are kept in order (so `2, x, 3` names (2, 3)) |
| NpyHeader.ShapeOfOneAxis | vtk.js:26-29 | the one-axis tuple text `10,` (trailing comma, as NumPy writes `(10,)`) gives the shape `[10]` |
| NpyHeader.ShapeOfNoAxis | vtk.js:26-29 | the empty tuple text (a zero-dimensional array) gives the empty shape |
| NpyHeader.ParseSingleton | vtk.js:26-29 | the one-axis tuple text NumPy writes for any length gives back that length alone |
| NpyHeader.ParseTupleBody | vtk.js:26-29 | for every non-empty shape, the shape pipeline applied to the tuple text NumPy writes gives back the shape |
| NpyHeader.LookupsFindNumpyFields | vtk.js:25-26 | in the dictionary NumPy writes, followed by anything, the descr lookup finds the descr and the shape lookup finds the tuple text |
| NpyFormat.ToLittleEndian | vtk.js:18 | the `w` little-endian bytes of a number below 256^w read back as that number |
| NpyFormat.GetUint16 | vtk.js:18 | `getUint16(o, true)` is the little-endian value of the two bytes at `o` |
| NpyFormat.GetUint32 | vtk.js:18 | `getUint32(o, true)` is the little-endian value of the four bytes at `o` |
| NpyFormat.HeaderLengthField | vtk.js:15-23 | the payload starts at 10 plus a 16-bit length after major version 1, and at 12 plus a 32-bit length after any other; a buffer too short for the field or for the announced header fails there |
| NpyFormat.Group | vtk.js:34-35 | splitting `n*w` bytes gives `n` groups of `w` bytes whose concatenation is the input |
| NpyFormat.GroupFlatten | vtk.js:34-35 | grouping the concatenation of equal-width groups gives the groups back |
| NpyFormat.Product | vtk.js:30 | the element count is 0 when some axis is 0, and not negative when no axis is |
| NpyFormat.ProductConcat | vtk.js:30 | the product of two shapes joined is the product of their products |
| NpyFormat.View | vtk.js:34-35 | a typed view succeeds exactly when the offset is a multiple of the element width, the count lies between 0 and 2^53 - 1 and the elements fit in the buffer; otherwise it fails with misalignment, a negative count, a count above 2^53 - 1 or a short payload, in that order |
| NpyFormat.ViewContents | vtk.js:34-35 | a successful view holds `count` elements of the element width, and their bytes are, in order, the buffer's bytes from the offset on |
| NpyFormat.ViewOfGroups | vtk.js:34-35 | a view over bytes that are equal-width groups returns exactly those groups |
| NpyFormat.Suffix | vtk.js:33 | `slice(-2)` is the last two characters, or the whole descr when it is shorter |
| NpyFormat.DTypeOf | vtk.js:33-36 | the dtype is float32 exactly when the descr ends in `f4` and bytes exactly when it ends in `u1` |
| NpyFormat.DescrSuffixDispatch | vtk.js:33-36 | the dtype is decided by the last two characters alone: `f4` gives float32 and `u1` gives bytes, whatever byte-order mark precedes them |
| NpyFormat.OtherDescrsRefused | vtk.js:33-36 | `<f8`, `<i4`, a one-character descr and the empty descr are unsupported |
| NpyFormat.Descr | vtk.js:33-36 | NumPy's descr for each dtype is `<f4` for float32 or the byte descr `u1` behind its no-byte-order mark |
| NpyFormat.DescrRoundTrip | vtk.js:33-36 | the dispatch maps NumPy's descr of each dtype back to that dtype |
| NpyFormat.Decode | vtk.js:10-17 | a buffer shorter than the signature fails as truncated, one that has another signature is not a `.npy` file, and a signed buffer of 6 or 7 bytes fails reading the major or the minor version byte |
| NpyFormat.DecodeIsBody | vtk.js:10-38 | once the signature, the length field and the announced header are all in the buffer, the result (an array or any error) is that of the body step on that header at that payload offset |
| NpyFormat.SignatureMatchesAsWritten | vtk.js:12-13 | the signature check as written fails on every buffer of at least six bytes |
| NpyFormat.DecodeBody | vtk.js:25-36 | after the header, a missing descr match, a missing shape match, an empty shape and an unsupported descr each fail with their own error, in that order |
| NpyFormat.BodyIsView | vtk.js:25-38 | for any header whose two lookups succeed, whose shape is not empty and whose descr is supported, the result is the captured shape and descr with the view's elements, or the view's own error |
| NpyFormat.BodySucceeds | vtk.js:25-38 | a header that yields an array has both lookups succeed, and the array's descr and shape are the descr capture and the parsed shape capture; the shape is non-empty, the descr supported, and the elements are the view of as many elements as the shape's product |
| NpyFormat.DecodeSucceeds | vtk.js:10-38 | a buffer that decodes starts with the signature and holds the length field and the header it announces; its descr and shape are that header's captures, whatever their order and spacing, and its array is the view at the payload offset of the shape's product many elements |
| NpyFormat.DecodeFrames | vtk.js:10-23 | a buffer that decodes is framed by its prelude, and the step after the header decides the result |
| NpyFormat.ParseNpy | vtk.js:10-39 | the byte-cursor method returns what `Decode` specifies for every buffer, error or array |
| NpyFormat.HeaderFor | vtk.js:21-23 | the header NumPy writes, whatever number of spare blanks follows its dictionary, ends where the payload starts at a multiple of 64 bytes |
| NpyFormat.HeaderPlain | vtk.js:22 | that header is ASCII and holds no backslash, so decoding it as UTF-8 is reading it byte by byte |
| NpyFormat.Prelude | vtk.js:10-23 | the prelude is the eight leading bytes, the length field and the header |
| NpyFormat.PreludeFields | vtk.js:12-23 | the reader finds the signature, the major version, the announced header length and the header text in a buffer that starts with a prelude |
| NpyFormat.PreludeAligned | vtk.js:34 | the payload of a file NumPy writes starts at a multiple of 64, so the float32 view is always aligned |
| NpyFormat.HeaderLookups | vtk.js:25-26 | in the header NumPy writes, with any number of spare blanks, the descr lookup finds its descr and the shape lookup finds its tuple text |
| NpyFormat.Padding | vtk.js:21-23 | the alignment padding after the dictionary and its spare blanks is blanks and one final newline, at most 65 characters, and ends the header at a multiple of 64 bytes |
| NpyFormat.DecodeAfterPrelude | vtk.js:25-38 | after a prelude the result is the empty-shape error for a scalar, and otherwise the announced shape and descr with the view's elements, or the view's error |
| NpyFormat.DecodeEncode | vtk.js:10-39 | reading a file NumPy writes (version 1.0 or 2.0, any number of spare header blanks) for a non-empty shape with at most 2^53 - 1 elements, followed by any bytes, gives back its shape, descr, dtype and elements |
| NpyFormat.TruncatedPayloadRejected | vtk.js:34-35 | a file NumPy writes, cut short anywhere inside its payload, fails with the byte count the view needed and the bytes that remained |
| NpyFormat.DecodeRefusedView | vtk.js:34-35 | after a prelude, a view that fails makes the whole read fail with that same error |
| NpyFormat.OversizedCountRejected | vtk.js:30-35 | a header NumPy writes whose shape has more than 2^53 - 1 elements fails at the view with a count that is too large, before any check of the payload's length |
| NpyFormat.ScalarFileRejected | vtk.js:30 | a zero-dimensional file fails at the `reduce` with the empty-shape error |
| NpyFormat.AsWrittenRejectsNumpyFiles | vtk.js:12-13 | the signature check as written refuses every file NumPy writes, while the intended check decodes it (for at most 2^53 - 1 elements) |
| NpyFormat.AsWrittenDescrMissesNumpyHeader | vtk.js:25 | the descr lookup as written finds nothing in any header NumPy writes, while the intended one finds the descr |
| Volume.Reversed | vtk.js:45-50 | the reversed sequence has the same length and holds element `i` from the end at place `i` |
| Volume.ImageFromNpy | vtk.js:41-60 | the image exists exactly for rank 2 or 3 and otherwise the rank is refused; the dimensions are the shape reversed, plus depth 1 for a 2-D shape; the scalars are the payload unchanged, with one component and the name `Scalars` |
| Volume.PointsMatchScalars | vtk.js:43-57 | an image built from any buffer that decodes has exactly one scalar per point |
| Rendering.ScalarValues | vtk.js:85 | there is one scalar value per element |
| Rendering.Minimum | vtk.js:85 | the minimum is one of the values and no value is smaller |
| Rendering.Maximum | vtk.js:85 | the maximum is one of the values and no value is greater |
| Rendering.ValueRange | vtk.js:85 | `getRange()` is absent exactly for no values; otherwise both ends are values and every value lies between them |
| Rendering.RangeOfAllBytes | vtk.js:85 | the 256 unsigned bytes, one of each, have the range 0 to 255 |
| Rendering.OpacityRamp | vtk.js:86-90 | over a range with distinct ends the opacity is 0 at or below the minimum, 1 at or above the maximum, strictly between in between, and never decreases |
| Rendering.ColorIsGreyOfOpacity | vtk.js:86-90 | the colour at every scalar is the grey whose level equals the opacity there |
| Rendering.ScalarsOnTheRamp | vtk.js:85-90 | every scalar of the volume lies in its range and has an opacity between 0 and 1 |
| Rendering.ColorStops | vtk.js:86-87 | two colour stops, at the minimum and at the maximum; over distinct ends the colour is black at the minimum and white at the maximum |
| Rendering.OpacityStops | vtk.js:89-90 | two opacity stops, at the minimum and at the maximum; over distinct ends the opacity is 0 at the minimum and 1 at the maximum |
| Rendering.Float32Example | vtk.js:10-60 | a (2, 2) float32 file with the values 0, 0.5, 1, 1, written with or without the spare blanks of current NumPy, decodes to one 2-by-2 slice with the range 0 to 1, whatever follows its payload |
| Rendering.InitialSampleDistance | vtk.js:76 | the initial value, the parsed number or else 1, is never NaN or 0: it keeps any other parsed number and gives 1 for NaN and 0 |
| Rendering.RenderSession.constructor | vtk.js:62-98 | setup keeps the image, takes its range (the library's answer for an image with no scalars) and the stops of that range, sets the initial sample distance and renders once |
| Rendering.RenderSession.OnInput | vtk.js:100-103 | a slider input sets the sample distance to the parsed value with no fallback and renders again; the range and stops stay as they were |
| Rendering.SliderCanYieldNaN | vtk.js:76-103 | a setup with an unparsable slider sets 1, while the same input handled by `oninput` leaves NaN |

## Left out

- `getQueryParam` (vtk.js:5-8) is left out: it reads the page URL and nothing in the core uses it.
- The file input and URL handlers (vtk.js:106-122) are left out: they are browser I/O (`FileReader`, `fetch`, DOM events) that only chain `parseNpy`, `vtkImageFromNpy` and `renderVTK`.
- The rendering library calls in `renderVTK` (vtk.js:64-98) are out of scope: the window, renderer, camera, actor, interpolation type and the drawing itself. The model keeps only the values the script passes in: the range, the stops and the sample distance. `renders` counts the `render()` calls.
- How the library interpolates and deduplicates transfer-function stops is not part of this model. `OpacityAt` and `ColorAt` are the linear ramp between two distinct stops, clamped outside them. A volume whose scalars are all equal is covered only by `ValueRange`.
- Rendering.ElementValue: IEEE 754 float32 decoding is not modelled. A float32 element's value comes from a caller-supplied `Float32Reader`, which returns a `real`. So a payload holding NaN or ±Infinity cannot be expressed, and what the library's range computation does with such values (skip or propagate them) is not modelled.
- NpyFormat.AsciiText: the header's UTF-8 decoding is modelled byte by byte. This agrees for ASCII headers, which is all NumPy writes (`HeaderPlain`). A header with non-ASCII bytes is not modelled: `TextDecoder` turns an invalid byte into U+FFFD and drops a leading byte-order mark, where `AsciiText` keeps every byte as one character.
- NpyFormat.View: the typed array is modelled as the copied byte groups. Aliasing with the buffer and element values are not modelled.
- The minor version byte is read and ignored, as the source does. `fortran_order` is never consulted, as in the source, so a Fortran-ordered file decodes with its axes in C order.
- The shape regular expression as written (vtk.js:26) is over-escaped in the same way as the descr one. It is not modelled on its own: the descr lookup runs first and already fails on every file NumPy writes (see Findings). The shape lookup is modelled as intended.
- Infinity from `parseFloat` is not modelled: `JsNumber` has finite values and NaN only.
- Rendering.RenderSession.constructor: the range of an image with no scalars (a shape with a zero axis, such as (0, 4)) is whatever the library's `getRange()` returns. The model takes that answer as the parameter `emptyRange`; `ValueRange` itself returns `None` there.
- The source contains no writer. `HeaderFor` and `Prelude` model the file NumPy's `save` writes (version 1.0 or 2.0, a C-ordered dictionary, any number of spare blanks, then blanks and a newline to a multiple of 64 bytes) as the decoder's partner. Fortran-ordered files (`'fortran_order': True`) are not written by the model; the reader ignores that entry either way.
- NpyFormat.DecodeBody: its own contract states its four errors. The view branch it ends with is stated by `BodyIsView` and `BodySucceeds`.
- NpyFormat.Decode: its own contract covers only the failures before the length field. The length-field and header truncations are stated by `HeaderLengthField`. On every buffer that holds its announced header, `DecodeIsBody` hands the result to `DecodeBody`, whose contract states the `MissingDescr`, `MissingShape`, `EmptyShape` and `UnsupportedDtype` errors. For any header, `BodyIsView` states the remaining branch (the captured shape and descr with the view's elements, or the view's error) and `DecodeSucceeds` ties a successful result to the header's captures. For the files NumPy writes, `DecodeAfterPrelude`, `DecodeEncode`, `TruncatedPayloadRejected`, `OversizedCountRejected` and `ScalarFileRejected` give the outcome outright.
- JsText.ParseInt: JavaScript numbers are IEEE 754 doubles, and the model's `parseInt` is exact. A digit string above 2^53 is rounded by JavaScript (9007199254740993 reads as 9007199254740992), and one above about 1.8e308 reads as Infinity. So `ParseDecimal`, `ParseTupleBody` and `DecodeEncode` agree with JavaScript only for axis lengths up to 2^53.
- NpyFormat.Product: `reduce` multiplies in doubles, so a product above 2^53 may be rounded; the model multiplies exactly. Any such product is above 2^53 - 1, so the view refuses it with `CountTooLarge` either way; the exact count carried in that error may differ from the JavaScript one.
- NpyHeader.ShapeItems: its own contract only bounds the length of the result. What the pipeline returns is stated for every list of items by `ShapeItemsOne` and `ShapeItemsConcat` together, and for whole lists by `ShapeItemsAllParse` and `ShapeItemsAllNaN`.
- NpyHeader.ParseShape: its own contract only bounds the number of axes. What it returns is stated by `ParseShapeConcat`, `ShapeDropsNaNPiece`, `ParseTupleBody`, `ParseSingleton` and `ShapeOfNoAxis`.
- The page script `script.js` is not part of this model.

## Findings

| source | as written | input that shows it | evidently intended | confidence | as-written member | corrected member |
|---|---|---|---|---|---|---|
| vtk.js:13 | the first six bytes, as text, are compared with the literal `"\\x93NUMPY"`, which spells nine characters (a backslash, `x93`, then `NUMPY`), so no six-character text can equal it | any file NumPy writes, e.g. a float32 array of shape (2, 2), starting with the bytes 0x93 `NUMPY` | accept the byte 0x93 followed by `NUMPY` | not executed | NpyFormat.AsWrittenRejectsNumpyFiles | NpyFormat.Decode |
| vtk.js:25 | `/'descr':\\s*'([^']+)'/` is over-escaped: `\\s` means a backslash followed by any number of `s`, so a match needs a backslash in the header | any header NumPy writes, e.g. `{'descr': '<f4', 'fortran_order': False, 'shape': (2, 2), }`, which holds no backslash, so `match` returns null and `[1]` throws | white space between `'descr':` and the quoted descr | not executed | NpyFormat.AsWrittenDescrMissesNumpyHeader | NpyHeader.LookupsFindNumpyFields |
