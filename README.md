# tfrecord-viewer overlays and gallery, modelled in Dafny

tfrecord-viewer is a small web gallery for TFRecord files. At start-up it reads
`tf.train.Example` records from one or more files and draws an annotation
overlay on each record's image. It keeps up to `max_images` of these images in
three parallel lists, and serves them on an HTML front page. This project
models that core:

- **Records** (`records.dfy`): the feature map of an Example as
  `map<string, Feature>`. Reading a missing key gives an empty feature, as a
  protobuf message map does.
- **Detection overlay** (`detection.dfy`):
  - the `;`-split highlight list and the colour choice;
  - extraction of `(label, xmin, xmax, ymin, ymax)` tuples from parallel
    feature lists;
  - scaling to pixels;
  - the three drawing calls per box, on an image object drawn on in place;
  - the RGBA/P to RGB conversion before the JPEG save.
- **Segmentation overlay** (`segmentation.dfy`, `arrays.dfy`):
  - the format dispatch of `get_segmap`;
  - the raw branch: TensorFlow `decode_raw` to little-endian int32, reshape to
    h × w, and numpy int32 floor division by the configured divisor;
  - the CSV colormap loader: it fills a zeroed 256-row array in place, in file
    order, with `np.fromstring(line, sep=",", dtype=int)`, broadcasting and
    uint8 wrap-around. Each element is read as CPython's `PyOS_strtol` reads
    a 64-bit C long, so a blank line reads as `[0]`, a lone sign as 0, and an
    overflowing number saturates at the C long maximum;
  - the constructor's palette choice;
  - the blend's mode and size checks.
- **Classification overlay** (`classification.dfy`): the label read from the
  record, and the fixed white background and blue text drawn in the corner.
- **Overlay factory** (`factory.dfy`): the four-name `overlay_map`,
  `get_overlay`, and the identity `none` overlay.
- **Viewer** (`viewer.dfy`): a `Gallery` class holding the global `images`,
  `filenames` and `captions` lists, with three operations:
  - `preload_images`: nested loops over files and records, the cap check, and
    the early return of the count;
  - `frontpage`: builds the HTML string;
  - `get_image`: parses `int(key)` and indexes the list, Python negative
    indices included.

The library calls the overlays make are parameters in a `Backend` value:
`Image.open`, the JPEG encoder, the font's text extent and PNG decoding. An
image is its source bytes, its size and mode, and the list of drawing commands
applied to it, in order.

Every exception the source raises on the modelled paths, outside the
`Backend` library calls, is a `Result` error named after its Python class:
`IndexError`, `KeyError`, `AttributeError`, `TypeError`, `ValueError`,
`UnicodeDecodeError`, TensorFlow's `InvalidArgumentError`, PIL's
image-identification error and `OSError`. Each operation raises them in the
order the source evaluates its expressions. The font's text extent and the
drawing calls never fail in this model.

The raw segmentation divisor is taken as any int32 and divided as numpy
divides int32 arrays:

- a zero divisor yields 0;
- a negative divisor floors;
- `-2^31 // -1` wraps to `-2^31`.

No positive divisor is assumed, since the source does not check for one.

The viewer's own argument parser defines no `segmap_*` options, so
`Config.Args.segmap` is `None` for a namespace it builds. With that namespace,
`--overlay segmentation` raises AttributeError when the overlay is constructed
(`Viewer.SegmentationNeedsItsArguments`).

## Model

| member | source | states |
|---|---|---|
| Utf8.DecodeEncode | overlays/classification_overlay.py:52 | Decoding the UTF-8 encoding of any string gives that string back, so a label stored as UTF-8 is read back unchanged. |
| Utf8.DecodeFirstOfEncoding | overlays/classification_overlay.py:52 | The encoding of one character, whatever bytes follow it, decodes to that character and consumes exactly its own bytes. |
| Text.SplitPiecesFreeOfSeparator | overlays/detection_overlay.py:13 | No piece of `s.split(sep)` contains the separator. |
| Text.JoinSplit | overlays/detection_overlay.py:13 | Joining the pieces of `s.split(sep)` with `sep` gives `s` back. |
| Text.SplitJoin | overlays/detection_overlay.py:13 | Splitting a join of separator-free pieces gives exactly those pieces back. |
| Text.NatToString | tfviewer.py:112 | `str(i)` of a natural number is a non-empty string of decimal digits. |
| Text.DigitsValueOfNatToString | tfviewer.py:112 | The digits of `str(n)` denote `n`. |
| Text.PyIntOfNatToString | tfviewer.py:119 | `int(str(n)) == n` for every natural number. |
| Records.FirstStringOfEncoded | tfviewer.py:93 | A key whose first byte-string is the UTF-8 encoding of `s` reads back as `s`. A key with no byte-string raises IndexError. |
| Imaging.NormaliseMode | overlays/detection_overlay.py:109-110 | RGBA and P become RGB and every other mode is kept. The result is JPEG-writable exactly when the input was, or was one of the two converted modes. |
| Imaging.Canvas.Open | overlays/detection_overlay.py:93-95 | The opened image has the source's size and mode, and nothing drawn on it. |
| Imaging.Canvas.Draw | overlays/detection_overlay.py:101 | A drawing call appends exactly one command after those drawn before and leaves the mode alone. |
| Imaging.Canvas.Convert | overlays/detection_overlay.py:110 | Conversion yields a new image with the same source, size and drawing, in the target mode. |
| Detection.New | overlays/detection_overlay.py:11-13 | The overlay keeps its arguments. Its highlight list is the non-empty list of `;`-free pieces that join back to `labels_to_highlight`. |
| Detection.HighlightedIffListed | overlays/detection_overlay.py:57-61 | A label is red exactly when it equals one of the `;`-separated pieces of the configured string, compared case-sensitively; otherwise it is blue. |
| Detection.EmptyConfigHighlightsEmptyLabel | overlays/detection_overlay.py:13 | An empty highlight string highlights exactly the empty label. |
| Detection.CollectBoxes | overlays/detection_overlay.py:46-52 | A successful collection over the first `n` labels holds `n` tuples. |
| Detection.ExtractBoxesCount | overlays/detection_overlay.py:45-55 | Without the label key the box list is empty. With it, a successful extraction has one tuple per label. |
| Detection.CollectBoxesOk | overlays/detection_overlay.py:46-52 | Collection succeeds exactly when every label's tuple can be built. |
| Detection.CollectBoxesValues | overlays/detection_overlay.py:46-52 | A successful collection holds tuple `i` at position `i`, in label order. |
| Detection.CollectBoxesFirstError | overlays/detection_overlay.py:46-52 | A failed collection raises the exception of the first tuple that cannot be built; all tuples before it can be. |
| Detection.CollectBoxesKeepsError | overlays/detection_overlay.py:46-52 | Once building a tuple fails, collecting more labels fails the same way; no partial list is returned. |
| Detection.ExtractedBoxes | overlays/detection_overlay.py:46-52 | With the key present, tuple `i` has label `i` decoded from UTF-8 and `xmin[i]`, `xmax[i]`, `ymin[i]`, `ymax[i]`. |
| Detection.ShortCoordinatesRaise | overlays/detection_overlay.py:48-51 | If every label decodes but some coordinate list is shorter than the label list, extraction raises IndexError instead of returning partial boxes. |
| Detection.GetBboxTuples | overlays/detection_overlay.py:36-55 | Appending one tuple per label in a loop produces exactly the extraction result, error included. |
| Detection.ToPixels | overlays/detection_overlay.py:77-81 | The label is kept. With `coordinates_in_pixels` the box is returned unchanged. |
| Detection.ToPixelsKeepsOrder | overlays/detection_overlay.py:77-81 | Scaling keeps ordered corners ordered. A fractional box inside the unit square lands inside `[0, width] × [0, height]`. |
| Detection.FractionsMatchPixels | overlays/detection_overlay.py:77-81 | A box given as fractions `x/W`, `y/H` converts to the same pixels as the box given in pixels. |
| Detection.PlanBlocks | overlays/detection_overlay.py:99-106 | Each box contributes exactly three drawing calls, at positions `3i` to `3i+2`, boxes in list order. |
| Detection.PlanCommands | overlays/detection_overlay.py:99-106 | Box `i` draws, in order: the outline `[xmin, ymin, xmax, ymax]`; the white rectangle `(xmin, ymin, xmin+w+4, ymin+h)`; the text at `(xmin+4, ymin)`. Outline and text share one colour: red when the label is highlighted, blue otherwise. |
| Detection.LabelInsideBackground | overlays/detection_overlay.py:103-106 | The label's text extent, placed at its anchor, lies within the white rectangle drawn just before it. |
| Detection.DrawBboxes | overlays/detection_overlay.py:83-113 | An image that cannot be opened raises. Otherwise the saved picture is the source with the full plan drawn in place, RGBA/P converted to RGB first. |
| Detection.ApplyOverlay | overlays/detection_overlay.py:20-33 | Extracting the boxes in a loop and then drawing them in place gives the specified render. The boxes are read before the image is opened, so an extraction error is raised first. |
| Detection.RenderNormalisesMode | overlays/detection_overlay.py:108-111 | An RGBA/P image is saved as RGB with the extracted boxes' plan. A JPEG-writable image is saved as it is. Any other mode raises OSError. |
| Detection.NoLabelsNoDrawing | overlays/detection_overlay.py:99-111 | A record without labels gets no drawing: only the re-encoded image. |
| Detection.HighlightedCarBox | overlays/detection_overlay.py:101 | With "car" highlighted, the box `(0.1, 0.5, 0.2, 0.6)` on a 100 × 100 image is outlined in red from (10, 20) to (50, 60). |
| Classification.GetLabelOfStored | overlays/classification_overlay.py:52 | The label is the first byte-string of the label key, decoded. A record without one raises IndexError. |
| Classification.LabelInsideBackground | overlays/classification_overlay.py:32-35 | The white rectangle `(10, 10, 14+w, 10+h)` is drawn first, then the blue text at `(10, 10)`. The text's extent lies inside the rectangle, with 4 pixels to spare on the right. |
| Classification.ApplyOverlay | overlays/classification_overlay.py:16-41 | Drawing onto the opened image in place yields the specified render: open, read the label, draw background then text, save. |
| Classification.RenderDrawsLabel | overlays/classification_overlay.py:27-39 | A labelled JPEG-writable image is saved with exactly the two label commands drawn. Another mode raises OSError. |
| Classification.MissingLabelRaises | overlays/classification_overlay.py:52 | An image that opens but has no label raises IndexError. |
| Classification.ReadsOnlyLabelKey | overlays/classification_overlay.py:30 | Records that agree on the label key render alike. |
| Segmentation.TableAfter | overlays/semantic_segmentation_overlay.py:61-64 | Any table built this way has 256 rows. |
| Segmentation.StoreRow | overlays/semantic_segmentation_overlay.py:63-64 | Storing line `i` fails with IndexError at `i >= 256`. Otherwise it fails with that line's parse error, or replaces exactly row `i`. |
| Segmentation.TableAfterKeepsError | overlays/semantic_segmentation_overlay.py:63-64 | Once storing a line fails, the load fails with that error. |
| Segmentation.LoadColormap | overlays/semantic_segmentation_overlay.py:60-66 | Filling a zeroed 256-row array in place, line by line, yields the specified table or error. |
| Segmentation.TableAfterRows | overlays/semantic_segmentation_overlay.py:61-64 | A stored table holds row `i` at index `i` and black past the last row. |
| Segmentation.TableAfterOk | overlays/semantic_segmentation_overlay.py:61-64 | Storing succeeds exactly when there are at most 256 rows and each is well formed. |
| Segmentation.ColormapRows | overlays/semantic_segmentation_overlay.py:61-64 | A file loads exactly when it has at most 256 lines and every line stores a row. Row `i` is line `i`'s value; rows with no line stay `(0, 0, 0)`. |
| Segmentation.TooManyLines | overlays/semantic_segmentation_overlay.py:63-64 | With 256 good lines before it, a 257th line raises IndexError. |
| Segmentation.NumberFieldAt | overlays/semantic_segmentation_overlay.py:64 | A number below 256 written in decimal and followed by a comma or newline reads back as itself, consuming exactly its digits. |
| Segmentation.CommaStep | overlays/semantic_segmentation_overlay.py:64 | A field `n,` with `n < 256` is read as `n`, and the next element starts after the comma. |
| Segmentation.LastStep | overlays/semantic_segmentation_overlay.py:64 | A final field `n` and the newline is read as `n`, and no separator follows it. |
| Segmentation.CsvRedStep | overlays/semantic_segmentation_overlay.py:64 | The first step on `r,g,b` reads `r` and moves past its comma. |
| Segmentation.CsvGreenStep | overlays/semantic_segmentation_overlay.py:64 | The second step reads `g` and moves past its comma. |
| Segmentation.CsvBlueStep | overlays/semantic_segmentation_overlay.py:64 | The third step reads `b` and finds no separator after it. |
| Segmentation.FromStringOfCsvLine | overlays/semantic_segmentation_overlay.py:64 | The line `r,g,b` followed by a newline parses as the three numbers. |
| Segmentation.TableRowOfCsvLine | overlays/semantic_segmentation_overlay.py:64 | The line `r,g,b` stores exactly that colour. |
| Segmentation.BlankLineStoresBlack | overlays/semantic_segmentation_overlay.py:63-64 | A nonempty line of whitespace only, such as a blank line, stores black, since numpy reads it as `[0]`. |
| Segmentation.LoadsWrittenColormap | overlays/semantic_segmentation_overlay.py:60-66 | A file of at most 256 `r,g,b` lines loads as those colours in order, followed by black. |
| Segmentation.Create | overlays/semantic_segmentation_overlay.py:15-25 | Construction fails on missing segmentation arguments, a missing file or a bad table. Otherwise it yields the keys, the divisor and the chosen palette. |
| Segmentation.BuiltInPaletteReadsNoFile | overlays/semantic_segmentation_overlay.py:22-23 | Without a colormap file the built-in palette is chosen, and the result does not depend on any file. |
| Segmentation.ConfiguredPalette | overlays/semantic_segmentation_overlay.py:24-25 | With a colormap file, construction succeeds exactly when the file exists and loads, and uses its table. |
| Segmentation.NewKeepsArguments | overlays/semantic_segmentation_overlay.py:16-20 | The constructed overlay keeps the segmap key, the format key and the raw divisor it was given. |
| Segmentation.RawMaskOk | overlays/semantic_segmentation_overlay.py:88-95 | The raw branch succeeds exactly when the buffer holds `4·h·w` bytes. Otherwise it raises InvalidArgumentError. |
| Segmentation.RawMaskCells | overlays/semantic_segmentation_overlay.py:93-95 | A raw mask has `h` rows and `w` columns, and cell `[r][c]` is `flat[r·w + c] // divisor`. |
| Segmentation.FormatDispatch | overlays/semantic_segmentation_overlay.py:92-100 | `raw` selects the int32 decode and `png` the image decode. Any other format raises `ValueError("Unknown format: " + format)`. |
| Segmentation.MissingFormatRaises | overlays/semantic_segmentation_overlay.py:80 | The format comes from the first byte-string of the format key; a record without one raises IndexError. |
| Segmentation.UnparsedSegmapRaises | overlays/semantic_segmentation_overlay.py:81-86 | Once the format is read, a segmap or format key that does not hold exactly one byte-string raises InvalidArgumentError, whatever the format. |
| Segmentation.RawMaskOfEncoded | overlays/semantic_segmentation_overlay.py:93-95 | The raw encoding of `h·w` int32 values decodes to those values, row-major, divided. |
| Segmentation.RawRecordRoundTrip | overlays/semantic_segmentation_overlay.py:80-95 | A record with format "raw" and a raw mask of `h·w` values yields exactly those values as an `h × w` mask, divided. |
| Segmentation.RenderRaw | overlays/semantic_segmentation_overlay.py:40-57 | An RGB image with a well-formed raw mask of its size is saved as that image blended with the mask in the overlay's palette. |
| Segmentation.PngSizeMismatchRaises | overlays/semantic_segmentation_overlay.py:96-98 | A PNG mask is not checked against the image size. One of another size is returned by `get_segmap`, and the blend then raises ValueError. |
| Segmentation.NonRgbImageRaises | overlays/semantic_segmentation_overlay.py:50 | An image not in a three-band mode raises ValueError whatever the mask. |
| Arrays.Int32OfBytes | overlays/semantic_segmentation_overlay.py:93-94 | The four little-endian two's-complement bytes of an int32 read back as that int32. |
| Arrays.DecodeRaw | overlays/semantic_segmentation_overlay.py:93-94 | `decode_raw` to int32 succeeds exactly when the length is a multiple of 4, giving one little-endian value per four bytes. Otherwise it raises InvalidArgumentError. |
| Arrays.DecodeEncodeRaw | overlays/semantic_segmentation_overlay.py:93-94 | Decoding the raw bytes of any int32 sequence gives that sequence back. |
| Arrays.Reshape | overlays/semantic_segmentation_overlay.py:95 | Reshaping `h·w` values gives `h` rows of `w`, with cell `[r][c]` equal to `flat[r·w + c]`. |
| Arrays.Wrap32 | overlays/semantic_segmentation_overlay.py:95 | The int32 result is congruent to the exact value modulo 2^32, and equal to it when it is in range. |
| Arrays.FloorDiv32 | overlays/semantic_segmentation_overlay.py:95 | numpy int32 `a // d`: 0 for `d == 0`; otherwise the floor quotient, bracketed by `q·d`; `-2^31 // -1` wraps to `-2^31`. |
| Arrays.LongOf | overlays/semantic_segmentation_overlay.py:64 | A magnitude up to 2^63-1 gives itself, negated after a minus sign. A larger one gives 2^63-1, except that exactly 2^63 after a minus sign gives -2^63. |
| Arrays.StrToL | overlays/semantic_segmentation_overlay.py:64 | `PyOS_strtol` for a 64-bit long: the value lies within int64, and the characters consumed stay within the text. |
| Arrays.StrToLOfNatToString | overlays/semantic_segmentation_overlay.py:64 | The decimal text of `n <= 2^63-1`, followed by the end or by a non-digit, reads as `n` and consumes exactly that text. |
| Arrays.StrToLOfBlank | overlays/semantic_segmentation_overlay.py:64 | Text of whitespace only reads as 0 and consumes all of it. |
| Arrays.StrToLOfLoneSign | overlays/semantic_segmentation_overlay.py:64 | A sign followed by the end, or by a character that is neither a digit nor whitespace, reads as 0 and consumes the sign. |
| Arrays.StrToLOverflow | overlays/semantic_segmentation_overlay.py:64 | A run of digits, anywhere in the text and followed by a non-digit or the end, that denotes more than 2^63-1 reads as 2^63-1 and is consumed whole. |
| Arrays.StrToLNegativeOverflow | overlays/semantic_segmentation_overlay.py:64 | `-` and such a run denoting more than 2^63 read as 2^63-1, the C long maximum; exactly 2^63 reads as -2^63. Sign and digits are consumed whole. |
| Arrays.StepAt | overlays/semantic_segmentation_overlay.py:64 | A step that reads an element and finds a separator moves forward, and stays within the text. |
| Arrays.ElementsNext | overlays/semantic_segmentation_overlay.py:64 | An element read and a separator matched: the element is followed by what the rest of the text parses to. |
| Arrays.ElementsLast | overlays/semantic_segmentation_overlay.py:64 | An element read with no separator after it is the last element. |
| Arrays.ThreeSteps | overlays/semantic_segmentation_overlay.py:64 | Two separated elements and a final one read as exactly those three elements. |
| Arrays.ElementsInRange | overlays/semantic_segmentation_overlay.py:64 | Every element `np.fromstring` reads with `dtype=int` lies within int64. |
| Arrays.FromStringOfBlankLine | overlays/semantic_segmentation_overlay.py:64 | A nonempty line of whitespace reads as `[0]`. |
| Arrays.ElementsOfLoneSign | overlays/semantic_segmentation_overlay.py:64 | A field holding only a sign reads as 0, and parsing continues after its comma. A line holding only a sign reads as `[0]`. |
| Arrays.ToUint8 | overlays/semantic_segmentation_overlay.py:64 | The uint8 stored is the value modulo 256, and equals the value when it is in `[0, 256)`. |
| Factory.OverlayNames | overlays/overlay_factory.py:16-21 | The map has exactly the four names `detection`, `classification`, `segmentation`, `none`, one per overlay class. |
| Factory.GetOverlayByName | overlays/overlay_factory.py:23-30 | Each name constructs its own class from `args`. An unknown name raises KeyError naming it, and nothing is constructed. |
| Factory.NoneIsIdentity | overlays/overlay_factory.py:12-13 | The `none` overlay returns its input bytes unchanged for any record. |
| Factory.FeatureMapArgumentRaises | overlays/detection_overlay.py:31 | Given the feature map, the detection overlay, and the segmentation overlay once its image opens, raise AttributeError. |
| Factory.IntendedArgument | overlays/semantic_segmentation_overlay.py:80 | The argument each overlay is written for carries the record's feature map. |
| Factory.ApplyMatchesIntendedArgument | tfviewer.py:96 | Given the argument it is written for, every overlay computes the corrected feature-map render. |
| Viewer.ItemsLength | tfviewer.py:84-86 | The loops meet exactly as many records as the files hold. |
| Viewer.ItemsInFileOrder | tfviewer.py:84-86 | Record `i` of file `j` comes after every record of earlier files and the first `i` of its own. |
| Viewer.LoadEntryParts | tfviewer.py:93-100 | A record loads exactly when its filename and image are present and the overlay accepts them. The entry holds that filename and the overlay's image, and its caption is `path + ":" + filename`. |
| Viewer.DetectionRecordsRaiseAsWritten | tfviewer.py:96 | As written, every record with a filename and an image raises AttributeError under the default detection overlay. |
| Viewer.Append | tfviewer.py:98-100 | The three appends keep the lists in step. |
| Viewer.RunStep | tfviewer.py:92-103 | At the cap a record returns the count. Under it, a record's error ends the run, or its entry is appended and the count grows by one. |
| Viewer.RunAppendsLoadedEntries | tfviewer.py:84-100 | The run only appends and keeps the lists equally long. It appends, in order, exactly the entries loaded from its first records. |
| Viewer.RunEnds | tfviewer.py:92-104 | The count returned is the number of entries appended. The run stops early only at the cap. An error comes from the first unloaded record, met under the cap. The lists never exceed `max_images`. |
| Viewer.RunFromStartUp | tfviewer.py:81-104 | From start-up: at most `max_images` entries, in step, loaded from the first records in file order, and the count is the number loaded. |
| Viewer.SegmentationNeedsItsArguments | tfviewer.py:82 | Without segmentation arguments, `segmentation` raises AttributeError and nothing is loaded. |
| Viewer.UnknownOverlayLoadsNothing | tfviewer.py:82 | An unknown overlay name raises KeyError before any record is read. |
| Viewer.NoneShowsStoredImages | tfviewer.py:94-96 | With `none`, the gallery holds each record's own image bytes. |
| Viewer.HtmlIsJoinedTags | tfviewer.py:110-112 | The accumulated HTML is the tags joined by newlines, ending with one. |
| Viewer.FrontpageLines | tfviewer.py:110-112 | When no caption holds a newline, line `i` of the page is the tag linking `image/i` with caption `i`, one line per entry, in order. |
| Viewer.Gallery.constructor | tfviewer.py:66-68 | The lists start empty. |
| Viewer.Gallery.PreloadImages | tfviewer.py:72-104 | The overlay is constructed first; its error ends the call with the lists untouched. Otherwise the lists and the count or exception are those the specified run gives. |
| Viewer.Gallery.ReadRecord | tfviewer.py:93-96 | Reading the filename, then the image, then applying the overlay, with the first exception ending the read, gives the specified entry or error. |
| Viewer.Gallery.LoadRecords | tfviewer.py:84-104 | Looping over files, then records, with the cap check, the early return and the three appends gives exactly the specified run. |
| Viewer.Gallery.Frontpage | tfviewer.py:108-113 | The HTML is one tag line per filename. Fewer captions than filenames raise IndexError. |
| Viewer.Gallery.GetImage | tfviewer.py:119-120 | An image is served exactly when `int(key)` parses and lies in `[-len, len)`. The image served is `images[k]` for `k >= 0` and `images[len + k]` for negative `k`. Otherwise ValueError (key not an integer) or IndexError (out of range) is raised. |
| Viewer.Gallery.ServesLinkedImage | tfviewer.py:119-120 | Every front-page link `image/i` serves image `i`. |
| Viewer.Gallery.ServesFromTheEnd | tfviewer.py:119-120 | A negative index `-j` serves image `len - j`. |

## Left out

- **Raster work in PIL.** `Image.open`, `ImageDraw` and the JPEG encoder are parameters (`Backend`). A picture is its source, size, mode and drawing commands; pixel values are not computed. The blend is kept as a `Blended` picture at alpha 0.5 after PIL's mode and size checks.
- **Colourisation.** `apply_colormap` and `Image.fromarray(...).convert('RGB')` (overlays/semantic_segmentation_overlay.py:46-47, 68-70) are floating-point palette work inside matplotlib. So is the `/255` scaling of `ListedColormap` (line 65). The blended picture carries the mask and the palette instead of colours.
- **Fonts, and PNG beyond the interface.**
  - Font loading and its fallback (overlays/detection_overlay.py:14-17, overlays/classification_overlay.py:13, overlays/semantic_segmentation_overlay.py:19) is file I/O. `font.getsize` is the `textSize` parameter.
  - `tf.io.decode_image` is the `decodePng` parameter, for a one-channel image. The other formats it accepts are not distinguished.
- **TensorFlow record I/O.** Records arrive already parsed into feature maps. Not modelled:
  - `tf_record_iterator` errors on missing or corrupt files;
  - `ParseFromString` errors;
  - the rest of `SerializeToString` and `parse_single_example`, beyond the fixed-length string rule.
- **Colormap file I/O.** The file is given as its lines, each with its newline. The only open error modelled is a missing file. Other open and read errors are not captured.
- Floating-point rounding in `bboxes_to_pixels` is exact `real` arithmetic.
- **Unrelated parts of `tfviewer.py`.**
  - Flask routing, `send_file`, the `attachment_filename`, `render_template` and its template, `add_header` (tfviewer.py:126-136);
  - argparse (tfviewer.py:13-62), `--host`, `--port`, `--verbose` and every `print`;
  - the unused `bboxes` list (tfviewer.py:69).

  Also, `max_images` is a parameter of the preload, as at tfviewer.py:141.
- `tfrecord_to_imfolder.py` is not part of this model.
- Text.PyInt: reads ASCII digits only, and strips only the ASCII characters Python counts as whitespace (space, 9-13 and 0x1c-0x1f). It does not model the other Unicode decimal digits Python's `int()` also accepts, nor the other Unicode whitespace, such as U+00A0, that it strips.
- **Font and drawing errors inside PIL.** `textSize` and the drawing calls always succeed. PIL's default bitmap font raises UnicodeEncodeError for text outside Latin-1, and some Pillow versions reject a rectangle whose corners are inverted; neither error is modelled.
- The `print` in `get_bbox_tuples` reporting a missing label key (overlays/detection_overlay.py:54) is console output and is left out; the returned empty list is modelled.
- **`np.fromstring` assumptions.** `dtype=int` is taken as a 64-bit C long, as on 64-bit Linux. The separator `","` is matched as numpy normalises it: any whitespace, then the comma. A separator that ends the text ends the parse.
- Viewer.Gallery.GetImage: the ValueError message does not quote the key with `repr` as Python does.

## Findings

| source | as written | input that shows it | evidently intended | confidence | as-written member | corrected member |
|---|---|---|---|---|---|---|
| tfviewer.py:96 | `preload_images` passes the feature map `feat` to `apply_overlay`. The detection and segmentation overlays read `example.features.feature` from that argument (overlays/detection_overlay.py:31, overlays/semantic_segmentation_overlay.py:80). | The default `--overlay detection` and any record holding a filename and an image: the first record raises AttributeError and nothing is shown. | Each overlay receives the record's features in the form it reads them. The rest of this model runs every overlay over the feature map. | high; not executed | Viewer.LoadEntryAsWritten (shown by Viewer.DetectionRecordsRaiseAsWritten; per overlay Factory.ApplyAsWritten, Factory.FeatureMapArgumentRaises) | Viewer.LoadEntry with Factory.Apply (Factory.ApplyMatchesIntendedArgument: with the argument each overlay is written for, it computes Factory.Apply) |
