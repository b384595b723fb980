/** The command-line arguments every overlay is constructed with (the
    `args` namespace). Host, port and verbosity are not modelled. */
module Config {
  import opened Errors

  /** A value of numpy's `int32`. */
  type Int32 = x: int | -0x8000_0000 <= x < 0x8000_0000

  datatype Args = Args(
    imageKey: string,              // default "image/encoded"
    filenameKey: string,           // default "image/filename"
    maxImages: int,                // default 200
    overlay: string,               // default "detection"
    bboxNameKey: string,           // default "image/object/class/text"
    bboxXminKey: string,
    bboxXmaxKey: string,
    bboxYminKey: string,
    bboxYmaxKey: string,
    coordinatesInPixels: bool,
    labelsToHighlight: string,     // default "car"
    classLabelKey: string,         // default "image/class/text"
    segmap: Option<SegmapArgs>)

  /** The attributes only the segmentation overlay reads. A namespace built
      by the viewer's own parser has none of them (`None`). */
  datatype SegmapArgs = SegmapArgs(
    segmapKey: string,
    segmapFormatKey: string,
    segmapRawDivisorKey: Int32,
    segmapColormapFile: Option<string>)
}
