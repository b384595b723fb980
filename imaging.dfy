/** What the overlays use of PIL: an opened image they draw on in place, the
    drawing operations themselves, and the JPEG encoder. Pixels are not
    modelled: an image is its source bytes, its size and mode, and the
    drawing operations applied to it, in order. */
module Imaging {
  import opened Errors

  /** The colour names the overlays pass to PIL. */
  datatype Color = Blue | Red | White

  datatype Point = Point(x: real, y: real)

  /** A rectangle `(x0, y0, x1, y1)` as `ImageDraw.rectangle` takes it. */
  datatype Rect = Rect(x0: real, y0: real, x1: real, y1: real)

  /** One `ImageDraw` call. */
  datatype DrawCmd =
    | Outline(box: Rect, color: Color)            // draw.rectangle(box, outline=color)
    | Fill(box: Rect, color: Color)               // draw.rectangle(box, fill=color)
    | Text(at: Point, text: string, color: Color) // draw.text(at, text, fill=color)

  /** `font.getsize(text)`: width and height of the rendered text in pixels. */
  datatype Extent = Extent(w: nat, h: nat)

  /** What `Image.open` reveals of an image: `img.size` and `img.mode`. */
  datatype ImageInfo = ImageInfo(width: nat, height: nat, mode: string)

  datatype Rgb = Rgb(r: Byte, g: Byte, b: Byte)

  /** The colormap of the segmentation overlay: matplotlib's `gist_earth`,
      or a 256-entry table loaded from a file. */
  datatype Palette = GistEarth | Listed(colors: seq<Rgb>)

  /** A two-dimensional integer array of `height` rows and `width` columns. */
  datatype Grid = Grid(height: nat, width: nat, cells: seq<seq<int>>)

  type Mask = g: Grid | |g.cells| == g.height && forall r | 0 <= r < |g.cells| :: |g.cells[r]| == g.width
    witness Grid(0, 0, [])

  /** An image about to be encoded: the opened source with drawing applied,
      or the source blended with a colourised mask. */
  datatype Picture =
    | Drawn(source: Bytes, info: ImageInfo, ops: seq<DrawCmd>)
    | Blended(source: Bytes, info: ImageInfo, mask: Mask, palette: Palette, alpha: real)

  /** The library calls the overlays make, taken as given: `Image.open` (None
      where PIL cannot identify the bytes), the JPEG encoder, the font's text
      extent and `tf.io.decode_image` on a one-channel PNG. */
  datatype Backend = Backend(
    open: Bytes -> Option<ImageInfo>,
    encode: Picture -> Bytes,
    textSize: string -> Extent,
    decodePng: Bytes -> Option<Mask>)

  /** The modes PIL's JPEG writer accepts. */
  const JpegModes: set<string> := {"1", "L", "RGB", "RGBX", "CMYK", "YCbCr"}

  /** `img.save(output, format="JPEG")`. */
  function SaveJpeg(p: Picture, encode: Picture -> Bytes): (r: Result<Bytes>)
    ensures r.Ok? <==> p.info.mode in JpegModes
    ensures r.Ok? ==> r.value == encode(p)
    ensures r.Err? ==> r.error == OSError("cannot write mode " + p.info.mode + " as JPEG")
  {
    if p.info.mode in JpegModes then Ok(encode(p))
    else Err(OSError("cannot write mode " + p.info.mode + " as JPEG"))
  }

  /** The conversion the detection overlay applies before saving: images
      with an alpha channel or a palette become RGB, others are kept. The
      result can be written as JPEG exactly when the input could be, or was
      one of the two converted modes. */
  function NormaliseMode(m: string): (r: string)
    ensures (m == "RGBA" || m == "P") ==> r == "RGB"
    ensures !(m == "RGBA" || m == "P") ==> r == m
    ensures r in JpegModes <==> (m in JpegModes || m == "RGBA" || m == "P")
  {
    if m == "RGBA" || m == "P" then "RGB" else m
  }

  /** An opened PIL image together with the `ImageDraw` object drawing on it. */
  class Canvas {
    const source: Bytes
    const width: nat
    const height: nat
    var mode: string
    var ops: seq<DrawCmd>

    /** `Image.open(io.BytesIO(source))` followed by `ImageDraw.Draw(img)`. */
    constructor Open(source: Bytes, info: ImageInfo)
      ensures this.source == source && width == info.width && height == info.height
      ensures mode == info.mode && ops == []
    {
      this.source := source;
      width, height := info.width, info.height;
      mode := info.mode;
      ops := [];
    }

    /** One drawing call, painted over everything drawn before it. */
    method Draw(cmd: DrawCmd)
      modifies this
      ensures ops == old(ops) + [cmd] && mode == old(mode)
    {
      ops := ops + [cmd];
    }

    /** `img.convert(target)`: a new image with the same content in another mode. */
    method Convert(target: string) returns (c: Canvas)
      ensures fresh(c)
      ensures c.source == source && c.width == width && c.height == height
      ensures c.mode == target && c.ops == ops
    {
      c := new Canvas.Open(source, ImageInfo(width, height, target));
      c.ops := ops;
    }

    /** The image as it now stands. */
    function Snapshot(): (p: Picture)
      reads this
      ensures p.Drawn? && p.source == source && p.ops == ops
      ensures p.info == ImageInfo(width, height, mode)
    {
      Drawn(source, ImageInfo(width, height, mode), ops)
    }
  }
}
