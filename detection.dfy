/** The detection overlay (`DetectionOverlay`): bounding boxes read from
    parallel feature lists, drawn as an outline, a white label background and
    the label text, each box in its highlight colour. */
module Detection {
  import opened Errors
  import opened Records
  import opened Imaging
  import Config
  import Text
  import Utf8

  /** A bounding box `(label, xmin, xmax, ymin, ymax)`. */
  datatype BBox = BBox(name: string, xmin: real, xmax: real, ymin: real, ymax: real)

  /** A constructed `DetectionOverlay`: its arguments and the list of labels
      to highlight. */
  datatype DetectionOverlay = DetectionOverlay(args: Config.Args, labelsToHighlight: seq<string>)

  /** `DetectionOverlay(args)`: the highlight list is
      `args.labels_to_highlight.split(";")`, the separator-free pieces that
      join back to the configured string. */
  function New(args: Config.Args): (ov: DetectionOverlay)
    ensures ov.args == args
    ensures forall i | 0 <= i < |ov.labelsToHighlight| :: Text.FreeOf(ov.labelsToHighlight[i], ';')
    ensures |ov.labelsToHighlight| >= 1
    ensures Text.Join(ov.labelsToHighlight, ';') == args.labelsToHighlight
  {
    Text.SplitPiecesFreeOfSeparator(args.labelsToHighlight, ';');
    Text.JoinSplit(args.labelsToHighlight, ';');
    DetectionOverlay(args, Text.Split(args.labelsToHighlight, ';'))
  }

  /** `bbox_color(label)`: red for a label on the highlight list, blue otherwise. */
  function BboxColor(ov: DetectionOverlay, name: string): (c: Color)
    ensures c == Red <==> name in ov.labelsToHighlight
    ensures c == Blue <==> name !in ov.labelsToHighlight
  {
    if name in ov.labelsToHighlight then Red else Blue
  }

  /** A label is highlighted exactly when it is one of the `;`-separated
      pieces of the configured string, compared character by character. */
  lemma HighlightedIffListed(args: Config.Args, pieces: seq<string>, name: string)
    requires |pieces| >= 1
    requires forall i | 0 <= i < |pieces| :: Text.FreeOf(pieces[i], ';')
    requires args.labelsToHighlight == Text.Join(pieces, ';')
    ensures BboxColor(New(args), name) == Red <==> name in pieces
    ensures BboxColor(New(args), name) == Blue <==> name !in pieces
  {
    Text.SplitJoin(pieces, ';');
  }

  /** An empty configuration yields the single piece "": only the empty label
      is highlighted. */
  lemma EmptyConfigHighlightsEmptyLabel(args: Config.Args, name: string)
    requires args.labelsToHighlight == ""
    ensures BboxColor(New(args), name) == Red <==> name == ""
  {
    HighlightedIffListed(args, [""], name);
  }

  /** `feature[bbox_name_key].bytes_list.value`. */
  function Labels(ov: DetectionOverlay, fs: Features): seq<Bytes>
  {
    BytesOf(Lookup(fs, ov.args.bboxNameKey))
  }

  /** `feature[key].float_list.value[i]`. */
  function Coord(fs: Features, key: string, i: nat): (r: Result<real>)
    ensures r.Ok? <==> i < |FloatsOf(Lookup(fs, key))|
    ensures r.Ok? ==> r.value == FloatsOf(Lookup(fs, key))[i]
    ensures r.Err? ==> r.error == IndexError
  {
    var values := FloatsOf(Lookup(fs, key));
    if i < |values| then Ok(values[i]) else Err(IndexError)
  }

  /** The tuple the loop appends for label `i`, evaluated left to right:
      the decoded label, then xmin, xmax, ymin and ymax at index `i`. */
  function BoxAt(ov: DetectionOverlay, fs: Features, i: nat): Result<BBox>
    requires i < |Labels(ov, fs)|
  {
    var name :- DecodeText(Labels(ov, fs)[i]);
    var xmin :- Coord(fs, ov.args.bboxXminKey, i);
    var xmax :- Coord(fs, ov.args.bboxXmaxKey, i);
    var ymin :- Coord(fs, ov.args.bboxYminKey, i);
    var ymax :- Coord(fs, ov.args.bboxYmaxKey, i);
    Ok(BBox(name, xmin, xmax, ymin, ymax))
  }

  /** The boxes for the first `n` labels, or the first exception raised. */
  function CollectBoxes(ov: DetectionOverlay, fs: Features, n: nat): (r: Result<seq<BBox>>)
    requires n <= |Labels(ov, fs)|
    ensures r.Ok? ==> |r.value| == n
  {
    if n == 0 then Ok([])
    else
      var prefix :- CollectBoxes(ov, fs, n - 1);
      var b :- BoxAt(ov, fs, n - 1);
      Ok(prefix + [b])
  }

  /** `get_bbox_tuples(feature)`: no boxes when the label key is absent,
      otherwise one tuple per label, in label order. */
  function ExtractBoxes(ov: DetectionOverlay, fs: Features): Result<seq<BBox>>
  {
    if ov.args.bboxNameKey in fs then CollectBoxes(ov, fs, |Labels(ov, fs)|) else Ok([])
  }

  /** Without the label key there are no boxes, whatever else the record
      holds; with it, extraction fails or yields one box per label. */
  lemma ExtractBoxesCount(ov: DetectionOverlay, fs: Features)
    ensures ov.args.bboxNameKey !in fs ==> ExtractBoxes(ov, fs) == Ok([])
    ensures ov.args.bboxNameKey in fs && ExtractBoxes(ov, fs).Ok? ==>
              |ExtractBoxes(ov, fs).value| == |Labels(ov, fs)|
  {
  }

  /** Collecting succeeds exactly when every tuple can be built. */
  lemma {:induction false} CollectBoxesOk(ov: DetectionOverlay, fs: Features, n: nat)
    requires n <= |Labels(ov, fs)|
    ensures CollectBoxes(ov, fs, n).Ok? <==> forall i | 0 <= i < n :: BoxAt(ov, fs, i).Ok?
  {
    if n > 0 {
      CollectBoxesOk(ov, fs, n - 1);
    }
  }

  /** A successful collection holds the tuples, in label order. */
  lemma {:induction false} CollectBoxesValues(ov: DetectionOverlay, fs: Features, n: nat)
    requires n <= |Labels(ov, fs)|
    requires CollectBoxes(ov, fs, n).Ok?
    ensures forall i | 0 <= i < n :: BoxAt(ov, fs, i) == Ok(CollectBoxes(ov, fs, n).value[i])
  {
    if n > 0 {
      var prefix := CollectBoxes(ov, fs, n - 1);
      assert prefix.Ok?;
      CollectBoxesValues(ov, fs, n - 1);
      var all := CollectBoxes(ov, fs, n).value;
      assert all == prefix.value + [BoxAt(ov, fs, n - 1).value];
      forall i | 0 <= i < n
        ensures BoxAt(ov, fs, i) == Ok(all[i])
      {
        if i < n - 1 {
          assert all[i] == prefix.value[i];
        }
      }
    }
  }

  /** A failed collection raises the exception of the first tuple that cannot
      be built. */
  lemma {:induction false} CollectBoxesFirstError(ov: DetectionOverlay, fs: Features, n: nat)
    requires n <= |Labels(ov, fs)|
    requires CollectBoxes(ov, fs, n).Err?
    ensures exists k | 0 <= k < n :: BoxAt(ov, fs, k) == Err(CollectBoxes(ov, fs, n).error)
                                     && forall j | 0 <= j < k :: BoxAt(ov, fs, j).Ok?
  {
    var prefix := CollectBoxes(ov, fs, n - 1);
    if prefix.Err? {
      CollectBoxesFirstError(ov, fs, n - 1);
      assert CollectBoxes(ov, fs, n).error == prefix.error;
    } else {
      CollectBoxesOk(ov, fs, n - 1);
      var k := n - 1;
      assert BoxAt(ov, fs, k) == Err(CollectBoxes(ov, fs, n).error);
      assert forall j | 0 <= j < k :: BoxAt(ov, fs, j).Ok?;
    }
  }

  /** Once the tuples for the first `m` labels fail, so do those for more. */
  lemma {:induction false} CollectBoxesKeepsError(ov: DetectionOverlay, fs: Features, m: nat, n: nat)
    requires m <= n <= |Labels(ov, fs)|
    requires CollectBoxes(ov, fs, m).Err?
    ensures CollectBoxes(ov, fs, n) == CollectBoxes(ov, fs, m)
    decreases n - m
  {
    if m < n {
      CollectBoxesKeepsError(ov, fs, m, n - 1);
    }
  }

  /** With the label key present, a successful extraction holds one box per
      label: box `i` is `(label_i, xmin[i], xmax[i], ymin[i], ymax[i])`. */
  lemma ExtractedBoxes(ov: DetectionOverlay, fs: Features)
    requires ov.args.bboxNameKey in fs
    requires ExtractBoxes(ov, fs).Ok?
    ensures var bs := ExtractBoxes(ov, fs).value;
      && |bs| == |Labels(ov, fs)|
      && forall i | 0 <= i < |bs| ::
           && Utf8.Decode(Labels(ov, fs)[i]) == Some(bs[i].name)
           && i < |FloatsOf(Lookup(fs, ov.args.bboxXminKey))|
           && bs[i].xmin == FloatsOf(Lookup(fs, ov.args.bboxXminKey))[i]
           && i < |FloatsOf(Lookup(fs, ov.args.bboxXmaxKey))|
           && bs[i].xmax == FloatsOf(Lookup(fs, ov.args.bboxXmaxKey))[i]
           && i < |FloatsOf(Lookup(fs, ov.args.bboxYminKey))|
           && bs[i].ymin == FloatsOf(Lookup(fs, ov.args.bboxYminKey))[i]
           && i < |FloatsOf(Lookup(fs, ov.args.bboxYmaxKey))|
           && bs[i].ymax == FloatsOf(Lookup(fs, ov.args.bboxYmaxKey))[i]
  {
    var n := |Labels(ov, fs)|;
    CollectBoxesValues(ov, fs, n);
    var bs := ExtractBoxes(ov, fs).value;
    forall i | 0 <= i < n
      ensures Utf8.Decode(Labels(ov, fs)[i]) == Some(bs[i].name)
    {
      assert BoxAt(ov, fs, i) == Ok(bs[i]);
    }
  }

  /** When every label decodes but some coordinate list is shorter than the
      label list, extraction raises IndexError instead of returning the
      boxes it could build. */
  lemma ShortCoordinatesRaise(ov: DetectionOverlay, fs: Features, key: string)
    requires ov.args.bboxNameKey in fs
    requires forall i | 0 <= i < |Labels(ov, fs)| :: Utf8.Decode(Labels(ov, fs)[i]).Some?
    requires key in {ov.args.bboxXminKey, ov.args.bboxXmaxKey, ov.args.bboxYminKey, ov.args.bboxYmaxKey}
    requires |FloatsOf(Lookup(fs, key))| < |Labels(ov, fs)|
    ensures ExtractBoxes(ov, fs) == Err(IndexError)
  {
    var n := |Labels(ov, fs)|;
    var k := |FloatsOf(Lookup(fs, key))|;
    assert BoxAt(ov, fs, k).Err?;
    CollectBoxesOk(ov, fs, n);
    CollectBoxesFirstError(ov, fs, n);
    forall i | 0 <= i < n && BoxAt(ov, fs, i).Err?
      ensures BoxAt(ov, fs, i).error == IndexError
    {
      assert Utf8.Decode(Labels(ov, fs)[i]).Some?;
    }
  }

  /** `get_bbox_tuples(feature)`, appending one tuple per label. */
  method GetBboxTuples(ov: DetectionOverlay, fs: Features) returns (r: Result<seq<BBox>>)
    ensures r == ExtractBoxes(ov, fs)
  {
    var bboxes: seq<BBox> := [];
    if ov.args.bboxNameKey in fs {
      var labels := Labels(ov, fs);
      var i := 0;
      while i < |labels|
        invariant 0 <= i <= |labels|
        invariant CollectBoxes(ov, fs, i) == Ok(bboxes)
      {
        var name := DecodeText(labels[i]);
        if name.Err? {
          CollectBoxesKeepsError(ov, fs, i + 1, |labels|);
          return Err(name.error);
        }
        var xmin := Coord(fs, ov.args.bboxXminKey, i);
        if xmin.Err? {
          CollectBoxesKeepsError(ov, fs, i + 1, |labels|);
          return Err(xmin.error);
        }
        var xmax := Coord(fs, ov.args.bboxXmaxKey, i);
        if xmax.Err? {
          CollectBoxesKeepsError(ov, fs, i + 1, |labels|);
          return Err(xmax.error);
        }
        var ymin := Coord(fs, ov.args.bboxYminKey, i);
        if ymin.Err? {
          CollectBoxesKeepsError(ov, fs, i + 1, |labels|);
          return Err(ymin.error);
        }
        var ymax := Coord(fs, ov.args.bboxYmaxKey, i);
        if ymax.Err? {
          CollectBoxesKeepsError(ov, fs, i + 1, |labels|);
          return Err(ymax.error);
        }
        bboxes := bboxes + [BBox(name.value, xmin.value, xmax.value, ymin.value, ymax.value)];
        i := i + 1;
      }
    }
    r := Ok(bboxes);
  }

  /** `bboxes_to_pixels(bbox, width, height)`: unchanged when coordinates are
      already in pixels, otherwise x scaled by the width and y by the
      height; the label is kept either way. */
  function ToPixels(ov: DetectionOverlay, b: BBox, width: nat, height: nat): (p: BBox)
    ensures p.name == b.name
    ensures ov.args.coordinatesInPixels ==> p == b
  {
    if ov.args.coordinatesInPixels then b
    else
      var w := width as real;
      var h := height as real;
      BBox(b.name, b.xmin * w, b.xmax * w, b.ymin * h, b.ymax * h)
  }

  lemma ScaleMonotone(a: real, b: real, k: real)
    requires a <= b && 0.0 <= k
    ensures a * k <= b * k
  {
    assert (b - a) * k >= 0.0;
  }

  /** One axis of the conversion: `lo`, `hi` scaled by `k` to `plo`, `phi`. */
  lemma ScaleAxis(lo: real, hi: real, k: real, plo: real, phi: real)
    requires 0.0 <= k && plo == lo * k && phi == hi * k
    ensures lo <= hi ==> plo <= phi
    ensures 0.0 <= lo && hi <= 1.0 ==> 0.0 <= plo && phi <= k
  {
    if lo <= hi { ScaleMonotone(lo, hi, k); }
    if 0.0 <= lo { ScaleMonotone(0.0, lo, k); }
    if hi <= 1.0 { ScaleMonotone(hi, 1.0, k); }
  }

  /** Conversion keeps ordered corners ordered, and puts a fractional box
      inside the unit square inside the image. */
  lemma ToPixelsKeepsOrder(ov: DetectionOverlay, b: BBox, width: nat, height: nat)
    ensures var p := ToPixels(ov, b, width, height);
      && (b.xmin <= b.xmax ==> p.xmin <= p.xmax)
      && (b.ymin <= b.ymax ==> p.ymin <= p.ymax)
      && (!ov.args.coordinatesInPixels && 0.0 <= b.xmin && b.xmax <= 1.0 ==>
            0.0 <= p.xmin && p.xmax <= width as real)
      && (!ov.args.coordinatesInPixels && 0.0 <= b.ymin && b.ymax <= 1.0 ==>
            0.0 <= p.ymin && p.ymax <= height as real)
  {
    if !ov.args.coordinatesInPixels {
      var p := ToPixels(ov, b, width, height);
      ScaleAxis(b.xmin, b.xmax, width as real, p.xmin, p.xmax);
      ScaleAxis(b.ymin, b.ymax, height as real, p.ymin, p.ymax);
    }
  }

  /** A box given as fractions `x / W`, `y / H` of the image is drawn where
      the same box given in pixels is drawn. */
  lemma FractionsMatchPixels(frac: DetectionOverlay, pix: DetectionOverlay, b: BBox, width: nat, height: nat)
    requires !frac.args.coordinatesInPixels && pix.args.coordinatesInPixels
    requires width > 0 && height > 0
    ensures var w, h := width as real, height as real;
      ToPixels(frac, BBox(b.name, b.xmin / w, b.xmax / w, b.ymin / h, b.ymax / h), width, height)
      == ToPixels(pix, b, width, height)
  {
  }

  /** The three drawing calls for one box: outline and text in the box's
      colour, the white label background in between. */
  function BoxPlan(ov: DetectionOverlay, b: BBox, width: nat, height: nat, textSize: string -> Extent): seq<DrawCmd>
  {
    var p := ToPixels(ov, b, width, height);
    var e := textSize(p.name);
    var color := BboxColor(ov, p.name);
    [ Outline(Rect(p.xmin, p.ymin, p.xmax, p.ymax), color),
      Fill(Rect(p.xmin, p.ymin, p.xmin + e.w as real + 4.0, p.ymin + e.h as real), White),
      Text(Point(p.xmin + 4.0, p.ymin), p.name, color) ]
  }

  /** The drawing calls `draw_bboxes` makes, box after box. */
  function Plan(ov: DetectionOverlay, boxes: seq<BBox>, width: nat, height: nat, textSize: string -> Extent): seq<DrawCmd>
  {
    if boxes == [] then []
    else Plan(ov, boxes[..|boxes| - 1], width, height, textSize)
         + BoxPlan(ov, boxes[|boxes| - 1], width, height, textSize)
  }

  /** Each box contributes exactly three calls, at positions `3i` to `3i+2`,
      in box order. */
  lemma {:induction false} PlanBlocks(ov: DetectionOverlay, boxes: seq<BBox>, width: nat, height: nat, textSize: string -> Extent)
    ensures |Plan(ov, boxes, width, height, textSize)| == 3 * |boxes|
    ensures forall i | 0 <= i < |boxes| ::
              Plan(ov, boxes, width, height, textSize)[3 * i .. 3 * i + 3]
              == BoxPlan(ov, boxes[i], width, height, textSize)
  {
    if boxes != [] {
      var init := boxes[..|boxes| - 1];
      PlanBlocks(ov, init, width, height, textSize);
      var plan := Plan(ov, boxes, width, height, textSize);
      var head := Plan(ov, init, width, height, textSize);
      forall i | 0 <= i < |boxes|
        ensures plan[3 * i .. 3 * i + 3] == BoxPlan(ov, boxes[i], width, height, textSize)
      {
        if i < |boxes| - 1 {
          assert plan[3 * i .. 3 * i + 3] == head[3 * i .. 3 * i + 3];
          assert boxes[i] == init[i];
        }
      }
    }
  }

  /** Box `i` is drawn as: outline `[xmin, ymin, xmax, ymax]`, then the white
      rectangle `(xmin, ymin, xmin + w + 4, ymin + h)`, then the label at
      `(xmin + 4, ymin)`, in pixel coordinates and with `(w, h)` the label's
      text extent; outline and text share one colour, red exactly for a
      highlighted label. */
  lemma PlanCommands(ov: DetectionOverlay, boxes: seq<BBox>, width: nat, height: nat, textSize: string -> Extent, i: nat)
    requires i < |boxes|
    ensures var plan := Plan(ov, boxes, width, height, textSize);
      var p := ToPixels(ov, boxes[i], width, height);
      var e := textSize(boxes[i].name);
      && |plan| == 3 * |boxes|
      && plan[3 * i].Outline? && plan[3 * i].box == Rect(p.xmin, p.ymin, p.xmax, p.ymax)
      && plan[3 * i + 1] == Fill(Rect(p.xmin, p.ymin, p.xmin + e.w as real + 4.0, p.ymin + e.h as real), White)
      && plan[3 * i + 2].Text? && plan[3 * i + 2].at == Point(p.xmin + 4.0, p.ymin)
      && plan[3 * i + 2].text == boxes[i].name
      && plan[3 * i].color == plan[3 * i + 2].color
      && plan[3 * i].color == (if boxes[i].name in ov.labelsToHighlight then Red else Blue)
  {
    PlanBlocks(ov, boxes, width, height, textSize);
    var plan := Plan(ov, boxes, width, height, textSize);
    assert plan[3 * i .. 3 * i + 3] == BoxPlan(ov, boxes[i], width, height, textSize);
    assert plan[3 * i] == plan[3 * i .. 3 * i + 3][0];
    assert plan[3 * i + 1] == plan[3 * i .. 3 * i + 3][1];
    assert plan[3 * i + 2] == plan[3 * i .. 3 * i + 3][2];
  }

  /** Every label is drawn inside its white background: the text's extent,
      placed at its anchor, lies within the filled rectangle drawn before it. */
  lemma LabelInsideBackground(ov: DetectionOverlay, boxes: seq<BBox>, width: nat, height: nat, textSize: string -> Extent, i: nat)
    requires i < |boxes|
    ensures var plan := Plan(ov, boxes, width, height, textSize);
      var e := textSize(boxes[i].name);
      && |plan| == 3 * |boxes|
      && plan[3 * i + 1].Fill? && plan[3 * i + 2].Text?
      && plan[3 * i + 1].box.x0 <= plan[3 * i + 2].at.x
      && plan[3 * i + 2].at.x + e.w as real <= plan[3 * i + 1].box.x1
      && plan[3 * i + 1].box.y0 <= plan[3 * i + 2].at.y
      && plan[3 * i + 2].at.y + e.h as real <= plan[3 * i + 1].box.y1
  {
    PlanCommands(ov, boxes, width, height, textSize, i);
  }

  /** What `draw_bboxes` returns: the opened image with the plan drawn on it,
      converted to RGB when it had an alpha channel or palette, saved as JPEG. */
  function DrawnBoxes(ov: DetectionOverlay, be: Backend, image: Bytes, boxes: seq<BBox>): Result<Bytes>
  {
    match be.open(image)
    case None => Err(ImageDecodeError)
    case Some(info) =>
      SaveJpeg(Drawn(image, ImageInfo(info.width, info.height, NormaliseMode(info.mode)),
                     Plan(ov, boxes, info.width, info.height, be.textSize)),
               be.encode)
  }

  /** `draw_bboxes(image_bytes, bboxes)`, drawing onto the opened image in place. */
  method DrawBboxes(ov: DetectionOverlay, be: Backend, image: Bytes, boxes: seq<BBox>) returns (r: Result<Bytes>)
    ensures r == DrawnBoxes(ov, be, image, boxes)
  {
    var info := be.open(image);
    if info.None? { return Err(ImageDecodeError); }
    var img := new Canvas.Open(image, info.value);
    var width, height := img.width, img.height;
    var i := 0;
    while i < |boxes|
      invariant 0 <= i <= |boxes|
      invariant img.source == image && img.width == width && img.height == height
      invariant img.mode == info.value.mode
      invariant img.ops == Plan(ov, boxes[..i], width, height, be.textSize)
    {
      var p := ToPixels(ov, boxes[i], width, height);
      img.Draw(Outline(Rect(p.xmin, p.ymin, p.xmax, p.ymax), BboxColor(ov, p.name)));
      var e := be.textSize(p.name);
      img.Draw(Fill(Rect(p.xmin, p.ymin, p.xmin + e.w as real + 4.0, p.ymin + e.h as real), White));
      img.Draw(Text(Point(p.xmin + 4.0, p.ymin), p.name, BboxColor(ov, p.name)));
      assert boxes[..i + 1][..i] == boxes[..i];
      i := i + 1;
    }
    assert boxes[..i] == boxes;
    if img.mode == "RGBA" || img.mode == "P" {
      img := img.Convert("RGB");
    }
    r := SaveJpeg(img.Snapshot(), be.encode);
  }

  /** `apply_overlay` on a feature map: extract the boxes, then draw them. */
  function Render(ov: DetectionOverlay, be: Backend, image: Bytes, fs: Features): Result<Bytes>
  {
    var boxes :- ExtractBoxes(ov, fs);
    DrawnBoxes(ov, be, image, boxes)
  }

  /** `apply_overlay(image_bytes, feature)`. */
  method ApplyOverlay(ov: DetectionOverlay, be: Backend, image: Bytes, fs: Features) returns (r: Result<Bytes>)
    ensures r == Render(ov, be, image, fs)
  {
    var boxes := GetBboxTuples(ov, fs);
    if boxes.Err? { return Err(boxes.error); }
    r := DrawBboxes(ov, be, image, boxes.value);
  }

  /** An image with an alpha channel or a palette is converted and saved; any
      other mode is saved as it is, and fails when JPEG cannot hold it. The
      saved picture carries the plan for exactly the extracted boxes. */
  lemma RenderNormalisesMode(ov: DetectionOverlay, be: Backend, image: Bytes, fs: Features, info: ImageInfo)
    requires be.open(image) == Some(info)
    requires ExtractBoxes(ov, fs).Ok?
    ensures (info.mode == "RGBA" || info.mode == "P") ==>
              Render(ov, be, image, fs)
              == Ok(be.encode(Drawn(image, ImageInfo(info.width, info.height, "RGB"),
                                    Plan(ov, ExtractBoxes(ov, fs).value, info.width, info.height, be.textSize))))
    ensures info.mode in JpegModes ==>
              Render(ov, be, image, fs)
              == Ok(be.encode(Drawn(image, info,
                                    Plan(ov, ExtractBoxes(ov, fs).value, info.width, info.height, be.textSize))))
    ensures !(info.mode in JpegModes || info.mode == "RGBA" || info.mode == "P") ==>
              Render(ov, be, image, fs) == Err(OSError("cannot write mode " + info.mode + " as JPEG"))
  {
  }

  /** A record without the label key, or with an empty label list, gets no
      drawing at all: only the re-encoding of the (mode-normalised) image. */
  lemma NoLabelsNoDrawing(ov: DetectionOverlay, be: Backend, image: Bytes, fs: Features, info: ImageInfo)
    requires be.open(image) == Some(info) && info.mode in JpegModes
    requires |Labels(ov, fs)| == 0
    ensures Render(ov, be, image, fs) == Ok(be.encode(Drawn(image, info, [])))
  {
  }

  /** A car box `(0.1, 0.5, 0.2, 0.6)` on a 100 x 100 image, with "car"
      highlighted, is outlined in red at pixels (10, 20) to (50, 60). */
  lemma HighlightedCarBox(args: Config.Args, textSize: string -> Extent)
    requires args.labelsToHighlight == "car" && !args.coordinatesInPixels
    ensures Plan(New(args), [BBox("car", 0.1, 0.5, 0.2, 0.6)], 100, 100, textSize)[0]
            == Outline(Rect(10.0, 20.0, 50.0, 60.0), Red)
  {
    HighlightedIffListed(args, ["car"], "car");
    var b := BBox("car", 0.1, 0.5, 0.2, 0.6);
    assert [b][..0] == [];
  }
}
