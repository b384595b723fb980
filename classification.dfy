/** The classification overlay (`ClassificationOverlay`): the record's class
    label written in the top-left corner of the image, blue on a white
    background sized to the text. */
module Classification {
  import opened Errors
  import opened Records
  import opened Imaging
  import Config
  import Utf8

  /** A constructed overlay: the feature key its label is read from. */
  datatype ClassificationOverlay = ClassificationOverlay(classLabelKey: string)

  /** `ClassificationOverlay(args)`: the label key is fixed here, from
      `args.class_label_key`. */
  function New(args: Config.Args): (ov: ClassificationOverlay)
    ensures ov.classLabelKey == args.classLabelKey
  {
    ClassificationOverlay(args.classLabelKey)
  }

  /** `get_label(feature)`: the first byte-string of the label key, decoded. */
  function GetLabel(ov: ClassificationOverlay, fs: Features): Result<string>
  {
    FirstString(fs, ov.classLabelKey)
  }

  /** The label stored as the first byte-string is the label read; a record
      without one raises IndexError instead of going unlabelled. */
  lemma GetLabelOfStored(ov: ClassificationOverlay, fs: Features, name: string)
    ensures (|BytesOf(Lookup(fs, ov.classLabelKey))| > 0
             && BytesOf(Lookup(fs, ov.classLabelKey))[0] == Utf8.Encode(name))
            ==> GetLabel(ov, fs) == Ok(name)
    ensures |BytesOf(Lookup(fs, ov.classLabelKey))| == 0 ==> GetLabel(ov, fs) == Err(IndexError)
  {
    FirstStringOfEncoded(fs, ov.classLabelKey, name);
  }

  /** The white background `(10, 10, 14 + w, 10 + h)` and the blue text at
      `(10, 10)` drawn over it, for a label of extent `(w, h)`. */
  function LabelPlan(name: string, e: Extent): seq<DrawCmd>
  {
    [Fill(Rect(10.0, 10.0, 14.0 + e.w as real, 10.0 + e.h as real), White),
     Text(Point(10.0, 10.0), name, Blue)]
  }

  /** The background is drawn first and the text after it; the text, whose
      box is its extent placed at its anchor, lies inside the background,
      which leaves a 4-pixel margin to the right of it. */
  lemma LabelInsideBackground(name: string, e: Extent)
    ensures var plan := LabelPlan(name, e);
      && |plan| == 2 && plan[0].Fill? && plan[0].color == White
      && plan[1].Text? && plan[1].text == name && plan[1].color == Blue
      && plan[0].box.x0 <= plan[1].at.x && plan[0].box.y0 <= plan[1].at.y
      && plan[1].at.x + e.w as real + 4.0 == plan[0].box.x1
      && plan[1].at.y + e.h as real == plan[0].box.y1
  {
  }

  /** `apply_overlay(image_bytes, feature)`: open the image, read the label,
      draw it, save as JPEG. The image mode is not normalised. */
  function Render(ov: ClassificationOverlay, be: Backend, image: Bytes, fs: Features): Result<Bytes>
  {
    match be.open(image)
    case None => Err(ImageDecodeError)
    case Some(info) =>
      var name :- GetLabel(ov, fs);
      SaveJpeg(Drawn(image, info, LabelPlan(name, be.textSize(name))), be.encode)
  }

  /** `apply_overlay`, drawing onto the opened image in place. */
  method ApplyOverlay(ov: ClassificationOverlay, be: Backend, image: Bytes, fs: Features) returns (r: Result<Bytes>)
    ensures r == Render(ov, be, image, fs)
  {
    var info := be.open(image);
    if info.None? { return Err(ImageDecodeError); }
    var img := new Canvas.Open(image, info.value);
    var name := GetLabel(ov, fs);
    if name.Err? { return Err(name.error); }
    var e := be.textSize(name.value);
    img.Draw(Fill(Rect(10.0, 10.0, 14.0 + e.w as real, 10.0 + e.h as real), White));
    img.Draw(Text(Point(10.0, 10.0), name.value, Blue));
    assert img.ops == LabelPlan(name.value, e);
    r := SaveJpeg(img.Snapshot(), be.encode);
  }

  /** A labelled image whose mode JPEG can hold is saved with exactly the
      label plan drawn on it; a mode JPEG cannot hold raises OSError. */
  lemma RenderDrawsLabel(ov: ClassificationOverlay, be: Backend, image: Bytes, fs: Features, info: ImageInfo, name: string)
    requires be.open(image) == Some(info)
    requires |BytesOf(Lookup(fs, ov.classLabelKey))| > 0
    requires BytesOf(Lookup(fs, ov.classLabelKey))[0] == Utf8.Encode(name)
    ensures info.mode in JpegModes ==>
              Render(ov, be, image, fs) == Ok(be.encode(Drawn(image, info, LabelPlan(name, be.textSize(name)))))
    ensures info.mode !in JpegModes ==>
              Render(ov, be, image, fs) == Err(OSError("cannot write mode " + info.mode + " as JPEG"))
  {
    GetLabelOfStored(ov, fs, name);
  }

  /** A decodable image without a label raises IndexError. */
  lemma MissingLabelRaises(ov: ClassificationOverlay, be: Backend, image: Bytes, fs: Features)
    requires be.open(image).Some?
    requires |BytesOf(Lookup(fs, ov.classLabelKey))| == 0
    ensures Render(ov, be, image, fs) == Err(IndexError)
  {
    GetLabelOfStored(ov, fs, []);
  }

  /** Only the label key is read: records that agree on it render alike. */
  lemma ReadsOnlyLabelKey(ov: ClassificationOverlay, be: Backend, image: Bytes, fs1: Features, fs2: Features)
    requires Lookup(fs1, ov.classLabelKey) == Lookup(fs2, ov.classLabelKey)
    ensures Render(ov, be, image, fs1) == Render(ov, be, image, fs2)
  {
  }
}
