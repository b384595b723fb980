/** The overlay factory: a closed map from overlay names to overlay classes,
    construction by name, and the `apply_overlay` call every overlay
    answers. */
module Factory {
  import opened Errors
  import opened Records
  import opened Imaging
  import Config
  import Detection
  import Classification
  import Segmentation

  /** A constructed overlay of one of the four classes. `EmptyOverlay`
      keeps only its arguments. */
  datatype Overlay =
    | DetectionOverlay(detection: Detection.DetectionOverlay)
    | ClassificationOverlay(classification: Classification.ClassificationOverlay)
    | SegmentationOverlay(segmentation: Segmentation.SegmentationOverlay)
    | EmptyOverlay(args: Config.Args)

  /** The classes `overlay_map` names. */
  datatype OverlayClass = DetectionClass | ClassificationClass | SegmentationClass | EmptyClass

  /** `overlay_map`. */
  const OverlayMap: map<string, OverlayClass> :=
    map["detection" := DetectionClass,
        "classification" := ClassificationClass,
        "segmentation" := SegmentationClass,
        "none" := EmptyClass]

  /** Calling a class with `args`; `files` gives the lines of each readable
      file, for the segmentation overlay's colormap. */
  function Construct(c: OverlayClass, args: Config.Args, files: map<string, seq<string>>): Result<Overlay>
  {
    match c
    case DetectionClass => Ok(DetectionOverlay(Detection.New(args)))
    case ClassificationClass => Ok(ClassificationOverlay(Classification.New(args)))
    case SegmentationClass =>
      var s :- Segmentation.New(args, files);
      Ok(SegmentationOverlay(s))
    case EmptyClass => Ok(EmptyOverlay(args))
  }

  /** `get_overlay(name, args)`: `overlay_map[name](args)`. */
  function GetOverlay(name: string, args: Config.Args, files: map<string, seq<string>>): Result<Overlay>
  {
    if name in OverlayMap then Construct(OverlayMap[name], args, files) else Err(KeyError(name))
  }

  /** The map knows exactly four names, one per class. */
  lemma OverlayNames()
    ensures OverlayMap.Keys == {"detection", "classification", "segmentation", "none"}
    ensures OverlayMap.Values == {DetectionClass, ClassificationClass, SegmentationClass, EmptyClass}
    ensures forall n1, n2 | n1 in OverlayMap && n2 in OverlayMap && n1 != n2 :: OverlayMap[n1] != OverlayMap[n2]
  {
    assert OverlayMap["detection"] == DetectionClass;
    assert OverlayMap["classification"] == ClassificationClass;
    assert OverlayMap["segmentation"] == SegmentationClass;
    assert OverlayMap["none"] == EmptyClass;
  }

  /** Each name constructs its own class from `args`; an unknown name raises
      KeyError naming it, and nothing is constructed. */
  lemma GetOverlayByName(name: string, args: Config.Args, files: map<string, seq<string>>)
    ensures name == "detection" ==> GetOverlay(name, args, files) == Ok(DetectionOverlay(Detection.New(args)))
    ensures name == "classification" ==>
              GetOverlay(name, args, files) == Ok(ClassificationOverlay(Classification.New(args)))
    ensures name == "segmentation" ==>
              GetOverlay(name, args, files)
              == (if Segmentation.New(args, files).Ok?
                  then Ok(SegmentationOverlay(Segmentation.New(args, files).value))
                  else Err(Segmentation.New(args, files).error))
    ensures name == "none" ==> GetOverlay(name, args, files) == Ok(EmptyOverlay(args))
    ensures name !in {"detection", "classification", "segmentation", "none"} ==>
              GetOverlay(name, args, files) == Err(KeyError(name))
  {
    OverlayNames();
  }

  /** `overlay.apply_overlay(image_bytes, feature)` with every overlay given
      the record's feature map. */
  function Apply(ov: Overlay, be: Backend, image: Bytes, fs: Features): Result<Bytes>
  {
    match ov
    case DetectionOverlay(d) => Detection.Render(d, be, image, fs)
    case ClassificationOverlay(c) => Classification.Render(c, be, image, fs)
    case SegmentationOverlay(s) => Segmentation.Render(s, be, image, fs)
    case EmptyOverlay(_) => Ok(image)
  }

  /** The bound method `overlay.apply_overlay`, as a value. */
  function Bound(ov: Overlay, be: Backend): (Bytes, Features) -> Result<Bytes>
  {
    (image, fs) => Apply(ov, be, image, fs)
  }

  /** `none` gives the image bytes back unchanged, whatever the record. */
  lemma NoneIsIdentity(args: Config.Args, files: map<string, seq<string>>, be: Backend, image: Bytes, fs: Features)
    ensures GetOverlay("none", args, files).Ok?
    ensures Apply(GetOverlay("none", args, files).value, be, image, fs) == Ok(image)
  {
    GetOverlayByName("none", args, files);
  }

  // ----- The argument `apply_overlay` is given -----

  /** What the caller passes as the second argument: the feature map
      `example.features.feature`, or the parsed `tf.train.Example`. */
  datatype Argument = FeatureMap(features: Features) | ExampleMessage(features: Features)

  /** `apply_overlay` as each overlay is written: the detection and
      segmentation overlays read `example.features.feature`, which a feature
      map does not have (AttributeError); the classification overlay indexes
      its argument as a map, which an Example does not support (TypeError);
      each fails at the point the source reaches that access. */
  function ApplyAsWritten(ov: Overlay, be: Backend, image: Bytes, arg: Argument): Result<Bytes>
  {
    match ov
    case DetectionOverlay(d) =>
      if arg.FeatureMap? then Err(AttributeError("features"))
      else Detection.Render(d, be, image, arg.features)
    case ClassificationOverlay(c) =>
      if be.open(image).None? then Err(ImageDecodeError)
      else if arg.ExampleMessage? then Err(TypeError)
      else Classification.Render(c, be, image, arg.features)
    case SegmentationOverlay(s) =>
      if be.open(image).None? then Err(ImageDecodeError)
      else if arg.FeatureMap? then Err(AttributeError("features"))
      else Segmentation.Render(s, be, image, arg.features)
    case EmptyOverlay(_) => Ok(image)
  }

  /** The viewer passes the feature map: the detection overlay, the viewer's
      default, then raises AttributeError on every record, and the
      segmentation overlay on every record whose image opens. */
  lemma FeatureMapArgumentRaises(ov: Overlay, be: Backend, image: Bytes, fs: Features)
    ensures ov.DetectionOverlay? ==> ApplyAsWritten(ov, be, image, FeatureMap(fs)) == Err(AttributeError("features"))
    ensures ov.SegmentationOverlay? && be.open(image).Some? ==>
              ApplyAsWritten(ov, be, image, FeatureMap(fs)) == Err(AttributeError("features"))
  {
  }

  /** The argument each overlay is written for: an Example for detection and
      segmentation, the feature map for the others. */
  function IntendedArgument(ov: Overlay, fs: Features): (arg: Argument)
    ensures arg.features == fs
  {
    if ov.DetectionOverlay? || ov.SegmentationOverlay? then ExampleMessage(fs) else FeatureMap(fs)
  }

  /** Given the argument it is written for, every overlay computes what
      `Apply` computes on the feature map. */
  lemma ApplyMatchesIntendedArgument(ov: Overlay, be: Backend, image: Bytes, fs: Features)
    ensures ApplyAsWritten(ov, be, image, IntendedArgument(ov, fs)) == Apply(ov, be, image, fs)
  {
    match ov
    case DetectionOverlay(_) =>
    case ClassificationOverlay(c) =>
    case SegmentationOverlay(s) =>
    case EmptyOverlay(_) =>
  }
}
