/** The viewer: the gallery preloaded from the TFRecord files at start-up
    (`preload_images`), the page listing it (`frontpage`) and the image
    served for an index (`get_image`). */
module Viewer {
  import opened Errors
  import opened Records
  import opened Imaging
  import Config
  import Text
  import Factory

  /** A TFRecord file: its path and its records, each already parsed into
      the feature map of its `tf.train.Example`. */
  datatype TfRecordFile = TfRecordFile(path: string, records: seq<Features>)

  /** One record as the preload loop meets it: the file it came from and its
      feature map. */
  datatype Item = Item(path: string, features: Features)

  /** The records of one file, in file order. */
  function ItemsOf(path: string, records: seq<Features>): (r: seq<Item>)
    ensures |r| == |records|
    ensures forall i | 0 <= i < |r| :: r[i] == Item(path, records[i])
  {
    seq(|records|, i requires 0 <= i < |records| => Item(path, records[i]))
  }

  /** The records of all files: file after file, each in its own order. */
  function Items(files: seq<TfRecordFile>): seq<Item>
  {
    if files == [] then [] else ItemsOf(files[0].path, files[0].records) + Items(files[1..])
  }

  /** The number of records in `files`. */
  function RecordCount(files: seq<TfRecordFile>): nat
  {
    if files == [] then 0 else |files[0].records| + RecordCount(files[1..])
  }

  /** Record `i` of file `j` is met after all records of the files before
      it and the first `i` records of its own file. */
  lemma {:induction false} ItemsInFileOrder(files: seq<TfRecordFile>, j: nat, i: nat)
    requires j < |files| && i < |files[j].records|
    ensures |Items(files)| == RecordCount(files)
    ensures RecordCount(files[..j]) + i < |Items(files)|
    ensures Items(files)[RecordCount(files[..j]) + i] == Item(files[j].path, files[j].records[i])
  {
    ItemsLength(files);
    if j > 0 {
      ItemsInFileOrder(files[1..], j - 1, i);
      assert files[1..][..j - 1] == files[..j][1..];
      assert files[1..][j - 1] == files[j];
    } else {
      assert files[..0] == [];
    }
  }

  lemma {:induction false} ItemsLength(files: seq<TfRecordFile>)
    ensures |Items(files)| == RecordCount(files)
  {
    if files != [] {
      ItemsLength(files[1..]);
    }
  }

  // ----- One gallery entry -----

  /** What one record adds to the three lists: its filename, the image with
      the overlay applied, and the caption. */
  datatype Entry = Entry(filename: string, image: Bytes, caption: string)

  /** The body of the preload loop for a record under the cap: the first
      filename (decoded as UTF-8), the first image, `apply_overlay` on them,
      and the caption `path:filename`. */
  function LoadEntry(args: Config.Args, apply: (Bytes, Features) -> Result<Bytes>, item: Item): Result<Entry>
  {
    var filename :- FirstString(item.features, args.filenameKey);
    var img :- FirstBytes(item.features, args.imageKey);
    var shown :- apply(img, item.features);
    Ok(Entry(filename, shown, item.path + ":" + filename))
  }

  /** A record loads exactly when its filename and image are present and the
      overlay accepts them; the caption is the file's path, a colon and the
      filename read from the record. */
  lemma LoadEntryParts(args: Config.Args, apply: (Bytes, Features) -> Result<Bytes>, item: Item)
    ensures LoadEntry(args, apply, item).Ok? <==>
              && FirstString(item.features, args.filenameKey).Ok?
              && FirstBytes(item.features, args.imageKey).Ok?
              && apply(FirstBytes(item.features, args.imageKey).value, item.features).Ok?
    ensures LoadEntry(args, apply, item).Ok? ==>
              var e := LoadEntry(args, apply, item).value;
              && e.filename == FirstString(item.features, args.filenameKey).value
              && e.image == apply(FirstBytes(item.features, args.imageKey).value, item.features).value
              && e.caption == item.path + ":" + e.filename
    ensures |BytesOf(Lookup(item.features, args.filenameKey))| == 0 ==>
              LoadEntry(args, apply, item) == Err(IndexError)
  {
  }

  /** The loop body for one overlay, as a value. */
  function Loader(args: Config.Args, apply: (Bytes, Features) -> Result<Bytes>): (load: Item -> Result<Entry>)
    ensures forall item :: load(item) == LoadEntry(args, apply, item)
  {
    item => LoadEntry(args, apply, item)
  }

  /** The loop body as written, handing `apply_overlay` the feature map. */
  function LoadEntryAsWritten(args: Config.Args, ov: Factory.Overlay, be: Backend, item: Item): Result<Entry>
  {
    var filename :- FirstString(item.features, args.filenameKey);
    var img :- FirstBytes(item.features, args.imageKey);
    var shown :- Factory.ApplyAsWritten(ov, be, img, Factory.FeatureMap(item.features));
    Ok(Entry(filename, shown, item.path + ":" + filename))
  }

  /** With the default detection overlay, every record that has a filename
      and an image raises AttributeError instead of loading. */
  lemma DetectionRecordsRaiseAsWritten(args: Config.Args, ov: Factory.Overlay, be: Backend, item: Item)
    requires ov.DetectionOverlay?
    requires FirstString(item.features, args.filenameKey).Ok?
    requires FirstBytes(item.features, args.imageKey).Ok?
    ensures LoadEntryAsWritten(args, ov, be, item) == Err(AttributeError("features"))
    ensures LoadEntry(args, Factory.Bound(ov, be), item).Ok? ==>
              LoadEntryAsWritten(args, ov, be, item) != LoadEntry(args, Factory.Bound(ov, be), item)
  {
  }

  // ----- The three lists -----

  /** The values of the global lists `images`, `filenames` and `captions`. */
  datatype Lists = Lists(images: seq<Bytes>, filenames: seq<string>, captions: seq<string>)

  /** The lists line up: entry `i` of each belongs to the same record. */
  predicate InStep(l: Lists)
  {
    |l.images| == |l.filenames| == |l.captions|
  }

  /** The three appends of one entry. */
  function Append(l: Lists, e: Entry): (r: Lists)
    ensures InStep(l) ==> InStep(r)
  {
    Lists(l.images + [e.image], l.filenames + [e.filename], l.captions + [e.caption])
  }

  /** Entry `i` of lined-up lists. */
  function EntryAt(l: Lists, i: nat): Entry
    requires InStep(l) && i < |l.images|
  {
    Entry(l.filenames[i], l.images[i], l.captions[i])
  }

  /** `a` is what `b` held before some entries were appended. */
  predicate Prefix(a: Lists, b: Lists)
  {
    && |a.images| <= |b.images| && b.images[..|a.images|] == a.images
    && |a.filenames| <= |b.filenames| && b.filenames[..|a.filenames|] == a.filenames
    && |a.captions| <= |b.captions| && b.captions[..|a.captions|] == a.captions
  }

  // ----- preload_images -----

  /** The preload loop over the remaining records from lists `st`, having
      loaded `count` entries so far: while the lists hold fewer than
      `maxImages` images each record is loaded (its first error ends the
      run), and the first record met at the cap returns the count. */
  function Run(load: Item -> Result<Entry>, maxImages: int,
               items: seq<Item>, st: Lists, count: nat): (Lists, Result<nat>)
    decreases |items|
  {
    if items == [] then (st, Ok(count))
    else if |st.images| < maxImages then
      match load(items[0])
      case Err(e) => (st, Err(e))
      case Ok(e) => Run(load, maxImages, items[1..], Append(st, e), count + 1)
    else (st, Ok(count))
  }

  /** `preload_images(max_images)` from lists `st`: the overlay named by
      `args.overlay` is constructed first (its error ends the call with
      nothing loaded), then every record of every file is run through the
      loop. `colormapFiles` holds the lines of each readable file. */
  function Preload(args: Config.Args, be: Backend, colormapFiles: map<string, seq<string>>,
                   tfrecords: seq<TfRecordFile>, maxImages: int, st: Lists): (Lists, Result<nat>)
  {
    match Factory.GetOverlay(args.overlay, args, colormapFiles)
    case Err(e) => (st, Err(e))
    case Ok(ov) => Run(Loader(args, Factory.Bound(ov, be)), maxImages, Items(tfrecords), st, 0)
  }

  /** The run only appends, keeps the lists in step, and appends, in order,
      exactly the entries loaded from its first records. */
  lemma {:induction false} RunAppendsLoadedEntries(load: Item -> Result<Entry>, maxImages: int, items: seq<Item>, st: Lists, count: nat)
    requires InStep(st)
    ensures var fin := Run(load, maxImages, items, st, count).0;
      && InStep(fin) && Prefix(st, fin)
      && |fin.images| <= |st.images| + |items|
      && forall i | 0 <= i < |fin.images| - |st.images| ::
           load(items[i]) == Ok(EntryAt(fin, |st.images| + i))
    decreases |items|
  {
    if items != [] && |st.images| < maxImages && load(items[0]).Ok? {
      var e := load(items[0]).value;
      var st' := Append(st, e);
      RunAppendsLoadedEntries(load, maxImages, items[1..], st', count + 1);
      var fin := Run(load, maxImages, items, st, count).0;
      assert fin == Run(load, maxImages, items[1..], st', count + 1).0;
      var n := |st.images|;
      assert fin.images[..n] == fin.images[..n + 1][..n];
      assert fin.filenames[..n] == fin.filenames[..n + 1][..n];
      assert fin.captions[..n] == fin.captions[..n + 1][..n];
      assert EntryAt(fin, n) == e by {
        assert fin.images[..n + 1][n] == st'.images[n];
        assert fin.filenames[..n + 1][n] == st'.filenames[n];
        assert fin.captions[..n + 1][n] == st'.captions[n];
      }
      forall i | 1 <= i < |fin.images| - n
        ensures load(items[i]) == Ok(EntryAt(fin, n + i))
      {
        assert items[i] == items[1..][i - 1];
      }
    }
  }

  /** How a run ends: it returns the number of entries it loaded plus
      `count`; it stops early only at the cap; an error comes from the first
      record it did not load, met while under the cap; and it never takes
      the lists past `maxImages` entries once they start there or below. */
  lemma {:induction false} RunEnds(load: Item -> Result<Entry>, maxImages: int, items: seq<Item>, st: Lists, count: nat)
    ensures var (fin, r) := Run(load, maxImages, items, st, count);
      var k := |fin.images| - |st.images|;
      && 0 <= k <= |items|
      && (r.Ok? ==> r.value == count + k)
      && (r.Ok? && k < |items| ==> |fin.images| >= maxImages)
      && (r.Err? ==> k < |items| && |fin.images| < maxImages
                     && load(items[k]) == Err(r.error))
      && (|st.images| <= maxImages ==> |fin.images| <= maxImages)
      && (|st.images| >= maxImages ==> fin == st)
    decreases |items|
  {
    if items != [] && |st.images| < maxImages && load(items[0]).Ok? {
      var e := load(items[0]).value;
      RunEnds(load, maxImages, items[1..], Append(st, e), count + 1);
      var fin := Run(load, maxImages, items, st, count).0;
      var k := |fin.images| - |st.images|;
      if 1 <= k < |items| {
        assert items[k] == items[1..][k - 1];
      }
    }
  }

  /** The viewer's own arguments carry no segmentation attributes, so the
      segmentation overlay fails to construct and nothing is loaded. */
  lemma SegmentationNeedsItsArguments(args: Config.Args, be: Backend, colormapFiles: map<string, seq<string>>,
                                      tfrecords: seq<TfRecordFile>, maxImages: int, st: Lists)
    requires args.overlay == "segmentation" && args.segmap.None?
    ensures Preload(args, be, colormapFiles, tfrecords, maxImages, st) == (st, Err(AttributeError("segmap_key")))
  {
    Factory.GetOverlayByName(args.overlay, args, colormapFiles);
  }

  /** An overlay name the factory does not know raises KeyError before any
      record is read. */
  lemma UnknownOverlayLoadsNothing(args: Config.Args, be: Backend, colormapFiles: map<string, seq<string>>,
                                   tfrecords: seq<TfRecordFile>, maxImages: int, st: Lists)
    requires args.overlay !in {"detection", "classification", "segmentation", "none"}
    ensures Preload(args, be, colormapFiles, tfrecords, maxImages, st) == (st, Err(KeyError(args.overlay)))
  {
    Factory.GetOverlayByName(args.overlay, args, colormapFiles);
  }

  /** With the `none` overlay the gallery holds the records' own image
      bytes. */
  lemma NoneShowsStoredImages(args: Config.Args, be: Backend, item: Item, ov: Factory.Overlay)
    requires ov.EmptyOverlay?
    requires FirstString(item.features, args.filenameKey).Ok?
    requires FirstBytes(item.features, args.imageKey).Ok?
    ensures LoadEntry(args, Factory.Bound(ov, be), item).Ok?
    ensures LoadEntry(args, Factory.Bound(ov, be), item).value.image == BytesOf(Lookup(item.features, args.imageKey))[0]
  {
  }

  // ----- frontpage -----

  /** The gallery line of entry `i`: an image whose source is `image/i` and
      whose caption is `caption`. */
  function ImageTag(i: nat, caption: string): string
  {
    "<img data-u=\"image\" src=\"image/" + Text.NatToString(i) + "\" data-caption=\"" + caption + "\" />"
  }

  /** The HTML of the first `n` entries, each tag followed by a newline. */
  function Html(captions: seq<string>, n: nat): string
    requires n <= |captions|
  {
    if n == 0 then "" else Html(captions, n - 1) + ImageTag(n - 1, captions[n - 1]) + "\n"
  }

  /** The tags of the first `n` entries. */
  function ImageTags(captions: seq<string>, n: nat): (r: seq<string>)
    requires n <= |captions|
    ensures |r| == n && forall i | 0 <= i < n :: r[i] == ImageTag(i, captions[i])
  {
    seq(n, i requires 0 <= i < n => ImageTag(i, captions[i]))
  }

  lemma {:induction false} HtmlIsJoinedTags(captions: seq<string>, n: nat)
    requires n <= |captions|
    ensures Html(captions, n) == Text.Join(ImageTags(captions, n) + [""], '\n')
  {
    if n > 0 {
      HtmlIsJoinedTags(captions, n - 1);
      var tags := ImageTags(captions, n - 1);
      assert ImageTags(captions, n) == tags + [ImageTag(n - 1, captions[n - 1])];
      JoinAppend(tags, ImageTag(n - 1, captions[n - 1]));
    }
  }

  lemma {:induction false} JoinAppend(pieces: seq<string>, x: string)
    ensures Text.Join(pieces + [x] + [""], '\n') == Text.Join(pieces + [""], '\n') + x + "\n"
    decreases |pieces|
  {
    if pieces == [] {
      assert [x] + [""] == [x, ""];
      assert Text.Join([x, ""], '\n') == x + ['\n'] + Text.Join([""], '\n');
    } else {
      JoinAppend(pieces[1..], x);
      assert (pieces + [x] + [""])[1..] == pieces[1..] + [x] + [""];
      assert (pieces + [""])[1..] == pieces[1..] + [""];
    }
  }

  lemma ImageTagFreeOfNewline(i: nat, caption: string)
    requires Text.FreeOf(caption, '\n')
    ensures Text.FreeOf(ImageTag(i, caption), '\n')
  {
    var digits := Text.NatToString(i);
    assert Text.FreeOf(digits, '\n') by {
      forall k | 0 <= k < |digits| ensures digits[k] != '\n' {
        assert Text.IsDigit(digits[k]);
      }
    }
  }

  /** The front page lists one line per entry, in order: line `i` is the
      tag linking `image/i` with caption `i`, and the text ends with a
      newline; this holds whenever no caption contains a newline. */
  lemma FrontpageLines(captions: seq<string>, n: nat)
    requires n <= |captions|
    requires forall i | 0 <= i < n :: Text.FreeOf(captions[i], '\n')
    ensures Text.Split(Html(captions, n), '\n') == ImageTags(captions, n) + [""]
  {
    HtmlIsJoinedTags(captions, n);
    var pieces := ImageTags(captions, n) + [""];
    forall i | 0 <= i < |pieces| ensures Text.FreeOf(pieces[i], '\n') {
      if i < n {
        ImageTagFreeOfNewline(i, captions[i]);
      }
    }
    Text.SplitJoin(pieces, '\n');
  }

  lemma NextFile(files: seq<TfRecordFile>, fi: nat)
    requires fi < |files|
    ensures Items(files[fi..]) == ItemsOf(files[fi].path, files[fi].records[0..]) + Items(files[fi + 1..])
  {
    assert files[fi..][1..] == files[fi + 1..];
    assert files[fi].records[0..] == files[fi].records;
  }

  lemma NextItem(path: string, records: seq<Features>, ri: nat, tail: seq<Item>)
    requires ri < |records|
    ensures ItemsOf(path, records[ri..]) + tail == [Item(path, records[ri])] + (ItemsOf(path, records[ri + 1..]) + tail)
  {
    assert ItemsOf(path, records[ri..]) == [Item(path, records[ri])] + ItemsOf(path, records[ri + 1..]);
  }

  lemma LastItem(path: string, records: seq<Features>, ri: nat, tail: seq<Item>)
    requires ri == |records|
    ensures ItemsOf(path, records[ri..]) + tail == tail
  {
    assert records[ri..] == [];
  }

  /** One record of the run: at the cap it returns, under it the record's
      error ends the run or its entry is appended. */
  lemma RunStep(load: Item -> Result<Entry>, maxImages: int, item: Item, rest: seq<Item>, st: Lists, count: nat)
    ensures |st.images| >= maxImages ==> Run(load, maxImages, [item] + rest, st, count) == (st, Ok(count))
    ensures |st.images| < maxImages && load(item).Err? ==>
              Run(load, maxImages, [item] + rest, st, count) == (st, Err(load(item).error))
    ensures |st.images| < maxImages && load(item).Ok? ==>
              Run(load, maxImages, [item] + rest, st, count)
              == Run(load, maxImages, rest, Append(st, load(item).value), count + 1)
  {
    assert ([item] + rest)[0] == item;
    assert ([item] + rest)[1..] == rest;
  }

  // ----- The gallery -----

  /** The viewer's global lists, filled once by `preload_images` and read by
      the two routes. */
  class Gallery {
    var images: seq<Bytes>
    var filenames: seq<string>
    var captions: seq<string>

    /** The lists as they are at start-up: empty. */
    constructor ()
      ensures images == [] && filenames == [] && captions == []
    {
      images := [];
      filenames := [];
      captions := [];
    }

    function State(): Lists
      reads this
    {
      Lists(images, filenames, captions)
    }

    /** `preload_images(max_images)` over `tfrecords`: the lists end as
        `Preload` says, whether the call returns a count or raises. */
    method PreloadImages(args: Config.Args, be: Backend, colormapFiles: map<string, seq<string>>,
                         tfrecords: seq<TfRecordFile>, maxImages: int) returns (r: Result<nat>)
      modifies this
      ensures (State(), r) == Preload(args, be, colormapFiles, tfrecords, maxImages, old(State()))
    {
      var overlay := Factory.GetOverlay(args.overlay, args, colormapFiles);
      if overlay.Err? { return Err(overlay.error); }
      r := LoadRecords(args, Factory.Bound(overlay.value, be), tfrecords, maxImages);
    }

    /** The loops of `preload_images`, with `apply` the constructed
        overlay's `apply_overlay`: the lists end as `Run` says. */
    /** The body of the preload loop for a record under the cap, before the
        appends: the filename, the image, `apply_overlay` and the caption. */
    static method ReadRecord(args: Config.Args, apply: (Bytes, Features) -> Result<Bytes>, item: Item)
      returns (e: Result<Entry>)
      ensures e == LoadEntry(args, apply, item)
    {
      var filename := FirstString(item.features, args.filenameKey);
      if filename.Err? { return Err(filename.error); }
      var img := FirstBytes(item.features, args.imageKey);
      if img.Err? { return Err(img.error); }
      var shown := apply(img.value, item.features);
      if shown.Err? { return Err(shown.error); }
      return Ok(Entry(filename.value, shown.value, item.path + ":" + filename.value));
    }

    method LoadRecords(args: Config.Args, apply: (Bytes, Features) -> Result<Bytes>,
                       tfrecords: seq<TfRecordFile>, maxImages: int) returns (r: Result<nat>)
      modifies this
      ensures (State(), r) == Run(Loader(args, apply), maxImages, Items(tfrecords), old(State()), 0)
    {
      var count: nat := 0;
      ghost var load := Loader(args, apply);
      ghost var total := Run(load, maxImages, Items(tfrecords), State(), 0);
      var fi := 0;
      while fi < |tfrecords|
        invariant 0 <= fi <= |tfrecords|
        invariant total == Run(load, maxImages, Items(tfrecords[fi..]), State(), count)
      {
        var file := tfrecords[fi];
        NextFile(tfrecords, fi);
        var ri := 0;
        while ri < |file.records|
          invariant 0 <= ri <= |file.records|
          invariant total == Run(load, maxImages, ItemsOf(file.path, file.records[ri..]) + Items(tfrecords[fi + 1..]),
                                 State(), count)
        {
          var feat := file.records[ri];
          NextItem(file.path, file.records, ri, Items(tfrecords[fi + 1..]));
          var item := Item(file.path, feat);
          ghost var rest := ItemsOf(file.path, file.records[ri + 1..]) + Items(tfrecords[fi + 1..]);
          RunStep(load, maxImages, item, rest, State(), count);
          if |images| < maxImages {
            var e := ReadRecord(args, apply, item);
            if e.Err? { return Err(e.error); }
            filenames := filenames + [e.value.filename];
            images := images + [e.value.image];
            captions := captions + [e.value.caption];
          } else {
            return Ok(count);
          }
          count := count + 1;
          ri := ri + 1;
        }
        LastItem(file.path, file.records, ri, Items(tfrecords[fi + 1..]));
        fi := fi + 1;
      }
      assert tfrecords[fi..] == [];
      return Ok(count);
    }

    /** `frontpage()`: the HTML handed to the gallery template, one tag per
        filename; captions shorter than the filenames raise IndexError. */
    method Frontpage() returns (r: Result<string>)
      ensures |filenames| <= |captions| ==> r == Ok(Html(captions, |filenames|))
      ensures |filenames| > |captions| ==> r == Err(IndexError)
    {
      var html := "";
      var i := 0;
      while i < |filenames|
        invariant 0 <= i <= |filenames| && i <= |captions|
        invariant html == Html(captions, i)
      {
        if i >= |captions| { return Err(IndexError); }
        html := html + ImageTag(i, captions[i]) + "\n";
        i := i + 1;
      }
      return Ok(html);
    }

    /** `get_image(key)`: `images[int(key)]`, counting from the end for a
        negative index. A key Python does not read as an integer raises
        ValueError; an index out of range raises IndexError. */
    function GetImage(key: string): (r: Result<Bytes>)
      reads this
      ensures r.Ok? <==> Text.PyInt(key).Some? && -|images| <= Text.PyInt(key).value < |images|
      ensures Text.PyInt(key).None? ==> r.Err? && r.error.ValueError?
      ensures Text.PyInt(key).Some? && !(-|images| <= Text.PyInt(key).value < |images|) ==> r == Err(IndexError)
      ensures r.Ok? && Text.PyInt(key).value >= 0 ==> r.value == images[Text.PyInt(key).value]
      ensures r.Ok? && Text.PyInt(key).value < 0 ==> r.value == images[|images| + Text.PyInt(key).value]
      ensures r.Ok? ==> r.value in images
    {
      match Text.PyInt(key)
      case None => Err(ValueError("invalid literal for int() with base 10: " + key))
      case Some(k) =>
        if 0 <= k < |images| then Ok(images[k])
        else if -|images| <= k < 0 then Ok(images[|images| + k])
        else Err(IndexError)
    }

    /** Every link of the front page resolves: `image/i` serves the image of
        entry `i`. */
    lemma ServesLinkedImage(i: nat)
      requires i < |images|
      ensures GetImage(Text.NatToString(i)) == Ok(images[i])
    {
      Text.PyIntOfNatToString(i);
    }

    /** A negative index counts from the end: `-1` is the last image. */
    lemma ServesFromTheEnd(key: string, j: nat)
      requires Text.PyInt(key) == Some(-(j as int)) && 1 <= j <= |images|
      ensures GetImage(key) == Ok(images[|images| - j])
    {
    }
  }

  /** From the empty lists of start-up the gallery holds at most
      `max_images` entries, in step, loaded from the first records in order;
      a count returned is the number of entries loaded. */
  lemma RunFromStartUp(load: Item -> Result<Entry>, maxImages: int, items: seq<Item>)
    ensures var (fin, r) := Run(load, maxImages, items, Lists([], [], []), 0);
      && InStep(fin)
      && |fin.images| <= (if maxImages < 0 then 0 else maxImages)
      && |fin.images| <= |items|
      && (r.Ok? ==> r.value == |fin.images|)
      && forall i | 0 <= i < |fin.images| :: load(items[i]) == Ok(EntryAt(fin, i))
  {
    RunAppendsLoadedEntries(load, maxImages, items, Lists([], [], []), 0);
    RunEnds(load, maxImages, items, Lists([], [], []), 0);
  }
}
