/** The semantic segmentation overlay (`SemanticSegmentationOverlay`): a
    per-pixel class mask read from the record, raw int32 or PNG, blended at
    0.5 over the image in a colour palette, either matplotlib's `gist_earth`
    or a 256-entry table loaded from a CSV file. */
module Segmentation {
  import opened Errors
  import opened Records
  import opened Imaging
  import Config
  import Text
  import Utf8
  import Arrays

  /** A constructed overlay: the two feature keys, the raw divisor and the
      chosen palette. */
  datatype SegmentationOverlay = SegmentationOverlay(
    segmapKey: string,
    formatKey: string,
    divisor: Config.Int32,
    palette: Palette)

  // ----- The colormap file -----

  const Black: Rgb := Rgb(0, 0, 0)

  /** `np.zeros((256, 3), dtype=np.uint8)`, one colour per row. */
  function Zeros(): (t: seq<Rgb>)
    ensures |t| == 256 && forall i | 0 <= i < 256 :: t[i] == Black
  {
    seq(256, _ => Black)
  }

  /** numpy's message when a row of `n` values is stored into a row of 3. */
  function BroadcastMessage(n: nat): string
  {
    "could not broadcast input array from shape (" + Text.NatToString(n) + ",) into shape (3,)"
  }

  /** `colormap[i] = np.fromstring(line, sep=",", dtype=int)` for the value
      stored: three numbers fill the row, one number fills all three
      columns, any other count raises ValueError; each number is stored
      modulo 256. */
  function TableRow(line: string): Result<Rgb>
  {
    var vs := Arrays.FromString(line);
    if |vs| == 3 then Ok(Rgb(Arrays.ToUint8(vs[0]), Arrays.ToUint8(vs[1]), Arrays.ToUint8(vs[2])))
    else if |vs| == 1 then Ok(Rgb(Arrays.ToUint8(vs[0]), Arrays.ToUint8(vs[0]), Arrays.ToUint8(vs[0])))
    else Err(ValueError(BroadcastMessage(|vs|)))
  }

  /** Each line of the file, parsed as the row it stores. */
  function ParsedRows(lines: seq<string>): (rows: seq<Result<Rgb>>)
    ensures |rows| == |lines| && forall i | 0 <= i < |lines| :: rows[i] == TableRow(lines[i])
  {
    seq(|lines|, i requires 0 <= i < |lines| => TableRow(lines[i]))
  }

  /** The table once the first `n` rows are stored, or the exception raised
      on the way: a row at index 256 or beyond raises IndexError before its
      value is stored. */
  function TableAfter(rows: seq<Result<Rgb>>, n: nat): (r: Result<seq<Rgb>>)
    requires n <= |rows|
    ensures r.Ok? ==> |r.value| == 256
  {
    if n == 0 then Ok(Zeros())
    else
      var t :- TableAfter(rows, n - 1);
      if n - 1 >= 256 then Err(IndexError)
      else
        var row :- rows[n - 1];
        Ok(t[n - 1 := row])
  }

  /** The table `load_colormap` builds from the lines of the file. */
  function ColormapTable(lines: seq<string>): Result<seq<Rgb>>
  {
    TableAfter(ParsedRows(lines), |lines|)
  }

  /** Once storing the first `m` rows fails, storing more fails the same way. */
  lemma {:induction false} TableAfterKeepsError(rows: seq<Result<Rgb>>, m: nat, n: nat)
    requires m <= n <= |rows|
    requires TableAfter(rows, m).Err?
    ensures TableAfter(rows, n) == TableAfter(rows, m)
    decreases n - m
  {
    if m < n {
      TableAfterKeepsError(rows, m, n - 1);
    }
  }

  /** Storing one more row: the next table, or the exception it raises. */
  lemma StoreRow(rows: seq<Result<Rgb>>, i: nat, t: seq<Rgb>)
    requires i < |rows| && TableAfter(rows, i) == Ok(t)
    ensures i >= 256 ==> TableAfter(rows, i + 1) == Err(IndexError)
    ensures i < 256 && rows[i].Err? ==> TableAfter(rows, i + 1) == Err(rows[i].error)
    ensures i < 256 && rows[i].Ok? ==> TableAfter(rows, i + 1) == Ok(t[i := rows[i].value])
  {
  }

  /** `load_colormap()` on the lines of the configured file: a zeroed table,
      filled row by row in file order. */
  method LoadColormap(lines: seq<string>) returns (r: Result<seq<Rgb>>)
    ensures r == ColormapTable(lines)
  {
    ghost var rows := ParsedRows(lines);
    var colormap := new Rgb[256](_ => Black);
    assert colormap[..] == Zeros();
    var i := 0;
    while i < |lines|
      invariant 0 <= i <= |lines|
      invariant TableAfter(rows, i) == Ok(colormap[..])
    {
      StoreRow(rows, i, colormap[..]);
      if i >= 256 {
        TableAfterKeepsError(rows, i + 1, |lines|);
        return Err(IndexError);
      }
      var row := TableRow(lines[i]);
      assert row == rows[i];
      if row.Err? {
        TableAfterKeepsError(rows, i + 1, |lines|);
        return Err(row.error);
      }
      colormap[i] := row.value;
      i := i + 1;
    }
    r := Ok(colormap[..]);
  }

  /** A stored table holds row `i` at index `i`, and black past the last row. */
  lemma {:induction false} TableAfterRows(rows: seq<Result<Rgb>>, n: nat)
    requires n <= |rows|
    requires TableAfter(rows, n).Ok?
    ensures n <= 256
    ensures forall i | 0 <= i < n :: rows[i].Ok? && TableAfter(rows, n).value[i] == rows[i].value
    ensures forall i | n <= i < 256 :: TableAfter(rows, n).value[i] == Black
  {
    if n > 0 {
      TableAfterRows(rows, n - 1);
    }
  }

  /** Storing succeeds exactly when there are at most 256 rows and every one
      is well formed. */
  lemma {:induction false} TableAfterOk(rows: seq<Result<Rgb>>, n: nat)
    requires n <= |rows|
    ensures TableAfter(rows, n).Ok? <==> n <= 256 && forall i | 0 <= i < n :: rows[i].Ok?
  {
    if n > 0 {
      TableAfterOk(rows, n - 1);
    }
  }

  /** The loaded table: row `i` is what line `i` stores, rows with no line are
      black, and a file of more than 256 lines cannot be loaded. */
  lemma ColormapRows(lines: seq<string>)
    ensures ColormapTable(lines).Ok? <==>
              |lines| <= 256 && forall i | 0 <= i < |lines| :: TableRow(lines[i]).Ok?
    ensures ColormapTable(lines).Ok? ==>
              && (forall i | 0 <= i < |lines| :: ColormapTable(lines).value[i] == TableRow(lines[i]).value)
              && (forall i | |lines| <= i < 256 :: ColormapTable(lines).value[i] == Black)
  {
    var rows := ParsedRows(lines);
    TableAfterOk(rows, |lines|);
    if ColormapTable(lines).Ok? {
      TableAfterRows(rows, |lines|);
    }
  }

  /** With every line before it well formed, line 257 raises IndexError. */
  lemma TooManyLines(lines: seq<string>)
    requires |lines| > 256
    requires forall i | 0 <= i < 256 :: TableRow(lines[i]).Ok?
    ensures ColormapTable(lines) == Err(IndexError)
  {
    var rows := ParsedRows(lines);
    TableAfterOk(rows, 256);
    assert TableAfter(rows, 257) == Err(IndexError);
    TableAfterKeepsError(rows, 257, |lines|);
  }

  /** The line `r,g,b` the colormap format expects for a colour. */
  function CsvLine(c: Rgb): string
  {
    Text.NatToString(c.r) + "," + Text.NatToString(c.g) + "," + Text.NatToString(c.b) + "\n"
  }

  /** The number `n` written at position `i` and followed by `sep`, a
      comma or the newline ending the line, is read back as `n`. */
  lemma NumberFieldAt(t: string, i: nat, n: nat, sep: char)
    requires n < 256 && (sep == ',' || sep == '\n')
    requires i + |Text.NatToString(n)| < |t| && t[i..i + |Text.NatToString(n)| + 1] == Text.NatToString(n) + [sep]
    ensures Arrays.StrToL(t, i) == (n, |Text.NatToString(n)|)
  {
    var d := Text.NatToString(n);
    assert t[i..i + |d|] == t[i..i + |d| + 1][..|d|];
    assert t[i + |d|] == t[i..i + |d| + 1][|d|] == sep;
    Arrays.StrToLOfNatToString(n, t, i);
  }

  /** A field `n,` is read as `n`, and parsing goes on after the comma. */
  lemma CommaStep(t: string, i: nat, n: nat)
    requires n < 256
    requires i + |Text.NatToString(n)| + 1 < |t|
    requires t[i..i + |Text.NatToString(n)| + 1] == Text.NatToString(n) + ","
    ensures Arrays.StepAt(t, i) == Arrays.More(n, i + |Text.NatToString(n)| + 1)
  {
    var d := Text.NatToString(n);
    NumberFieldAt(t, i, n, ',');
    assert t[i + |d|] == t[i..i + |d| + 1][|d|] == ',';
    assert !Arrays.IsCSpace(t[i + |d|]) && Arrays.SpaceRun(t, i + |d|) == 0;
  }

  /** A final field `n` and the newline is read as `n`, the last element. */
  lemma LastStep(t: string, i: nat, n: nat)
    requires n < 256
    requires i + |Text.NatToString(n)| + 1 == |t|
    requires t[i..] == Text.NatToString(n) + "\n"
    ensures Arrays.StepAt(t, i) == Arrays.Last(n)
  {
    var d := Text.NatToString(n);
    assert t[i..i + |d| + 1] == t[i..];
    NumberFieldAt(t, i, n, '\n');
    assert t[i + |d|] == t[i..][|d|] == '\n';
    assert Arrays.IsCSpace(t[i + |d|]) && Arrays.SpaceRun(t, i + |d|) == 1;
  }

  /** Where the fields of `CsvLine(c)` start: `g` after `r,` and `b`
      after `r,g,`. */
  function GreenAt(c: Rgb): nat
  {
    |Text.NatToString(c.r)| + 1
  }

  function BlueAt(c: Rgb): nat
  {
    |Text.NatToString(c.r)| + |Text.NatToString(c.g)| + 2
  }

  /** numpy's first step on `CsvLine(c)` reads `r` and its comma. */
  lemma CsvRedStep(c: Rgb)
    ensures Arrays.StepAt(CsvLine(c), 0) == Arrays.More(c.r, GreenAt(c))
  {
    var a, t := Text.NatToString(c.r), CsvLine(c);
    assert t[0..|a| + 1] == a + ",";
    CommaStep(t, 0, c.r);
  }

  /** The second step reads `g` and its comma. */
  lemma CsvGreenStep(c: Rgb)
    ensures Arrays.StepAt(CsvLine(c), GreenAt(c)) == Arrays.More(c.g, BlueAt(c))
  {
    var b, t, p := Text.NatToString(c.g), CsvLine(c), GreenAt(c);
    assert t[p..p + |b| + 1] == b + ",";
    CommaStep(t, p, c.g);
  }

  /** The third step reads `b` and finds no separator after the newline. */
  lemma CsvBlueStep(c: Rgb)
    ensures Arrays.StepAt(CsvLine(c), BlueAt(c)) == Arrays.Last(c.b)
  {
    var d, t, q := Text.NatToString(c.b), CsvLine(c), BlueAt(c);
    assert t[q..] == d + "\n";
    LastStep(t, q, c.b);
  }

  /** A line written as `r,g,b` parses as those three numbers. */
  lemma FromStringOfCsvLine(c: Rgb)
    ensures Arrays.FromString(CsvLine(c)) == [c.r as int, c.g as int, c.b as int]
  {
    CsvRedStep(c);
    CsvGreenStep(c);
    CsvBlueStep(c);
    Arrays.ThreeSteps(Arrays.StepAt, CsvLine(c), GreenAt(c), BlueAt(c), c.r, c.g, c.b);
  }

  /** A blank line, such as one left at the end of the file, stores black:
      numpy reads it as the single element 0. */
  lemma BlankLineStoresBlack(line: string)
    requires |line| >= 1 && forall k | 0 <= k < |line| :: Arrays.IsCSpace(line[k])
    ensures TableRow(line) == Ok(Black)
  {
    Arrays.FromStringOfBlankLine(line);
  }

  /** A line written as `r,g,b` stores exactly that colour. */
  lemma TableRowOfCsvLine(c: Rgb)
    ensures TableRow(CsvLine(c)) == Ok(c)
  {
    FromStringOfCsvLine(c);
  }

  /** A file written one `r,g,b` line per colour, at most 256 of them, loads
      as those colours followed by black. */
  lemma LoadsWrittenColormap(colors: seq<Rgb>)
    requires |colors| <= 256
    ensures ColormapTable(seq(|colors|, i requires 0 <= i < |colors| => CsvLine(colors[i])))
            == Ok(colors + Zeros()[|colors|..])
  {
    var lines := seq(|colors|, i requires 0 <= i < |colors| => CsvLine(colors[i]));
    forall i | 0 <= i < |lines|
      ensures TableRow(lines[i]) == Ok(colors[i])
    {
      TableRowOfCsvLine(colors[i]);
    }
    ColormapRows(lines);
    var t := ColormapTable(lines).value;
    assert t == colors + Zeros()[|colors|..];
  }

  // ----- Construction -----

  /** `SemanticSegmentationOverlay(args)`, with `files` giving the lines of
      each readable file: the attributes are read in the order the
      constructor reads them; with no colormap file the built-in palette is
      chosen, otherwise the file's table. */
  function New(args: Config.Args, files: map<string, seq<string>>): Result<SegmentationOverlay>
  {
    match args.segmap
    case None => Err(AttributeError("segmap_key"))
    case Some(sa) =>
      match sa.segmapColormapFile
      case None => Ok(SegmentationOverlay(sa.segmapKey, sa.segmapFormatKey, sa.segmapRawDivisorKey, GistEarth))
      case Some(path) =>
        if path !in files then Err(OSError("No such file or directory: " + path))
        else
          var table :- ColormapTable(files[path]);
          Ok(SegmentationOverlay(sa.segmapKey, sa.segmapFormatKey, sa.segmapRawDivisorKey, Listed(table)))
  }

  /** The constructor, loading the colormap through `LoadColormap`. */
  method Create(args: Config.Args, files: map<string, seq<string>>) returns (r: Result<SegmentationOverlay>)
    ensures r == New(args, files)
  {
    if args.segmap.None? { return Err(AttributeError("segmap_key")); }
    var sa := args.segmap.value;
    if sa.segmapColormapFile.None? {
      return Ok(SegmentationOverlay(sa.segmapKey, sa.segmapFormatKey, sa.segmapRawDivisorKey, GistEarth));
    }
    var path := sa.segmapColormapFile.value;
    if path !in files { return Err(OSError("No such file or directory: " + path)); }
    var table := LoadColormap(files[path]);
    if table.Err? { return Err(table.error); }
    r := Ok(SegmentationOverlay(sa.segmapKey, sa.segmapFormatKey, sa.segmapRawDivisorKey, Listed(table.value)));
  }

  /** Without a colormap file the built-in palette is used and no file is
      read: the result is the same whatever the file system holds. */
  lemma BuiltInPaletteReadsNoFile(args: Config.Args, files1: map<string, seq<string>>, files2: map<string, seq<string>>)
    requires args.segmap.Some? && args.segmap.value.segmapColormapFile.None?
    ensures New(args, files1) == New(args, files2)
    ensures New(args, files1).Ok? && New(args, files1).value.palette == GistEarth
  {
  }

  /** With a colormap file, construction fails exactly when the file is
      missing or its table cannot be loaded, and otherwise uses that table. */
  lemma ConfiguredPalette(args: Config.Args, files: map<string, seq<string>>, path: string)
    requires args.segmap.Some? && args.segmap.value.segmapColormapFile == Some(path)
    ensures New(args, files).Ok? <==> path in files && ColormapTable(files[path]).Ok?
    ensures New(args, files).Ok? ==> New(args, files).value.palette == Listed(ColormapTable(files[path]).value)
  {
  }

  /** The attributes read from the namespace are the ones kept. */
  lemma NewKeepsArguments(args: Config.Args, files: map<string, seq<string>>)
    requires New(args, files).Ok?
    ensures var ov := New(args, files).value;
      && args.segmap.Some?
      && ov.segmapKey == args.segmap.value.segmapKey
      && ov.formatKey == args.segmap.value.segmapFormatKey
      && ov.divisor == args.segmap.value.segmapRawDivisorKey
  {
  }

  // ----- Reading the mask -----

  /** `tf.io.parse_single_example` of the serialised record with both keys as
      fixed-length strings: the mask bytes, or InvalidArgumentError when
      either key does not hold exactly one byte-string. */
  function ParseSegmapFeatures(ov: SegmentationOverlay, fs: Features): (r: Result<Bytes>)
    ensures r.Ok? <==> SingleBytes(fs, ov.segmapKey).Ok? && SingleBytes(fs, ov.formatKey).Ok?
    ensures r.Ok? ==> r.value == SingleBytes(fs, ov.segmapKey).value
    ensures r.Err? ==> r.error == InvalidArgumentError
  {
    var data :- SingleBytes(fs, ov.segmapKey);
    var format :- SingleBytes(fs, ov.formatKey);
    Ok(data)
  }

  /** `mask // divisor` applied to every value; applied before the reshape,
      which gives the same array since both act value by value. */
  function Divided(flat: seq<Config.Int32>, d: Config.Int32): (r: seq<Config.Int32>)
    ensures |r| == |flat| && forall i | 0 <= i < |flat| :: r[i] == Arrays.FloorDiv32(flat[i], d)
  {
    seq(|flat|, i requires 0 <= i < |flat| => Arrays.FloorDiv32(flat[i], d))
  }

  /** The `raw` branch: decode to int32, reshape to `h x w`, divide. */
  function RawMask(data: Bytes, h: nat, w: nat, d: Config.Int32): Result<Mask>
  {
    var flat :- Arrays.DecodeRaw(data);
    if |flat| != h * w then Err(InvalidArgumentError)
    else Ok(Arrays.Reshape(Divided(flat, d), h, w))
  }

  /** `m` is the mask of the values `vs` as `h` rows of `w`, each value
      floor-divided by `d`: cell `[r][c]` comes from element `r * w + c`. */
  predicate IsRawMaskOf(m: Mask, vs: seq<Config.Int32>, h: nat, w: nat, d: Config.Int32)
    requires |vs| == h * w
  {
    && m.height == h && m.width == w
    && forall r, c | 0 <= r < h && 0 <= c < w ::
         r * w + c < |vs| && m.cells[r][c] == Arrays.FloorDiv32(vs[r * w + c], d)
  }

  /** The raw branch succeeds exactly when the buffer holds `h * w` int32
      values, and raises InvalidArgumentError otherwise. */
  lemma RawMaskOk(data: Bytes, h: nat, w: nat, d: Config.Int32)
    ensures RawMask(data, h, w, d).Ok? <==> |data| == 4 * (h * w)
    ensures RawMask(data, h, w, d).Err? ==> RawMask(data, h, w, d).error == InvalidArgumentError
  {
    var hw := h * w;
    var decoded := Arrays.DecodeRaw(data);
    if decoded.Ok? {
      assert 4 * |decoded.value| == |data|;
    } else {
      assert |data| != 4 * hw;
    }
  }

  /** A successful raw branch holds the decoded values, row-major, divided. */
  lemma RawMaskCells(data: Bytes, h: nat, w: nat, d: Config.Int32)
    requires RawMask(data, h, w, d).Ok?
    ensures Arrays.DecodeRaw(data).Ok? && |Arrays.DecodeRaw(data).value| == h * w
    ensures IsRawMaskOf(RawMask(data, h, w, d).value, Arrays.DecodeRaw(data).value, h, w, d)
  {
    var flat := Arrays.DecodeRaw(data).value;
    var m := Arrays.Reshape(Divided(flat, d), h, w);
    assert RawMask(data, h, w, d) == Ok(m);
  }

  /** `get_segmap(example, h, w)` on the feature map: the format is the first
      byte-string of the format key, decoded; the record is parsed; then
      `raw` and `png` select their decoders and any other format raises
      ValueError. */
  function GetSegmap(ov: SegmentationOverlay, be: Backend, fs: Features, h: nat, w: nat): Result<Mask>
  {
    var format :- FirstString(fs, ov.formatKey);
    var data :- ParseSegmapFeatures(ov, fs);
    if format == "raw" then RawMask(data, h, w, ov.divisor)
    else if format == "png" then
      match be.decodePng(data)
      case None => Err(InvalidArgumentError)
      case Some(m) => Ok(m)
    else Err(ValueError("Unknown format: " + format))
  }

  /** The format dispatch: once the format is read and the record parsed,
      `raw` gives the raw mask, `png` the decoded image, and anything else
      ValueError naming the format. A format key with no byte-string raises
      IndexError before anything else. */
  lemma FormatDispatch(ov: SegmentationOverlay, be: Backend, fs: Features, h: nat, w: nat, format: string)
    requires FirstString(fs, ov.formatKey) == Ok(format)
    requires ParseSegmapFeatures(ov, fs).Ok?
    ensures var data := SingleBytes(fs, ov.segmapKey).value;
      && (format == "raw" ==> GetSegmap(ov, be, fs, h, w) == RawMask(data, h, w, ov.divisor))
      && (format == "png" && be.decodePng(data).Some? ==>
            GetSegmap(ov, be, fs, h, w) == Ok(be.decodePng(data).value))
      && (format == "png" && be.decodePng(data).None? ==>
            GetSegmap(ov, be, fs, h, w) == Err(InvalidArgumentError))
      && (format != "raw" && format != "png" ==>
            GetSegmap(ov, be, fs, h, w) == Err(ValueError("Unknown format: " + format)))
  {
  }

  /** With no byte-string under the format key nothing else is read. */
  lemma MissingFormatRaises(ov: SegmentationOverlay, be: Backend, fs: Features, h: nat, w: nat)
    requires |BytesOf(Lookup(fs, ov.formatKey))| == 0
    ensures GetSegmap(ov, be, fs, h, w) == Err(IndexError)
  {
  }

  /** Once the format is read, a record whose segmap key or format key
      does not hold exactly one byte-string (missing, of another kind, empty
      or repeated) fails the fixed-length string parse with
      InvalidArgumentError, whatever the format names. */
  lemma UnparsedSegmapRaises(ov: SegmentationOverlay, be: Backend, fs: Features, h: nat, w: nat, format: string)
    requires FirstString(fs, ov.formatKey) == Ok(format)
    requires !(ov.segmapKey in fs && fs[ov.segmapKey].BytesList? && |fs[ov.segmapKey].bytes| == 1)
      || !(ov.formatKey in fs && fs[ov.formatKey].BytesList? && |fs[ov.formatKey].bytes| == 1)
    ensures GetSegmap(ov, be, fs, h, w) == Err(InvalidArgumentError)
  {
  }

  /** The raw encoding of `h * w` int32 values decodes to those values,
      row-major, floor-divided by the divisor. */
  lemma RawMaskOfEncoded(vs: seq<Config.Int32>, h: nat, w: nat, d: Config.Int32)
    requires |vs| == h * w
    ensures RawMask(Arrays.EncodeRaw(vs), h, w, d).Ok?
    ensures IsRawMaskOf(RawMask(Arrays.EncodeRaw(vs), h, w, d).value, vs, h, w, d)
  {
    Arrays.DecodeEncodeRaw(vs);
    RawMaskOk(Arrays.EncodeRaw(vs), h, w, d);
    RawMaskCells(Arrays.EncodeRaw(vs), h, w, d);
  }

  /** A record holding the text "raw" as its format and the raw encoding of
      `h * w` int32 values as its mask yields those values, row-major,
      floor-divided by the divisor. */
  lemma RawRecordRoundTrip(ov: SegmentationOverlay, be: Backend, fs: Features, vs: seq<Config.Int32>, h: nat, w: nat)
    requires ov.formatKey != ov.segmapKey
    requires ov.formatKey in fs && fs[ov.formatKey] == BytesList([Utf8.Encode("raw")])
    requires ov.segmapKey in fs && fs[ov.segmapKey] == BytesList([Arrays.EncodeRaw(vs)])
    requires |vs| == h * w
    ensures GetSegmap(ov, be, fs, h, w).Ok?
    ensures IsRawMaskOf(GetSegmap(ov, be, fs, h, w).value, vs, h, w, ov.divisor)
  {
    FirstStringOfEncoded(fs, ov.formatKey, "raw");
    assert ParseSegmapFeatures(ov, fs) == Ok(Arrays.EncodeRaw(vs));
    FormatDispatch(ov, be, fs, h, w, "raw");
    RawMaskOfEncoded(vs, h, w, ov.divisor);
  }

  // ----- Blending and saving -----

  /** Modes `Image.blend` refuses outright: bilevel, palette and non-8-bit images. */
  const WrongBlendModes: set<string> := {"1", "P", "PA", "I", "F", "I;16", "I;16L", "I;16B", "I;16N"}

  /** The 8-bit modes with three bands, the band count of the RGB mask image. */
  const ThreeBandModes: set<string> := {"RGB", "YCbCr", "LAB", "HSV"}

  /** `Image.blend(img, segmap_img, 0.5)` where `segmap_img` is the coloured
      mask in mode RGB: the image must be an 8-bit three-band image of the
      mask's size. */
  function Blend(image: Bytes, info: ImageInfo, mask: Mask, palette: Palette): (r: Result<Picture>)
    ensures r.Ok? <==> info.mode in ThreeBandModes && info.width == mask.width && info.height == mask.height
    ensures r.Ok? ==> r.value == Blended(image, info, mask, palette, 0.5)
    ensures r.Err? ==> r.error == (if info.mode in WrongBlendModes then ValueError("image has wrong mode")
                                   else ValueError("images do not match"))
  {
    if info.mode in WrongBlendModes then Err(ValueError("image has wrong mode"))
    else if info.mode in ThreeBandModes && info.width == mask.width && info.height == mask.height
    then Ok(Blended(image, info, mask, palette, 0.5))
    else Err(ValueError("images do not match"))
  }

  /** `apply_overlay(image_bytes, feature)` on the feature map: open the
      image, read the mask for its size, blend, save as JPEG. */
  function Render(ov: SegmentationOverlay, be: Backend, image: Bytes, fs: Features): Result<Bytes>
  {
    var info :- (if be.open(image).Some? then Ok(be.open(image).value) else Err(ImageDecodeError));
    var mask :- GetSegmap(ov, be, fs, info.height, info.width);
    var picture :- Blend(image, info, mask, ov.palette);
    SaveJpeg(picture, be.encode)
  }

  /** An RGB image with a well-formed raw mask of its size is saved as the
      image blended with that mask in the overlay's palette. */
  lemma RenderRaw(ov: SegmentationOverlay, be: Backend, image: Bytes, fs: Features, info: ImageInfo)
    requires be.open(image) == Some(info) && info.mode == "RGB"
    requires FirstString(fs, ov.formatKey) == Ok("raw")
    requires ParseSegmapFeatures(ov, fs).Ok?
    requires |SingleBytes(fs, ov.segmapKey).value| == 4 * (info.height * info.width)
    ensures Render(ov, be, image, fs)
            == Ok(be.encode(Blended(image, info,
                                    RawMask(SingleBytes(fs, ov.segmapKey).value, info.height, info.width, ov.divisor).value,
                                    ov.palette, 0.5)))
  {
    RawMaskOk(SingleBytes(fs, ov.segmapKey).value, info.height, info.width, ov.divisor);
  }

  /** A PNG mask is not checked against the image size: one of another size
      passes `get_segmap` and makes the blend raise ValueError. */
  lemma PngSizeMismatchRaises(ov: SegmentationOverlay, be: Backend, image: Bytes, fs: Features, info: ImageInfo, m: Mask)
    requires be.open(image) == Some(info) && info.mode == "RGB"
    requires FirstString(fs, ov.formatKey) == Ok("png")
    requires ParseSegmapFeatures(ov, fs).Ok?
    requires be.decodePng(SingleBytes(fs, ov.segmapKey).value) == Some(m)
    requires m.width != info.width || m.height != info.height
    ensures GetSegmap(ov, be, fs, info.height, info.width) == Ok(m)
    ensures Render(ov, be, image, fs) == Err(ValueError("images do not match"))
  {
  }

  /** Only an image whose mode has three 8-bit bands can be blended: a
      grayscale, RGBA or palette image raises ValueError whatever the mask. */
  lemma NonRgbImageRaises(ov: SegmentationOverlay, be: Backend, image: Bytes, fs: Features, info: ImageInfo)
    requires be.open(image) == Some(info) && info.mode !in ThreeBandModes
    requires GetSegmap(ov, be, fs, info.height, info.width).Ok?
    ensures Render(ov, be, image, fs).Err? && Render(ov, be, image, fs).error.ValueError?
  {
  }
}
