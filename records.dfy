/** The record as the overlays see it: the feature map of a parsed
    `tf.train.Example`, from key to a typed value list. */
module Records {
  import opened Errors
  import Utf8

  /** One `tf.train.Feature`: a byte-string, float or int64 list, or none of
      them when its `kind` is unset. */
  datatype Feature =
    | NoKind
    | BytesList(bytes: seq<Bytes>)
    | FloatList(floats: seq<real>)
    | Int64List(ints: seq<int>)

  /** `example.features.feature`. */
  type Features = map<string, Feature>

  /** `feature[key]`: reading a protobuf message map at a missing key yields
      an empty Feature rather than raising. */
  function Lookup(fs: Features, key: string): Feature
  {
    if key in fs then fs[key] else NoKind
  }

  /** `f.bytes_list.value`: empty unless the feature holds a byte-string list. */
  function BytesOf(f: Feature): seq<Bytes>
  {
    if f.BytesList? then f.bytes else []
  }

  /** `f.float_list.value`: empty unless the feature holds a float list. */
  function FloatsOf(f: Feature): seq<real>
  {
    if f.FloatList? then f.floats else []
  }

  /** `feature[key].bytes_list.value[0]`. */
  function FirstBytes(fs: Features, key: string): (r: Result<Bytes>)
    ensures r.Ok? <==> |BytesOf(Lookup(fs, key))| > 0
    ensures r.Ok? ==> r.value == BytesOf(Lookup(fs, key))[0]
    ensures r.Err? ==> r.error == IndexError
  {
    var values := BytesOf(Lookup(fs, key));
    if |values| == 0 then Err(IndexError) else Ok(values[0])
  }

  /** UTF-8 decoding of a byte-string, raising UnicodeDecodeError. */
  function DecodeText(b: Bytes): Result<string>
  {
    match Utf8.Decode(b)
    case None => Err(UnicodeDecodeError)
    case Some(s) => Ok(s)
  }

  /** `feature[key].bytes_list.value[0].decode("utf-8")`. */
  function FirstString(fs: Features, key: string): Result<string>
  {
    var b :- FirstBytes(fs, key);
    DecodeText(b)
  }

  /** The first text value is read back exactly as it was stored; a key that
      holds no byte-string raises IndexError. */
  lemma FirstStringOfEncoded(fs: Features, key: string, s: string)
    ensures (|BytesOf(Lookup(fs, key))| > 0 && BytesOf(Lookup(fs, key))[0] == Utf8.Encode(s))
            ==> FirstString(fs, key) == Ok(s)
    ensures |BytesOf(Lookup(fs, key))| == 0 ==> FirstString(fs, key) == Err(IndexError)
  {
    Utf8.DecodeEncode(s);
  }

  /** `tf.io.parse_single_example` with `tf.io.FixedLenFeature((), tf.string)`
      for `key`: the one byte-string the feature holds; InvalidArgumentError
      when the key is missing, holds another kind, or holds zero or several
      values. */
  function SingleBytes(fs: Features, key: string): (r: Result<Bytes>)
    ensures r.Ok? <==> key in fs && fs[key].BytesList? && |fs[key].bytes| == 1
    ensures r.Ok? ==> r.value == fs[key].bytes[0]
    ensures r.Err? ==> r.error == InvalidArgumentError
  {
    if key in fs && fs[key].BytesList? && |fs[key].bytes| == 1
    then Ok(fs[key].bytes[0])
    else Err(InvalidArgumentError)
  }
}
