/**
 * Python exceptions that the node programs raise while handling data frames,
 * a result type that carries them, and an optional value.
 */
module Faults {

  /** The two exceptions the core raises on data frames: `struct.error` from
      `pack`/`unpack`, and `IndexError` from indexing a literal table. */
  datatype Fault = StructError | IndexError

  datatype Result<+T> = Ok(value: T) | Err(fault: Fault)

  /** Python's `None` beside a value. */
  datatype Option<+T> = None | Some(value: T)
}

/**
 * The fixed-point wire codec: a non-negative reading is split by
 * `divmod(v, 1)` into an integer part and a fraction, the fraction becomes
 * truncated thousandths `int(1000*st)`, and both are packed with
 * `struct.pack('<HH', ...)` as two little-endian unsigned 16-bit fields.
 * The receiver unpacks the two fields and computes `u0 + u1/1000`.
 */
module Codec {
  import opened Faults

  type Byte = b: int | 0 <= b < 256

  /** Largest value of an unsigned 16-bit `H` field. */
  const MaxField := 65535

  /** Number of bytes `struct.pack('<HH', ...)` produces. */
  const PayloadSize := 4

  predicate InField(x: int) { 0 <= x <= MaxField }

  /** `it, st = divmod(v, 1)` followed by `int(it)` and `int(1000*st)`.
      Python's float `divmod` by 1 gives the floor and a remainder in [0, 1),
      so the truncating `int` of the non-negative `1000*st` is its floor. */
  function Split(v: real): (fields: (int, int))
    ensures fields.0 as real <= v < fields.0 as real + 1.0
    ensures 0 <= fields.1 <= 999
    ensures fields.0 as real + fields.1 as real / 1000.0 <= v
    ensures v < fields.0 as real + (fields.1 + 1) as real / 1000.0
  {
    var it := v.Floor;
    var st := v - it as real;
    (it, (1000.0 * st).Floor)
  }

  /** `struct.pack('<HH', i, f)`: raises `struct.error` when a field does not
      fit an unsigned 16-bit integer. */
  function Pack(i: int, f: int): (r: Result<seq<Byte>>)
    ensures r.Ok? <==> InField(i) && InField(f)
    ensures r.Ok? ==> |r.value| == PayloadSize
  {
    if InField(i) && InField(f) then
      Ok([i % 256, i / 256, f % 256, f / 256])
    else
      Err(StructError)
  }

  /** Little-endian unsigned 16-bit value of two bytes. */
  function U16(lo: Byte, hi: Byte): (x: int)
    ensures InField(x)
  {
    lo + 256 * hi
  }

  /** `struct.unpack('<HH', data)`: raises `struct.error` unless `data`
      holds exactly four bytes. */
  function Unpack(data: seq<Byte>): (r: Result<(int, int)>)
    ensures r.Ok? <==> |data| == PayloadSize
    ensures r.Ok? ==> InField(r.value.0) && InField(r.value.1)
  {
    if |data| == PayloadSize then
      Ok((U16(data[0], data[1]), U16(data[2], data[3])))
    else
      Err(StructError)
  }

  /** The sender's encoding of one reading. It succeeds exactly for readings
      in [0, 65536): a negative temperature or a reading of 65536 or more
      makes `pack` raise. */
  function Encode(v: real): (r: Result<seq<Byte>>)
    ensures r.Ok? <==> 0.0 <= v < 65536.0
    ensures r.Ok? ==> |r.value| == PayloadSize
  {
    var fields := Split(v);
    Pack(fields.0, fields.1)
  }

  /** The receiver's `int(u[0]) + float(u[1]/1000)`. */
  function Decode(data: seq<Byte>): (r: Result<real>)
    ensures r.Ok? <==> |data| == PayloadSize
    ensures r.Ok? ==> r.value >= 0.0
  {
    match Unpack(data)
    case Ok(u) => Ok(u.0 as real + u.1 as real / 1000.0)
    case Err(e) => Err(e)
  }

  /** The packed payload is exactly `[lo(i), hi(i), lo(f), hi(f)]`, and
      unpacking it gives back both fields. */
  lemma {:induction false} PackLayoutAndUnpack(i: int, f: int)
    requires InField(i) && InField(f)
    ensures Pack(i, f).Ok?
    ensures Pack(i, f).value == [i % 256, i / 256, f % 256, f / 256]
    ensures Unpack(Pack(i, f).value) == Ok((i, f))
  {
    var data := Pack(i, f).value;
    assert U16(data[0], data[1]) == i;
    assert U16(data[2], data[3]) == f;
  }

  /** Unpacking and packing again gives back the same four bytes. */
  lemma {:induction false} PackUnpack(data: seq<Byte>)
    requires |data| == PayloadSize
    ensures Unpack(data).Ok?
    ensures Pack(Unpack(data).value.0, Unpack(data).value.1) == Ok(data)
  {
    var u := Unpack(data).value;
    var b0: int, b1: int, b2: int, b3: int := data[0], data[1], data[2], data[3];
    assert (b0 + 256 * b1) % 256 == b0 && (b0 + 256 * b1) / 256 == b1;
    assert (b2 + 256 * b3) % 256 == b2 && (b2 + 256 * b3) / 256 == b3;
    assert Pack(u.0, u.1).value == data;
  }

  /** Round trip from the reading: because the fraction is truncated and not
      rounded, the decoded value never exceeds the original and falls short
      of it by less than a thousandth. */
  lemma {:induction false} DecodeEncodeBound(v: real)
    requires 0.0 <= v < 65536.0
    ensures Encode(v).Ok?
    ensures Decode(Encode(v).value).Ok?
    ensures Decode(Encode(v).value).value <= v
    ensures v - Decode(Encode(v).value).value < 1.0 / 1000.0
  {
    var fields := Split(v);
    PackLayoutAndUnpack(fields.0, fields.1);
  }

  /** Round trip from the wire: a four-byte payload whose fraction field is
      below 1000 is re-encoded into exactly the same bytes after decoding. */
  lemma {:induction false} EncodeDecode(data: seq<Byte>)
    requires |data| == PayloadSize
    requires U16(data[2], data[3]) <= 999
    ensures Decode(data).Ok?
    ensures Encode(Decode(data).value) == Ok(data)
  {
    var i, f := U16(data[0], data[1]), U16(data[2], data[3]);
    assert Unpack(data) == Ok((i, f));
    var v := Decode(data).value;
    assert v == i as real + f as real / 1000.0;
    SplitOfDecoded(i, f);
    PackUnpack(data);
    assert Encode(v) == Pack(Split(v).0, Split(v).1);
  }

  /** The split of a decoded value gives back its two fields. */
  lemma {:induction false} SplitOfDecoded(i: int, f: int)
    requires InField(i) && 0 <= f <= 999
    ensures Split(i as real + f as real / 1000.0) == (i, f)
  {
    var v := i as real + f as real / 1000.0;
    assert v.Floor == i;
    assert v - i as real == f as real / 1000.0;
    assert 1000.0 * (f as real / 1000.0) == f as real;
  }
}
