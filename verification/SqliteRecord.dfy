/** SQLite records: reading a record inverts writing it (section 2.1 of the SQLite database file format). */
module SqliteRecord {
  import opened Bits
  import opened SqliteVarint

  /** Text is kept as its bytes, a double as its bit pattern. */
  datatype Value = Null | Int(i: int) | Float(bits: nat) | Blob(bytes: seq<byte>) | Text(bytes: seq<byte>)

  datatype Record = BadHeader | Values(vals: seq<Value>)

  // ---- Big-endian integers ---------------------------------------------------------------------

  function BeValue(b: seq<byte>): nat {
    if b == [] then 0 else 256 * BeValue(b[..|b| - 1]) + b[|b| - 1]
  }

  /** The bytes as a two's-complement integer. */
  function TwosValue(b: seq<byte>): int {
    var v, m := BeValue(b), Pow2(8 * |b|);
    if 2 * v >= m then v - m else v
  }

  function BeBytes(v: nat, n: nat): (b: seq<byte>)
    ensures |b| == n
  {
    if n == 0 then [] else BeBytes(v / 256, n - 1) + [v % 256]
  }

  /** i fits n bytes of two's complement. */
  predicate FitsTwos(i: int, n: nat) {
    0 <= 2 * i + Pow2(8 * n) && 2 * i < Pow2(8 * n)
  }

  function TwosBytes(i: int, n: nat): (b: seq<byte>)
    requires FitsTwos(i, n)
    ensures |b| == n
  {
    BeBytes(if i < 0 then i + Pow2(8 * n) else i, n)
  }

  lemma {:induction false} BeReadBack(v: nat, n: nat)
    requires v < Pow2(8 * n)
    ensures BeValue(BeBytes(v, n)) == v
  {
    if n > 0 {
      Pow2Add(8 * (n - 1), 8);
      assert Pow2(8) == 256;
      BeReadBack(v / 256, n - 1);
      assert BeBytes(v, n)[..n - 1] == BeBytes(v / 256, n - 1);
    }
  }

  lemma TwosReadBack(i: int, n: nat)
    requires FitsTwos(i, n)
    ensures TwosValue(TwosBytes(i, n)) == i
  {
    BeReadBack(if i < 0 then i + Pow2(8 * n) else i, n);
  }

  // ---- Serial types ----------------------------------------------------------------------------

  /** Bytes of data a serial type announces. */
  function Width(t: int): nat {
    if 1 <= t <= 4 then t else if t == 5 then 6 else if t == 6 || t == 7 then 8 else if t >= 12 then (t - 12) / 2 else 0
  }

  /** The value of a serial type over its data; types 10, 11 and below 0 stand for NULL. */
  function ValueOf(t: int, data: seq<byte>): Value {
    if 1 <= t <= 6 then Int(TwosValue(data))
    else if t == 7 then Float(BeValue(data))
    else if t == 8 then Int(0)
    else if t == 9 then Int(1)
    else if t >= 12 && t % 2 == 0 then Blob(data)
    else if t >= 13 then Text(data)
    else Null
  }

  /** The serial types from pos up to the end of the header, or to a varint that is cut off. */
  function TypesFrom(b: seq<byte>, pos: nat, end: int): seq<int>
    decreases |b| - pos
  {
    if pos >= end || VarintAt(b, pos).1 == 0 then []
    else [VarintAt(b, pos).0] + TypesFrom(b, pos + VarintAt(b, pos).1, end)
  }

  /** The values: blobs and text are cut at the end of the payload; from a number that is cut off on, NULL. */
  function ValuesFrom(b: seq<byte>, types: seq<int>, pos: nat): (vals: seq<Value>)
    requires pos <= |b|
    ensures |vals| == |types|
    decreases |types|
  {
    if types == [] then []
    else if types[0] < 12 && pos + Width(types[0]) > |b| then seq(|types|, _ => Null)
    else
      var end := if pos + Width(types[0]) > |b| then |b| else pos + Width(types[0]);
      [ValueOf(types[0], b[pos..end])] + ValuesFrom(b, types[1..], end)
  }

  function RecordOf(b: seq<byte>): Record {
    if b == [] then Values([])
    else
      var (len, n) := VarintAt(b, 0);
      if n == 0 || len > |b| then BadHeader
      else
        var types := TypesFrom(b, n, len);
        Values(if types == [] then [] else ValuesFrom(b, types, len))
  }

  // ---- Writing records -------------------------------------------------------------------------

  /** A column as written: its serial type in a varint of width + 1 bytes, and its value. */
  datatype Field = Field(t: nat, width: nat, value: Value)

  /** The serial type stores the value. */
  predicate Stores(t: nat, value: Value) {
    if t == 0 then value == Null
    else if t <= 6 then value.Int? && FitsTwos(value.i, Width(t))
    else if t == 7 then value.Float? && value.bits < U64
    else if t <= 9 then value == Int(t - 8)
    else if t < 12 then false
    else if t % 2 == 0 then value.Blob? && |value.bytes| == Width(t)
    else value.Text? && |value.bytes| == Width(t)
  }

  predicate FieldOk(f: Field) {
    f.t < TOP && WidthFits(f.t, f.width) && Stores(f.t, f.value)
  }

  predicate FieldsOk(fs: seq<Field>) {
    forall k :: 0 <= k < |fs| ==> FieldOk(fs[k])
  }

  function FieldData(f: Field): (b: seq<byte>)
    requires FieldOk(f)
    ensures |b| == Width(f.t)
  {
    if f.t == 0 then []
    else if f.t <= 6 then TwosBytes(f.value.i, Width(f.t))
    else if f.t == 7 then BeBytes(f.value.bits, 8)
    else if f.t <= 9 then []
    else f.value.bytes
  }

  function TypeBytes(fs: seq<Field>): seq<byte> {
    if fs == [] then [] else VarintBytes(fs[0].t, fs[0].width) + TypeBytes(fs[1..])
  }

  function DataBytes(fs: seq<Field>): seq<byte>
    requires FieldsOk(fs)
  {
    if fs == [] then [] else FieldData(fs[0]) + DataBytes(fs[1..])
  }

  function TypesOf(fs: seq<Field>): (ts: seq<int>)
    ensures |ts| == |fs|
  {
    if fs == [] then [] else [fs[0].t] + TypesOf(fs[1..])
  }

  function ValuesOf(fs: seq<Field>): (vs: seq<Value>)
    ensures |vs| == |fs|
  {
    if fs == [] then [] else [fs[0].value] + ValuesOf(fs[1..])
  }

  /** The length of a header whose own length takes n + 1 bytes. */
  function HeaderLength(fs: seq<Field>, n: nat): nat {
    n + 1 + |TypeBytes(fs)|
  }

  function Encoded(fs: seq<Field>, n: nat): seq<byte>
    requires FieldsOk(fs)
  {
    VarintBytes(HeaderLength(fs, n), n) + TypeBytes(fs) + DataBytes(fs)
  }

  lemma ValueReadBack(f: Field)
    requires FieldOk(f)
    ensures ValueOf(f.t, FieldData(f)) == f.value
  {
    hide TwosValue, TwosBytes, BeValue, BeBytes, FitsTwos, WidthFits;
    if 1 <= f.t <= 6 {
      TwosReadBack(f.value.i, Width(f.t));
    } else if f.t == 7 {
      Pow2Of64();
      BeReadBack(f.value.bits, 8);
    }
  }

  lemma {:induction false} TypesReadBack(s: seq<byte>, pos: nat, fs: seq<Field>)
    requires FieldsOk(fs)
    requires pos + |TypeBytes(fs)| <= |s| && s[pos..pos + |TypeBytes(fs)|] == TypeBytes(fs)
    ensures TypesFrom(s, pos, pos + |TypeBytes(fs)|) == TypesOf(fs)
    decreases |fs|
  {
    hide WidthFits, VarintAt, VarintBytes, Stores;
    if fs != [] {
      var first, rest := VarintBytes(fs[0].t, fs[0].width), TypeBytes(fs[1..]);
      var all := s[pos..pos + |TypeBytes(fs)|];
      assert all == first + rest;
      assert s[pos..pos + |first|] == all[..|first|] == first;
      assert s[pos + |first|..pos + |first| + |rest|] == all[|first|..] == rest;
      assert FieldOk(fs[0]);
      VarintRoundTrip(s, pos, fs[0].t, fs[0].width);
      TypesReadBack(s, pos + |first|, fs[1..]);
    }
  }

  lemma {:induction false} ValuesReadBack(s: seq<byte>, pos: nat, fs: seq<Field>)
    requires FieldsOk(fs)
    requires pos + |DataBytes(fs)| <= |s| && s[pos..pos + |DataBytes(fs)|] == DataBytes(fs)
    ensures ValuesFrom(s, TypesOf(fs), pos) == ValuesOf(fs)
    decreases |fs|
  {
    hide FieldOk, FieldData, ValueOf, Width, Stores;
    if fs != [] {
      assert FieldOk(fs[0]);
      var first, rest := FieldData(fs[0]), DataBytes(fs[1..]);
      var all := s[pos..pos + |DataBytes(fs)|];
      assert all == first + rest;
      assert s[pos..pos + |first|] == all[..|first|] == first;
      assert s[pos + |first|..pos + |first| + |rest|] == all[|first|..] == rest;
      ValueReadBack(fs[0]);
      ValuesReadBack(s, pos + |first|, fs[1..]);
      assert TypesOf(fs)[1..] == TypesOf(fs[1..]);
    }
  }

  /** Reading inverts writing, for every list of columns and any bytes after the record. */
  lemma RecordRoundTrip(fs: seq<Field>, n: nat, after: seq<byte>)
    requires FieldsOk(fs) && WidthFits(HeaderLength(fs, n), n) && HeaderLength(fs, n) < TOP
    ensures RecordOf(Encoded(fs, n) + after) == Values(ValuesOf(fs))
  {
    hide WidthFits, FieldsOk, VarintAt, VarintBytes, TypesFrom, ValuesFrom;
    var s, h := Encoded(fs, n) + after, HeaderLength(fs, n);
    assert s[0..n + 1] == VarintBytes(h, n);
    VarintRoundTrip(s, 0, h, n);
    assert s[n + 1..n + 1 + |TypeBytes(fs)|] == TypeBytes(fs);
    TypesReadBack(s, n + 1, fs);
    assert s[h..h + |DataBytes(fs)|] == DataBytes(fs);
    ValuesReadBack(s, h, fs);
  }

  /** Columns that are numbers, whose data has a width of its own. */
  predicate IsNumber(f: Field) {
    1 <= f.t <= 7
  }

  /** The columns before the k-th are whole, the k-th is a number that is cut off: it and all behind it are NULL. */
  lemma {:induction false} CutNumbersAreNull(s: seq<byte>, pos: nat, fs: seq<Field>, k: nat)
    requires FieldsOk(fs) && k < |fs| && IsNumber(fs[k])
    requires var n := |DataBytes(fs[..k])|;
             pos + n <= |s| && s[pos..pos + n] == DataBytes(fs[..k]) && pos + n + Width(fs[k].t) > |s|
    ensures ValuesFrom(s, TypesOf(fs), pos) == ValuesOf(fs[..k]) + seq(|fs| - k, _ => Null)
    decreases k
  {
    hide FieldOk, FieldData, ValueOf, Width, Stores;
    assert FieldOk(fs[0]);
    if k == 0 {
      assert fs[..0] == [] && [] + seq(|fs|, _ => Null) == seq(|fs|, _ => Null);
    } else {
      var first, rest := FieldData(fs[0]), DataBytes(fs[1..][..k - 1]);
      assert fs[..k][0] == fs[0] && fs[..k][1..] == fs[1..][..k - 1];
      assert DataBytes(fs[..k]) == first + rest;
      SliceSplit(s, pos, first, rest);
      ValueReadBack(fs[0]);
      CutNumbersAreNull(s, pos + |first|, fs[1..], k - 1);
      assert TypesOf(fs)[1..] == TypesOf(fs[1..]);
    }
  }

  // ---- Every value has a serial type -----------------------------------------------------------

  predicate Storable(v: Value) {
    match v
    case Int(i) => -TOP <= i < TOP
    case Float(bits) => bits < U64
    case Blob(b) => |b| < TOP / 4
    case Text(b) => |b| < TOP / 4
    case Null => true
  }

  /** A column of nine type bytes for any storable value. */
  function FieldFor(v: Value): (f: Field)
    requires Storable(v)
    ensures FieldOk(f) && f.value == v && f.width == 8
  {
    Int64Fits(v);
    match v
    case Null => Field(0, 8, v)
    case Int(_) => Field(6, 8, v)
    case Float(_) => Field(7, 8, v)
    case Blob(b) => Field(12 + 2 * |b|, 8, v)
    case Text(b) => Field(13 + 2 * |b|, 8, v)
  }

  lemma Int64Fits(v: Value)
    requires Storable(v)
    ensures v.Int? ==> FitsTwos(v.i, 8)
    ensures WidthFits(0, 8) && WidthFits(6, 8) && WidthFits(7, 8)
    ensures v.Blob? || v.Text? ==> WidthFits(12 + 2 * |v.bytes|, 8) && WidthFits(13 + 2 * |v.bytes|, 8)
  {
    hide Pow2, WidthFits;
    Pow2Of64();
    assert Pow2(8 * 8) == U64;
    WidthExists(0);
    WidthExists(6);
    WidthExists(7);
    if v.Blob? || v.Text? {
      WidthExists(12 + 2 * |v.bytes|);
      WidthExists(13 + 2 * |v.bytes|);
    }
  }

  function ColumnsFor(vs: seq<Value>): (fs: seq<Field>)
    requires forall k :: 0 <= k < |vs| ==> Storable(vs[k])
    ensures FieldsOk(fs) && ValuesOf(fs) == vs && |TypeBytes(fs)| == 9 * |vs|
  {
    if vs == [] then []
    else
      var fs := [FieldFor(vs[0])] + ColumnsFor(vs[1..]);
      assert fs[1..] == ColumnsFor(vs[1..]);
      fs
  }

  /** Any list of storable values is read back from a record written for it. */
  lemma RowRoundTrip(vs: seq<Value>, after: seq<byte>)
    requires forall k :: 0 <= k < |vs| ==> Storable(vs[k])
    requires 9 * (|vs| + 1) < TOP
    ensures RecordOf(Encoded(ColumnsFor(vs), 8) + after) == Values(vs)
  {
    hide Storable, WidthFits, FieldsOk, TypeBytes, ColumnsFor, RecordOf;
    WidthExists(HeaderLength(ColumnsFor(vs), 8));
    RecordRoundTrip(ColumnsFor(vs), 8, after);
  }
}
