/** Reading a SQLite record with cursors over its payload. */
module SqliteRecordReader {
  import opened Bits
  import opened SqliteVarint
  import opened SqliteRecord

  /** The conversion of an unsigned value below 2 * half to the signed type of that size. */
  function ToSigned(x: nat, half: nat): int {
    if x < half then x else x - 2 * half
  }

  /** v | ^(m - 1) on int64, for a non-negative v below the power of two m */
  function FillAbove(v: nat, m: nat): int
    requires v < m
  {
    v - m
  }

  lemma {:induction false} BeBound(b: seq<byte>)
    ensures BeValue(b) < Pow2(8 * |b|)
  {
    if b != [] {
      BeBound(b[..|b| - 1]);
      Pow2Add(8 * (|b| - 1), 8);
      assert Pow2(8) == 256;
    }
  }

  lemma BytePowers()
    ensures Pow2(8) == 0x100 && Pow2(16) == 0x1_0000 && Pow2(24) == 0x100_0000 && Pow2(32) == 0x1_0000_0000
    ensures Pow2(48) == 0x1_0000_0000_0000 && Pow2(64) == U64
  {
    hide Pow2;
    SevenBits(0);
    Pow2Add(8, 8);
    Pow2Add(16, 8);
    Pow2Add(16, 16);
    Pow2Add(24, 24);
    Pow2Of64();
  }

  lemma Be3(b: seq<byte>)
    requires |b| == 3
    ensures BeValue(b) == 0x1_0000 * (b[0] as nat) + 0x100 * (b[1] as nat) + b[2] as nat
  {
    assert b[..2][..1][..0] == [];
    assert BeValue(b[..2][..1]) == b[0];
  }

  /** Three bytes are shifted together without overlap. */
  lemma ThreeBytes(x: nat, y: nat, z: nat)
    requires x < 256 && y < 256 && z < 256
    ensures Or(Or(Shl64(x, 16), Shl64(y, 8)), z) == 0x1_0000 * x + 0x100 * y + z
  {
    hide Or, Pow2;
    BytePowers();
    OrDisjoint(x, 16, 0x100 * y);
    OrDisjoint(0x100 * x + y, 8, z);
  }

  /** The six integer serial types, each decoded its own way, are two's complement. */
  method ReadInt(payload: seq<byte>, dataPos: nat, t: int) returns (v: int)
    requires 1 <= t <= 6 && dataPos + Width(t) <= |payload|
    ensures v == TwosValue(payload[dataPos..dataPos + Width(t)])
  {
    hide Pow2, Or, Shl64, BeValue;
    BytePowers();
    var d := payload[dataPos..dataPos + Width(t)];
    BeBound(d);
    if t == 1 {
      OneByte(d);
      v := ToSigned(payload[dataPos], 0x80);
    } else if t == 2 {
      v := ToSigned(BeValue(payload[dataPos..dataPos + 2]), 0x8000);
    } else if t == 3 {
      Be3(d);
      ThreeBytes(payload[dataPos], payload[dataPos + 1], payload[dataPos + 2]);
      v := Or(Or(Shl64(payload[dataPos], 16), Shl64(payload[dataPos + 1], 8)), payload[dataPos + 2]);
      if v / 0x80_0000 % 2 != 0 {
        v := FillAbove(v, 0x100_0000);
      }
    } else if t == 4 {
      v := ToSigned(BeValue(payload[dataPos..dataPos + 4]), 0x8000_0000);
    } else if t == 5 {
      var u := ReadSixBytes(payload, dataPos);
      v := if u / 0x8000_0000_0000 % 2 != 0 then FillAbove(u, 0x1_0000_0000_0000) else u;
    } else {
      v := ToSigned(BeValue(payload[dataPos..dataPos + 8]), TOP);
    }
  }

  lemma OneByte(d: seq<byte>)
    requires |d| == 1
    ensures BeValue(d) == d[0]
  {
  }

  method ReadSixBytes(payload: seq<byte>, dataPos: nat) returns (v: nat)
    requires dataPos + 6 <= |payload|
    ensures v == BeValue(payload[dataPos..dataPos + 6])
  {
    v := 0;
    for j := 0 to 6
      invariant v == BeValue(payload[dataPos..dataPos + j])
    {
      AppendByte(payload, dataPos, j);
      v := Or(Shl64(v, 8), payload[dataPos + j]);
    }
  }

  lemma AppendByte(payload: seq<byte>, dataPos: nat, j: nat)
    requires j < 6 && dataPos + 6 <= |payload|
    ensures Or(Shl64(BeValue(payload[dataPos..dataPos + j]), 8), payload[dataPos + j])
         == BeValue(payload[dataPos..dataPos + j + 1])
  {
    hide Pow2, Or, Shl64;
    var d, e := payload[dataPos..dataPos + j], payload[dataPos..dataPos + j + 1];
    assert e[..|e| - 1] == d;
    BytePowers();
    BeBound(d);
    Pow2Monotone(8 * j, 48);
    ShiftOr(BeValue(d), 8, payload[dataPos + j]);
  }

  method ReadTypes(payload: seq<byte>, start: nat, end: int) returns (types: seq<int>)
    ensures types == TypesFrom(payload, start, end)
  {
    types := [];
    var pos := start;
    while pos < end
      invariant types + TypesFrom(payload, pos, end) == TypesFrom(payload, start, end)
      decreases |payload| - pos, end - pos
    {
      var t, n := ReadVarint(payload, pos);
      if n == 0 {
        break;
      }
      types := types + [t];
      pos := pos + n;
    }
  }

  method ReadRecord(payload: seq<byte>) returns (res: Record)
    ensures res == RecordOf(payload)
  {
    hide VarintAt, TypesFrom, ValuesFrom;
    if |payload| == 0 {
      return Values([]);
    }
    var headerLen, n := ReadVarint(payload, 0);
    if n == 0 || headerLen > |payload| {
      return BadHeader;
    }
    var types := ReadTypes(payload, n, headerLen);
    NoTypes(payload, n, headerLen);
    if types == [] {
      return Values([]);
    }
    var vals := ReadValues(payload, types, headerLen);
    res := Values(vals);
  }

  lemma NoTypes(b: seq<byte>, pos: nat, end: int)
    ensures TypesFrom(b, pos, end) != [] ==> pos < end
  {
  }

  method ReadValue(payload: seq<byte>, t: int, dataPos: nat, sz: nat) returns (v: Value)
    requires dataPos + sz <= |payload| && (t < 12 ==> sz == Width(t))
    ensures v == ValueOf(t, payload[dataPos..dataPos + sz])
  {
    hide TwosValue;
    if 1 <= t <= 6 {
      var i := ReadInt(payload, dataPos, t);
      return Int(i);
    }
    v := if t == 7 then Float(BeValue(payload[dataPos..dataPos + 8]))
         else if t == 8 then Int(0)
         else if t == 9 then Int(1)
         else if t >= 12 && t % 2 == 0 then Blob(payload[dataPos..dataPos + sz])
         else if t >= 13 && t % 2 == 1 then Text(payload[dataPos..dataPos + sz])
         else Null;
  }

  lemma ValuesStep(b: seq<byte>, types: seq<int>, pos: nat)
    requires pos <= |b|
    ensures types == [] ==> ValuesFrom(b, types, pos) == []
    ensures types != [] && types[0] < 12 && pos + Width(types[0]) > |b| ==>
              ValuesFrom(b, types, pos) == seq(|types|, _ => Null)
    ensures types != [] && (types[0] >= 12 || pos + Width(types[0]) <= |b|) ==>
              var end := if pos + Width(types[0]) > |b| then |b| else pos + Width(types[0]);
              ValuesFrom(b, types, pos) == [ValueOf(types[0], b[pos..end])] + ValuesFrom(b, types[1..], end)
  {
    hide ValueOf;
  }

  /** The loop over the serial types: each pass fills one slot of a slice that starts out all NULL. */
  method ReadValues(payload: seq<byte>, types: seq<int>, start: nat) returns (res: seq<Value>)
    requires start <= |payload|
    ensures res == ValuesFrom(payload, types, start)
  {
    hide ValueOf, ValuesFrom, Width;
    var vals := new Value[|types|](_ => Null);
    var dataPos: nat := start;
    for i := 0 to |types|
      invariant dataPos <= |payload|
      invariant vals[..i] + ValuesFrom(payload, types[i..], dataPos) == ValuesFrom(payload, types, start)
      invariant forall k :: i <= k < |types| ==> vals[k] == Null
    {
      ValuesStep(payload, types[i..], dataPos);
      var t := types[i];
      if t < 12 && dataPos + Width(t) > |payload| {
        assert vals[..] == vals[..i] + seq(|types| - i, _ => Null);
        return vals[..];
      }
      var sz := Width(t);
      if dataPos + sz > |payload| {
        sz := |payload| - dataPos;
      }
      vals[i] := ReadValue(payload, t, dataPos, sz);
      assert types[i..][1..] == types[i + 1..];
      dataPos := dataPos + sz;
    }
    ValuesStep(payload, types[|types|..], dataPos);
    assert vals[..] == vals[..|types|];
    res := vals[..];
  }
}
