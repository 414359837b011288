/** The decoder's loops: a cursor into the input, a growing output, a shifting flag byte. */
module Lznt1Decoder {
  import opened Bits
  import opened Lz77
  import opened Lznt1

  method GetDisplacement(offset: nat) returns (result: nat)
    ensures result == Displacement(offset)
  {
    result := 0;
    var x := offset;
    while x >= 0x10
      invariant result + Displacement(x) == Displacement(offset)
    {
      x := x / 2;
      result := result + 1;
    }
  }

  /** One reference at input position i. */
  method CopyReference(pointer: nat, out: seq<byte>, base: nat) returns (res: Option<seq<byte>>)
    requires base <= |out|
    ensures res == Referred(pointer, out, base)
  {
    var displacement := GetDisplacement(Uint16(|out| - base - 1));
    assert displacement == SplitAt(|out| - base);
    var symbolOffset := OffsetField(pointer, displacement) + 1;
    var symbolLength := LengthField(pointer, displacement) + 2;
    var startOffset := |out| - symbolOffset;
    var grown := out;
    for j := 0 to symbolLength + 1
      invariant |grown| == |out| + j
      invariant j > 0 ==> startOffset >= 0
      invariant grown == Copied(out, symbolOffset, j)
    {
      var idx := startOffset + j;
      if idx < 0 || idx >= |grown| {
        return None;
      }
      grown := grown + [grown[idx]];
    }
    res := Some(grown);
  }

  /** One symbol at input position start. */
  method DecodeSymbol(input: seq<byte>, start: nat, isRef: bool, sofar: seq<byte>, base: nat)
    returns (i: nat, out: seq<byte>, failed: Option<Outcome>)
    requires start <= |input| && base <= |sofar|
    ensures start <= i <= |input| && base <= |out|
    ensures SymbolStep(input[start..], isRef, sofar, base) ==
      if failed.Some? then StepFailed(failed.value) else Moved(input[i..], i - start, out)
  {
    hide Referred, Word16;
    i, out, failed := start, sofar, None;
    if !isRef {
      if i >= |input| {
        return i, out, Some(Panic);
      }
      assert input[i..][1..] == input[i + 1..];
      out := out + [input[i]];
      i := i + 1;
    } else {
      if i + 1 >= |input| {
        return i, out, Some(Panic);
      }
      var pointer := Word16(input, i);
      SuffixWord(input, i);
      assert input[i..][2..] == input[i + 2..];
      var grown := CopyReference(pointer, out, base);
      if grown == None {
        return i, out, Some(ShiftTooLarge(out));
      }
      i := i + 2;
      out := grown.value;
    }
  }

  /** The symbols under one flag byte, from input position start. */
  method DecodeSymbols(input: seq<byte>, start: nat, blockEnd: nat, flags: nat, sofar: seq<byte>, base: nat)
    returns (i: nat, out: seq<byte>, failed: Option<Outcome>)
    requires start <= |input| && base <= |sofar|
    ensures start <= i <= |input| && base <= |out|
    ensures Symbols(input[start..], blockEnd - start, flags, 0, sofar, base) ==
      if failed.Some? then Failed(failed.value) else Going(input[i..], blockEnd - i, out)
  {
    hide SymbolStep, Symbols;
    i, out, failed := start, sofar, None;
    var header := flags;
    var maskIdx := 0;
    while maskIdx < 8 && i < blockEnd
      invariant maskIdx <= 8 && start <= i <= |input| && base <= |out| && failed == None
      invariant Symbols(input[i..], blockEnd - i, header, maskIdx, out, base) ==
                Symbols(input[start..], blockEnd - start, flags, 0, sofar, base)
    {
      SymbolsUnfold(input[i..], blockEnd - i, header, maskIdx, out, base);
      i, out, failed := DecodeSymbol(input, i, header % 2 == 1, out, base);
      if failed.Some? {
        return;
      }
      header := header / 2;
      maskIdx := maskIdx + 1;
    }
    SymbolsUnfold(input[i..], blockEnd - i, header, maskIdx, out, base);
  }

  /** One symbol under a flag byte, then the others. */
  lemma SymbolsUnfold(s: seq<byte>, left: int, header: nat, maskIdx: nat, out: seq<byte>, base: nat)
    requires base <= |out| && maskIdx <= 8
    ensures Symbols(s, left, header, maskIdx, out, base) ==
      if maskIdx == 8 || left <= 0 then Going(s, left, out)
      else
        match SymbolStep(s, header % 2 == 1, out, base)
        case StepFailed(f) => Failed(f)
        case Moved(rest, used, out') => Symbols(rest, left - used, header / 2, maskIdx + 1, out', base)
  {
    hide SymbolStep;
  }

  lemma SuffixWord(s: seq<byte>, i: nat)
    requires i + 1 < |s|
    ensures Word16(s[i..], 0) == Word16(s, i)
  {
  }

  /** A compressed chunk's flag groups, from input position start. */
  method DecodeGroups(input: seq<byte>, start: nat, blockEnd: nat, sofar: seq<byte>)
    returns (i: nat, out: seq<byte>, failed: Option<Outcome>)
    requires start <= |input|
    ensures start <= i <= |input|
    ensures Groups(input[start..], blockEnd - start, sofar, |sofar|) ==
      if failed.Some? then Failed(failed.value) else Going(input[i..], blockEnd - i, out)
  {
    hide Symbols;
    i, out, failed := start, sofar, None;
    while i < blockEnd
      invariant start <= i <= |input| && |sofar| <= |out| && failed == None
      invariant Groups(input[i..], blockEnd - i, out, |sofar|) == Groups(input[start..], blockEnd - start, sofar, |sofar|)
      decreases |input| - i
    {
      if i >= |input| {
        return i, out, Some(Panic);
      }
      var header: nat := input[i];
      assert input[i..][1..] == input[i + 1..];
      i := i + 1;
      i, out, failed := DecodeSymbols(input, i, blockEnd, header, out, |sofar|);
      if failed.Some? {
        return;
      }
    }
  }

  /** spare is what the input's buffer holds behind it: Go slices up to the capacity, not the length. */
  method Decompress(input: seq<byte>, spare: seq<byte>) returns (res: Outcome)
    ensures res == Decoded(input, spare, [])
  {
    hide Groups, Word16;
    var i, out: seq<byte> := 0, [];
    while |input| >= i + 2
      invariant i <= |input|
      invariant Decoded(input[i..], spare, out) == Decoded(input, spare, [])
      decreases |input| - i
    {
      var blockOffset := i;
      var header := Word16(input, i);
      SuffixWord(input, i);
      assert input[i..][2..] == input[i + 2..];
      i := i + 2;
      var size := header % 0x1000;
      var blockEnd := blockOffset + size + 3;
      if size == 0 {
        return Ok(out);
      }
      if |input| < i + size {
        return BlockTooSmall;
      }
      if header >= 0x8000 {
        var failed;
        i, out, failed := DecodeGroups(input, i, blockEnd, out);
        if failed.Some? {
          return failed.value;
        }
      } else {
        if |input| == i + size {
          if |spare| == 0 {
            return Panic;
          }
          assert input[i..][..size] == input[i..];
          return Ok(out + input[i..] + spare[..1]);
        }
        assert input[i..][size + 1..] == input[i + size + 1..];
        assert input[i..][..size + 1] == input[i..i + size + 1];
        out := out + input[i..i + size + 1];
        i := i + size + 1;
      }
    }
    res := Ok(out);
  }
}
