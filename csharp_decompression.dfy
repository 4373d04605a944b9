/** PredictorPayloadCompression/PayloadDecompression/Decompression.cs: `Decompression.PayloadDecompression` and its helpers. */
module CSharpDecompression {
  import opened Results
  import opened Text
  import opened ContextHash
  import opened BitPacking
  import opened Predictor
  import opened Bounds
  import SeqFacts
  import CSharpCompression

  /**
   * What `PayloadDecompression` returns or throws: reading the count of an
   * empty frame is out of range; a count larger than the rest of the frame
   * makes the flag buffer's length negative (`new byte[-n]` overflows);
   * fewer than two leftovers cannot seed the output (the list indexer is out
   * of range). Otherwise the flags are the bytes after the leftovers,
   * least significant bit first, as `new BitArray(byte[])` reads them.
   */
  function Decompress(data: seq<bv8>): (r: Result<seq<Char>>)
    ensures r == Err(IndexOutOfRangeException) <==> |data| == 0
    ensures |data| > 0 ==> (r == Err(OverflowException) <==> |data| < 1 + data[0] as int)
    ensures r.Ok? ==> 1 + K <= |data| && K <= |r.value| <= Max(K, 8 * (|data| - 1 - data[0] as int)) && r.value[..K] == Codes(data[1 .. 1 + K])
  {
    if |data| == 0 then Err(IndexOutOfRangeException)
    else
      var count := data[0] as int;
      if |data| < 1 + count then Err(OverflowException)
      else if count < K then Err(ArgumentOutOfRangeException)
      else
        var leftovers := Codes(data[1 .. 1 + count]);
        SeqFacts.SlicePrefix(data, 1, 1 + count, K);
        CodesPrefix(data[1 .. 1 + count], K);
        Ok(Decode(StepwiseHash, leftovers, Unpack(LsbFirst, data[1 + count ..])))
  }

  /**
   * `InitializeArrays`: every leftover byte becomes a character, every slot
   * of the table a space, and the output starts as the first two leftovers;
   * `ok` is false where the C# code throws because there are fewer than two.
   */
  method InitializeArrays(guessTable: array<Char16>, compressedData: seq<bv8>)
    returns (leftovers: seq<Char16>, decompressedText: seq<Char16>, ok: bool)
    requires guessTable.Length == TableSize
    modifies guessTable
    ensures leftovers == Codes(compressedData)
    ensures guessTable[..] == InitialTable()
    ensures ok <==> K <= |compressedData|
    ensures ok ==> decompressedText == leftovers[..K]
  {
    leftovers := [];
    for i := 0 to |compressedData|
      invariant leftovers == Codes(compressedData[..i])
    {
      assert compressedData[..i + 1] == compressedData[..i] + [compressedData[i]];
      leftovers := leftovers + [compressedData[i] as int];
    }
    assert compressedData[..|compressedData|] == compressedData;
    for i := 0 to TableSize
      invariant forall j :: 0 <= j < i ==> guessTable[j] == Space
    {
      guessTable[i] := Space;
    }
    decompressedText := [];
    for i := 0 to K
      invariant i <= |leftovers| && decompressedText == leftovers[..i]
    {
      if i >= |leftovers| {
        return leftovers, decompressedText, false;
      }
      decompressedText := decompressedText + [leftovers[i]];
    }
    ok := true;
  }

  /**
   * Lines 53-71 of `PayloadDecompression`: from position 2 on, a set flag
   * appends the table's guess for the context; a clear flag appends the next
   * leftover and stores it in the table; a clear flag with no leftover left
   * ends the loop.
   */
  method RebuildText(leftovers: seq<Char16>, flagBits: seq<bool>, guessTable: array<Char16>, decompressedText: seq<Char16>)
    returns (text: seq<Char16>)
    requires guessTable.Length == TableSize && K <= |leftovers|
    requires guessTable[..] == InitialTable() && decompressedText == leftovers[..K]
    modifies guessTable
    ensures text == Decode(StepwiseHash, leftovers, flagBits)
  {
    ghost var result := Decode(StepwiseHash, leftovers, flagBits);
    text := decompressedText;
    var leftoversIndex: nat := K;
    var i := K;
    while i < |flagBits|
      invariant K <= i && |text| == i && leftoversIndex <= |leftovers|
      invariant Replay(StepwiseHash, leftovers, flagBits, guessTable[..], text, leftoversIndex) == result
      decreases |flagBits| - i
    {
      var hash := StepwiseHash(text[i - K], text[i - 1]);
      ghost var table, before := guessTable[..], text;
      ReplayStep(StepwiseHash, leftovers, flagBits, table, before, leftoversIndex);
      if flagBits[i] {
        text := text + [guessTable[hash]];
        assert Replay(StepwiseHash, leftovers, flagBits, table, text, leftoversIndex) == result;
      } else if leftoversIndex < |leftovers| {
        var actualChar := leftovers[leftoversIndex];
        leftoversIndex := leftoversIndex + 1;
        text := text + [actualChar];
        guessTable[hash] := actualChar;
        assert guessTable[..] == table[hash := actualChar];
      } else {
        break;
      }
      i := i + 1;
    }
  }

  /**
   * `PayloadDecompression`: splits the frame at the count, unpacks the flags,
   * seeds the output and table, then rebuilds one character per flag from
   * position 2 on, stopping at a clear flag once the leftovers run out.
   */
  method PayloadDecompression(compressedData: seq<bv8>) returns (r: Result<seq<Char>>)
    ensures r == Decompress(compressedData)
  {
    if |compressedData| == 0 {
      return Err(IndexOutOfRangeException);
    }
    var leftoversLength := compressedData[0] as int;
    var guessTable := new Char16[TableSize](_ => 0);
    var flagBitsStartIndex := 1 + leftoversLength;
    var flagBitsLength := |compressedData| - flagBitsStartIndex;
    if flagBitsLength < 0 {
      return Err(OverflowException);
    }
    var flagBits := Unpack(LsbFirst, compressedData[flagBitsStartIndex ..]);
    var leftovers, decompressedText, ok := InitializeArrays(guessTable, compressedData[1 .. 1 + leftoversLength]);
    if !ok {
      return Err(ArgumentOutOfRangeException);
    }
    assert Decompress(compressedData) == Ok(Decode(StepwiseHash, leftovers, flagBits));
    decompressedText := RebuildText(leftovers, flagBits, guessTable, decompressedText);
    return Ok(decompressedText);
  }

  /**
   * A frame whose count and leftovers fit in a byte parses back into those
   * leftovers and the bitmap, padded to whole bytes.
   */
  lemma DecompressFrame(leftovers: seq<Char>, bits: seq<bool>)
    requires K <= |leftovers| < 256 && AllBytes(leftovers)
    ensures Decompress(CSharpCompression.Frame(leftovers, bits)) ==
      Ok(Decode(StepwiseHash, leftovers, Unpack(LsbFirst, Pack(LsbFirst, bits))))
  {
    CSharpCompression.FrameFits(leftovers, bits);
  }

  /**
   * A frame the C# encoder produces decodes to the string it came from when
   * its count and its leftovers fit in a byte, so that neither cast wraps.
   */
  lemma RoundTrip(s: seq<Char16>)
    requires |s| >= K
    requires var t := Scan(StepwiseHash, s, |s|); |t.leftovers| < 256 && AllBytes(t.leftovers)
    ensures CSharpCompression.Compress(s).Ok?
    ensures Decompress(CSharpCompression.Compress(s).value) == Ok(s)
  {
    var t := Scan(StepwiseHash, s, |s|);
    LeftoversAreMisses(StepwiseHash, s, |s|);
    DecompressFrame(t.leftovers, t.flags);
    UnpackPack(LsbFirst, t.flags);
    DecodeInvertsScan(StepwiseHash, s, Unpack(LsbFirst, Pack(LsbFirst, t.flags)));
  }

  /**
   * A frame whose leftover count wraps to 0 or 1 (256 leftovers, 257, 512,
   * ...) is rejected by the decoder, which cannot seed its output.
   */
  lemma WrappedCountRejected(leftovers: seq<Char>, bits: seq<bool>)
    requires |leftovers| % 256 < K
    ensures CSharpCompression.Frame(leftovers, bits)[0] as int < K
    ensures Decompress(CSharpCompression.Frame(leftovers, bits)) == Err(ArgumentOutOfRangeException)
  {
  }

  /** 256 distinct characters from U+0100 on: none is a space, none repeats. */
  function Distinct256(): (s: seq<Char16>)
    ensures |s| == 256 && DistinctNonSpace(s)
  {
    seq(256, j requires 0 <= j < 256 => 0x100 + j)
  }

  /**
   * As written, the C# encoder stores the leftover count with an unchecked
   * `(byte)` cast: a string of 256 (or 257, 512, ...) distinct characters
   * other than a space has that many leftovers, its count is written as 0
   * (or 1), and the decoder rejects its own encoder's frame instead of
   * returning the string.
   */
  lemma DistinctCountWraps(s: seq<Char16>)
    requires K <= |s| && |s| % 256 < K && DistinctNonSpace(s)
    ensures CSharpCompression.Compress(s).Ok?
    ensures Decompress(CSharpCompression.Compress(s).value) == Err(ArgumentOutOfRangeException)
  {
    var t := Scan(StepwiseHash, s, |s|);
    DistinctAllMiss(StepwiseHash, s, |s|);
    assert |t.leftovers| == |s|;
    WrappedCountRejected(t.leftovers, t.flags);
  }

  /** The smallest such string: U+0100 .. U+01FF, whose frame starts with a count of 0. */
  lemma CountWraps()
    ensures CSharpCompression.Compress(Distinct256()).Ok?
    ensures Decompress(CSharpCompression.Compress(Distinct256()).value) == Err(ArgumentOutOfRangeException)
  {
    DistinctCountWraps(Distinct256());
  }

  /** With checked casts, every frame the encoder produces decodes to the string it came from. */
  lemma CheckedRoundTrip(s: seq<Char16>)
    ensures CSharpCompression.CheckedCompress(s).Ok? ==>
      Decompress(CSharpCompression.CheckedCompress(s).value) == Ok(s)
  {
    if CSharpCompression.CheckedCompress(s).Ok? {
      RoundTrip(s);
    }
  }

  /** The checked encoder refuses the strings the unchecked one wraps: more than 255 distinct characters other than a space. */
  lemma CheckedRefusesWrap(s: seq<Char16>)
    requires 255 < |s| && DistinctNonSpace(s)
    ensures CSharpCompression.CheckedCompress(s) == Err(OverflowException)
  {
    var t := Scan(StepwiseHash, s, |s|);
    DistinctAllMiss(StepwiseHash, s, |s|);
    assert |t.leftovers| == |s|;
  }

  /**
   * The `(byte)` cast on each leftover wraps as well: "abĀ" (U+0100 has no
   * prediction, so it is a leftover) is written with a zero byte for it ...
   */
  lemma CharWrapsFrame()
    ensures CSharpCompression.Compress([97, 98, 0x100]) == Ok([3, 97, 98, 0, 0])
  {
    var s: seq<Char16> := [97, 98, 0x100];
    var t := Scan(StepwiseHash, s, 3);
    ThirdCharMisses(StepwiseHash, s);
    PackByteClear(LsbFirst, Chunk(t.flags, 0));
    assert Pack(LsbFirst, t.flags) == [0];
    CSharpCompression.ThreeLeftoverFrame(s, t.flags);
    CastsOfAbWide();
  }

  /** The `(byte)` casts in that frame: the count 3, 'a', 'b', and U+0100, which becomes 0. */
  lemma CastsOfAbWide()
    ensures CSharpCompression.WrapByte(3) == 3 && CSharpCompression.WrapByte(97) == 97
    ensures CSharpCompression.WrapByte(98) == 98 && CSharpCompression.WrapByte(0x100) == 0
  {
    CSharpCompression.WrapByteIs(3, 3);
    CSharpCompression.WrapByteIs(97, 97);
    CSharpCompression.WrapByteIs(98, 98);
    CSharpCompression.WrapByteIs(0x100, 0);
  }

  /** A third character other than ' ' meets a fresh slot, so it misses. */
  lemma ThirdCharMisses(hash: Hasher, s: seq<Char>)
    requires |s| == 3 && s[2] != Space
    ensures Scan(hash, s, 3).leftovers == s && Scan(hash, s, 3).flags == [false, false, false]
  {
    assert s[..2] + [s[2]] == s;
  }

  /** ... and that frame decodes to "ab" followed by U+0000. */
  lemma CharWraps()
    ensures CSharpCompression.Compress([97, 98, 0x100]).Ok?
    ensures Decompress(CSharpCompression.Compress([97, 98, 0x100]).value) == Ok([97, 98, 0])
  {
    CharWrapsFrame();
    var frame: seq<bv8> := [3, 97, 98, 0, 0];
    AllMissFrame(frame);
    ThreeLeftovers(97, 98, 0, 0);
  }

  /** The leftovers of a frame with a count of 3 and one flag byte read back as their three values. */
  lemma ThreeLeftovers(x: bv8, y: bv8, z: bv8, flags: bv8)
    ensures Codes([3, x, y, z, flags][1 .. 4]) == [x as int, y as int, z as int]
  {
    assert [3, x, y, z, flags][1 .. 4] == [x, y, z];
  }

  /** A frame whose flag bytes are all zero, with a flag for every leftover, decodes to its leftovers. */
  lemma AllMissFrame(data: seq<bv8>)
    requires 0 < |data| && K <= data[0] as int && 1 + data[0] as int <= |data|
    requires data[0] as int <= 8 * (|data| - 1 - data[0] as int)
    requires forall j :: 1 + data[0] as int <= j < |data| ==> data[j] == 0
    ensures Decompress(data) == Ok(Codes(data[1 .. 1 + data[0] as int]))
  {
    var count := data[0] as int;
    var leftovers := Codes(data[1 .. 1 + count]);
    var flags := Unpack(LsbFirst, data[1 + count ..]);
    ZeroFlagsClear(data[1 + count ..]);
    ReplayAllMisses(StepwiseHash, leftovers, flags, InitialTable(), K);
  }

  /** Zero bytes unpack to clear flags. */
  lemma ZeroFlagsClear(bytes: seq<bv8>)
    requires forall j :: 0 <= j < |bytes| ==> bytes[j] == 0
    ensures forall i :: 0 <= i < 8 * |bytes| ==> !Unpack(LsbFirst, bytes)[i]
  {
  }

  /** The checked encoder refuses that string. */
  lemma CheckedRefusesWideChar()
    ensures CSharpCompression.CheckedCompress([97, 98, 0x100]) == Err(OverflowException)
  {
    var s: seq<Char16> := [97, 98, 0x100];
    ThirdCharMisses(StepwiseHash, s);
  }

  /** The frame of "aaaabbbb" decodes to "aaaabbbb". */
  lemma DecompressesAaaabbbb()
    ensures CSharpCompression.Compress([97, 97, 97, 97, 98, 98, 98, 98]).Ok?
    ensures Decompress(CSharpCompression.Compress([97, 97, 97, 97, 98, 98, 98, 98]).value) == Ok([97, 97, 97, 97, 98, 98, 98, 98])
  {
    AaaabbbbContextsDiffer();
    ScanAaaabbbb(StepwiseHash);
    RoundTrip([97, 97, 97, 97, 98, 98, 98, 98]);
  }
}
