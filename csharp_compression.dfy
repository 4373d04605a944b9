/** PredictorPayloadCompression/PayloadCompression/Compression.cs: `Compression.PayloadCompression` and its helpers. */
module CSharpCompression {
  import opened Results
  import opened Text
  import opened ContextHash
  import opened BitPacking
  import opened Predictor
  import SeqFacts

  /** C#'s unchecked `(byte)` cast: the low eight bits. */
  function WrapByte(n: int): (b: bv8)
    ensures b as int == n % 256
  {
    ByteValue(n % 256);
    (n % 256) as bv8
  }

  /** `[(byte)count] ++ (byte)c for each leftover ++ packed bits`. */
  function Frame(leftovers: seq<Char>, bits: seq<bool>): (frame: seq<bv8>)
    ensures |frame| == 1 + |leftovers| + (|bits| + 7) / 8
    ensures frame[0] as int == |leftovers| % 256
    ensures forall j :: 0 <= j < |leftovers| ==> frame[1 + j] as int == leftovers[j] % 256
    ensures frame[1 + |leftovers| ..] == Pack(LsbFirst, bits)
  {
    var codes := seq(|leftovers|, j requires 0 <= j < |leftovers| => WrapByte(leftovers[j]));
    SeqFacts.Middle([WrapByte(|leftovers|)], codes, Pack(LsbFirst, bits));
    [WrapByte(|leftovers|)] + codes + Pack(LsbFirst, bits)
  }

  /** With fewer than 256 leftovers, all below U+0100, no cast wraps: the frame reads back as the count, the leftovers and the packed bits. */
  lemma FrameFits(leftovers: seq<Char>, bits: seq<bool>)
    requires |leftovers| < 256 && AllBytes(leftovers)
    ensures var frame, n := Frame(leftovers, bits), |leftovers|;
      && frame[0] as int == n
      && Codes(frame[1 .. 1 + n]) == leftovers
      && frame[1 + n ..] == Pack(LsbFirst, bits)
  {
    var frame, n := Frame(leftovers, bits), |leftovers|;
    var codes := frame[1 .. 1 + n];
    assert n % 256 == n;
    forall j | 0 <= j < n
      ensures codes[j] as int == leftovers[j]
    {
      assert leftovers[j] % 256 == leftovers[j];
      assert codes[j] == frame[1 + j];
    }
  }

  /** The frame of three leftovers and an all-clear flag byte, byte by byte. */
  lemma ThreeLeftoverFrame(leftovers: seq<Char>, bits: seq<bool>)
    requires |leftovers| == 3 && Pack(LsbFirst, bits) == [0]
    ensures Frame(leftovers, bits) == [WrapByte(3), WrapByte(leftovers[0]), WrapByte(leftovers[1]), WrapByte(leftovers[2]), 0]
  {
  }

  /** The `(byte)` cast of `n` is the byte whose value is `n` modulo 256. */
  lemma WrapByteIs(n: int, b: bv8)
    requires b as int == n % 256
    ensures WrapByte(n) == b
  {
  }

  /**
   * What `PayloadCompression` returns or throws: only the empty and the
   * one-character string fail; every other string gets a frame, never
   * longer than its header, one byte per character and the bitmap.
   */
  function Compress(s: seq<Char16>): (r: Result<seq<bv8>>)
    ensures r.Err? <==> |s| < K
    ensures |s| == 0 ==> r == Err(ArgumentException)
    ensures |s| == 1 ==> r == Err(IndexOutOfRangeException)
    ensures r.Ok? ==> |r.value| <= 1 + |s| + (|s| + 7) / 8
  {
    if |s| == 0 then Err(ArgumentException)
    else if |s| == 1 then Err(IndexOutOfRangeException)
    else
      var t := Scan(StepwiseHash, s, |s|);
      LeftoversAreMisses(StepwiseHash, s, |s|);
      Ok(Frame(t.leftovers, t.flags))
  }

  /**
   * `PayloadCompression` with checked casts, as evidently intended: a count
   * above 255 or a leftover above U+00FF throws OverflowException (what C#'s
   * `checked((byte)n)` throws) instead of being written modulo 256.
   */
  function CheckedCompress(s: seq<Char16>): (r: Result<seq<bv8>>)
    ensures r.Ok? ==> r == Compress(s)
    ensures Compress(s).Ok? && r.Err? ==> r.failure == OverflowException
    ensures r.Ok? <==> (Compress(s).Ok? &&
      var leftovers := Scan(StepwiseHash, s, |s|).leftovers; |leftovers| <= 255 && AllBytes(leftovers))
  {
    if |s| < K then Compress(s)
    else
      var t := Scan(StepwiseHash, s, |s|);
      if |t.leftovers| > 255 || !AllBytes(t.leftovers) then Err(OverflowException)
      else Compress(s)
  }

  /** `ConvertToByteArray`: ORs each set bit's mask `1 << bitIndex` (`Mask(LsbFirst, bitIndex)`) into byte `byteIndex`. */
  method ConvertToByteArray(bitArray: seq<bool>) returns (bytes: seq<bv8>)
    ensures bytes == Pack(LsbFirst, bitArray)
  {
    var n := (|bitArray| + 7) / 8;
    var arr2 := new bv8[n](_ => 0);
    var bitIndex, byteIndex := 0, 0;
    for i := 0 to |bitArray|
      invariant 0 <= bitIndex < 8 && i == 8 * byteIndex + bitIndex
      invariant arr2[..] == OrIn(LsbFirst, bitArray, i, n)
    {
      assert i / 8 == byteIndex && i % 8 == bitIndex;
      if bitArray[i] {
        arr2[byteIndex] := arr2[byteIndex] | Mask(LsbFirst, bitIndex);
      }
      bitIndex := bitIndex + 1;
      if bitIndex == 8 {
        bitIndex := 0;
        byteIndex := byteIndex + 1;
      }
    }
    OrInPacks(LsbFirst, bitArray);
    bytes := arr2[..];
  }

  /** Lines 74-85 of `PayloadCompression`: the wrapped count, the wrapped leftovers, the packed bits. */
  method AssembleFrame(leftovers: seq<Char16>, bits: seq<bool>) returns (result: seq<bv8>)
    ensures result == Frame(leftovers, bits)
  {
    var byteArray := ConvertToByteArray(bits);
    ghost var codes := seq(|leftovers|, k requires 0 <= k < |leftovers| => WrapByte(leftovers[k]));
    result := [];
    result := result + [WrapByte(|leftovers|)];
    for j := 0 to |leftovers|
      invariant result == [WrapByte(|leftovers|)] + codes[..j]
    {
      result := result + [WrapByte(leftovers[j])];
    }
    for j := 0 to |byteArray|
      invariant result == [WrapByte(|leftovers|)] + codes + byteArray[..j]
    {
      result := result + [byteArray[j]];
    }
    assert byteArray[..|byteArray|] == byteArray;
  }

  /** Lines 58-61 of `PayloadCompression`: every slot of the guess table starts as a space. */
  method FillWithSpaces(guessTable: array<Char16>)
    requires guessTable.Length == TableSize
    modifies guessTable
    ensures guessTable[..] == InitialTable()
  {
    for c := 0 to TableSize
      invariant forall j :: 0 <= j < c ==> guessTable[j] == Space
    {
      guessTable[c] := Space;
    }
  }

  /** One pass of the scan loop (lines 64-70 of `PayloadCompression`): predict `s[i]` from its two-character context. */
  method ScanPosition(s: seq<Char16>, i: nat, bitArray: array<bool>, guessTable: array<Char16>, leftovers: seq<Char16>)
    returns (leftovers': seq<Char16>)
    requires K <= i < |s| == bitArray.Length && guessTable.Length == TableSize
    requires bitArray[..i] == Scan(StepwiseHash, s, i).flags && !bitArray[i]
    requires leftovers == Scan(StepwiseHash, s, i).leftovers
    requires guessTable[..] == Scan(StepwiseHash, s, i).table
    modifies bitArray, guessTable
    ensures bitArray[..i + 1] == Scan(StepwiseHash, s, i + 1).flags
    ensures bitArray[i + 1..] == old(bitArray[i + 1..])
    ensures leftovers' == Scan(StepwiseHash, s, i + 1).leftovers
    ensures guessTable[..] == Scan(StepwiseHash, s, i + 1).table
  {
    var hash := StepwiseHash(s[i - K], s[i - 1]);
    ScanNext(StepwiseHash, s, i);
    leftovers' := leftovers;
    if guessTable[hash] == s[i] {
      bitArray[i] := true;
    } else {
      leftovers' := leftovers + [s[i]];
      guessTable[hash] := s[i];
    }
    assert bitArray[..i + 1] == bitArray[..i] + [bitArray[i]];
  }

  /** Lines 63-71 of `PayloadCompression`: the scan loop over positions 2 .. |s|-1. */
  method ScanLoop(s: seq<Char16>, bitArray: array<bool>, guessTable: array<Char16>, leftovers: seq<Char16>)
    returns (leftovers': seq<Char16>)
    requires K <= |s| == bitArray.Length && guessTable.Length == TableSize
    requires forall j :: 0 <= j < |s| ==> !bitArray[j]
    requires leftovers == s[..K] && guessTable[..] == InitialTable()
    modifies bitArray, guessTable
    ensures bitArray[..] == Scan(StepwiseHash, s, |s|).flags
    ensures leftovers' == Scan(StepwiseHash, s, |s|).leftovers
    ensures guessTable[..] == Scan(StepwiseHash, s, |s|).table
  {
    leftovers' := leftovers;
    for i := K to |s|
      invariant bitArray[..i] == Scan(StepwiseHash, s, i).flags
      invariant forall j :: i <= j < |s| ==> !bitArray[j]
      invariant leftovers' == Scan(StepwiseHash, s, i).leftovers
      invariant guessTable[..] == Scan(StepwiseHash, s, i).table
    {
      leftovers' := ScanPosition(s, i, bitArray, guessTable, leftovers');
    }
    assert bitArray[..] == bitArray[..|s|];
  }

  /**
   * `PayloadCompression`: seeds the leftovers with S[0] and S[1] (throwing
   * for a one-character string), fills the table with spaces, scans, then
   * writes the wrapped count, the wrapped leftovers and the packed bits.
   */
  method PayloadCompression(s: seq<Char16>) returns (r: Result<seq<bv8>>)
    ensures r == Compress(s)
  {
    var bitArray := new bool[|s|](_ => false);
    var leftovers: seq<Char16> := [];
    var guessTable := new Char16[TableSize](_ => 0);
    if |s| == 0 {
      return Err(ArgumentException);
    }
    leftovers := leftovers + [s[0]];
    if |s| < 2 {
      return Err(IndexOutOfRangeException);
    }
    leftovers := leftovers + [s[1]];
    FillWithSpaces(guessTable);
    assert leftovers == s[..K];
    leftovers := ScanLoop(s, bitArray, guessTable, leftovers);
    var result := AssembleFrame(leftovers, bitArray[..]);
    return Ok(result);
  }

  /** No short path: a two-character string still gets a full frame, {2, c0, c1, 0}. */
  lemma TwoCharFrame(a: Char16, b: Char16)
    ensures var r := Compress([a, b]);
      && r.Ok? && |r.value| == 4
      && r.value[0] as int == 2 && r.value[1] as int == a % 256 && r.value[2] as int == b % 256
      && r.value[3] == 0
  {
    PackByteClear(LsbFirst, Chunk([false, false], 0));
    assert Scan(StepwiseHash, [a, b], K) == Trace(InitialTable(), [false, false], [a, b]);
    assert 2 % 256 == 2;
  }

  /**
   * "aaaabbbb" compresses to six leftovers "aaabbb" and the flag byte
   * 0b10001000: the frame {6, 97, 97, 97, 98, 98, 98, 0b10001000}.
   */
  lemma CompressesAaaabbbb()
    ensures var flags := [false, false, false, true, false, false, false, true];
      && Compress([97, 97, 97, 97, 98, 98, 98, 98]) == Ok(Frame([97, 97, 97, 98, 98, 98], flags))
      && Pack(LsbFirst, flags) == [0x88]
  {
    AaaabbbbContextsDiffer();
    ScanAaaabbbb(StepwiseHash);
    PackAaaabbbbFlags();
  }
}
