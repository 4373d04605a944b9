/** Python/PayloadCompression/Decompression.py: `Decompression.payload_decompression` and its helpers. */
module PythonDecompression {
  import opened Results
  import opened Text
  import opened ContextHash
  import opened BitPacking
  import opened Predictor
  import opened Bounds
  import SeqFacts
  import PythonCompression

  /** `str(data, encoding="ASCII")`: each byte as one character, or an error for a byte above 127. */
  function AsciiDecode(data: seq<bv8>): (r: Result<seq<Char>>)
    ensures r.Ok? <==> forall k :: 0 <= k < |data| ==> data[k] < 128
    ensures r.Err? ==> r.failure == UnicodeDecodeError
    ensures r.Ok? ==> AllBytes(r.value) && Bytes(r.value) == data
  {
    BytesOfCodes(data);
    if forall k :: 0 <= k < |data| ==> data[k] < 128 then Ok(Codes(data)) else Err(UnicodeDecodeError)
  }

  /** `leftovers_length`, clamped to the frame as Python's slice `compressed_data[1:leftovers_length]` is. */
  function LeftoversEnd(data: seq<bv8>): (n: nat)
    requires |data| > 0
    ensures 1 <= n <= |data|
  {
    Min(data[0] as int + 1, |data|)
  }

  /** How many leftovers seed the output: `get_length(leftovers_length)`. */
  function SeedLength(data: seq<bv8>): (n: nat)
    requires |data| > 0
    ensures 1 <= n <= K && (n < K <==> data[0] == 0)
  {
    if data[0] as int + 1 > K then K else data[0] as int + 1
  }

  /**
   * What `payload_decompression` returns or raises. Only the empty frame
   * raises ValueError; a short frame comes back byte for byte; a longer one
   * starts with its first two leftovers and has at most one character per
   * flag bit.
   */
  function Decompress(data: seq<bv8>): (r: Result<seq<Char>>)
    ensures r == Err(ValueError) <==> |data| == 0
    ensures r.Err? ==> r.failure in {ValueError, UnicodeDecodeError, IndexError}
    ensures r.Ok? && |data| <= K ==> r.value == Codes(data)
    ensures r.Ok? && |data| > K ==> K < |data| && K <= |r.value| <= Max(K, 8 * (|data| - LeftoversEnd(data))) && r.value[..K] == Codes(data[1 .. 1 + K])
  {
    if |data| == 0 then Err(ValueError)
    else if |data| <= K then AsciiDecode(data)
    else
      var leftovers := Codes(data[1 .. LeftoversEnd(data)]);
      if |leftovers| < SeedLength(data) then Err(IndexError)
      else
        assert 1 + K <= LeftoversEnd(data);
        SeqFacts.SlicePrefix(data, 1, LeftoversEnd(data), K);
        CodesPrefix(data[1 .. LeftoversEnd(data)], K);
        Ok(Decode(Hash, leftovers, Unpack(MsbFirst, data[LeftoversEnd(data) ..])))
  }

  /**
   * `__init_arrays`: the leftovers are the bytes after the count, the flags
   * the remaining bytes unpacked most significant bit first, the table 65536
   * spaces; seeding the output with the first leftovers fails (IndexError)
   * when there are too few of them.
   */
  method InitArrays(data: seq<bv8>)
    returns (leftovers: seq<Char>, decompressedText: seq<Char>, flagBits: seq<bool>, guessTable: array<Char>, ok: bool)
    requires |data| > 0
    ensures fresh(guessTable) && guessTable[..] == InitialTable()
    ensures leftovers == Codes(data[1 .. LeftoversEnd(data)])
    ensures flagBits == Unpack(MsbFirst, data[LeftoversEnd(data) ..])
    ensures ok <==> SeedLength(data) <= |leftovers|
    ensures ok ==> decompressedText == leftovers[..SeedLength(data)]
  {
    leftovers := Codes(data[1 .. LeftoversEnd(data)]);
    ok := SeedLength(data) <= |leftovers|;
    decompressedText := if ok then leftovers[..SeedLength(data)] else [];
    flagBits := Unpack(MsbFirst, data[LeftoversEnd(data) ..]);
    guessTable := new Char[TableSize](_ => Space);
  }

  /**
   * Lines 97-110 of `payload_decompression`: from position 2 on, a set flag
   * appends the table's guess for the context; a clear flag appends the next
   * leftover and stores it in the table; a clear flag with no leftover left
   * ends the loop.
   */
  method RebuildText(leftovers: seq<Char>, flagBits: seq<bool>, guessTable: array<Char>, decompressedText: seq<Char>)
    returns (text: seq<Char>)
    requires guessTable.Length == TableSize && K <= |leftovers|
    requires guessTable[..] == InitialTable() && decompressedText == leftovers[..K]
    modifies guessTable
    ensures text == Decode(Hash, leftovers, flagBits)
  {
    text := decompressedText;
    ghost var result := Decode(Hash, leftovers, flagBits);
    var leftoversIndex: nat := K;
    var i := K;
    while i < |flagBits|
      invariant K <= i && |text| == i && leftoversIndex <= |leftovers|
      invariant Replay(Hash, leftovers, flagBits, guessTable[..], text, leftoversIndex) == result
      decreases |flagBits| - i
    {
      var hashVal := Hash(text[i - K], text[i - 1]);
      ghost var table, before := guessTable[..], text;
      ReplayStep(Hash, leftovers, flagBits, table, before, leftoversIndex);
      if flagBits[i] {
        text := text + [guessTable[hashVal]];
        assert Replay(Hash, leftovers, flagBits, table, text, leftoversIndex) == result;
      } else if leftoversIndex < |leftovers| {
        var actualChar := leftovers[leftoversIndex];
        leftoversIndex := leftoversIndex + 1;
        text := text + [actualChar];
        guessTable[hashVal] := actualChar;
        assert guessTable[..] == table[hashVal := actualChar];
      } else {
        break;
      }
      i := i + 1;
    }
  }

  /**
   * `payload_decompression`: after the short path, replay the guess table
   * against the rebuilt text until the flags run out or a clear flag finds no
   * leftover left.
   */
  method PayloadDecompression(data: seq<bv8>) returns (r: Result<seq<Char>>)
    ensures r == Decompress(data)
  {
    if |data| == 0 {
      return Err(ValueError);
    }
    if |data| <= K {
      return AsciiDecode(data);
    }
    var leftovers, decompressedText, flagBits, guessTable, ok := InitArrays(data);
    if !ok {
      return Err(IndexError);
    }
    decompressedText := RebuildText(leftovers, flagBits, guessTable, decompressedText);
    return Ok(decompressedText);
  }

  /** A frame of three or more bytes whose count byte is 0 or 1 cannot be seeded: IndexError. */
  lemma ShortCountRejected(data: seq<bv8>)
    requires |data| > K
    ensures Decompress(data) == Err(IndexError) <==> data[0] < 2
  {
  }

  /**
   * Every frame the encoder produces decodes to the string it came from: the
   * long form through the lock-step replay, the short form as ASCII.
   */
  lemma RoundTrip(s: seq<Char>)
    requires PythonCompression.Compress(s).Ok?
    ensures Decompress(PythonCompression.Compress(s).value) == Ok(s)
  {
    var frame := PythonCompression.Compress(s).value;
    if |s| > K {
      var t := Scan(Hash, s, |s|);
      LeftoversAreMisses(Hash, s, |s|);
      DecodeInvertsScan(Hash, s, Unpack(MsbFirst, Pack(MsbFirst, t.flags))) by {
        UnpackPack(MsbFirst, t.flags);
      }
      assert LeftoversEnd(frame) == 1 + |t.leftovers|;
    }
  }
}
