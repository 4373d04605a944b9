/** Python/PayloadCompression/Compression.py: `Compression.payload_compression` and its helpers. */
module PythonCompression {
  import opened Results
  import opened Text
  import opened ContextHash
  import opened BitPacking
  import opened Predictor
  import SeqFacts

  /** `bytearray(S, encoding="ASCII")`: each character as one byte, or an error for a non-ASCII one. */
  function AsciiEncode(s: seq<Char>): (r: Result<seq<bv8>>)
    ensures r.Ok? <==> forall k :: 0 <= k < |s| ==> s[k] < 128
    ensures r.Err? ==> r.failure == UnicodeEncodeError
    ensures r.Ok? ==> Codes(r.value) == s
  {
    if forall k :: 0 <= k < |s| ==> s[k] < 128 then Ok(Bytes(s))
    else Err(UnicodeEncodeError)
  }

  /**
   * `__merge_bit_array_leftovers`: the leftover count, the leftovers' codes and
   * the bitmap's bytes. `bytearray` refuses a value above 255, so a count
   * above 255 or a leftover with a code above 255 raises ValueError.
   */
  function MergeBitArrayLeftovers(leftovers: seq<Char>, bits: seq<bool>): (r: Result<seq<bv8>>)
    ensures r.Ok? <==> |leftovers| <= 255 && AllBytes(leftovers)
    ensures r.Err? ==> r.failure == ValueError
    ensures r.Ok? ==> && |r.value| == 1 + |leftovers| + (|bits| + 7) / 8
                      && r.value[0] as int == |leftovers|
                      && Codes(r.value[1 .. 1 + |leftovers|]) == leftovers
                      && r.value[1 + |leftovers| ..] == Pack(MsbFirst, bits)
  {
    if |leftovers| > 255 then Err(ValueError)
    else if !AllBytes(leftovers) then Err(ValueError)
    else
      var count := |leftovers| as bv8;
      var frame := [count] + Bytes(leftovers) + Pack(MsbFirst, bits);
      ByteValue(|leftovers|);
      SeqFacts.Middle([count], Bytes(leftovers), Pack(MsbFirst, bits));
      Ok(frame)
  }

  /**
   * What `payload_compression` returns or raises. The empty string raises
   * ValueError, a short string can only fail to encode as ASCII, and a
   * longer one can only overflow the `bytearray`. A frame is never longer
   * than its header, one byte per character and the bitmap.
   */
  function Compress(s: seq<Char>): (r: Result<seq<bv8>>)
    ensures |s| == 0 ==> r == Err(ValueError)
    ensures r.Err? ==> r.failure == if 0 < |s| <= K then UnicodeEncodeError else ValueError
    ensures r.Ok? && |s| <= K ==> |r.value| == |s|
    ensures r.Ok? ==> |r.value| <= 1 + |s| + (|s| + 7) / 8
  {
    if |s| == 0 then Err(ValueError)
    else if |s| <= K then AsciiEncode(s)
    else
      var t := Scan(Hash, s, |s|);
      LeftoversAreMisses(Hash, s, |s|);
      MergeBitArrayLeftovers(t.leftovers, t.flags)
  }

  /**
   * `__init_arrays`: an all-clear bitmap of |s| bits, the first (at most two)
   * characters as leftovers, and a guess table of 65536 spaces.
   */
  method InitArrays(s: seq<Char>) returns (bitArray: array<bool>, leftovers: seq<Char>, guessTable: array<Char>)
    ensures fresh(bitArray) && fresh(guessTable)
    ensures bitArray[..] == seq(|s|, _ => false)
    ensures leftovers == s[..if |s| > K then K else |s|]
    ensures guessTable[..] == InitialTable()
  {
    bitArray := new bool[|s|](_ => false);
    leftovers := s[..if |s| > K then K else |s|];
    guessTable := new Char[TableSize](_ => Space);
  }

  /** One pass of the scan loop at position i: a hit sets bit i, a miss appends s[i] and stores it in the context's slot. */
  method ScanPosition(s: seq<Char>, i: nat, bitArray: array<bool>, guessTable: array<Char>, leftovers: seq<Char>)
    returns (leftovers': seq<Char>)
    requires K <= i < |s| == bitArray.Length && guessTable.Length == TableSize
    requires bitArray[..i] == Scan(Hash, s, i).flags && !bitArray[i]
    requires leftovers == Scan(Hash, s, i).leftovers
    requires guessTable[..] == Scan(Hash, s, i).table
    modifies bitArray, guessTable
    ensures bitArray[..i + 1] == Scan(Hash, s, i + 1).flags
    ensures bitArray[i + 1..] == old(bitArray[i + 1..])
    ensures leftovers' == Scan(Hash, s, i + 1).leftovers
    ensures guessTable[..] == Scan(Hash, s, i + 1).table
  {
    var hashVal := Hash(s[i - K], s[i - 1]);
    ScanNext(Hash, s, i);
    leftovers' := leftovers;
    if guessTable[hashVal] == s[i] {
      bitArray[i] := true;
    } else {
      leftovers' := leftovers + [s[i]];
      guessTable[hashVal] := s[i];
    }
    assert bitArray[..i + 1] == bitArray[..i] + [bitArray[i]];
  }

  /** The scan loop over positions 2 .. |s|-1, from the arrays `__init_arrays` returns. */
  method ScanLoop(s: seq<Char>, bitArray: array<bool>, guessTable: array<Char>, leftovers: seq<Char>)
    returns (leftovers': seq<Char>)
    requires K <= |s| == bitArray.Length && guessTable.Length == TableSize
    requires forall j :: 0 <= j < |s| ==> !bitArray[j]
    requires leftovers == s[..K] && guessTable[..] == InitialTable()
    modifies bitArray, guessTable
    ensures bitArray[..] == Scan(Hash, s, |s|).flags
    ensures leftovers' == Scan(Hash, s, |s|).leftovers
    ensures guessTable[..] == Scan(Hash, s, |s|).table
  {
    leftovers' := leftovers;
    for i := K to |s|
      invariant bitArray[..i] == Scan(Hash, s, i).flags
      invariant forall j :: i <= j < |s| ==> !bitArray[j]
      invariant leftovers' == Scan(Hash, s, i).leftovers
      invariant guessTable[..] == Scan(Hash, s, i).table
    {
      leftovers' := ScanPosition(s, i, bitArray, guessTable, leftovers');
    }
    assert bitArray[..] == bitArray[..|s|];
  }

  /** `payload_compression`: the short path, or the arrays, the scan loop and the merge. */
  method PayloadCompression(s: seq<Char>) returns (r: Result<seq<bv8>>)
    ensures r == Compress(s)
  {
    if |s| == 0 {
      return Err(ValueError);
    }
    if |s| <= K {
      return AsciiEncode(s);
    }
    var bitArray, leftovers, guessTable := InitArrays(s);
    assert forall j :: 0 <= j < |s| ==> !bitArray[..][j];
    leftovers := ScanLoop(s, bitArray, guessTable, leftovers);
    return MergeBitArrayLeftovers(leftovers, bitArray[..]);
  }

  /**
   * The encoder fails exactly on the empty string, on a short string with a
   * non-ASCII character, and on a longer string with a code above 255 or more
   * than 255 leftovers. A character above 255 can never be predicted, since
   * the table only holds spaces and leftovers.
   */
  lemma CompressSucceeds(s: seq<Char>)
    ensures Compress(s).Ok? <==>
      && |s| > 0
      && (|s| <= K ==> forall k :: 0 <= k < |s| ==> s[k] < 128)
      && (|s| > K ==> AllBytes(s) && |Scan(Hash, s, |s|).leftovers| <= 255)
  {
    if |s| > K {
      var t := Scan(Hash, s, |s|);
      ScanDraws(Hash, s, |s|);
      if forall k :: 0 <= k < |s| ==> s[k] < 256 {
        forall j | 0 <= j < |t.leftovers| ensures t.leftovers[j] < 256 {
          assert t.leftovers[j] in t.leftovers;
          assert t.leftovers[j] in s;
          var k :| 0 <= k < |s| && s[k] == t.leftovers[j];
        }
      }
      if forall j :: 0 <= j < |t.leftovers| ==> t.leftovers[j] < 256 {
        forall k | 0 <= k < |s| ensures s[k] < 256 {
          if s[k] != Space {
            var j :| 0 <= j < |t.leftovers| && t.leftovers[j] == s[k];
          }
        }
      }
    }
  }

  /** The empty string raises ValueError; a string of one or two ASCII characters comes back as its bytes. */
  lemma ShortPath(s: seq<Char>)
    requires |s| <= K
    ensures |s| == 0 ==> Compress(s) == Err(ValueError)
    ensures |s| > 0 && (forall k :: 0 <= k < |s| ==> s[k] < 128) ==>
      Compress(s).Ok? && |Compress(s).value| == |s| && Codes(Compress(s).value) == s
  {
  }

  /**
   * The same string under the Python encoder: the same leftovers and flags,
   * but the flag byte is 0b00010001, so the two frame formats differ.
   */
  lemma CompressesAaaabbbb()
    ensures var flags := [false, false, false, true, false, false, false, true];
      && Compress([97, 97, 97, 97, 98, 98, 98, 98]) == MergeBitArrayLeftovers([97, 97, 97, 98, 98, 98], flags)
      && Pack(MsbFirst, flags) == [0x11] != Pack(LsbFirst, flags)
  {
    AaaabbbbContextsDiffer();
    ScanAaaabbbb(Hash);
    PackAaaabbbbFlags();
  }
}
