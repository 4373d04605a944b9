/** Characters and the conversion of frame bytes back to characters. */
module Text {

  /** A character as its code point: what Python's `ord` returns. */
  type Char = c: int | 0 <= c < 0x11_0000

  /** A C# `char`: a 16-bit code unit. */
  type Char16 = c: Char | c < 0x1_0000

  /** Every character fits in a byte. */
  predicate AllBytes(cs: seq<Char>) {
    forall j :: 0 <= j < |cs| ==> cs[j] < 256
  }

  /** Each byte read back as the character with that code (`chr(b)`, `Convert.ToChar(b)`). */
  function Codes(bytes: seq<bv8>): (cs: seq<Char>)
    ensures |cs| == |bytes| && AllBytes(cs)
  {
    seq(|bytes|, j requires 0 <= j < |bytes| => bytes[j] as int)
  }

  /** Reading a prefix of the bytes gives the prefix of the characters. */
  lemma CodesPrefix(bytes: seq<bv8>, n: nat)
    requires n <= |bytes|
    ensures Codes(bytes)[..n] == Codes(bytes[..n])
  {
  }

  /** A code below 256 survives the trip through a byte. */
  lemma ByteValue(x: int)
    requires 0 <= x < 256
    ensures (x as bv8) as int == x
  {
    assert x % 256 == x;
  }

  /** Bytes that hold the given codes read back as those codes. */
  lemma CodesOfBytes(cs: seq<Char>, bytes: seq<bv8>)
    requires AllBytes(cs) && |bytes| == |cs|
    requires forall j :: 0 <= j < |cs| ==> bytes[j] == cs[j] as bv8
    ensures Codes(bytes) == cs
  {
    forall j | 0 <= j < |cs|
      ensures bytes[j] as int == cs[j]
    {
      ByteValue(cs[j]);
    }
  }

  /** Characters below 256 written as bytes (`ord(c)` into a `bytearray`); reading them back gives the characters. */
  function Bytes(cs: seq<Char>): (bytes: seq<bv8>)
    requires AllBytes(cs)
    ensures Codes(bytes) == cs
  {
    var bytes := seq(|cs|, j requires 0 <= j < |cs| => cs[j] as bv8);
    CodesOfBytes(cs, bytes);
    bytes
  }

  /** Reading bytes as characters and writing them back gives the bytes. */
  lemma BytesOfCodes(bytes: seq<bv8>)
    ensures Bytes(Codes(bytes)) == bytes
  {
  }
}

/** A fact about sequences the frame layouts need. */
module SeqFacts {

  /** The middle part of a concatenation of three. */
  lemma Middle<T>(a: seq<T>, b: seq<T>, c: seq<T>)
    ensures (a + b + c)[|a| .. |a| + |b|] == b
    ensures (a + b + c)[|a| + |b| ..] == c
  {
    assert (a + b + c)[|a| .. |a| + |b|] == (a + b)[|a| ..];
  }

  /** The first n elements of a slice. */
  lemma SlicePrefix<T>(s: seq<T>, lo: nat, hi: nat, n: nat)
    requires lo + n <= hi <= |s|
    ensures s[lo .. hi][..n] == s[lo .. lo + n]
  {
  }

  /** A prefix grown by the next element. */
  lemma Snoc<T>(s: seq<T>, i: nat)
    requires i < |s|
    ensures s[..i] + [s[i]] == s[..i + 1]
  {
  }
}
