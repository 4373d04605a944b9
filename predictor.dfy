/**
 * The predictive model both implementations share. The encoder scans the
 * payload from position 2 on; the guess table, indexed by the hash of the two
 * preceding characters, either predicts the next character (a hit: its flag
 * is set and it is left out) or does not (a miss: the character becomes a
 * leftover and is stored in the table). The decoder replays the same table
 * against the text it has rebuilt so far.
 */
module Predictor {
  import opened Text
  import opened ContextHash
  import opened Bounds
  import SeqFacts

  /** The context length `k`. */
  const K := 2
  const TableSize := 0x1_0000
  /** Every slot of a fresh guess table holds `' '`. */
  const Space: Char := 32

  function InitialTable(): seq<Char> {
    seq(TableSize, _ => Space)
  }

  /** The encoder's state after scanning a prefix: guess table, flags so far, leftovers so far. */
  datatype Trace = Trace(table: seq<Char>, flags: seq<bool>, leftovers: seq<Char>)

  /** The encoder's state once positions 2 .. i-1 have been scanned. */
  function Scan(hash: Hasher, s: seq<Char>, i: nat): (t: Trace)
    requires K <= i <= |s|
    ensures |t.table| == TableSize && |t.flags| == i
    decreases i
  {
    if i == K then Trace(InitialTable(), [false, false], s[..K])
    else
      // The loop body at position i - 1: predict it from the slot of its context.
      var t, h := Scan(hash, s, i - 1), hash(s[i - 3], s[i - 2]);
      if t.table[h] == s[i - 1] then t.(flags := t.flags + [true])
      else Trace(t.table[h := s[i - 1]], t.flags + [false], t.leftovers + [s[i - 1]])
  }

  /** One scan step, field by field: a hit appends a set flag; a miss appends a clear flag, records the leftover and trains the slot. */
  lemma ScanNext(hash: Hasher, s: seq<Char>, i: nat)
    requires K <= i < |s|
    ensures var t, u, h := Scan(hash, s, i), Scan(hash, s, i + 1), hash(s[i - 2], s[i - 1]);
      if t.table[h] == s[i] then
        u.flags == t.flags + [true] && u.leftovers == t.leftovers && u.table == t.table
      else
        u.flags == t.flags + [false] && u.leftovers == t.leftovers + [s[i]] && u.table == t.table[h := s[i]]
  {
  }

  /** The characters of `s` whose flag is clear, in order. */
  function Misses(s: seq<Char>, flags: seq<bool>): (m: seq<Char>)
    requires |flags| == |s|
    ensures |m| <= |s|
  {
    if |s| == 0 then []
    else Misses(s[..|s| - 1], flags[..|s| - 1]) + (if flags[|s| - 1] then [] else [s[|s| - 1]])
  }

  /** Scanning further only appends: earlier flags and leftovers stay as they were. */
  lemma {:induction false} ScanPrefix(hash: Hasher, s: seq<Char>, i: nat, j: nat)
    requires K <= i <= j <= |s|
    ensures Scan(hash, s, i).flags == Scan(hash, s, j).flags[..i]
    ensures Scan(hash, s, i).leftovers <= Scan(hash, s, j).leftovers
    decreases j
  {
    if i < j {
      ScanPrefix(hash, s, i, j - 1);
    }
  }

  /**
   * Flags 0 and 1 are clear, and flag i (i >= 2) is set exactly when the
   * table held s[i] in the slot of its context at step i.
   */
  lemma FlagsMarkHits(hash: Hasher, s: seq<Char>, i: nat)
    requires K <= i < |s|
    ensures !Scan(hash, s, |s|).flags[0] && !Scan(hash, s, |s|).flags[1]
    ensures Scan(hash, s, |s|).flags[i] <==> Scan(hash, s, i).table[hash(s[i - 2], s[i - 1])] == s[i]
  {
    ScanPrefix(hash, s, K, |s|);
    ScanPrefix(hash, s, i + 1, |s|);
  }

  /** A miss writes only the slot of the current context; a hit writes nothing. */
  lemma StepWritesContextSlot(hash: Hasher, s: seq<Char>, i: nat, h: nat)
    requires K <= i < |s| && h < TableSize
    ensures var before, after := Scan(hash, s, i).table, Scan(hash, s, i + 1).table;
      after[h] == if h == hash(s[i - 2], s[i - 1]) then s[i] else before[h]
  {
  }

  /** The slot of the context of position j: the hash of the two characters before it. */
  function ContextSlot(hash: Hasher, s: seq<Char>, j: nat): Slot
    requires K <= j <= |s|
  {
    hash(s[j - 2], s[j - 1])
  }

  /** A slot that no context scanned so far hashes to still holds the initial ' '. */
  lemma {:induction false} FreshSlot(hash: Hasher, s: seq<Char>, i: nat, h: nat)
    requires K <= i <= |s| && h < TableSize
    requires forall j :: K <= j < i ==> ContextSlot(hash, s, j) != h
    ensures Scan(hash, s, i).table[h] == Space
    decreases i
  {
    if i > K {
      FreshSlot(hash, s, i - 1, h);
      StepWritesContextSlot(hash, s, i - 1, h);
      assert ContextSlot(hash, s, i - 1) != h;
    }
  }

  /**
   * The table's default is ' ', not "unset": where the context's slot was
   * never written, the position is a hit exactly when it holds a space.
   */
  lemma SpaceAfterFreshContext(hash: Hasher, s: seq<Char>, i: nat)
    requires K <= i < |s|
    requires forall j :: K <= j < i ==> ContextSlot(hash, s, j) != ContextSlot(hash, s, i)
    ensures Scan(hash, s, |s|).flags[i] <==> s[i] == Space
  {
    FreshSlot(hash, s, i, hash(s[i - 2], s[i - 1]));
    FlagsMarkHits(hash, s, i);
  }

  /**
   * The leftovers are s[0], s[1] followed by the characters whose flag is
   * clear, in scan order; so there are at most as many as characters scanned.
   */
  lemma {:induction false} LeftoversAreMisses(hash: Hasher, s: seq<Char>, i: nat)
    requires K <= i <= |s|
    ensures Scan(hash, s, i).leftovers == s[..K] + Misses(s[K..i], Scan(hash, s, i).flags[K..])
    ensures |Scan(hash, s, i).leftovers| <= i
    decreases i
  {
    if i > K {
      LeftoversAreMisses(hash, s, i - 1);
      var t, u := Scan(hash, s, i - 1), Scan(hash, s, i);
      var run, marks := s[K..i], u.flags[K..];
      assert run[..i - 1 - K] == s[K..i - 1];
      assert marks[..i - 1 - K] == t.flags[K..];
      assert u.leftovers == t.leftovers + (if u.flags[i - 1] then [] else [s[i - 1]]);
    }
  }

  /**
   * Every slot holds ' ' or a leftover, every scanned character is ' ' or a
   * leftover (a hit repeats what the table holds), and every leftover is a
   * character of the payload.
   */
  lemma {:induction false} ScanDraws(hash: Hasher, s: seq<Char>, i: nat)
    requires K <= i <= |s|
    ensures var t := Scan(hash, s, i);
      && (forall h :: 0 <= h < TableSize ==> t.table[h] == Space || t.table[h] in t.leftovers)
      && (forall k :: 0 <= k < i ==> s[k] == Space || s[k] in t.leftovers)
      && (forall c :: c in t.leftovers ==> c in s)
    decreases i
  {
    if i > K {
      ScanDraws(hash, s, i - 1);
      var before := Scan(hash, s, i - 1);
      var h := hash(s[i - 3], s[i - 2]);
      assert before.table[h] == s[i - 1] ==> s[i - 1] == Space || s[i - 1] in before.leftovers;
    }
  }

  /** No two positions of `s` hold the same character, and none holds ' '. */
  predicate DistinctNonSpace(s: seq<Char>) {
    && (forall k :: 0 <= k < |s| ==> s[k] != Space)
    && (forall j, k :: 0 <= j < k < |s| ==> s[j] != s[k])
  }

  /**
   * A payload with no repeated character and no space is never predicted:
   * every position misses, so every character becomes a leftover.
   */
  lemma {:induction false} DistinctAllMiss(hash: Hasher, s: seq<Char>, i: nat)
    requires K <= i <= |s| && DistinctNonSpace(s)
    ensures Scan(hash, s, i).leftovers == s[..i]
    ensures forall h :: 0 <= h < TableSize ==> Scan(hash, s, i).table[h] == Space || Scan(hash, s, i).table[h] in s[..i]
    decreases i
  {
    if i > K {
      DistinctAllMiss(hash, s, i - 1);
      var t := Scan(hash, s, i - 1);
      var h := hash(s[i - 3], s[i - 2]);
      assert s[i - 1] !in s[..i - 1];
      SeqFacts.Snoc(s, i - 1);
    }
  }

  /**
   * The decoder's loop from position |out| on: a set flag appends the table's
   * guess; a clear flag appends the next leftover and stores it; a clear flag
   * with no leftover left stops, and so does running out of flags. It only
   * appends to the output, at most one character per flag.
   */
  function Replay(hash: Hasher, leftovers: seq<Char>, flags: seq<bool>, table: seq<Char>, out: seq<Char>, cursor: nat): (r: seq<Char>)
    requires |table| == TableSize && K <= |out| && cursor <= |leftovers|
    ensures out <= r && |r| <= Max(|out|, |flags|)
    decreases |flags| - |out|
  {
    if |out| >= |flags| then out
    else
      var h := hash(out[|out| - 2], out[|out| - 1]);
      if flags[|out|] then Replay(hash, leftovers, flags, table, out + [table[h]], cursor)
      else if cursor < |leftovers| then
        Replay(hash, leftovers, flags, table[h := leftovers[cursor]], out + [leftovers[cursor]], cursor + 1)
      else out
  }

  /** Decoding: the output starts as the first two leftovers, the table fresh, the cursor at 2; it never outgrows the flags. */
  function Decode(hash: Hasher, leftovers: seq<Char>, flags: seq<bool>): (r: seq<Char>)
    requires K <= |leftovers|
    ensures leftovers[..K] <= r && |r| <= Max(K, |flags|)
  {
    Replay(hash, leftovers, flags, InitialTable(), leftovers[..K], K)
  }

  /**
   * With every flag from the cursor on clear and at least one flag per
   * leftover, the decoder copies out the remaining leftovers and stops.
   */
  lemma {:induction false} ReplayAllMisses(hash: Hasher, leftovers: seq<Char>, flags: seq<bool>, table: seq<Char>, cursor: nat)
    requires |table| == TableSize && K <= cursor <= |leftovers| <= |flags|
    requires forall i :: cursor <= i < |flags| ==> !flags[i]
    ensures Replay(hash, leftovers, flags, table, leftovers[..cursor], cursor) == leftovers
    decreases |leftovers| - cursor
  {
    var out := leftovers[..cursor];
    if cursor == |leftovers| {
      assert out == leftovers;
    } else {
      var h := hash(out[|out| - 2], out[|out| - 1]);
      SeqFacts.Snoc(leftovers, cursor);
      ReplayAllMisses(hash, leftovers, flags, table[h := leftovers[cursor]], cursor + 1);
    }
  }

  /** One round of the decoder's loop. */
  lemma ReplayStep(hash: Hasher, leftovers: seq<Char>, flags: seq<bool>, table: seq<Char>, out: seq<Char>, cursor: nat)
    requires |table| == TableSize && K <= |out| < |flags| && cursor <= |leftovers|
    ensures var h := hash(out[|out| - 2], out[|out| - 1]);
      && (flags[|out|] ==>
            Replay(hash, leftovers, flags, table, out, cursor) == Replay(hash, leftovers, flags, table, out + [table[h]], cursor))
      && (!flags[|out|] && cursor < |leftovers| ==>
            Replay(hash, leftovers, flags, table, out, cursor) ==
            Replay(hash, leftovers, flags, table[h := leftovers[cursor]], out + [leftovers[cursor]], cursor + 1))
  {
  }

  /**
   * The decoder keeps pace with the encoder for one position: from the
   * encoder's state before s[i] and the output s[..i] it reaches the
   * encoder's state after s[i] and the output s[..i + 1].
   */
  lemma ReplayAdvances(hash: Hasher, s: seq<Char>, leftovers: seq<Char>, flags: seq<bool>, i: nat)
    requires K <= i < |s| && i < |flags|
    requires flags[i] == Scan(hash, s, i + 1).flags[i]
    requires Scan(hash, s, i + 1).leftovers <= leftovers
    ensures var t, u := Scan(hash, s, i), Scan(hash, s, i + 1);
      Replay(hash, leftovers, flags, t.table, s[..i], |t.leftovers|) ==
      Replay(hash, leftovers, flags, u.table, s[..i + 1], |u.leftovers|)
  {
    var t, u := Scan(hash, s, i), Scan(hash, s, i + 1);
    var h := hash(s[i - 2], s[i - 1]);
    ScanNext(hash, s, i);
    ReplayStep(hash, leftovers, flags, t.table, s[..i], |t.leftovers|);
    SeqFacts.Snoc(s, i);
    assert s[..i][i - 2] == s[i - 2] && s[..i][i - 1] == s[i - 1];
    if flags[i] {
      assert t.table[h] == s[i];
    } else {
      assert leftovers[|t.leftovers|] == u.leftovers[|t.leftovers|] == s[i];
    }
  }

  /**
   * The lock-step invariant: with the decoder's output equal to s[..i], its
   * table equal to the encoder's at step i and its cursor equal to the number
   * of leftovers emitted so far, the rest of the replay rebuilds s.
   */
  lemma {:induction false} ReplayFollowsScan(hash: Hasher, s: seq<Char>, flags: seq<bool>, i: nat)
    requires K <= i <= |s| <= |flags|
    requires flags[..|s|] == Scan(hash, s, |s|).flags
    requires |s| < |flags| ==> !flags[|s|]
    requires Scan(hash, s, i).leftovers <= Scan(hash, s, |s|).leftovers
    ensures Replay(hash, Scan(hash, s, |s|).leftovers, flags, Scan(hash, s, i).table, s[..i], |Scan(hash, s, i).leftovers|) == s
    decreases |s| - i
  {
    if i == |s| {
      assert s[..i] == s;
    } else {
      ScanPrefix(hash, s, i + 1, |s|);
      assert flags[i] == Scan(hash, s, i + 1).flags[i];
      ReplayAdvances(hash, s, Scan(hash, s, |s|).leftovers, flags, i);
      ReplayFollowsScan(hash, s, flags, i + 1);
    }
  }

  /**
   * Decoding the encoder's leftovers against its flags, followed by any
   * number of clear padding flags, gives the payload back.
   */
  lemma DecodeInvertsScan(hash: Hasher, s: seq<Char>, flags: seq<bool>)
    requires K <= |s| <= |flags|
    requires flags[..|s|] == Scan(hash, s, |s|).flags
    requires forall i :: |s| <= i < |flags| ==> !flags[i]
    ensures K <= |Scan(hash, s, |s|).leftovers|
    ensures Decode(hash, Scan(hash, s, |s|).leftovers, flags) == s
  {
    var start := Scan(hash, s, K);
    ScanPrefix(hash, s, K, |s|);
    assert start.leftovers == s[..K] == Scan(hash, s, |s|).leftovers[..K];
    ReplayFollowsScan(hash, s, flags, K);
  }

  /**
   * "aaaabbbb" under any hash that separates its contexts "aa", "ab" and
   * "bb": position 2 misses (the slot holds ' '), 3 hits, 4 misses (the slot
   * of "aa" holds 'a'), 5 and 6 miss (fresh slots), 7 hits.
   */
  lemma ScanAaaabbbb(hash: Hasher)
    requires hash(97, 97) != hash(97, 98) && hash(97, 98) != hash(98, 98) && hash(97, 97) != hash(98, 98)
    ensures var t := Scan(hash, [97, 97, 97, 97, 98, 98, 98, 98], 8);
      t.flags == [false, false, false, true, false, false, false, true] && t.leftovers == [97, 97, 97, 98, 98, 98]
  {
    var s: seq<Char> := [97, 97, 97, 97, 98, 98, 98, 98];
    var ab, bb := hash(97, 98), hash(98, 98);
    ScanAaaab(hash, s);
    ScanNext(hash, s, 5);
    assert Scan(hash, s, 6).flags == [false, false, false, true, false, false];
    assert Scan(hash, s, 6).leftovers == [97, 97, 97, 98, 98];
    assert Scan(hash, s, 6).table[bb] == Space;
    ScanNext(hash, s, 6);
    assert Scan(hash, s, 7).flags == [false, false, false, true, false, false, false];
    assert Scan(hash, s, 7).leftovers == [97, 97, 97, 98, 98, 98];
    assert Scan(hash, s, 7).table[bb] == 98;
    ScanNext(hash, s, 7);
  }

  /** The first five positions of "aaaabbbb": the slots of "ab" and "bb" are still fresh. */
  lemma ScanAaaab(hash: Hasher, s: seq<Char>)
    requires hash(97, 97) != hash(97, 98) && hash(97, 98) != hash(98, 98) && hash(97, 97) != hash(98, 98)
    requires s == [97, 97, 97, 97, 98, 98, 98, 98]
    ensures var t := Scan(hash, s, 5);
      && t.flags == [false, false, false, true, false] && t.leftovers == [97, 97, 97, 98]
      && t.table[hash(97, 98)] == Space && t.table[hash(98, 98)] == Space
  {
    var aa, ab, bb := hash(97, 97), hash(97, 98), hash(98, 98);
    ScanNext(hash, s, 2);
    assert Scan(hash, s, 3).table[aa] == 97;
    assert Scan(hash, s, 3).table[ab] == Space && Scan(hash, s, 3).table[bb] == Space;
    assert Scan(hash, s, 3).flags == [false, false, false];
    assert Scan(hash, s, 3).leftovers == [97, 97, 97];
    ScanNext(hash, s, 3);
    assert Scan(hash, s, 4).flags == [false, false, false, true];
    assert Scan(hash, s, 4).leftovers == [97, 97, 97];
    ScanNext(hash, s, 4);
  }
}
