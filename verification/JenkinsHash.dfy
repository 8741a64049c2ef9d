/** The one-at-a-time hash of hive/src/global_func.cxx, on 64-bit words.

    `unsigned long` is 64 bits wide and wraps, so words are `bv64`; the characters of a
    `std::string` are signed bytes, so each one is sign-extended before it is added. */
module JenkinsHash {

  type Key = seq<bv8>

  /** The value `hash += key[i]` adds for a signed character. */
  function SignExtend(c: bv8): bv64 {
    if c < 0x80 then c as bv64 else 0xFFFF_FFFF_FFFF_FF00 | (c as bv64)
  }

  // The five kinds of step, one for each assignment of the source.
  function Add(h: bv64, c: bv8): bv64 { h + SignExtend(c) }
  function Spread10(h: bv64): bv64 { h + (h << 10) }
  function Spread3(h: bv64): bv64 { h + (h << 3) }
  function Spread15(h: bv64): bv64 { h + (h << 15) }
  function Fold6(h: bv64): bv64 { h ^ (h >> 6) }
  function Fold11(h: bv64): bv64 { h ^ (h >> 11) }

  function Round(state: bv64, c: bv8): bv64 {
    Fold6(Spread10(Add(state, c)))
  }

  function Finish(state: bv64): bv64 {
    Spread15(Fold11(Spread3(state)))
  }

  function Absorb(state: bv64, key: Key): bv64
    decreases |key|
  {
    if key == [] then state else Absorb(Round(state, key[0]), key[1..])
  }

  function Hash(key: Key): bv64 {
    Finish(Absorb(0, key))
  }

  method ComputeHash(key: Key) returns (hash: bv64)
    ensures hash == Hash(key)
  {
    hide Add, Spread10, Spread3, Spread15, Fold6, Fold11;
    var i := 0;
    hash := 0;
    while i != |key|
      invariant 0 <= i <= |key|
      invariant Absorb(0, key) == Absorb(hash, key[i..])
      decreases |key| - i
    {
      hash := Add(hash, key[i]);
      i := i + 1;
      hash := Spread10(hash);
      hash := Fold6(hash);
    }
    hash := Spread3(hash);
    hash := Fold11(hash);
    hash := Spread15(hash);
  }

  // ----- Explicit inverses -----

  function UndoAdd(h: bv64, c: bv8): bv64 { h - SignExtend(c) }

  // A spread multiplies by 2^k + 1, which is odd: multiply by its inverse modulo 2^64.
  function UndoSpread10(h: bv64): bv64 { h * 0x0FFC_00FF_C00F_FC01 }
  function UndoSpread3(h: bv64): bv64 { h * 0x8E38_E38E_38E3_8E39 }
  function UndoSpread15(h: bv64): bv64 { h * 0x0FFF_E000_3FFF_8001 }

  // A fold is undone by folding again with doubled shifts until they leave the word.
  function UndoFold6(h: bv64): bv64 {
    var a := h ^ (h >> 6);
    var b := a ^ (a >> 12);
    var c := b ^ (b >> 24);
    c ^ (c >> 48)
  }

  function UndoFold11(h: bv64): bv64 {
    var a := h ^ (h >> 11);
    var b := a ^ (a >> 22);
    b ^ (b >> 44)
  }

  function UndoRound(state: bv64, c: bv8): bv64 {
    UndoAdd(UndoSpread10(UndoFold6(state)), c)
  }

  function UndoFinish(hash: bv64): bv64 {
    UndoSpread3(UndoFold11(UndoSpread15(hash)))
  }

  /** Runs the rounds for `key` backwards, last character first. */
  function Rewind(state: bv64, key: Key): bv64 {
    if key == [] then state else UndoRound(Rewind(state, key[1..]), key[0])
  }

  // The solver proves an identity when it is written over one variable, so each inverse is
  // first proved on an expression and then carried over to the composed functions.

  lemma AddOnExpressions(h: bv64, c: bv8)
    ensures UndoAdd(h + SignExtend(c), c) == h
    ensures Add(h - SignExtend(c), c) == h
  {
    hide SignExtend;
  }

  lemma AddInvertible(h: bv64, c: bv8)
    ensures UndoAdd(Add(h, c), c) == h
  {
    hide SignExtend, UndoAdd;
    AddOnExpressions(h, c);
  }

  lemma AddOnto(h: bv64, c: bv8)
    ensures Add(UndoAdd(h, c), c) == h
  {
    hide SignExtend, Add;
    AddOnExpressions(h, c);
  }

  function Times1025(h: bv64): bv64 { h * 1025 }

  lemma Spread10OnExpression(h: bv64)
    ensures Spread10(h) == h + (h << 10)
  {}

  lemma Times1025OnExpression(h: bv64)
    ensures Times1025(h) == h + (h << 10)
  {}

  lemma Spread10IsTimes1025(h: bv64)
    ensures Spread10(h) == Times1025(h)
  {
    hide Spread10, Times1025;
    Times1025OnExpression(h);
    Spread10OnExpression(h);
  }

  lemma UndoTimes1025(h: bv64)
    ensures UndoSpread10(h * 1025) == h
  {}

  lemma Times1025Undo(h: bv64)
    ensures Times1025(h * 0x0FFC_00FF_C00F_FC01) == h
  {}

  lemma Spread10Invertible(h: bv64)
    ensures UndoSpread10(Spread10(h)) == h
  {
    hide Spread10, UndoSpread10;
    Spread10IsTimes1025(h);
    UndoTimes1025(h);
  }

  lemma Spread10Onto(h: bv64)
    ensures Spread10(UndoSpread10(h)) == h
  {
    hide Spread10, Times1025;
    Spread10IsTimes1025(UndoSpread10(h));
    Times1025Undo(h);
  }

  function Times9(h: bv64): bv64 { h * 9 }

  lemma Spread3OnExpression(h: bv64)
    ensures Spread3(h) == h + (h << 3)
  {}

  lemma Times9OnExpression(h: bv64)
    ensures Times9(h) == h + (h << 3)
  {}

  lemma Spread3IsTimes9(h: bv64)
    ensures Spread3(h) == Times9(h)
  {
    hide Spread3, Times9;
    Times9OnExpression(h);
    Spread3OnExpression(h);
  }

  lemma UndoTimes9(h: bv64)
    ensures UndoSpread3(h * 9) == h
  {}

  lemma Times9Undo(h: bv64)
    ensures Times9(h * 0x8E38_E38E_38E3_8E39) == h
  {}

  lemma Spread3Invertible(h: bv64)
    ensures UndoSpread3(Spread3(h)) == h
  {
    hide Spread3, UndoSpread3;
    Spread3IsTimes9(h);
    UndoTimes9(h);
  }

  lemma Spread3Onto(h: bv64)
    ensures Spread3(UndoSpread3(h)) == h
  {
    hide Spread3, Times9;
    Spread3IsTimes9(UndoSpread3(h));
    Times9Undo(h);
  }

  function Times32769(h: bv64): bv64 { h * 32769 }

  lemma Spread15OnExpression(h: bv64)
    ensures Spread15(h) == h + (h << 15)
  {}

  lemma Times32769OnExpression(h: bv64)
    ensures Times32769(h) == h + (h << 15)
  {}

  lemma Spread15IsTimes32769(h: bv64)
    ensures Spread15(h) == Times32769(h)
  {
    hide Spread15, Times32769;
    Times32769OnExpression(h);
    Spread15OnExpression(h);
  }

  lemma UndoTimes32769(h: bv64)
    ensures UndoSpread15(h * 32769) == h
  {}

  lemma Times32769Undo(h: bv64)
    ensures Times32769(h * 0x0FFF_E000_3FFF_8001) == h
  {}

  lemma Spread15Invertible(h: bv64)
    ensures UndoSpread15(Spread15(h)) == h
  {
    hide Spread15, UndoSpread15;
    Spread15IsTimes32769(h);
    UndoTimes32769(h);
  }

  lemma Spread15Onto(h: bv64)
    ensures Spread15(UndoSpread15(h)) == h
  {
    hide Spread15, Times32769;
    Spread15IsTimes32769(UndoSpread15(h));
    Times32769Undo(h);
  }

  lemma Fold6OnExpression(h: bv64)
    ensures UndoFold6(h ^ (h >> 6)) == h
  {}

  lemma Fold6Invertible(h: bv64)
    ensures UndoFold6(Fold6(h)) == h
  {
    hide UndoFold6;
    Fold6OnExpression(h);
  }

  lemma Fold11OnExpression(h: bv64)
    ensures UndoFold11(h ^ (h >> 11)) == h
  {}

  lemma Fold11Invertible(h: bv64)
    ensures UndoFold11(Fold11(h)) == h
  {
    hide UndoFold11;
    Fold11OnExpression(h);
  }

  lemma Fold6Onto(h: bv64)
    ensures Fold6(UndoFold6(h)) == h
  {
    assert UndoFold6(h) == h ^ (h >> 6) ^ (h >> 12) ^ (h >> 18) ^ (h >> 24) ^ (h >> 30)
                           ^ (h >> 36) ^ (h >> 42) ^ (h >> 48) ^ (h >> 54) ^ (h >> 60);
  }

  lemma Fold11Onto(h: bv64)
    ensures Fold11(UndoFold11(h)) == h
  {
    assert UndoFold11(h) == h ^ (h >> 11) ^ (h >> 22) ^ (h >> 33) ^ (h >> 44) ^ (h >> 55);
  }

  /** Each round is a bijection of the 64-bit states. */
  lemma RoundIsBijection(state: bv64, c: bv8)
    ensures UndoRound(Round(state, c), c) == state
    ensures Round(UndoRound(state, c), c) == state
  {
    hide Add, UndoAdd, Spread10, UndoSpread10, Fold6, UndoFold6;
    AddInvertible(state, c);
    Spread10Invertible(Add(state, c));
    Fold6Invertible(Spread10(Add(state, c)));

    var u := UndoFold6(state);
    AddOnto(UndoSpread10(u), c);
    Spread10Onto(u);
    Fold6Onto(state);
  }

  /** So is the finaliser. */
  lemma FinishIsBijection(state: bv64)
    ensures UndoFinish(Finish(state)) == state
    ensures Finish(UndoFinish(state)) == state
  {
    hide Spread3, UndoSpread3, Spread15, UndoSpread15, Fold11, UndoFold11;
    Spread3Invertible(state);
    Fold11Invertible(Spread3(state));
    Spread15Invertible(Fold11(Spread3(state)));

    var u := UndoSpread15(state);
    Spread3Onto(UndoFold11(u));
    Fold11Onto(u);
    Spread15Onto(state);
  }

  /** For a fixed key the whole absorption is a bijection, with `Rewind` as its inverse. */
  lemma {:induction false} AbsorbIsBijection(state: bv64, key: Key)
    ensures Rewind(Absorb(state, key), key) == state
    ensures Absorb(Rewind(state, key), key) == state
    decreases |key|
  {
    hide Round, UndoRound;
    if key != [] {
      AbsorbIsBijection(Round(state, key[0]), key[1..]);
      RoundIsBijection(state, key[0]);
      AbsorbIsBijection(state, key[1..]);
      RoundIsBijection(Rewind(state, key[1..]), key[0]);
    }
  }

  lemma {:induction false} AbsorbConcat(state: bv64, left: Key, right: Key)
    ensures Absorb(state, left + right) == Absorb(Absorb(state, left), right)
    decreases |left|
  {
    hide Round;
    if left == [] {
      assert left + right == right;
    } else {
      assert (left + right)[1..] == left[1..] + right;
      AbsorbConcat(Round(state, left[0]), left[1..], right);
    }
  }

  // ----- What the cache may rely on -----

  /** A hash is accepted by a key exactly when rewinding it over that key ends in the
      initial state 0: the hash values and the keys of one length determine each other
      through the inverse functions alone. */
  lemma HashIffRewindsToZero(key: Key, h: bv64)
    ensures Hash(key) == h <==> Rewind(UndoFinish(h), key) == 0
  {
    hide Finish, UndoFinish, Absorb, Rewind;
    AbsorbIsBijection(0, key);
    FinishIsBijection(Absorb(0, key));
    FinishIsBijection(h);
    AbsorbIsBijection(UndoFinish(h), key);
  }

  /** Appending one suffix to two keys of any lengths neither makes nor breaks a collision. */
  lemma SuffixPreservesCollisions(left: Key, right: Key, suffix: Key)
    ensures Hash(left + suffix) == Hash(right + suffix) <==> Hash(left) == Hash(right)
  {
    hide Finish, UndoFinish, Absorb, Rewind;
    var l, r := Absorb(0, left), Absorb(0, right);
    AbsorbConcat(0, left, suffix);
    AbsorbConcat(0, right, suffix);
    AbsorbIsBijection(l, suffix);
    AbsorbIsBijection(r, suffix);
    FinishIsBijection(l);
    FinishIsBijection(r);
    FinishIsBijection(Absorb(l, suffix));
    FinishIsBijection(Absorb(r, suffix));
  }

  lemma AddSeparatesCharacters(h: bv64, a: bv8, b: bv8)
    ensures Add(h, a) == Add(h, b) <==> a == b
  {}

  /** One character decides a round. */
  lemma RoundSeparatesCharacters(state: bv64, a: bv8, b: bv8)
    ensures Round(state, a) == Round(state, b) <==> a == b
  {
    hide Add, Spread10, UndoSpread10, Fold6, UndoFold6;
    AddSeparatesCharacters(state, a, b);
    Spread10Invertible(Add(state, a));
    Spread10Invertible(Add(state, b));
    Fold6Invertible(Spread10(Add(state, a)));
    Fold6Invertible(Spread10(Add(state, b)));
  }

  ghost predicate DifferExactlyAt(left: Key, right: Key, i: nat) {
    |left| == |right| && i < |left| && left[i] != right[i] &&
    forall j :: 0 <= j < |left| && j != i ==> left[j] == right[j]
  }

  /** Keys of equal length that differ in exactly one character never share a hash. */
  lemma OneCharacterNeverCollides(left: Key, right: Key, i: nat)
    requires DifferExactlyAt(left, right, i)
    ensures Hash(left) != Hash(right)
  {
    hide Round, Finish, UndoFinish;
    var prefix, suffix := left[..i], left[i + 1..];
    assert left == prefix + [left[i]] + suffix;
    assert right == prefix + [right[i]] + suffix;
    SuffixPreservesCollisions(prefix + [left[i]], prefix + [right[i]], suffix);
    AbsorbConcat(0, prefix, [left[i]]);
    AbsorbConcat(0, prefix, [right[i]]);
    var state := Absorb(0, prefix);
    assert Absorb(state, [left[i]]) == Round(state, left[i]);
    assert Absorb(state, [right[i]]) == Round(state, right[i]);
    RoundSeparatesCharacters(state, left[i], right[i]);
    FinishIsBijection(Round(state, left[i]));
    FinishIsBijection(Round(state, right[i]));
  }

  /** The equal length is needed: leading NUL characters are invisible to the hash. */
  lemma LeadingNulCollides(key: Key)
    ensures Hash([0] + key) == Hash(key)
  {
    AbsorbConcat(0, [0], key);
    assert Absorb(0, [0]) == Round(0, 0);
    assert Round(0, 0) == 0;
  }

  /** Values of the source: the empty key, one and two letters, and a character above 127. */
  lemma KnownHashes()
    ensures Hash([]) == 0 && Hash([0x61]) == 0x6_CA2E_9442
    ensures Hash([0x61, 0x62]) == 0x1B5D_45E6_1E58 && Hash([0xE9]) == 0x9C1B_8001_A482_C8FF
  {
    assert [0x61, 0x62][1..] == [0x62];
  }
}
