/** Shared vocabulary: optional values standing for NaN, data-quality (DQ)
    flag words, and small sums and counts over sequences. */
module Common {

  /** A floating-point value that may be NaN: None stands for NaN. */
  datatype Option<+T> = None | Some(value: T)

  /** One DQ word (an unsigned 32-bit flag word), given by the positions
      of its set bits: bitwise OR is union, masking out a flag is removing
      its position, and a word equal to 0 is the empty set. */
  type Dq = set<nat>

  /** The DQ word with no flag set. */
  const Clean: Dq := {}

  /** True when `word` has the flag at bit position `bit` set
      (numpy `bitwise_and(word, 1 << bit) != 0`). */
  predicate Has(word: Dq, bit: nat) {
    bit in word
  }

  /** A word that fits in 32 bits. */
  predicate Word32(word: Dq) {
    forall b :: b in word ==> b < 32
  }

  /** The bit positions of the named DQ flags used by ramp fitting and jump
      detection. */
  datatype DqFlags = DqFlags(saturated: nat, jumpDet: nat, doNotUse: nat, noGainValue: nat) {
    /** Each flag is a distinct bit of a 32-bit word. */
    predicate Valid() {
      && saturated < 32 && jumpDet < 32 && doNotUse < 32 && noGainValue < 32
      && saturated != jumpDet && saturated != doNotUse && saturated != noGainValue
      && jumpDet != doNotUse && jumpDet != noGainValue
      && doNotUse != noGainValue
    }
  }

  /** Sum of a sequence of naturals. */
  function Sum(s: seq<nat>): nat {
    if s == [] then 0 else Sum(s[..|s| - 1]) + s[|s| - 1]
  }

  lemma {:induction false} SumAppend(a: seq<nat>, b: seq<nat>)
    ensures Sum(a + b) == Sum(a) + Sum(b)
    decreases |b|
  {
    if b == [] {
      assert a + b == a;
    } else {
      assert (a + b)[..|a + b| - 1] == a + b[..|b| - 1];
      SumAppend(a, b[..|b| - 1]);
    }
  }

  lemma SumSingleton(x: nat)
    ensures Sum([x]) == x
  {
    assert [x][..0] == [];
  }

  /** Number of `Some` entries, that is, of non-NaN values. */
  function Usable<T>(s: seq<Option<T>>): nat {
    if s == [] then 0 else Usable(s[..|s| - 1]) + (if s[|s| - 1].Some? then 1 else 0)
  }

  lemma {:induction false} UsableAppend<T>(a: seq<Option<T>>, b: seq<Option<T>>)
    ensures Usable(a + b) == Usable(a) + Usable(b)
    decreases |b|
  {
    if b == [] {
      assert a + b == a;
    } else {
      assert (a + b)[..|a + b| - 1] == a + b[..|b| - 1];
      UsableAppend(a, b[..|b| - 1]);
    }
  }

  lemma {:induction false} UsableBound<T>(s: seq<Option<T>>)
    ensures Usable(s) <= |s|
  {
    if s != [] { UsableBound(s[..|s| - 1]); }
  }

  /** The non-NaN values of `s`, in order. */
  function Values<T>(s: seq<Option<T>>): (r: seq<T>)
    ensures |r| == Usable(s)
  {
    if s == [] then [] else Values(s[..|s| - 1]) + (if s[|s| - 1].Some? then [s[|s| - 1].value] else [])
  }

  function Max(a: int, b: int): int { if a < b then b else a }

  function Min(a: int, b: int): int { if a < b then a else b }
}
