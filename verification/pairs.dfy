/**
 * Account keys and the ordering of token pairs (`constants.rs`).
 *
 * A Solana `Pubkey` is 32 bytes; its derived `PartialOrd` compares the
 * byte arrays lexicographically. Pools are keyed by the canonical pair,
 * the two mints in ascending order, so the pool for (A, B) is the pool
 * for (B, A).
 */
module Pairs {
  import opened Machine

  type Pubkey = s: seq<U8> | |s| == 32 witness seq(32, i => 0)

  /** Lexicographic order on byte strings, as Rust orders byte arrays. */
  predicate Less(a: seq<U8>, b: seq<U8>)
    decreases |a|
  {
    |b| > 0 && (|a| == 0 || a[0] < b[0] || (a[0] == b[0] && Less(a[1..], b[1..])))
  }

  /** No key is below itself. */
  lemma {:induction false} LessIrreflexive(a: seq<U8>)
    ensures !Less(a, a)
    decreases |a|
  {
    if |a| > 0 {
      LessIrreflexive(a[1..]);
    }
  }

  /** Two keys are never below each other. */
  lemma {:induction false} LessAsymmetric(a: seq<U8>, b: seq<U8>)
    ensures !(Less(a, b) && Less(b, a))
    decreases |a|
  {
    if |a| > 0 && |b| > 0 && a[0] == b[0] {
      LessAsymmetric(a[1..], b[1..]);
    }
  }

  /** Of two different keys of the same length, one is below the other. */
  lemma {:induction false} LessTotal(a: seq<U8>, b: seq<U8>)
    requires |a| == |b|
    ensures a != b ==> Less(a, b) || Less(b, a)
    decreases |a|
  {
    if a != b && a[0] == b[0] {
      assert a == [a[0]] + a[1..] && b == [b[0]] + b[1..];
      LessTotal(a[1..], b[1..]);
    }
  }

  /** The order is transitive. */
  lemma {:induction false} LessTransitive(a: seq<U8>, b: seq<U8>, c: seq<U8>)
    requires Less(a, b) && Less(b, c)
    ensures Less(a, c)
    decreases |a|
  {
    if |a| > 0 && a[0] == b[0] && b[0] == c[0] {
      LessTransitive(a[1..], b[1..], c[1..]);
    }
  }

  /** `is_valid_pair`: a pool needs two different mints. */
  predicate IsValidPair(mintA: Pubkey, mintB: Pubkey)
    ensures IsValidPair(mintA, mintB) <==> Less(mintA, mintB) || Less(mintB, mintA)
  {
    LessIrreflexive(mintA);
    LessTotal(mintA, mintB);
    mintA != mintB
  }

  /** `get_canonical_pair`: the two mints in ascending order. */
  function CanonicalPair(mintA: Pubkey, mintB: Pubkey): (r: (Pubkey, Pubkey))
    ensures r == (mintA, mintB) || r == (mintB, mintA)
    ensures !Less(r.1, r.0)
    ensures IsValidPair(mintA, mintB) ==> Less(r.0, r.1)
  {
    LessAsymmetric(mintA, mintB);
    LessTotal(mintA, mintB);
    LessIrreflexive(mintA);
    if Less(mintA, mintB) then (mintA, mintB) else (mintB, mintA)
  }

  /** The canonical pair does not depend on the order the mints are given
      in, and a canonical pair is its own canonical pair. */
  lemma CanonicalPairSymmetric(mintA: Pubkey, mintB: Pubkey)
    ensures CanonicalPair(mintA, mintB) == CanonicalPair(mintB, mintA)
    ensures CanonicalPair(CanonicalPair(mintA, mintB).0, CanonicalPair(mintA, mintB).1) == CanonicalPair(mintA, mintB)
  {
    LessAsymmetric(mintA, mintB);
    LessTotal(mintA, mintB);
  }
}
