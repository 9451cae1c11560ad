/**
 * The sdbm string hash (src/hashset.c, sdbm_hash). The C accumulates in an
 * `unsigned long`; the model takes it as 64 bits wide (LP64), so every shift,
 * addition and subtraction wraps modulo 2^64.
 */
module Hashing {

  /** 2^64: the modulus of `unsigned long` arithmetic. */
  const WordModulus: nat := 0x1_0000_0000_0000_0000

  /**
   * The hash as a left fold: the empty string hashes to 0 and appending a
   * character `c` to a string hashing to `h` gives `(h * 65599 + c) mod 2^64`.
   * A character is taken as its code point.
   */
  function Sdbm(s: string): nat
  {
    if s == [] then 0
    else (Sdbm(s[..|s| - 1]) * 65599 + s[|s| - 1] as nat) % WordModulus
  }

  /**
   * One step of the C loop, `hash = c + (hash << 6) + (hash << 16) - hash`,
   * with each operation wrapping modulo 2^64 as unsigned arithmetic does.
   */
  function ShiftStep(hash: nat, c: nat): (r: nat)
    ensures r < WordModulus
  {
    var shl6 := (hash * 64) % WordModulus;
    var shl16 := (hash * 65536) % WordModulus;
    var sum := ((c + shl6) % WordModulus + shl16) % WordModulus;
    (sum - hash) % WordModulus
  }

  /** Reducing one summand first does not change a sum modulo the word modulus M. */
  lemma AddMod(a: int, b: int)
    ensures (a % WordModulus + b) % WordModulus == (a + b) % WordModulus
  {
    var q := a / WordModulus;
    assert a == q * WordModulus + a % WordModulus;
    assert a + b == (a % WordModulus + b) + q * WordModulus;
  }

  /**
   * The shift-and-subtract step of the C loop is multiplication by 65599
   * followed by addition of the character, modulo 2^64.
   */
  lemma ShiftStepIsMultiply(hash: nat, c: nat)
    requires hash < WordModulus
    ensures ShiftStep(hash, c) == (hash * 65599 + c) % WordModulus
  {
    var shl6 := (hash * 64) % WordModulus;
    var shl16 := (hash * 65536) % WordModulus;
    var sum := ((c + shl6) % WordModulus + shl16) % WordModulus;
    calc {
      (c + shl6) % WordModulus;
      { AddMod(hash * 64, c); }
      (c + hash * 64) % WordModulus;
    }
    calc {
      sum;
      { AddMod(c + shl6, shl16); }
      (c + shl6 + shl16) % WordModulus;
      { AddMod(hash * 64, c + shl16); }
      (c + hash * 64 + shl16) % WordModulus;
      { AddMod(hash * 65536, c + hash * 64); }
      (c + hash * 64 + hash * 65536) % WordModulus;
    }
    calc {
      (sum - hash) % WordModulus;
      { AddMod(c + hash * 64 + hash * 65536, -(hash as int)); }
      (c + hash * 64 + hash * 65536 - hash) % WordModulus;
      (hash * 65599 + c) % WordModulus;
    }
  }

  /**
   * sdbm_hash: runs the C loop over the key and returns the fold `Sdbm`,
   * which is below 2^64.
   */
  method SdbmHash(key: string) returns (hash: nat)
    ensures hash == Sdbm(key) && hash < WordModulus
  {
    hash := 0;
    var i := 0;
    while i < |key|
      invariant i <= |key|
      invariant hash == Sdbm(key[..i]) && hash < WordModulus
    {
      var c := key[i] as nat;
      ShiftStepIsMultiply(hash, c);
      assert key[..i + 1][..i] == key[..i];
      hash := ShiftStep(hash, c);
      i := i + 1;
    }
    assert key[..i] == key;
  }
}
