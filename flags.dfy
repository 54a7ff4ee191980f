/** Specification of convert_flag_list: the bitwise OR of the flags that a
    list of constructor indices selects. */
module Flags {

  /** Every index selects an entry of the flag table. */
  predicate InRange(flags: seq<bv32>, xs: seq<int>)
  {
    forall i :: 0 <= i < |xs| ==> 0 <= xs[i] < |flags|
  }

  /** OR of `flags[x]` over the first `n` indices of `xs`, accumulated from
      the front of the list as the source's loop does; 0 when `n` is 0. */
  function FlagsOr(flags: seq<bv32>, xs: seq<int>, n: nat): bv32
    requires InRange(flags, xs) && n <= |xs|
  {
    if n == 0 then 0 else FlagsOr(flags, xs, n - 1) | flags[xs[n - 1]]
  }

  /** Every selected flag is set in the result. */
  lemma {:induction false} FlagsOrCovers(flags: seq<bv32>, xs: seq<int>, n: nat, i: int)
    requires InRange(flags, xs) && n <= |xs| && 0 <= i < n
    ensures Within(flags[xs[i]], FlagsOr(flags, xs, n))
  {
    if i < n - 1 {
      FlagsOrCovers(flags, xs, n - 1, i);
      WithinOr(flags[xs[i]], FlagsOr(flags, xs, n - 1), flags[xs[n - 1]]);
    } else {
      WithinOrSelf(FlagsOr(flags, xs, n - 1), flags[xs[n - 1]]);
    }
  }

  /** Nothing else is set: a mask that contains every selected flag
      contains the result. */
  lemma {:induction false} FlagsOrLeast(flags: seq<bv32>, xs: seq<int>, n: nat, mask: bv32)
    requires InRange(flags, xs) && n <= |xs|
    requires forall i :: 0 <= i < n ==> Within(flags[xs[i]], mask)
    ensures Within(FlagsOr(flags, xs, n), mask)
  {
    if n > 0 {
      FlagsOrLeast(flags, xs, n - 1, mask);
      OrWithin(FlagsOr(flags, xs, n - 1), flags[xs[n - 1]], mask);
    }
  }

  /** Every bit set in `a` is set in `mask`. */
  predicate Within(a: bv32, mask: bv32)
  {
    a & mask == a
  }

  lemma WithinOr(a: bv32, mask: bv32, b: bv32)
    requires Within(a, mask)
    ensures Within(a, mask | b)
  {
  }

  lemma WithinOrSelf(a: bv32, b: bv32)
    ensures Within(b, a | b)
  {
  }

  lemma OrWithin(a: bv32, b: bv32, mask: bv32)
    requires Within(a, mask) && Within(b, mask)
    ensures Within(a | b, mask)
  {
  }
}
