/** Facts about sequence concatenation and slicing and about natural-number
    multiplication and division that the layout proofs use. */
module Basics {

  /** Concatenation is associative. */
  lemma AppendAssoc(a: string, b: string, c: string)
    ensures a + b + c == a + (b + c)
  {
  }

  /** Adjacent slices join up. */
  lemma SliceJoin(s: string, a: nat, b: nat, c: nat)
    requires a <= b <= c <= |s|
    ensures s[a..b] + s[b..c] == s[a..c]
  {
  }

  /** A text made of a part equal to `p` and a part equal to `q + tail` is
      `p + q + tail`. */
  lemma JoinParts(whole: string, first: string, rest: string, p: string, q: string, tail: string)
    requires whole == first + rest && first == p && rest == q + tail
    ensures whole == p + q + tail
  {
    AppendAssoc(p, q, tail);
  }

  /** Slicing within a prefix `p` slices the prefix. */
  lemma SliceBefore(p: string, q: string, len: nat)
    requires len < |p|
    ensures (p + q)[..len] == p[..len]
    ensures (p + q)[len] == p[len]
  {
  }

  /** Slicing past a prefix `p` slices the rest: position `t` of `p + q` is
      position `a` of `q`. */
  lemma SliceAfter(p: string, q: string, t: nat, a: nat, len: nat)
    requires t == |p| + a && a + len <= |q|
    ensures (p + q)[t..t + len] == q[a..a + len]
    ensures a + len < |q| ==> (p + q)[t + len] == q[a + len]
  {
  }

  /** Multiplying by one more adds one more factor. */
  lemma MulSucc(a: nat, c: nat)
    ensures (a + 1) * c == a * c + c
  {
  }

  /** Multiplying by one fewer takes one factor away. */
  lemma MulPred(a: nat, c: nat)
    requires a > 0
    ensures a * c == (a - 1) * c + c
  {
  }

  /** Multiplication by a natural number is monotone. */
  lemma {:induction false} MulMonotone(a: nat, b: nat, c: nat)
    requires a <= b
    ensures a * c <= b * c
    decreases b - a
  {
    if a < b {
      MulSucc(a, c);
      MulMonotone(a + 1, b, c);
    }
  }

  /** Euclidean division by a positive divisor splits a number into whole
      divisors and a remainder, and a quotient of at least `h` means the
      number is at least `h` divisors. */
  lemma DivSplit(i: nat, d: nat, h: nat) returns (q: nat, r: nat)
    requires d > 0
    ensures q == i / d && r == i % d
    ensures i == q * d + r && r < d
    ensures i < h * d ==> q < h
  {
    q, r := i / d, i % d;
    if q >= h {
      MulMonotone(h, q, d);
    }
  }
}
