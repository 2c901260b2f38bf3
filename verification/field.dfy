/** Prime-field values, the gate arithmetic the circuits use, and the
    constraint system they append to.

    Field elements are integers in [0, P).  Every gate (`add`, `sub`, `mul`,
    `mul_add`, `select`) is an integer operation reduced modulo P; the
    lemmas at the end let proofs compute over the integers (a commutative
    ring) and reduce once at the end. */
module Field {

  /** Modulus of the scalar field of BN254, the default field of the circuits. */
  const P: int := 21888242871839275222246405745257275088548364400416034343698204186575808495617

  type F = x: int | 0 <= x < P

  /** Witnesses loaded from `u64` inputs. */
  const U64_BOUND: int := 0x1_0000_0000_0000_0000
  type U64 = x: int | 0 <= x < U64_BOUND

  /** `F::from(u64)`: the modulus exceeds 2^64, so the embedding is the identity. */
  function FromU64(v: U64): (r: F)
    ensures r as int == v as int
  {
    v
  }

  function FromU64s(vs: seq<U64>): (r: seq<F>)
    ensures |r| == |vs|
    ensures forall i :: 0 <= i < |vs| ==> r[i] as int == vs[i] as int
  {
    seq(|vs|, i requires 0 <= i < |vs| => FromU64(vs[i]))
  }

  function Add(a: F, b: F): F { (a + b) % P }

  function Sub(a: F, b: F): F { (a - b) % P }

  function Mul(a: F, b: F): F { (a * b) % P }

  /** `mul_add(a, b, c) = a * b + c`. */
  function MulAdd(a: F, b: F, c: F): F { (a * b + c) % P }

  /** `select(a, b, sel)`: the gate computes `sel * (a - b) + b`, which is `a`
      when `sel` is one and `b` when `sel` is zero. */
  function Choose(a: F, b: F, sel: F): (r: F)
    ensures sel == 1 ==> r == a
    ensures sel == 0 ==> r == b
  {
    (sel * (a - b) + b) % P
  }

  predicate IsBit(v: F) { v == 0 || v == 1 }

  predicate AllBits(s: seq<F>) { forall i :: 0 <= i < |s| ==> IsBit(s[i]) }

  /** On bits, `mul` is logical and. */
  lemma MulBits(a: F, b: F)
    requires IsBit(a) && IsBit(b)
    ensures Mul(a, b) == (if a == 1 && b == 1 then 1 else 0)
  {
  }

  /** One constraint as the circuit builder emits it, over the values of its cells. */
  datatype Constraint =
    | Equal(a: F, b: F)        // constrain_equal(a, b)
    | Bit(v: F)                // assert_bit(v)
    | IsConst(v: F, c: F)      // assert_is_const(v, c)

  predicate Holds(c: Constraint) {
    match c
    case Equal(a, b) => a == b
    case Bit(v) => IsBit(v)
    case IsConst(v, k) => v == k
  }

  /** A witness satisfies the circuit when every emitted constraint holds. */
  predicate Satisfied(cs: seq<Constraint>) {
    forall i :: 0 <= i < |cs| ==> Holds(cs[i])
  }

  /** Host-side failures: the panics of the Rust circuit builders. */
  datatype Error =
    | LengthMismatch         // assert_eq!/assert! on two lengths
    | TooManyRows            // the row bound of a Merkle tree
    | IndexOutOfBounds       // a Vec index past its end
    | NotABit                // assert! that a mask entry is 0 or 1
    | SubtractionUnderflow   // a usize subtraction below zero

  datatype Result<T> = Ok(value: T) | Err(error: Error)

  lemma SatisfiedAppend(a: seq<Constraint>, b: seq<Constraint>)
    ensures Satisfied(a + b) <==> Satisfied(a) && Satisfied(b)
  {
    if Satisfied(a) && Satisfied(b) {
      forall i | 0 <= i < |a + b| ensures Holds((a + b)[i]) {
        if i >= |a| {
          assert (a + b)[i] == b[i - |a|];
        }
      }
    }
    if Satisfied(a + b) {
      forall i | 0 <= i < |a| ensures Holds(a[i]) {
        assert (a + b)[i] == a[i];
      }
      forall i | 0 <= i < |b| ensures Holds(b[i]) {
        assert (a + b)[|a| + i] == b[i];
      }
    }
  }

  // ---------------------------------------------------------------------
  // Reduction modulo P commutes with the ring operations.

  lemma ModUnique(x: int, q: int, r: int)
    requires x == q * P + r && 0 <= r < P
    ensures x % P == r
  {
  }

  lemma ModAddMultiple(m: int, w: int)
    ensures (m * P + w) % P == w % P
  {
    ModUnique(m * P + w, m + w / P, w % P);
  }

  /** Splitting a factor into quotient and remainder modulo P. */
  lemma SplitProduct(a: int, b: int)
    ensures a * b == a / P * b * P + a % P * b
  {
  }

  lemma ModOfSplit(a: int, q: int, w: int)
    requires a == q * P + w
    ensures a % P == w % P
  {
    ModAddMultiple(q, w);
  }

  lemma ModAddLeft(x: int, y: int)
    ensures ((x % P) + y) % P == (x + y) % P
  {
    ModAddMultiple(x / P, (x % P) + y);
  }

  lemma ModCongruent(x: int, y: int)
    requires x == y
    ensures x % P == y % P
  {
  }

  lemma ModAddBoth(x: int, y: int)
    ensures ((x % P) + (y % P)) % P == (x + y) % P
  {
    ModAddLeft(x, y % P);
    ModAddLeft(y, x);
  }

  /** The integer sum of a column, before any reduction. */
  function Sum(s: seq<F>): int
    decreases |s|
  {
    if |s| == 0 then 0 else Sum(s[..|s| - 1]) + s[|s| - 1]
  }
}
