/** Machine words: 256-bit unsigned integers with the wrap-around rules of holiman/uint256,
    20-byte addresses, 32-byte public keys and hashes, and 64-bit integers. */
module Words {
  const WORD: nat := 0x1_0000_0000_0000_0000_0000_0000_0000_0000_0000_0000_0000_0000_0000_0000_0000_0000
  const ADDRESS_SPACE: nat := 0x1_0000_0000_0000_0000_0000_0000_0000_0000_0000_0000
  const TWO64: nat := 0x1_0000_0000_0000_0000
  const MAX_INT64: nat := 0x7FFF_FFFF_FFFF_FFFF

  type Word = x: nat | x < WORD
  type Address = x: nat | x < ADDRESS_SPACE
  type Int64 = x: int | 0 - MAX_INT64 - 1 <= x <= MAX_INT64

  datatype Option<+T> = None | Some(value: T)

  function Add(a: Word, b: Word): (r: Word)
    ensures a + b < WORD ==> r == a + b
  {
    (a + b) % WORD
  }

  function Sub(a: Word, b: Word): (r: Word)
    ensures b <= a ==> r == a - b
    ensures a < b ==> r == a - b + WORD
  {
    if b <= a then a - b else a - b + WORD
  }

  // Products and quotients by repetition: the solver sees them only where a proof asks for
  // their arithmetic with TimesIsProduct or QuotientIsDivision.
  function Times(a: nat, b: nat): nat {
    if b == 0 then 0 else Times(a, b - 1) + a
  }

  function Quotient(a: nat, b: nat): (r: nat)
    requires b != 0
    ensures r <= a
  {
    if a < b then 0 else Quotient(a - b, b) + 1
  }

  lemma {:induction false} TimesIsProduct(a: nat, b: nat)
    ensures Times(a, b) == a * b
  {
    if b != 0 {
      TimesIsProduct(a, b - 1);
      assert a * b == a * (b - 1) + a;
    }
  }

  lemma {:induction false} QuotientIsDivision(a: nat, b: nat)
    requires b != 0
    ensures Quotient(a, b) == a / b
  {
    if a >= b {
      QuotientIsDivision(a - b, b);
      DivisionStep(a, b);
    }
  }

  lemma DivisionStep(a: nat, b: nat)
    requires b != 0 && b <= a
    ensures a / b == (a - b) / b + 1
  {
    var q, r := (a - b) / b, (a - b) % b;
    assert a - b == q * b + r;
    assert a == (q + 1) * b + r;
    DivisionIsUnique(a, b, q + 1, r);
  }

  lemma DivisionIsUnique(a: nat, b: nat, q: nat, r: nat)
    requires b != 0 && r < b && a == q * b + r
    ensures a / b == q
  {
    var q' := a / b;
    assert q' * b <= a < q' * b + b;
    if q' > q {
      MulMono(q + 1, q', b);
    } else if q' < q {
      MulMono(q' + 1, q, b);
    }
  }

  lemma MulMono(a: nat, b: nat, c: nat)
    requires a <= b
    ensures a * c <= b * c
  {
  }

  function Mul(a: Word, b: Word): Word {
    Times(a, b) % WORD
  }

  // Division by zero yields zero.
  function Div(a: Word, b: Word): (r: Word)
    ensures r <= a
  {
    if b == 0 then 0 else Quotient(a, b)
  }

  lemma MulIs(a: Word, b: Word)
    ensures Mul(a, b) == (a * b) % WORD
  {
    TimesIsProduct(a, b);
  }

  lemma DivIs(a: Word, b: Word)
    ensures Div(a, b) == if b == 0 then 0 else a / b
  {
    if b != 0 {
      QuotientIsDivision(a, b);
    }
  }

  // uint64(x) of a possibly wrapped int64: both conversions are reductions modulo 2^64.
  function Uint64(x: int): (r: Word)
    ensures 0 <= x < TWO64 ==> r == x
  {
    x % TWO64
  }

  // ----- Wrap-around as a multiple of 2^256 -----

  function Wraps(k: int): int {
    k * WORD
  }

  // Equal modulo 2^256.
  ghost predicate Congruent(a: int, b: int) {
    exists k :: a == b + Wraps(k)
  }

  lemma WrapsSum(j: int, k: int)
    ensures Wraps(j) + Wraps(k) == Wraps(j + k)
  {
  }

  lemma WrappedAdd(a: Word, b: Word) returns (k: int)
    ensures Add(a, b) == a + b + Wraps(k)
  {
    k := if a + b < WORD then 0 else 0 - 1;
  }

  lemma WrappedSub(a: Word, b: Word) returns (k: int)
    ensures Sub(a, b) == a - b + Wraps(k)
  {
    k := if b <= a then 0 else 1;
  }

  // A word that is congruent to a number in range is that number.
  lemma WordIsUnique(a: Word, b: Word, k: int)
    requires a == b + Wraps(k)
    ensures a == b
  {
  }

  lemma MulAtMost(a: Word, b: Word)
    ensures Mul(a, b) <= a * b
  {
    MulIs(a, b);
    var p: nat := a * b;
    assert p == p / WORD * WORD + p % WORD;
  }
}
