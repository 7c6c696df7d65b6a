/** What several parts of the model share. */
module Common {

  datatype Option<+T> = None | Some(value: T)

  /** `unsigned int` wraps around at this value. */
  const UINT_RANGE: nat := 0x1_0000_0000

  const NUL: char := '\0'

  /** The character that a C pointer to `s` reads at offset `i`. */
  function At(s: string, i: nat): char
  {
    if i < |s| then s[i] else NUL
  }

  lemma {:induction false} SubsetSize(a: set<nat>, b: set<nat>)
    requires a <= b
    ensures |a| <= |b|
  {
    if a != {} {
      var x :| x in a;
      SubsetSize(a - {x}, b - {x});
    }
  }

  // Products and remainders

  /** `j % c`, by repeated subtraction. */
  function Remainder(j: nat, c: nat): (r: nat)
    requires c > 0
    ensures r < c
  {
    if j < c then j else Remainder(j - c, c)
  }

  lemma {:induction false} RemainderIs(j: nat, c: nat)
    requires c > 0
    ensures Remainder(j, c) == j % c
  {
    if j >= c {
      RemainderIs(j - c, c);
      OneRoundLess(j, c);
    }
  }

  lemma OneRoundLess(j: nat, c: nat)
    requires 0 < c <= j
    ensures (j - c) % c == j % c
  {
    var q, r := (j - c) / c, (j - c) % c;
    assert j - c == q * c + r && j == (q + 1) * c + r;
    var d := j / c - (q + 1);
    assert j == j / c * c + j % c && d * c == r - j % c;
    assert d > 0 ==> d * c >= c;
    assert d < 0 ==> d * c + c <= 0;
  }

  /** Numbers less than `c` apart have different remainders. */
  lemma {:induction false} RemaindersApart(a: nat, b: nat, c: nat)
    requires a < b < a + c
    ensures Remainder(a, c) != Remainder(b, c)
    decreases a
  {
    if a >= c {
      RemaindersApart(a - c, b - c, c);
    }
  }

  lemma OneLess(a: int, n: int)
    ensures a * (n - 1) == a * n - a
  {}

  lemma OneMore(n: int, p: int)
    ensures (n + 1) * p == n * p + p
  {}

  lemma ProductNotNegative(a: nat, b: nat)
    ensures a * b >= 0
  {}

  lemma Distribute(a: int, b: int, c: int)
    ensures (a + b) * c == a * c + b * c
  {}
}
