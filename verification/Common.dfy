/** Types shared by every module of the model. */
module Common {

  datatype Option<+T> = None | Some(value: T)

  /** One octet of a buffer, as the C `unsigned char` value. */
  type byte = x: int | 0 <= x < 256

  /** True when `sub` can be obtained from `s` by deleting elements. */
  ghost predicate IsSubsequence<T>(sub: seq<T>, s: seq<T>) {
    if sub == [] then true
    else if s == [] then false
    else (sub[0] == s[0] && IsSubsequence(sub[1..], s[1..])) || IsSubsequence(sub, s[1..])
  }

  function Pow2(n: nat): (p: nat)
    ensures p > 0
  {
    if n == 0 then 1 else 2 * Pow2(n - 1)
  }

  // ------------------------------------------------------------ remainders

  lemma {:induction false} NextMultiple(n: nat, x: nat, y: nat)
    requires x < y
    ensures n * x + n <= n * y
    decreases y
  {
    Successor(n, y - 1);
    if x < y - 1 {
      NextMultiple(n, x, y - 1);
    }
  }

  lemma Successor(n: nat, y: nat)
    ensures n * (y + 1) == n * y + n
  {
  }

  lemma RemainderIs(a: nat, n: nat, q: nat, r: nat)
    requires a == n * q + r && r < n
    ensures a % n == r
  {
    var q', r' := a / n, a % n;
    assert a == n * q' + r';
    if q' < q {
      NextMultiple(n, q', q);
    } else if q' > q {
      NextMultiple(n, q, q');
    }
  }

  // -------------------------------------------------------- powers of two

  lemma {:induction false} Pow2Splits(j: nat, k: nat)
    requires j <= k
    ensures Pow2(k) == Pow2(j) * Pow2(k - j)
    decreases k - j
  {
    if j < k {
      Pow2Splits(j + 1, k);
      assert Pow2(k - j) == 2 * Pow2(k - (j + 1));
    }
  }

  lemma Pow2Of32()
    ensures Pow2(32) == 0x1_0000_0000
  {
    assert Pow2(8) == 0x100;
    Pow2Splits(8, 16);
    Pow2Splits(16, 32);
  }
}
