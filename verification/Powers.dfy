/** Powers of a natural number. */
module Powers {

  function Pow(b: nat, k: nat): (p: nat)
    ensures b > 0 ==> p > 0
  {
    if k == 0 then 1 else b * Pow(b, k - 1)
  }

  lemma {:induction false} PowAdd(b: nat, j: nat, k: nat)
    ensures Pow(b, j + k) == Pow(b, j) * Pow(b, k)
  {
    if j > 0 {
      assert Pow(b, j + k) == b * Pow(b, j - 1 + k);
      assert Pow(b, j) == b * Pow(b, j - 1);
      hide Pow;
      PowAdd(b, j - 1, k);
      Associate(b, Pow(b, j - 1), Pow(b, k));
    }
  }

  lemma Associate(a: nat, b: nat, c: nat)
    ensures a * (b * c) == (a * b) * c
  {
  }
}
