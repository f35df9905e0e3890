/** The Pascal-triangle memo of the native solver's header: a square table
    built once and then read by a guarded lookup. */
module CombinationMemo {
  import opened Binomial

  class CombinationMemo {
    var memo: array2<nat>

    /** The memo is square, non-empty and holds C(i, j) at [i, j]. */
    ghost predicate Valid()
      reads this, memo
    {
      memo.Length0 == memo.Length1 >= 1 &&
      forall i, j :: 0 <= i < memo.Length0 && 0 <= j < memo.Length1 ==> memo[i, j] == Choose(i, j)
    }

    /** The default constructor leaves the memo empty until Build is called. */
    constructor ()
      ensures memo.Length0 == 0 && memo.Length1 == 0
    {
      memo := new nat[0, 0];
    }

    /** Allocates an (sz + 1) x (sz + 1) table of zeros, sets [0][0] to 1 and
        fills rows 1..sz by Pascal's rule. */
    method Build(sz: nat)
      modifies this
      ensures fresh(memo)
      ensures memo.Length0 == sz + 1 && memo.Length1 == sz + 1
      ensures Valid()
    {
      var m := new nat[sz + 1, sz + 1]((_, _) => 0);
      m[0, 0] := 1;
      for i := 1 to sz + 1
        invariant forall r, c :: 0 <= r < i && 0 <= c <= sz ==> m[r, c] == Choose(r, c)
        invariant forall r, c :: i <= r <= sz && 0 <= c <= sz ==> m[r, c] == 0
      {
        for j := 0 to i + 1
          invariant forall r, c :: 0 <= r < i && 0 <= c <= sz ==> m[r, c] == Choose(r, c)
          invariant forall c :: 0 <= c < j ==> m[i, c] == Choose(i, c)
          invariant forall c :: j <= c <= sz ==> m[i, c] == 0
          invariant forall r, c :: i < r <= sz && 0 <= c <= sz ==> m[r, c] == 0
        {
          Pascal(i, j);
          m[i, j] := m[i, j] + m[i - 1, j];
          if j > 0 {
            m[i, j] := m[i, j] + m[i - 1, j - 1];
          }
        }
      }
      memo := m;
    }

    /** nCk: 1 for (0, 0), 0 for n <= 0, k < 0 or k > n, and the memo entry
        otherwise, which must lie inside the built table. */
    function NCk(n: int, k: int): (r: nat)
      reads this, memo
      requires Valid()
      requires n <= 0 || k < 0 || k > n || n < memo.Length0
      ensures r == ChooseInt(n, k)
    {
      if n == k && n == 0 then 1
      else if n <= 0 || k < 0 || k > n then 0
      else memo[n, k]
    }
  }
}
