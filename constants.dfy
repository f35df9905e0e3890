/** Shared constants of the Python player: the binomial table, the eight
    neighbour offsets, the closed-cell sentinel and the small records the
    player exchanges with the probability engine. */
module Constants {
  import opened Binomial

  /** Length of every binomial row, and number of rows of the table. */
  const SIZE: nat := 500

  /** The closed-cell sentinel of a cell-state array. */
  const CLOSED: int := -1

  /** The eight neighbour offsets (dy, dx), in the order the board uses them. */
  const DIRS: seq<(int, int)> :=
    [(-1, -1), (-1, 0), (-1, 1), (0, -1), (0, 1), (1, -1), (1, 0), (1, 1)]

  /** The three-valued knowledge of a cell used by the player: safe = 0,
      mine = 1, none = 2. The probability engine uses a different,
      four-valued enumeration of its own. */
  datatype CellStates = Safe | Mine | Undefined
  {
    function Code(): nat
    {
      match this
      case Safe => 0
      case Mine => 1
      case Undefined => 2
    }
  }

  /** The probability engine's answer as the player reads it: the target
      cells and, aligned with them, their mine probabilities. */
  datatype TargetData = TargetData(index: seq<nat>, proba: seq<real>)

  /** Row n of the binomial table, of length `size`, filled by the
      multiplicative recurrence entry(i) = entry(i - 1) * (n - i + 1) / i. */
  method Combination(n: nat, size: nat) returns (ret: seq<nat>)
    requires n < size
    ensures |ret| == size
    ensures ret[0] == 1
    ensures forall i :: 0 <= i < size ==> ret[i] == Choose(n, i)
  {
    var a := new nat[size](_ => 0);
    a[0] := 1;
    for i := 1 to n + 1
      invariant forall j :: 0 <= j < i ==> a[j] == Choose(n, j)
      invariant forall j :: i <= j < size ==> a[j] == 0
    {
      RowStepExact(n, i);
      a[i] := a[i - 1] * (n - i + 1) / i;
    }
    ret := a[..];
  }

  /** True when the first `rows` rows of `table` are the binomial rows 0.. of length SIZE. */
  ghost predicate BinomialRows(table: seq<seq<nat>>, rows: nat)
  {
    |table| == rows &&
    forall r :: 0 <= r < rows ==> |table[r]| == SIZE && forall j :: 0 <= j < SIZE ==> table[r][j] == Choose(r, j)
  }

  /** The table COMBINATION: row i is Combination(i, SIZE), so entry [i][j] is C(i, j). */
  method CombinationTable() returns (table: seq<seq<nat>>)
    ensures |table| == SIZE
    ensures forall i :: 0 <= i < SIZE ==> |table[i]| == SIZE
    ensures forall i, j :: 0 <= i < SIZE && 0 <= j < SIZE ==> table[i][j] == Choose(i, j)
  {
    table := [];
    var i := 0;
    while i < SIZE
      invariant i <= SIZE
      invariant BinomialRows(table, i)
    {
      var row := Combination(i, SIZE);
      table := table + [row];
      i := i + 1;
    }
  }

  /** The rows of the table obey Pascal's rule. */
  lemma TablePascal(table: seq<seq<nat>>, i: nat, j: nat)
    requires |table| == SIZE
    requires forall r :: 0 <= r < SIZE ==> |table[r]| == SIZE
    requires forall r, c :: 0 <= r < SIZE && 0 <= c < SIZE ==> table[r][c] == Choose(r, c)
    requires 1 <= i < SIZE && 1 <= j < SIZE
    ensures table[i][j] == table[i - 1][j - 1] + table[i - 1][j]
  {
    Pascal(i, j);
  }

  /** Row 5 is 1, 5, 10, 10, 5, 1 followed by zeros. */
  lemma RowFive(k: int)
    ensures 0 <= k <= 5 ==> Choose(5, k) == [1, 5, 10, 10, 5, 1][k]
    ensures k > 5 ==> Choose(5, k) == 0
  {
    RowFiveSteps(5);
  }

  /** Walks row n = 5 with the multiplicative recurrence (n is a parameter
      so that the verifier does not evaluate the recursive definition). */
  lemma RowFiveSteps(n: nat)
    requires n == 5
    ensures forall k :: 0 <= k <= 5 ==> Choose(n, k) == [1, 5, 10, 10, 5, 1][k]
  {
    NextEntry(n, 1, 1, 5);
    NextEntry(n, 2, 5, 10);
    NextEntry(n, 3, 10, 10);
    NextEntry(n, 4, 10, 5);
    NextEntry(n, 5, 5, 1);
  }
}
