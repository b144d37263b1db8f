/** Levenshtein distance as `distance` in src/lib/classify.ts computes it:
    a recursion over a pair of positions, with equal characters consumed
    together and otherwise one plus the cheapest of deletion, insertion and
    substitution. The memo table is an evaluation strategy and is not part of
    the definition; `ComputeDistance` is the table-driven evaluation. */
module EditDistance {

  function Min3(x: nat, y: nat, z: nat): nat {
    if x <= y && x <= z then x else if y <= z then y else z
  }

  function Max(x: int, y: int): int {
    if x >= y then x else y
  }

  function Abs(x: int): nat {
    if x >= 0 then x else -x
  }

  /** Distance between the suffixes `a[i..]` and `b[j..]`. It is never less
      than the difference of their lengths and never more than the longer. */
  function Dist(a: string, b: string, i: nat, j: nat): (d: nat)
    requires i <= |a| && j <= |b|
    ensures Abs((|a| - i) - (|b| - j)) <= d <= Max(|a| - i, |b| - j)
    decreases |a| - i + |b| - j
  {
    if i == |a| || j == |b| then |a| + |b| - i - j
    else if a[i] == b[j] then Dist(a, b, i + 1, j + 1)
    else 1 + Min3(Dist(a, b, i + 1, j), Dist(a, b, i, j + 1), Dist(a, b, i + 1, j + 1))
  }

  /** `distance(a, b)`: the recursion started at the beginning of both
      strings. */
  function Distance(a: string, b: string): (d: nat)
    ensures Abs(|a| - |b|) <= d <= Max(|a|, |b|)
  {
    Dist(a, b, 0, 0)
  }

  /** Once one side is exhausted the distance is what remains of the other. */
  lemma DistanceAtEnd(a: string, b: string, i: nat, j: nat)
    requires i <= |a| && j <= |b|
    requires i == |a| || j == |b|
    ensures Dist(a, b, i, j) == (|a| - i) + (|b| - j)
    ensures Distance(a, "") == |a| && Distance("", b) == |b|
  {
  }

  lemma {:induction false} DistSelf(a: string, i: nat)
    requires i <= |a|
    ensures Dist(a, a, i, i) == 0
    decreases |a| - i
  {
    if i < |a| {
      DistSelf(a, i + 1);
    }
  }

  lemma {:induction false} DistSymmetric(a: string, b: string, i: nat, j: nat)
    requires i <= |a| && j <= |b|
    ensures Dist(a, b, i, j) == Dist(b, a, j, i)
    decreases |a| - i + |b| - j
  {
    if i < |a| && j < |b| {
      DistSymmetric(a, b, i + 1, j + 1);
      if a[i] != b[j] {
        DistSymmetric(a, b, i + 1, j);
        DistSymmetric(a, b, i, j + 1);
      }
    }
  }

  lemma {:induction false} DistZero(a: string, b: string, i: nat, j: nat)
    requires i <= |a| && j <= |b|
    requires Dist(a, b, i, j) == 0
    ensures a[i..] == b[j..]
    decreases |a| - i + |b| - j
  {
    if i < |a| && j < |b| {
      DistZero(a, b, i + 1, j + 1);
      assert a[i..] == [a[i]] + a[i + 1..] && b[j..] == [b[j]] + b[j + 1..];
    }
  }

  /** The distance is zero exactly between equal strings, and it is symmetric. */
  lemma DistanceMetric(a: string, b: string)
    ensures Distance(a, b) == 0 <==> a == b
    ensures Distance(a, b) == Distance(b, a)
    ensures Distance(a, a) == 0
  {
    DistSelf(a, 0);
    DistSymmetric(a, b, 0, 0);
    if Distance(a, b) == 0 {
      DistZero(a, b, 0, 0);
    }
    if a == b {
      DistSelf(a, 0);
    }
  }

  /** The suffix distances of `a[i..]` to every suffix of `b`: entry `m` is
      `Dist(a, b, i, m)`. */
  ghost predicate IsRow(a: string, b: string, i: nat, row: seq<nat>)
    requires i <= |a|
  {
    |row| == |b| + 1 && forall m :: 0 <= m <= |b| ==> row[m] == Dist(a, b, i, m)
  }

  /** One step of the table: the row for `a[i..]` from the row for `a[i+1..]`,
      filled from the end of `b` towards its start. */
  method PreviousRow(a: string, b: string, i: nat, next: seq<nat>) returns (row: seq<nat>)
    requires i < |a| && IsRow(a, b, i + 1, next)
    ensures IsRow(a, b, i, row)
  {
    var cells := new nat[|b| + 1];
    cells[|b|] := |a| - i;
    var j := |b|;
    while j > 0
      invariant 0 <= j <= |b|
      invariant forall m :: j <= m <= |b| ==> cells[m] == Dist(a, b, i, m)
    {
      j := j - 1;
      if a[i] == b[j] {
        cells[j] := next[j + 1];
      } else {
        cells[j] := 1 + Min3(next[j], cells[j + 1], next[j + 1]);
      }
    }
    row := cells[..];
  }

  /** Evaluates the distance bottom-up, one row of suffix distances at a time,
      from the end of `a` towards its start. */
  method ComputeDistance(a: string, b: string) returns (d: nat)
    ensures d == Distance(a, b)
  {
    var next: seq<nat> := seq(|b| + 1, m requires 0 <= m <= |b| => |b| - m);
    var i := |a|;
    while i > 0
      invariant 0 <= i <= |a|
      invariant IsRow(a, b, i, next)
    {
      i := i - 1;
      next := PreviousRow(a, b, i, next);
    }
    d := next[0];
  }
}
