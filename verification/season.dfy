/** Season aggregation (`transposeToRows` in src/lib/ludus.ts): rounds are
    grouped into segments wherever the round number strictly drops, each
    segment's standings are transposed into a ranking table, and a running
    rank carries over from one segment to the next. */
module Season {
  import opened Wrappers
  import opened Standings

  /** A ranking table: one row per finishing position, one column per round. */
  type Table = seq<seq<Entry>>

  /** What `Array(rows).fill('')` leaves in a cell nobody writes. */
  const Pad: Entry := Some("")

  /** The longest row, or 0 for no rows (the source's `reduce`). */
  function MaxLen(m: seq<seq<Entry>>): (n: nat)
    ensures forall i :: 0 <= i < |m| ==> |m[i]| <= n
    ensures |m| == 0 ==> n == 0
    ensures |m| > 0 ==> exists i :: 0 <= i < |m| && |m[i]| == n
  {
    if |m| == 0 then 0
    else
      var init := m[..|m| - 1];
      var prev := MaxLen(init);
      var last := |m[|m| - 1]|;
      assert forall i :: 0 <= i < |m| - 1 ==> init[i] == m[i];
      assert |init| > 0 ==> exists i :: 0 <= i < |m| && |m[i]| == prev by {
        if |init| > 0 {
          var i :| 0 <= i < |init| && |init[i]| == prev;
          assert |m[i]| == prev;
        }
      }
      if prev >= last then prev else last
  }

  /** Entry `[j][i]` is `m[i][j]` where row `i` is long enough, else `Pad`. */
  function Transposed(m: seq<seq<Entry>>): Table {
    seq(MaxLen(m), j requires 0 <= j < MaxLen(m) =>
      seq(|m|, i requires 0 <= i < |m| => if j < |m[i]| then m[i][j] else Pad))
  }

  /** `result` is a `cols`-by-`|matrix|` table whose columns before `i` hold
      the copied rows of `matrix`, padded, and whose other cells are `Pad`. */
  ghost predicate FilledUpTo(result: Table, matrix: seq<seq<Entry>>, cols: nat, i: nat, j: nat) {
    && |result| == cols
    && (forall c :: 0 <= c < cols ==> |result[c]| == |matrix|)
    && forall c, k {:trigger result[c][k]} :: 0 <= c < cols && 0 <= k < |matrix| ==>
         result[c][k] == if (k < i || (k == i && c < j)) && c < |matrix[k]| then matrix[k][c] else Pad
  }

  /** The inner loop of `transpose`: row `i` of `matrix` becomes column `i`. */
  method CopyRow(result: Table, matrix: seq<seq<Entry>>, cols: nat, i: nat) returns (filled: Table)
    requires i < |matrix| && |matrix[i]| <= cols
    requires FilledUpTo(result, matrix, cols, i, 0)
    ensures FilledUpTo(filled, matrix, cols, i + 1, 0)
  {
    filled := result;
    for j := 0 to |matrix[i]|
      invariant FilledUpTo(filled, matrix, cols, i, j)
    {
      FillCell(filled, matrix, cols, i, j);
      filled := filled[j := filled[j][i := matrix[i][j]]];
    }
    RowFilled(filled, matrix, cols, i);
  }

  /** Copying cell `(i, j)` into column `i` extends the filled region by
      one cell. */
  lemma FillCell(result: Table, matrix: seq<seq<Entry>>, cols: nat, i: nat, j: nat)
    requires i < |matrix| && j < |matrix[i]| <= cols
    requires FilledUpTo(result, matrix, cols, i, j)
    ensures FilledUpTo(result[j := result[j][i := matrix[i][j]]], matrix, cols, i, j + 1)
  {
    var next := result[j := result[j][i := matrix[i][j]]];
    forall c, k | 0 <= c < cols && 0 <= k < |matrix|
      ensures next[c][k] == if (k < i || (k == i && c < j + 1)) && c < |matrix[k]| then matrix[k][c] else Pad
    {
      var was := if (k < i || (k == i && c < j)) && c < |matrix[k]| then matrix[k][c] else Pad;
      assert result[c][k] == was;
      if c == j && k == i {
      } else if c == j {
        assert next[c][k] == result[c][k];
      } else {
        assert next[c] == result[c];
      }
    }
  }

  /** Once every cell of row `i` is copied, the filled region is the rows
      before `i + 1`. */
  lemma RowFilled(result: Table, matrix: seq<seq<Entry>>, cols: nat, i: nat)
    requires i < |matrix| && |matrix[i]| <= cols
    requires FilledUpTo(result, matrix, cols, i, |matrix[i]|)
    ensures FilledUpTo(result, matrix, cols, i + 1, 0)
  {
    forall c, k | 0 <= c < cols && 0 <= k < |matrix|
      ensures result[c][k] == if k < i + 1 && c < |matrix[k]| then matrix[k][c] else Pad
    {
      assert result[c][k] == if (k < i || (k == i && c < |matrix[i]|)) && c < |matrix[k]| then matrix[k][c] else Pad;
    }
  }

  /** The source's `transpose`: a table of `Pad`s of the right shape, then
      every existing cell copied across. */
  method Transpose(matrix: seq<seq<Entry>>) returns (result: Table)
    ensures |result| == MaxLen(matrix)
    ensures forall j :: 0 <= j < |result| ==> |result[j]| == |matrix|
    ensures forall j, i :: 0 <= j < |result| && 0 <= i < |matrix| ==>
              result[j][i] == if j < |matrix[i]| then matrix[i][j] else Pad
    ensures result == Transposed(matrix)
  {
    var rows := |matrix|;
    var cols := 0;
    for i := 0 to rows
      invariant cols == MaxLen(matrix[..i])
    {
      assert matrix[..i + 1][..i] == matrix[..i];
      cols := if cols >= |matrix[i]| then cols else |matrix[i]|;
    }
    assert matrix[..rows] == matrix;
    result := seq(cols, j => seq(rows, i => Pad));
    for i := 0 to rows
      invariant FilledUpTo(result, matrix, cols, i, 0)
    {
      result := CopyRow(result, matrix, cols, i);
    }
    forall j | 0 <= j < cols
      ensures result[j] == Transposed(matrix)[j]
    {
    }
  }

  /** An `n`-by-`k` grid transposes to a `k`-by-`n` one, and for `k > 0`
      transposing twice gives the grid back. */
  lemma TransposeRectangular(m: seq<seq<Entry>>, k: nat)
    requires forall i :: 0 <= i < |m| ==> |m[i]| == k
    ensures |m| > 0 ==> |Transposed(m)| == k
    ensures forall j :: 0 <= j < |Transposed(m)| ==> |Transposed(m)[j]| == |m|
    ensures |m| > 0 && k > 0 ==> Transposed(Transposed(m)) == m
  {
    if |m| > 0 && k > 0 {
      var t := Transposed(m);
      assert |t| == k;
      assert MaxLen(t) == |m| by {
        var i :| 0 <= i < |t| && |t[i]| == MaxLen(t);
      }
      var tt := Transposed(t);
      assert |tt| == |m|;
      forall i | 0 <= i < |m|
        ensures tt[i] == m[i]
      {
        assert |tt[i]| == |t| == |m[i]|;
      }
    }
  }

  /** Why `transposeToRows` throws: the league of a closing segment is
      missing (`endsWith` of `undefined`), or a "b" league closes with no
      earlier table to subtract. */
  datatype Failure = LeagueUndefined | NoPreviousTable

  /** The `prevMeta` the loop starts from. */
  const InitialMeta: Meta := Meta(Some(0), Some(""), "", None)

  /** JavaScript's `>` on round numbers: false whenever either is NaN. */
  function Greater(x: Option<nat>, y: Option<nat>): (b: bool)
    ensures x.None? || y.None? ==> !b
    ensures x.Some? && y.Some? ==> (b <==> x.value > y.value)
  {
    x.Some? && y.Some? && x.value > y.value
  }

  predicate EndsWithB(league: string) {
    |league| > 0 && league[|league| - 1] == 'b'
  }

  function StandingsOf(rounds: seq<Round>): seq<seq<Entry>> {
    seq(|rounds|, i requires 0 <= i < |rounds| => rounds[i].standings)
  }

  /** The loop's variables: `result`, `prevMeta`, `group` and `rank`. */
  datatype State = State(result: seq<(Meta, Table)>, prev: Meta, group: seq<seq<Entry>>, rank: int)

  const Start: State := State([], InitialMeta, [], 1)

  /** Closing the open segment: its last meta gets the running rank (less the
      previous table's height for a "b" league), its standings are
      transposed, and the running rank grows by the new table's height. */
  function Close(st: State): (r: Result<State, Failure>)
    ensures r.Failure? <==> st.prev.league.None? || (EndsWithB(st.prev.league.value) && |st.result| == 0)
    ensures r.Success? ==>
      && |r.value.result| == |st.result| + 1
      && r.value.result[..|st.result|] == st.result
      && r.value.result[|st.result|].0.rank.Some?
      && r.value.result[|st.result|].0.(rank := None) == st.prev.(rank := None)
      && r.value.result[|st.result|].1 == Transposed(st.group)
      && r.value.prev == st.prev && r.value.group == []
      && r.value.rank == st.rank + |Transposed(st.group)|
  {
    match st.prev.league
    case None => Failure(LeagueUndefined)
    case Some(league) =>
      if EndsWithB(league) && |st.result| == 0 then Failure(NoPreviousTable)
      else
        var rank := if EndsWithB(league) then st.rank - |st.result[|st.result| - 1].1| else st.rank;
        var rows := Transposed(st.group);
        Success(State(st.result + [(st.prev.(rank := Some(rank)), rows)], st.prev, [], st.rank + |rows|))
  }

  /** One iteration of the loop over rounds. */
  function Step(st: State, round: Round): (r: Result<State, Failure>)
    ensures r.Failure? ==> Greater(st.prev.round, round.meta.round)
    ensures !Greater(st.prev.round, round.meta.round) ==>
      r.Success? && r.value.result == st.result && r.value.group == st.group + [round.standings]
    ensures Greater(st.prev.round, round.meta.round) && r.Success? ==>
      |r.value.result| == |st.result| + 1 && r.value.group == [round.standings]
    ensures r.Success? ==> r.value.prev == round.meta
    ensures r.Success? && st.prev.sex != round.meta.sex ==> r.value.rank == 1
  {
    var closed :- if Greater(st.prev.round, round.meta.round) then Close(st) else Success(st);
    var rank := if st.prev.sex != round.meta.sex then 1 else closed.rank;
    Success(State(closed.result, round.meta, closed.group + [round.standings], rank))
  }

  /** The loop state after the first `n` rounds. */
  function Process(rounds: seq<Round>, n: nat): (r: Result<State, Failure>)
    requires n <= |rounds|
    ensures r.Success? ==> |r.value.result| <= n && |r.value.group| <= n
    ensures r.Success? && n > 0 ==> r.value.prev == rounds[n - 1].meta && |r.value.group| >= 1
  {
    if n == 0 then Success(Start)
    else
      var st :- Process(rounds, n - 1);
      Step(st, rounds[n - 1])
  }

  // ---------------------------------------------------------------------
  // The same computation described by positions in the round sequence.
  // ---------------------------------------------------------------------

  function PrevMeta(rounds: seq<Round>, t: nat): Meta
    requires t <= |rounds|
  {
    if t == 0 then InitialMeta else rounds[t - 1].meta
  }

  /** Round `t` starts a new segment: its number is below the previous one. */
  predicate IsBreak(rounds: seq<Round>, t: nat)
    requires t < |rounds|
  {
    Greater(PrevMeta(rounds, t).round, rounds[t].meta.round)
  }

  /** Round `t` resets the running rank: its sex differs from the previous. */
  predicate IsReset(rounds: seq<Round>, t: nat)
    requires t < |rounds|
  {
    PrevMeta(rounds, t).sex != rounds[t].meta.sex
  }

  /** Where the segment still open after `n` rounds starts: the last break
      before `n`, or 0. No break lies strictly inside the segment. */
  function SegmentStart(rounds: seq<Round>, n: nat): (s: nat)
    requires n <= |rounds|
    ensures s <= n && (n > 0 ==> s < n)
    ensures s > 0 ==> IsBreak(rounds, s)
    ensures forall t :: s < t < n ==> !IsBreak(rounds, t)
  {
    if n == 0 then 0
    else if IsBreak(rounds, n - 1) then n - 1
    else SegmentStart(rounds, n - 1)
  }

  /** Height of the table closed by round `p`, or 0 if `p` closes nothing. */
  function CloseRows(rounds: seq<Round>, p: nat): nat
    requires p < |rounds|
  {
    if IsBreak(rounds, p) then MaxLen(StandingsOf(rounds[SegmentStart(rounds, p)..p])) else 0
  }

  /** The last reset among the first `n` rounds, or -1. */
  function LastReset(rounds: seq<Round>, n: nat): (r: int)
    requires n <= |rounds|
    ensures -1 <= r < n
    ensures r >= 0 ==> IsReset(rounds, r)
    ensures forall t :: r < t < n ==> !IsReset(rounds, t)
  {
    if n == 0 then -1
    else if IsReset(rounds, n - 1) then n - 1
    else LastReset(rounds, n - 1)
  }

  function SumCloses(rounds: seq<Round>, lo: nat, hi: nat): nat
    requires hi <= |rounds|
    decreases hi
  {
    if hi <= lo then 0 else SumCloses(rounds, lo, hi - 1) + CloseRows(rounds, hi - 1)
  }

  /** The running rank after `n` rounds: one plus the heights of the tables
      closed since the last change of sex. A table closed by the round that
      changes sex does not count: the reset follows the close. */
  function RunningRank(rounds: seq<Round>, n: nat): int
    requires n <= |rounds|
  {
    1 + SumCloses(rounds, (LastReset(rounds, n) + 1) as nat, n)
  }

  /** Some segment was closed before the one round `p` closes. */
  predicate HasEarlierBreak(rounds: seq<Round>, p: nat)
    requires p < |rounds|
  {
    IsBreak(rounds, SegmentStart(rounds, p))
  }

  /** Closing at round `p` throws. */
  predicate CloseFails(rounds: seq<Round>, p: nat)
    requires p < |rounds|
  {
    && IsBreak(rounds, p)
    && (|| PrevMeta(rounds, p).league.None?
        || (EndsWithB(PrevMeta(rounds, p).league.value) && !HasEarlierBreak(rounds, p)))
  }

  predicate Fails(rounds: seq<Round>) {
    exists p :: 0 <= p < |rounds| && CloseFails(rounds, p)
  }

  predicate NoFailBefore(rounds: seq<Round>, n: nat)
    requires n <= |rounds|
  {
    forall p :: 0 <= p < n ==> !CloseFails(rounds, p)
  }

  /** The rank recorded for the segment round `p` closes. */
  function ClosedRank(rounds: seq<Round>, p: nat): int
    requires p < |rounds| && IsBreak(rounds, p) && !CloseFails(rounds, p)
  {
    var league := PrevMeta(rounds, p).league.value;
    RunningRank(rounds, p) - (if EndsWithB(league) then CloseRows(rounds, SegmentStart(rounds, p)) else 0)
  }

  /** The pair emitted when round `p` closes a segment: the segment's last
      meta with its rank, and its transposed standings. */
  function ClosedPair(rounds: seq<Round>, p: nat): (Meta, Table)
    requires p < |rounds| && IsBreak(rounds, p) && !CloseFails(rounds, p)
  {
    (PrevMeta(rounds, p).(rank := Some(ClosedRank(rounds, p))),
     Transposed(StandingsOf(rounds[SegmentStart(rounds, p)..p])))
  }

  /** The pairs of the segments closed within the first `n` rounds. */
  function Closed(rounds: seq<Round>, n: nat): seq<(Meta, Table)>
    requires n <= |rounds| && NoFailBefore(rounds, n)
  {
    if n == 0 then []
    else if IsBreak(rounds, n - 1) then Closed(rounds, n - 1) + [ClosedPair(rounds, n - 1)]
    else Closed(rounds, n - 1)
  }

  /** The whole output: every closed segment, then the open one flushed with
      the last round's meta as it is. */
  function Expected(rounds: seq<Round>): seq<(Meta, Table)>
    requires !Fails(rounds)
  {
    var n := |rounds|;
    Closed(rounds, n) + [(PrevMeta(rounds, n), Transposed(StandingsOf(rounds[SegmentStart(rounds, n)..n])))]
  }

  // ---------------------------------------------------------------------
  // The loop computes the positional description.
  // ---------------------------------------------------------------------

  /** A reset sets the running rank to 1; otherwise it grows by the height of
      the table the round closes, if any. */
  lemma RankStep(rounds: seq<Round>, n: nat)
    requires n < |rounds|
    ensures RunningRank(rounds, n + 1) == if IsReset(rounds, n) then 1 else RunningRank(rounds, n) + CloseRows(rounds, n)
  {
    if !IsReset(rounds, n) {
      assert LastReset(rounds, n + 1) == LastReset(rounds, n);
    }
  }

  /** There are closed tables exactly when a break came earlier, and the last
      one is the table closed by that break. */
  lemma {:induction false} ClosedLast(rounds: seq<Round>, n: nat)
    requires n <= |rounds| && NoFailBefore(rounds, n)
    ensures var c := Closed(rounds, n); var q := SegmentStart(rounds, n);
      && (|c| > 0 <==> (q < |rounds| && IsBreak(rounds, q)))
      && (|c| > 0 ==> q < |rounds| && IsBreak(rounds, q) && |c[|c| - 1].1| == CloseRows(rounds, q))
  {
    if n > 0 {
      assert NoFailBefore(rounds, n - 1);
      if !IsBreak(rounds, n - 1) {
        ClosedLast(rounds, n - 1);
      }
    }
  }

  lemma StandingsOfSnoc(rounds: seq<Round>, s: nat, n: nat)
    requires s <= n < |rounds|
    ensures StandingsOf(rounds[s..n + 1]) == StandingsOf(rounds[s..n]) + [rounds[n].standings]
  {
  }

  /** The loop's variables after `n` rounds, as the positional description
      gives them. */
  function Described(rounds: seq<Round>, n: nat): State
    requires n <= |rounds| && NoFailBefore(rounds, n)
  {
    State(Closed(rounds, n), PrevMeta(rounds, n),
          StandingsOf(rounds[SegmentStart(rounds, n)..n]), RunningRank(rounds, n))
  }

  /** Closing the described state throws exactly when the positional
      description says it does. */
  lemma CloseFailsAt(rounds: seq<Round>, t: nat)
    requires t < |rounds| && NoFailBefore(rounds, t) && IsBreak(rounds, t)
    ensures Close(Described(rounds, t)).Failure? <==> CloseFails(rounds, t)
  {
    ClosedLast(rounds, t);
    assert t > 0;
  }

  /** Closing the described state appends the closed pair and grows the
      running rank by the new table's height. */
  lemma CloseAt(rounds: seq<Round>, t: nat)
    requires t < |rounds| && NoFailBefore(rounds, t) && IsBreak(rounds, t) && !CloseFails(rounds, t)
    ensures NoFailBefore(rounds, t + 1)
    ensures Close(Described(rounds, t))
            == Success(State(Closed(rounds, t + 1), PrevMeta(rounds, t), [], RunningRank(rounds, t) + CloseRows(rounds, t)))
  {
    var st := Described(rounds, t);
    ClosedLast(rounds, t);
    assert t > 0;
    assert NoFailBefore(rounds, t + 1);
    var group := StandingsOf(rounds[SegmentStart(rounds, t)..t]);
    assert st.group == group;
    assert |Transposed(group)| == CloseRows(rounds, t);
    var league := st.prev.league.value;
    var rank := if EndsWithB(league) then st.rank - |st.result[|st.result| - 1].1| else st.rank;
    assert rank == ClosedRank(rounds, t);
    assert Closed(rounds, t + 1) == st.result + [(st.prev.(rank := Some(rank)), Transposed(group))];
  }

  /** One iteration that closes a segment. */
  lemma BreakStep(rounds: seq<Round>, t: nat)
    requires t < |rounds| && NoFailBefore(rounds, t) && IsBreak(rounds, t)
    ensures Step(Described(rounds, t), rounds[t]).Success? <==> !CloseFails(rounds, t)
    ensures !CloseFails(rounds, t) ==> Step(Described(rounds, t), rounds[t]) == Success(Described(rounds, t + 1))
  {
    var st := Described(rounds, t);
    CloseFailsAt(rounds, t);
    if !CloseFails(rounds, t) {
      CloseAt(rounds, t);
      RankStep(rounds, t);
      var closed := Close(st).value;
      assert SegmentStart(rounds, t + 1) == t;
      assert StandingsOf(rounds[t..t + 1]) == [] + [rounds[t].standings];
      var next := State(closed.result, rounds[t].meta, [] + [rounds[t].standings],
                        if st.prev.sex != rounds[t].meta.sex then 1 else closed.rank);
      assert Step(st, rounds[t]) == Success(next);
      assert next == Described(rounds, t + 1);
    }
  }

  /** One iteration that keeps the segment open. */
  lemma RunStep(rounds: seq<Round>, t: nat)
    requires t < |rounds| && NoFailBefore(rounds, t) && !IsBreak(rounds, t)
    ensures NoFailBefore(rounds, t + 1)
    ensures Step(Described(rounds, t), rounds[t]) == Success(Described(rounds, t + 1))
  {
    RankStep(rounds, t);
    StandingsOfSnoc(rounds, SegmentStart(rounds, t), t);
  }

  /** After `n` rounds the loop has failed exactly when some close among them
      throws, and otherwise its variables are the described ones. */
  lemma {:induction false} ProcessInvariant(rounds: seq<Round>, n: nat)
    requires n <= |rounds|
    ensures Process(rounds, n).Success? <==> NoFailBefore(rounds, n)
    ensures Process(rounds, n).Success? ==> Process(rounds, n).value == Described(rounds, n)
  {
    if n > 0 {
      var t := n - 1;
      ProcessInvariant(rounds, t);
      assert NoFailBefore(rounds, n) <==> NoFailBefore(rounds, t) && !CloseFails(rounds, t);
      match Process(rounds, t)
      case Failure(e) =>
        assert Process(rounds, n) == Failure(e);
      case Success(st) =>
        assert Process(rounds, n) == Step(st, rounds[t]);
        if IsBreak(rounds, t) {
          BreakStep(rounds, t);
        } else {
          RunStep(rounds, t);
        }
    }
  }

  /** `transposeToRows`: the loop over all rounds and the final flush of the
      open segment. It throws exactly when some close throws, and otherwise
      returns the closed segments' pairs followed by the open segment's. */
  function TransposeToRows(rounds: seq<Round>): (r: Result<seq<(Meta, Table)>, Failure>)
    ensures r.Success? <==> !Fails(rounds)
    ensures r.Success? ==> r.value == Expected(rounds)
  {
    ProcessInvariant(rounds, |rounds|);
    var st :- Process(rounds, |rounds|);
    Success(st.result + [(st.prev, Transposed(st.group))])
  }

  // ---------------------------------------------------------------------
  // Properties of the output.
  // ---------------------------------------------------------------------

  /** Adjacent pairs of rounds whose number strictly drops. */
  function Descents(rounds: seq<Round>): nat {
    if |rounds| < 2 then 0
    else Descents(rounds[..|rounds| - 1])
         + (if Greater(rounds[|rounds| - 2].meta.round, rounds[|rounds| - 1].meta.round) then 1 else 0)
  }

  lemma {:induction false} ClosedCount(rounds: seq<Round>, n: nat)
    requires n <= |rounds| && NoFailBefore(rounds, n)
    ensures |Closed(rounds, n)| == Descents(rounds[..n])
  {
    if n > 0 {
      ClosedCount(rounds, n - 1);
      assert rounds[..n][..n - 1] == rounds[..n - 1];
    }
  }

  /** One pair per segment: one more than the number of strict drops in round
      number. Non-decreasing runs stay together. */
  lemma SegmentCount(rounds: seq<Round>)
    requires TransposeToRows(rounds).Success?
    ensures |TransposeToRows(rounds).value| == 1 + Descents(rounds)
  {
    ClosedCount(rounds, |rounds|);
    assert rounds[..|rounds|] == rounds;
  }

  /** No rounds: one pair holding the initial meta and an empty table. */
  lemma EmptySeason()
    ensures TransposeToRows([]) == Success([(InitialMeta, [])])
  {
    assert Expected([]) == [(InitialMeta, Transposed([]))];
  }

  /** The last pair carries the last round's meta untouched (no rank is
      assigned to it) and the transpose of the open segment's standings. */
  lemma FinalSegment(rounds: seq<Round>)
    requires |rounds| > 0 && TransposeToRows(rounds).Success?
    ensures var out := TransposeToRows(rounds).value;
      && out[|out| - 1].0 == rounds[|rounds| - 1].meta
      && out[|out| - 1].1 == Transposed(StandingsOf(rounds[SegmentStart(rounds, |rounds|)..|rounds|]))
  {
  }

  /** Before any segment has closed, and since the last reset, the running
      rank is the sum of the closed tables' heights plus one; in particular
      the first closed segment is ranked from 1. */
  lemma {:induction false} NoCloseNoSum(rounds: seq<Round>, lo: nat, hi: nat)
    requires hi <= |rounds|
    requires forall t :: lo <= t < hi ==> !IsBreak(rounds, t)
    ensures SumCloses(rounds, lo, hi) == 0
    decreases hi
  {
    if hi > lo {
      NoCloseNoSum(rounds, lo, hi - 1);
    }
  }

  /** The first segment to close gets rank 1 unless its league is a "b"
      league (which throws). */
  lemma FirstSegmentRank(rounds: seq<Round>, p: nat)
    requires p < |rounds| && IsBreak(rounds, p) && !HasEarlierBreak(rounds, p)
    requires !CloseFails(rounds, p)
    ensures ClosedRank(rounds, p) == 1
  {
    var s := SegmentStart(rounds, p);
    assert s == 0;
    NoCloseNoSum(rounds, (LastReset(rounds, p) + 1) as nat, p);
  }

  /** Metadata read from round names always has a league when it has a round
      number, so with such rounds no close fails for want of a league. */
  lemma NamedRoundsHaveLeagues(rounds: seq<Round>, p: nat)
    requires p < |rounds|
    requires forall i :: 0 <= i < |rounds| ==> rounds[i].meta.round.Some? ==> rounds[i].meta.league.Some?
    requires IsBreak(rounds, p)
    ensures PrevMeta(rounds, p).league.Some?
  {
  }

  /** A "b" league whose segment is the first to close has no table before
      it to subtract, and the call throws. */
  lemma FirstBLeagueThrows(s1: seq<Entry>, s2: seq<Entry>)
    ensures TransposeToRows([Round(Meta(Some(2), Some("1b"), "M", None), s1),
                             Round(Meta(Some(1), Some("1b"), "M", None), s2)]).Failure?
  {
    var rounds := [Round(Meta(Some(2), Some("1b"), "M", None), s1),
                   Round(Meta(Some(1), Some("1b"), "M", None), s2)];
    assert CloseFails(rounds, 1);
  }

  /** Rounds named `M_liga_1_krog_1`, `M_liga_1_krog_2` share a segment; a
      following `M_liga_1_krog_1` closes it with rank 1 and opens another. */
  lemma SeasonExample(s1: seq<Entry>, s2: seq<Entry>, s3: seq<Entry>)
    ensures var rounds := [Round(ExtractMeta("M_liga_1_krog_1"), s1),
                           Round(ExtractMeta("M_liga_1_krog_2"), s2),
                           Round(ExtractMeta("M_liga_1_krog_1"), s3)];
      && TransposeToRows(rounds).Success?
      && |TransposeToRows(rounds).value| == 2
      && TransposeToRows(rounds).value[0].0 == Meta(Some(2), Some("1"), "M", Some(1))
      && TransposeToRows(rounds).value[0].1 == Transposed([s1, s2])
      && TransposeToRows(rounds).value[1] == (Meta(Some(1), Some("1"), "M", None), Transposed([s3]))
  {
    NameExample(1);
    NameExample(2);
    ThreeRounds(Meta(Some(1), Some("1"), "M", None), Meta(Some(2), Some("1"), "M", None), s1, s2, s3);
  }

  /** Rounds 1, 2, 1 of one league: the drop closes the first two. */
  lemma ThreeRounds(m1: Meta, m2: Meta, s1: seq<Entry>, s2: seq<Entry>, s3: seq<Entry>)
    requires m1 == Meta(Some(1), Some("1"), "M", None) && m2 == Meta(Some(2), Some("1"), "M", None)
    ensures var rounds := [Round(m1, s1), Round(m2, s2), Round(m1, s3)];
      && TransposeToRows(rounds).Success?
      && TransposeToRows(rounds).value == [(m2.(rank := Some(1)), Transposed([s1, s2])), (m1, Transposed([s3]))]
  {
    var rounds := [Round(m1, s1), Round(m2, s2), Round(m1, s3)];
    ThreeRoundsClosed(m1, m2, s1, s2, s3);
    assert StandingsOf(rounds[2..3]) == [s3];
    assert Expected(rounds) == [(m2.(rank := Some(1)), Transposed([s1, s2]))] + [(m1, Transposed([s3]))];
  }

  lemma NameExample(round: nat)
    requires round == 1 || round == 2
    ensures ExtractMeta(if round == 1 then "M_liga_1_krog_1" else "M_liga_1_krog_2")
            == Meta(Some(round), Some("1"), "M", None)
  {
    var digit := if round == 1 then "1" else "2";
    assert ShowNat(round) == digit;
    JoinRoundName(digit);
    assert "M_liga_1_krog_" + digit == (if round == 1 then "M_liga_1_krog_1" else "M_liga_1_krog_2");
    assert forall p :: p in ["M", "liga", "1", "krog"] + [] ==> '_' !in p;
    ExtractMetaRoundTrip("M", "liga", "1", "krog", round, []);
    assert ["M", "liga", "1", "krog", digit] + [] == ["M", "liga", "1", "krog", digit];
  }

  lemma JoinRoundName(digit: string)
    requires digit == "1" || digit == "2"
    ensures Strings.Join(["M", "liga", "1", "krog", digit], "_") == "M_liga_1_krog_" + digit
  {
    JoinFive("M", "liga", "1", "krog", digit, "_");
  }

  lemma JoinFive(p0: string, p1: string, p2: string, p3: string, p4: string, sep: string)
    ensures Strings.Join([p0, p1, p2, p3, p4], sep) == p0 + sep + p1 + sep + p2 + sep + p3 + sep + p4
  {
    Strings.JoinCons(p3, [p4], sep);
    assert [p2] + [p3, p4] == [p2, p3, p4];
    Strings.JoinCons(p2, [p3, p4], sep);
    assert [p1] + [p2, p3, p4] == [p1, p2, p3, p4];
    Strings.JoinCons(p1, [p2, p3, p4], sep);
    assert [p0] + [p1, p2, p3, p4] == [p0, p1, p2, p3, p4];
    Strings.JoinCons(p0, [p1, p2, p3, p4], sep);
  }

  /** Where the rounds 1, 2, 1 break, and that nothing throws. */
  lemma ThreeRoundsShape(m1: Meta, m2: Meta, s1: seq<Entry>, s2: seq<Entry>, s3: seq<Entry>)
    requires m1 == Meta(Some(1), Some("1"), "M", None) && m2 == Meta(Some(2), Some("1"), "M", None)
    ensures var rounds := [Round(m1, s1), Round(m2, s2), Round(m1, s3)];
      && !IsBreak(rounds, 0) && !IsBreak(rounds, 1) && IsBreak(rounds, 2)
      && SegmentStart(rounds, 2) == 0 && SegmentStart(rounds, 3) == 2
      && !HasEarlierBreak(rounds, 2)
      && !CloseFails(rounds, 2) && !Fails(rounds)
  {
    var rounds := [Round(m1, s1), Round(m2, s2), Round(m1, s3)];
    assert !IsBreak(rounds, 0) && !IsBreak(rounds, 1) && IsBreak(rounds, 2);
    assert SegmentStart(rounds, 2) == 0;
  }

  /** The one table the rounds 1, 2, 1 close. */
  lemma ThreeRoundsClosed(m1: Meta, m2: Meta, s1: seq<Entry>, s2: seq<Entry>, s3: seq<Entry>)
    requires m1 == Meta(Some(1), Some("1"), "M", None) && m2 == Meta(Some(2), Some("1"), "M", None)
    ensures var rounds := [Round(m1, s1), Round(m2, s2), Round(m1, s3)];
      && !Fails(rounds) && NoFailBefore(rounds, 3) && SegmentStart(rounds, 3) == 2
      && Closed(rounds, 3) == [(m2.(rank := Some(1)), Transposed([s1, s2]))]
  {
    var rounds := [Round(m1, s1), Round(m2, s2), Round(m1, s3)];
    ThreeRoundsShape(m1, m2, s1, s2, s3);
    FirstSegmentRank(rounds, 2);
    assert NoFailBefore(rounds, 3);
    assert rounds[0..2] == [Round(m1, s1), Round(m2, s2)];
    assert StandingsOf(rounds[0..2]) == [s1, s2];
    assert Closed(rounds, 1) == [];
    assert Closed(rounds, 2) == [];
  }
}
