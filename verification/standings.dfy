/** Reading one round out of its spreadsheet (src/lib/ludus.ts): the round's
    metadata from its underscore-separated name, and its final standings from
    the column under the fixed header cell. */
module Standings {
  import opened Wrappers
  import opened Strings
  import opened Csv

  /** The header cell as the source spells it: the UTF-8 bytes of "KONČNA
      RAZVRSTITEV" read as Windows-1252, so the `Č` appears as the two
      characters U+00C4 U+0152. */
  const FinalRankHeader: string := "KON\U{00C4}\U{0152}NA RAZVRSTITEV"

  /** A standings entry: a cell of the grid, or `None` where the source reads
      past the end of a row and gets `undefined`. */
  type Entry = Option<string>

  /** `data[i][j]` for an existing row `i`. */
  function Cell(data: Grid, i: nat, j: nat): Entry
    requires i < |data|
  {
    if j < |data[i]| then Some(data[i][j]) else None
  }

  predicate HeaderAt(data: Grid, i: nat, j: nat) {
    i < |data| && j < |data[i]| && data[i][j] == FinalRankHeader
  }

  /** Position `(i, j)` comes strictly before `(r, c)` in row-major order. */
  predicate Before(i: nat, j: nat, r: nat, c: nat) {
    i < r || (i == r && j < c)
  }

  /** The row-major scan of `findFinalRank`, resumed at row `i`, column `j`. */
  function SearchFrom(data: Grid, i: nat, j: nat): (r: Option<(nat, nat)>)
    requires i <= |data|
    ensures r.None? ==> forall p: nat, q: nat :: HeaderAt(data, p, q) ==> Before(p, q, i, j)
    ensures r.Some? ==> HeaderAt(data, r.value.0, r.value.1) && !Before(r.value.0, r.value.1, i, j)
    ensures r.Some? ==> forall p: nat, q: nat :: HeaderAt(data, p, q) && Before(p, q, r.value.0, r.value.1) ==> Before(p, q, i, j)
    decreases |data| - i, if i < |data| && j < |data[i]| then |data[i]| - j else 0
  {
    if i == |data| then None
    else if j >= |data[i]| then SearchFrom(data, i + 1, 0)
    else if data[i][j] == FinalRankHeader then Some((i, j))
    else SearchFrom(data, i, j + 1)
  }

  /** `findFinalRank`: the first header cell in row-major order, or `None`
      (the source's `[null, null]`) when there is none. */
  function FindFinalRank(data: Grid): (r: Option<(nat, nat)>)
    ensures r.None? <==> forall p: nat, q: nat :: !HeaderAt(data, p, q)
    ensures r.Some? ==> HeaderAt(data, r.value.0, r.value.1)
    ensures r.Some? ==> forall p: nat, q: nat :: HeaderAt(data, p, q) ==> !Before(p, q, r.value.0, r.value.1)
  {
    SearchFrom(data, 0, 0)
  }

  function ExtractFrom(data: Grid, i: nat, col: nat): (r: seq<Entry>)
    ensures r != [] ==> i + |r| <= |data|
    ensures forall k :: 0 <= k < |r| ==> r[k] != Some("")
    decreases |data| - i
  {
    if i >= |data| then []
    else if Cell(data, i, col) == Some("") then []
    else [Cell(data, i, col)] + ExtractFrom(data, i + 1, col)
  }

  /** `extractFinalRank`: the cells of column `col + 1` from row `row + 1`
      down, stopping before the first empty cell or at the last row. A
      missing cell is not empty, so it is collected and does not stop the
      scan. */
  function ExtractFinalRank(data: Grid, row: nat, col: nat): (r: seq<Entry>)
    ensures r != [] ==> row + 1 + |r| <= |data|
    ensures forall k :: 0 <= k < |r| ==>
              row + 1 + k < |data| && r[k] == Cell(data, row + 1 + k, col + 1) && r[k] != Some("")
    ensures row + 1 + |r| < |data| ==> Cell(data, row + 1 + |r|, col + 1) == Some("")
  {
    ExtractFromSpec(data, row + 1, col + 1);
    ExtractFrom(data, row + 1, col + 1)
  }

  lemma {:induction false} ExtractFromSpec(data: Grid, i: nat, col: nat)
    ensures var r := ExtractFrom(data, i, col);
      && (r != [] ==> i + |r| <= |data|)
      && (forall k :: 0 <= k < |r| ==> i + k < |data| && r[k] == Cell(data, i + k, col) && r[k] != Some(""))
      && (i + |r| < |data| ==> Cell(data, i + |r|, col) == Some(""))
    decreases |data| - i
  {
    if i < |data| && Cell(data, i, col) != Some("") {
      ExtractFromSpec(data, i + 1, col);
      var r := ExtractFrom(data, i, col);
      var rest := ExtractFrom(data, i + 1, col);
      assert r == [Cell(data, i, col)] + rest;
      forall k | 1 <= k < |r|
        ensures i + k < |data| && r[k] == Cell(data, i + k, col)
      {
        assert r[k] == rest[k - 1];
      }
    }
  }

  /** `getRank`: no standings without a header; otherwise the column under the
      first header cell. A header cell with an empty cell (or nothing) below
      it also gives no standings. */
  function GetRank(data: Grid): (ranks: seq<Entry>)
    ensures (forall p: nat, q: nat :: !HeaderAt(data, p, q)) ==> ranks == []
    ensures forall r: nat, c: nat ::
              HeaderAt(data, r, c) && (forall p: nat, q: nat :: HeaderAt(data, p, q) ==> !Before(p, q, r, c)) ==>
              ranks == ExtractFinalRank(data, r, c)
  {
    match FindFinalRank(data)
    case None => []
    case Some((row, col)) =>
      assert forall r: nat, c: nat ::
               HeaderAt(data, r, c) && (forall p: nat, q: nat :: HeaderAt(data, p, q) ==> !Before(p, q, r, c)) ==>
               r == row && c == col;
      ExtractFinalRank(data, row, col)
  }

  /** A header in the last row yields no standings even though it is present. */
  lemma HeaderWithoutStandings()
    ensures HeaderAt([[FinalRankHeader]], 0, 0)
    ensures GetRank([[FinalRankHeader]]) == []
  {
  }

  predicate IsDigit(c: char) {
    '0' <= c <= '9'
  }

  predicate AllDigits(s: string) {
    forall i :: 0 <= i < |s| ==> IsDigit(s[i])
  }

  /** The value of a decimal digit string; the empty string is 0, as `+''`
      is. */
  function DigitsValue(s: string): nat
    requires AllDigits(s)
  {
    if |s| == 0 then 0
    else DigitsValue(s[..|s| - 1]) * 10 + (s[|s| - 1] as int - '0' as int)
  }

  /** The decimal spelling of `n`. */
  function ShowNat(n: nat): (s: string)
    ensures |s| >= 1 && AllDigits(s)
  {
    if n < 10 then [('0' as int + n) as char]
    else ShowNat(n / 10) + [('0' as int + n % 10) as char]
  }

  lemma {:induction false} ShowNatValue(n: nat)
    ensures DigitsValue(ShowNat(n)) == n
  {
    if n >= 10 {
      ShowNatValue(n / 10);
      var s := ShowNat(n);
      assert s[..|s| - 1] == ShowNat(n / 10);
    }
  }

  /** Unary `+` on a round token: a digit string gives its value; a missing
      token, or any other text, gives not-a-number (`None`). */
  function ParseRound(token: Option<string>): (r: Option<nat>)
    ensures r.Some? <==> token.Some? && AllDigits(token.value)
    ensures token == Some("") ==> r == Some(0)
  {
    match token
    case Some(t) => if AllDigits(t) then Some(DigitsValue(t)) else None
    case None => None
  }

  /** Unary `+` reads back the decimal spelling of every round number. */
  lemma ParseRoundShow(n: nat)
    ensures ParseRound(Some(ShowNat(n))) == Some(n)
  {
    ShowNatValue(n);
  }

  /** Round metadata. `round` is `None` for not-a-number, `league` for a name
      with too few parts; `rank` is set only when a season closes the round's
      segment. */
  datatype Meta = Meta(round: Option<nat>, league: Option<string>, sex: string, rank: Option<int>)

  function Part(parts: seq<string>, i: nat): Option<string> {
    if i < |parts| then Some(parts[i]) else None
  }

  /** `extractMeta`: the first, third and fifth `_`-separated parts of the
      round name are its sex, league and round number. */
  function ExtractMeta(name: string): (m: Meta)
    ensures m.rank.None?
    ensures m.round.Some? ==> m.league.Some?
  {
    var parts := Split(name, "_");
    Meta(ParseRound(Part(parts, 4)), Part(parts, 2), parts[0], None)
  }

  /** A name built as `sex_x_league_y_round` (with any further parts) reads
      back as that sex, league and round number. */
  lemma ExtractMetaRoundTrip(sex: string, x: string, league: string, y: string, round: nat, more: seq<string>)
    requires forall p :: p in [sex, x, league, y] + more ==> '_' !in p
    ensures ExtractMeta(Join([sex, x, league, y, ShowNat(round)] + more, "_")) == Meta(Some(round), Some(league), sex, None)
  {
    var parts := [sex, x, league, y, ShowNat(round)] + more;
    forall k | 0 <= k < |parts|
      ensures "_"[0] !in parts[k]
    {
      if k != 4 {
        assert parts[k] in [sex, x, league, y] + more;
      } else {
        assert AllDigits(ShowNat(round));
      }
    }
    JoinSplit(parts, "_");
    ShowNatValue(round);
  }

  /** A round as the `Round` constructor builds it; games are never filled
      in by the source and are not modelled. */
  datatype Round = Round(meta: Meta, standings: seq<Entry>)

  /** `new Round(name, data)`: metadata from the name, standings from the
      parsed sheet. There are fewer standings than sheet rows, and no rank. */
  function NewRound(name: string, data: string): (r: Round)
    ensures r.meta.rank.None?
    ensures |r.standings| < |ParseCsv(data)|
  {
    var grid := ParseCsv(data);
    Round(ExtractMeta(name), GetRank(grid))
  }
}
