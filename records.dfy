/** Match records as they are loaded (some fields may be missing) and as they
    are after the null filter of `clean_nulls`. */
module Records {

  datatype Option<+T> = None | Some(value: T)

  /** A row of the loaded table. `Winner`, `Surface`, `Rank_1` and `Rank_2`
      may be missing (NaN in the table); the player columns are always present. */
  datatype RawRow = RawRow(
    player1: string,
    player2: string,
    winner: Option<string>,
    surface: Option<string>,
    rank1: Option<int>,
    rank2: Option<int>)

  /** A row that survived the null filter: every field is present. */
  datatype Match = Match(
    player1: string,
    player2: string,
    winner: string,
    surface: string,
    rank1: int,
    rank2: int)

  /** The four columns the null filter looks at are all present. */
  predicate Complete(r: RawRow) {
    r.winner.Some? && r.surface.Some? && r.rank1.Some? && r.rank2.Some?
  }

  function ToMatch(r: RawRow): (m: Match)
    requires Complete(r)
    ensures m.player1 == r.player1 && m.player2 == r.player2
    ensures Some(m.winner) == r.winner && Some(m.surface) == r.surface
    ensures Some(m.rank1) == r.rank1 && Some(m.rank2) == r.rank2
  {
    Match(r.player1, r.player2, r.winner.value, r.surface.value, r.rank1.value, r.rank2.value)
  }

  /** The rows the filter keeps from a single row: itself, or nothing. */
  function Keep(r: RawRow): seq<Match> {
    if Complete(r) then [ToMatch(r)] else []
  }

  /** `clean_nulls`: drop every row where one of `Winner`, `Surface`,
      `Rank_1`, `Rank_2` is missing, keeping the others in order. */
  function CleanNulls(rows: seq<RawRow>): (ms: seq<Match>)
    ensures |ms| <= |rows|
  {
    if rows == [] then [] else Keep(rows[0]) + CleanNulls(rows[1..])
  }

  /** The number of complete rows. */
  function CountComplete(rows: seq<RawRow>): nat {
    if rows == [] then 0 else (if Complete(rows[0]) then 1 else 0) + CountComplete(rows[1..])
  }

  /** Filtering a concatenation filters each part and keeps them in order:
      together with `Keep`, this pins the filter down as order-preserving. */
  lemma {:induction false} CleanNullsAppend(a: seq<RawRow>, b: seq<RawRow>)
    ensures CleanNulls(a + b) == CleanNulls(a) + CleanNulls(b)
  {
    if a == [] {
      assert a + b == b;
    } else {
      assert (a + b)[0] == a[0];
      assert (a + b)[1..] == a[1..] + b;
      CleanNullsAppend(a[1..], b);
    }
  }

  /** Exactly the complete rows are kept: the output is as long as their count. */
  lemma {:induction false} CleanNullsLength(rows: seq<RawRow>)
    ensures |CleanNulls(rows)| == CountComplete(rows)
  {
    if rows != [] {
      CleanNullsLength(rows[1..]);
    }
  }

  /** Every kept row is a complete input row. */
  lemma {:induction false} CleanNullsSound(rows: seq<RawRow>, m: Match)
    requires m in CleanNulls(rows)
    ensures exists r :: r in rows && Complete(r) && ToMatch(r) == m
  {
    if m in Keep(rows[0]) {
      assert rows[0] in rows;
    } else {
      CleanNullsSound(rows[1..], m);
      var r :| r in rows[1..] && Complete(r) && ToMatch(r) == m;
      assert r in rows;
    }
  }

  /** Every complete input row is kept. */
  lemma {:induction false} CleanNullsKeepsComplete(rows: seq<RawRow>, i: nat)
    requires i < |rows| && Complete(rows[i])
    ensures ToMatch(rows[i]) in CleanNulls(rows)
  {
    if i > 0 {
      CleanNullsKeepsComplete(rows[1..], i - 1);
    }
  }

  /** On a table with no missing value the filter changes nothing. */
  lemma {:induction false} CleanNullsAllComplete(rows: seq<RawRow>)
    requires forall i :: 0 <= i < |rows| ==> Complete(rows[i])
    ensures |CleanNulls(rows)| == |rows|
    ensures forall i :: 0 <= i < |rows| ==> CleanNulls(rows)[i] == ToMatch(rows[i])
  {
    if rows != [] {
      CleanNullsAllComplete(rows[1..]);
    }
  }

  /** The matches with rows `i` and `i + 1` exchanged: the reordering the
      order-independence lemmas of both trackers are stated over. */
  function SwapAdjacent(rows: seq<Match>, i: nat): (sw: seq<Match>)
    requires i + 1 < |rows|
    ensures |sw| == |rows| && sw[..i] == rows[..i]
    ensures sw[i] == rows[i + 1] && sw[i + 1] == rows[i]
    ensures forall j :: i + 2 <= j < |rows| ==> sw[j] == rows[j]
  {
    rows[..i] + [rows[i + 1], rows[i]] + rows[i + 2..]
  }

  /** No player of one match plays in the other. */
  predicate DisjointPlayers(m: Match, n: Match) {
    && m.player1 != n.player1 && m.player1 != n.player2
    && m.player2 != n.player1 && m.player2 != n.player2
  }
}
