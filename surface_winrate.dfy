/** The surface win-rate tracker of `add_Surface_winrate`: one pass over the
    matches, keyed by (player, surface), holding `wins` and `matches`. For
    each row both players' rates `wins / (matches + 1e-5)` are read first;
    then both players get one match more and exactly one of them one win more:
    `Player_1` when `Winner` is `Player_1`, `Player_2` otherwise. */
module SurfaceWinrate {
  import opened Records

  /** (player, surface) */
  type SurfaceKey = (string, string)

  datatype Tally = Tally(wins: nat, matches: nat)

  type Table = map<SurfaceKey, Tally>

  /** The guard added to the denominator, 1e-5, as an exact rational. */
  const Eps: real := 0.00001

  /** The emitted rate of a tally: the quotient of the wins by the matches
      plus the guard. The guard keeps the denominator positive, so the rate
      is 0 exactly when there are no wins. */
  function Rate(t: Tally): (r: real)
    ensures r == 0.0 <==> t.wins == 0
  {
    t.wins as real / (t.matches as real + Eps)
  }

  /** The tally of a key, (0, 0) for a key not seen yet: reading through
      `Get` is reading after the loop seeds a missing key with zeros. */
  function Get(t: Table, k: SurfaceKey): (c: Tally)
    ensures k in t ==> c == t[k]
    ensures k !in t ==> c == Tally(0, 0)
  {
    if k in t then t[k] else Tally(0, 0)
  }

  /** The player credited with the win: `Player_1` when `Winner` is
      `Player_1`, otherwise `Player_2` (also when the winner is neither). */
  function Credited(m: Match): (p: string)
    ensures p == m.player1 || p == m.player2
  {
    if m.winner == m.player1 then m.player1 else m.player2
  }

  /** The update after a row, in the source's order: one match for
      `Player_1`, one match for `Player_2` (on the same entry again when the
      two are the same name), then one win for the credited player. */
  function Record(t: Table, m: Match): (t': Table)
    ensures t'.Keys == t.Keys + {(m.player1, m.surface), (m.player2, m.surface)}
  {
    var ka := (m.player1, m.surface);
    var kb := (m.player2, m.surface);
    var t1 := t[ka := Tally(Get(t, ka).wins, Get(t, ka).matches + 1)];
    var t2 := t1[kb := Tally(Get(t1, kb).wins, Get(t1, kb).matches + 1)];
    var kw := if m.winner == m.player1 then ka else kb;
    t2[kw := Tally(Get(t2, kw).wins + 1, Get(t2, kw).matches)]
  }

  /** The table after processing `rows` in order from an empty table: it
      has an entry for both players of every row, on that row's surface. */
  function Fold(rows: seq<Match>): (t: Table)
    ensures forall j :: 0 <= j < |rows| ==>
              (rows[j].player1, rows[j].surface) in t && (rows[j].player2, rows[j].surface) in t
    decreases |rows|
  {
    if rows == [] then map[] else Record(Fold(rows[..|rows| - 1]), rows[|rows| - 1])
  }

  /** The two emitted columns of a row. */
  datatype Rates = Rates(a: real, b: real)

  /** The rates a row is given from a table: both players on the row's
      surface. A player without an entry reads 0, and a row naming one
      player twice reads the same rate in both columns. */
  function RatesOf(t: Table, m: Match): (r: Rates)
    ensures (m.player1, m.surface) !in t ==> r.a == 0.0
    ensures (m.player2, m.surface) !in t ==> r.b == 0.0
    ensures m.player1 == m.player2 ==> r.a == r.b
  {
    Rates(Rate(Get(t, (m.player1, m.surface))), Rate(Get(t, (m.player2, m.surface))))
  }

  /** The columns `A_Surface_winrate`, `B_Surface_winrate`: row `i` gets the
      rates of the table after the rows strictly before it. */
  function Features(rows: seq<Match>): (fs: seq<Rates>)
    ensures |fs| == |rows|
  {
    seq(|rows|, i requires 0 <= i < |rows| => RatesOf(Fold(rows[..i]), rows[i]))
  }

  /** No key holds more wins than matches. */
  ghost predicate Consistent(t: Table) {
    forall k :: k in t ==> t[k].wins <= t[k].matches
  }

  /** The dictionary `winrate` of `add_Surface_winrate`. */
  class Tracker {
    var table: Table

    ghost predicate Valid()
      reads this
    {
      Consistent(table)
    }

    constructor ()
      ensures Valid() && table == map[]
    {
      table := map[];
    }

    /** One iteration of the loop: create the missing entries, read both
        rates, then count the match for both players and the win for one. */
    method Step(m: Match) returns (rates: Rates)
      requires Valid()
      modifies this
      ensures Valid()
      ensures rates == RatesOf(old(table), m)
      ensures table == Record(old(table), m)
    {
      var ka := (m.player1, m.surface);
      var kb := (m.player2, m.surface);
      if ka !in table {
        table := table[ka := Tally(0, 0)];
      }
      if kb !in table {
        table := table[kb := Tally(0, 0)];
      }
      SeededRecord(old(table), table, m);
      ghost var seeded := table;
      rates := Rates(Rate(table[ka]), Rate(table[kb]));
      table := table[ka := Tally(table[ka].wins, table[ka].matches + 1)];
      table := table[kb := Tally(table[kb].wins, table[kb].matches + 1)];
      if m.winner == m.player1 {
        table := table[ka := Tally(table[ka].wins + 1, table[ka].matches)];
      } else {
        table := table[kb := Tally(table[kb].wins + 1, table[kb].matches)];
      }
      assert table == Record(seeded, m);
      RecordConsistent(old(table), m);
    }
  }

  /** Seeding the row's two entries with (0, 0) when they are missing, as the
      loop does before reading, changes neither the rates read nor the update. */
  lemma SeededRecord(t: Table, seeded: Table, m: Match)
    requires seeded.Keys == t.Keys + {(m.player1, m.surface), (m.player2, m.surface)}
    requires forall k :: k in t ==> seeded[k] == t[k]
    requires forall k :: k in seeded && k !in t ==> seeded[k] == Tally(0, 0)
    ensures RatesOf(seeded, m) == RatesOf(t, m)
    ensures Record(seeded, m) == Record(t, m)
  {
  }

  /** `add_Surface_winrate`: the rates each row sees are those of the
      strictly earlier rows. */
  method AddSurfaceWinrate(rows: seq<Match>) returns (fs: seq<Rates>)
    ensures fs == Features(rows)
  {
    var winrate := new Tracker();
    fs := [];
    for i := 0 to |rows|
      invariant winrate.Valid()
      invariant winrate.table == Fold(rows[..i])
      invariant fs == Features(rows[..i])
    {
      var rates := winrate.Step(rows[i]);
      FoldStep(rows, i);
      FeaturesStep(rows, i);
      fs := fs + [rates];
    }
    assert rows[..|rows|] == rows;
  }

  /** Processing one more row is one more `Record`. The same step as
      `HeadToHead.FoldStep`, stated for this tracker's fold. */
  lemma FoldStep(rows: seq<Match>, i: nat)
    requires i < |rows|
    ensures Fold(rows[..i + 1]) == Record(Fold(rows[..i]), rows[i])
  {
    assert rows[..i + 1][..i] == rows[..i];
  }

  /** Processing one more row emits one more pair of rates, read from the
      table of the rows before it. */
  lemma FeaturesStep(rows: seq<Match>, i: nat)
    requires i < |rows|
    ensures Features(rows[..i + 1]) == Features(rows[..i]) + [RatesOf(Fold(rows[..i]), rows[i])]
  {
    var longer, shorter := Features(rows[..i + 1]), Features(rows[..i]) + [RatesOf(Fold(rows[..i]), rows[i])];
    forall j | 0 <= j <= i
      ensures longer[j] == shorter[j]
    {
      assert rows[..i + 1][..j] == rows[..j];
      if j < i {
        assert rows[..i][..j] == rows[..j];
      }
    }
  }

  /** How many times a row counts a match for `p` on `s`: once per slot `p`
      occupies. */
  function Appearances(m: Match, p: string, s: string): nat {
    if m.surface != s then 0
    else (if m.player1 == p then 1 else 0) + (if m.player2 == p then 1 else 0)
  }

  /** Whether a row counts a win for `p` on `s`. */
  function Credit(m: Match, p: string, s: string): nat {
    if m.surface == s && Credited(m) == p then 1 else 0
  }

  /** The effect of one row on any key: the key's own appearances and credit
      are added, nothing else changes. */
  lemma RecordAt(t: Table, m: Match, p: string, s: string)
    ensures Get(Record(t, m), (p, s)).matches == Get(t, (p, s)).matches + Appearances(m, p, s)
    ensures Get(Record(t, m), (p, s)).wins == Get(t, (p, s)).wins + Credit(m, p, s)
  {
  }

  /** One row preserves `wins <= matches` everywhere. */
  lemma RecordConsistent(t: Table, m: Match)
    requires Consistent(t)
    ensures Consistent(Record(t, m))
  {
    forall k | k in Record(t, m)
      ensures Record(t, m)[k].wins <= Record(t, m)[k].matches
    {
      RecordAt(t, m, k.0, k.1);
    }
  }

  /** The number of matches counted for `p` on `s` over `rows`. */
  function MatchesOf(rows: seq<Match>, p: string, s: string): nat {
    if rows == [] then 0
    else MatchesOf(rows[..|rows| - 1], p, s) + Appearances(rows[|rows| - 1], p, s)
  }

  /** The number of wins credited to `p` on `s` over `rows`. */
  function WinsOf(rows: seq<Match>, p: string, s: string): nat {
    if rows == [] then 0
    else WinsOf(rows[..|rows| - 1], p, s) + Credit(rows[|rows| - 1], p, s)
  }

  /** What the counters hold: for every (player, surface), the number of
      slots the player filled and the number of wins credited to them on
      that surface. */
  lemma {:induction false} FoldCounts(rows: seq<Match>, p: string, s: string)
    ensures Get(Fold(rows), (p, s)) == Tally(WinsOf(rows, p, s), MatchesOf(rows, p, s))
  {
    if rows != [] {
      FoldCounts(rows[..|rows| - 1], p, s);
      RecordAt(Fold(rows[..|rows| - 1]), rows[|rows| - 1], p, s);
    }
  }

  /** The invariant of the pass: every key has `wins <= matches`. */
  lemma {:induction false} FoldConsistent(rows: seq<Match>)
    ensures Consistent(Fold(rows))
  {
    if rows != [] {
      FoldConsistent(rows[..|rows| - 1]);
      RecordConsistent(Fold(rows[..|rows| - 1]), rows[|rows| - 1]);
    }
  }

  /** Both counters of every key only grow as the pass advances. */
  lemma {:induction false} FoldMonotone(rows: seq<Match>, i: nat, j: nat, k: SurfaceKey)
    requires i <= j <= |rows|
    ensures Get(Fold(rows[..i]), k).wins <= Get(Fold(rows[..j]), k).wins
    ensures Get(Fold(rows[..i]), k).matches <= Get(Fold(rows[..j]), k).matches
    decreases j - i
  {
    if i < j {
      FoldMonotone(rows, i, j - 1, k);
      FoldStep(rows, j - 1);
      RecordAt(Fold(rows[..j - 1]), rows[j - 1], k.0, k.1);
    }
  }

  /** A consistent tally has a rate in [0, 1). */
  lemma RateBounds(t: Tally)
    requires t.wins <= t.matches
    ensures 0.0 <= Rate(t) < 1.0
  {
    var w, d := t.wins as real, t.matches as real + Eps;
    var r := Rate(t);
    assert r * d == w;
    if r < 0.0 {
      assert false;
    }
    if r >= 1.0 {
      assert false;
    }
  }

  /** Every emitted rate lies in [0, 1). */
  lemma FeaturesBounds(rows: seq<Match>, i: nat)
    requires i < |rows|
    ensures 0.0 <= Features(rows)[i].a < 1.0 && 0.0 <= Features(rows)[i].b < 1.0
  {
    var t := Fold(rows[..i]);
    FoldConsistent(rows[..i]);
    var ka := (rows[i].player1, rows[i].surface);
    var kb := (rows[i].player2, rows[i].surface);
    assert Get(t, ka).wins <= Get(t, ka).matches;
    assert Get(t, kb).wins <= Get(t, kb).matches;
    RateBounds(Get(t, ka));
    RateBounds(Get(t, kb));
  }

  /** Cold start: a player's first row on a surface gives them a rate of exactly 0. */
  lemma FeaturesColdStart(rows: seq<Match>, i: nat)
    requires i < |rows|
    requires forall j :: 0 <= j < i && rows[j].surface == rows[i].surface ==>
               rows[j].player1 != rows[i].player1 && rows[j].player2 != rows[i].player1
    ensures Features(rows)[i].a == 0.0
  {
    var p, s := rows[i].player1, rows[i].surface;
    NeverPlayed(rows[..i], p, s);
    FoldCounts(rows[..i], p, s);
    FoldConsistent(rows[..i]);
    assert Get(Fold(rows[..i]), (p, s)).wins == 0;
  }

  /** Cold start for the second column: `Player_2`'s first row on a surface
      gives them a rate of exactly 0. */
  lemma FeaturesColdStartSecond(rows: seq<Match>, i: nat)
    requires i < |rows|
    requires forall j :: 0 <= j < i && rows[j].surface == rows[i].surface ==>
               rows[j].player1 != rows[i].player2 && rows[j].player2 != rows[i].player2
    ensures Features(rows)[i].b == 0.0
  {
    var p, s := rows[i].player2, rows[i].surface;
    NeverPlayed(rows[..i], p, s);
    FoldCounts(rows[..i], p, s);
    FoldConsistent(rows[..i]);
    assert Get(Fold(rows[..i]), (p, s)).wins == 0;
  }

  lemma {:induction false} NeverPlayed(rows: seq<Match>, p: string, s: string)
    requires forall j :: 0 <= j < |rows| && rows[j].surface == s ==>
               rows[j].player1 != p && rows[j].player2 != p
    ensures MatchesOf(rows, p, s) == 0
  {
    if rows != [] {
      NeverPlayed(rows[..|rows| - 1], p, s);
    }
  }

  /** One row with two distinct players: one match more for each of them on
      the row's surface, one win more for exactly one of them, and every
      other (player, surface) entry unchanged. */
  lemma RecordDistinctPlayers(t: Table, m: Match, k: SurfaceKey)
    requires m.player1 != m.player2
    ensures
      var ka, kb := (m.player1, m.surface), (m.player2, m.surface);
      && Get(Record(t, m), ka).matches == Get(t, ka).matches + 1
      && Get(Record(t, m), kb).matches == Get(t, kb).matches + 1
      && Get(Record(t, m), ka).wins == Get(t, ka).wins + (if m.winner == m.player1 then 1 else 0)
      && Get(Record(t, m), kb).wins == Get(t, kb).wins + (if m.winner == m.player1 then 0 else 1)
      && (k != ka && k != kb ==> Get(Record(t, m), k) == Get(t, k))
  {
  }

  /** One row naming the same player twice: that player's entry gets two
      matches and one win. */
  lemma RecordSamePlayer(t: Table, m: Match)
    requires m.player1 == m.player2
    ensures
      var k := (m.player1, m.surface);
      Get(Record(t, m), k) == Tally(Get(t, k).wins + 1, Get(t, k).matches + 2)
  {
  }

  /** No leakage: the rates a row sees depend only on the rows before it and
      on its own players and surface, not on its outcome or any later row. */
  lemma FeaturesNoLeakage(rows: seq<Match>, rows': seq<Match>, i: nat)
    requires i < |rows| && i < |rows'|
    requires rows[..i] == rows'[..i]
    requires rows[i].player1 == rows'[i].player1 && rows[i].player2 == rows'[i].player2
    requires rows[i].surface == rows'[i].surface
    ensures Features(rows)[i] == Features(rows')[i]
  {
  }

  /** Truncating the table after row `k` leaves the rates of the rows kept
      unchanged. The same argument as `HeadToHead.FeaturesPrefix`, for this
      tracker's columns. */
  lemma FeaturesPrefix(rows: seq<Match>, k: nat)
    requires k <= |rows|
    ensures Features(rows[..k]) == Features(rows)[..k]
  {
    forall i | 0 <= i < k
      ensures Features(rows[..k])[i] == Features(rows)[i]
    {
      assert rows[..k][..i] == rows[..i];
    }
  }

  /** Two rows update the table the same in either order, whatever their
      players and surfaces: each key gains the appearances and credits of
      both rows. */
  lemma RecordCommutes(t: Table, m: Match, n: Match)
    ensures Record(Record(t, m), n) == Record(Record(t, n), m)
  {
    var mn, nm := Record(Record(t, m), n), Record(Record(t, n), m);
    forall k | k in mn
      ensures mn[k] == nm[k]
    {
      RecordAt(t, m, k.0, k.1);
      RecordAt(Record(t, m), n, k.0, k.1);
      RecordAt(t, n, k.0, k.1);
      RecordAt(Record(t, n), m, k.0, k.1);
    }
    assert mn == nm;
  }

  /** The two rows touch no common (player, surface) entry: they are on
      different surfaces, or they have no player in common. */
  predicate SeparateKeys(m: Match, n: Match) {
    m.surface != n.surface || DisjointPlayers(m, n)
  }

  /** A row leaves the rates of a row it shares no entry with untouched. */
  lemma RatesOfSeparate(t: Table, m: Match, n: Match)
    requires SeparateKeys(m, n)
    ensures RatesOf(Record(t, m), n) == RatesOf(t, n)
  {
    RecordAt(t, m, n.player1, n.surface);
    RecordAt(t, m, n.player2, n.surface);
  }

  /** Exchanging two adjacent rows that share no entry changes no emitted
      rate: each of the two rows sees what it saw before, and so does every
      later row. */
  lemma FeaturesSwapDisjoint(rows: seq<Match>, i: nat)
    requires i + 1 < |rows|
    requires SeparateKeys(rows[i], rows[i + 1])
    ensures Features(SwapAdjacent(rows, i))[i] == Features(rows)[i + 1]
    ensures Features(SwapAdjacent(rows, i))[i + 1] == Features(rows)[i]
    ensures forall j :: i + 2 <= j < |rows| ==> Features(SwapAdjacent(rows, i))[j] == Features(rows)[j]
  {
    var sw := SwapAdjacent(rows, i);
    FoldStep(rows, i);
    FoldStep(sw, i);
    RatesOfSeparate(Fold(rows[..i]), rows[i], rows[i + 1]);
    RatesOfSeparate(Fold(rows[..i]), rows[i + 1], rows[i]);
    forall j | i + 2 <= j < |rows|
      ensures Features(sw)[j] == Features(rows)[j]
    {
      SwappedFold(rows, i, j);
    }
  }

  /** Right after the two exchanged rows, both orders give the same table. */
  lemma SwappedPairFold(rows: seq<Match>, i: nat)
    requires i + 1 < |rows|
    ensures Fold(SwapAdjacent(rows, i)[..i + 2]) == Fold(rows[..i + 2])
  {
    var sw := SwapAdjacent(rows, i);
    var before := Fold(rows[..i]);
    FoldStep(sw, i);
    FoldStep(sw, i + 1);
    assert Fold(sw[..i + 2]) == Record(Record(before, rows[i + 1]), rows[i]);
    FoldStep(rows, i);
    FoldStep(rows, i + 1);
    assert Fold(rows[..i + 2]) == Record(Record(before, rows[i]), rows[i + 1]);
    RecordCommutes(before, rows[i], rows[i + 1]);
  }

  /** Two sequences of rows that reach the same table after `k` rows and
      agree from there on reach the same table after every later row. The
      same induction as `HeadToHead.FoldAgree`, for this tracker's fold. */
  lemma {:induction false} FoldAgree(xs: seq<Match>, ys: seq<Match>, k: nat, j: nat)
    requires k <= j <= |xs| == |ys|
    requires Fold(xs[..k]) == Fold(ys[..k])
    requires forall l :: k <= l < |xs| ==> xs[l] == ys[l]
    ensures Fold(xs[..j]) == Fold(ys[..j])
    decreases j
  {
    if j > k {
      FoldAgree(xs, ys, k, j - 1);
      var before, row := Fold(xs[..j - 1]), xs[j - 1];
      assert row == ys[j - 1];
      FoldStep(xs, j - 1);
      FoldStep(ys, j - 1);
      assert Fold(xs[..j]) == Record(before, row) == Fold(ys[..j]);
    }
  }

  /** After an exchange of two adjacent rows, the table is the same after
      every later row. */
  lemma SwappedFold(rows: seq<Match>, i: nat, j: nat)
    requires i + 2 <= j <= |rows|
    ensures Fold(SwapAdjacent(rows, i)[..j]) == Fold(rows[..j])
  {
    SwappedPairFold(rows, i);
    FoldAgree(SwapAdjacent(rows, i), rows, i + 2, j);
  }
}
