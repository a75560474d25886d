/** The head-to-head tracker of `add_h2h`: one pass over the matches, keyed
    by the sorted pair of player names, holding two counters `A` and `B`.
    For each row the counters are read first and only then updated: `A` when
    the row's `Player_1` won, `B` otherwise. `A` and `B` count wins by the
    row's first and second slot, not by a particular player. */
module HeadToHead {
  import opened Records

  /** Code-point lexicographic order on names, as Python compares strings:
      a name sorts no later than any name it is a prefix of. */
  predicate LexLe(x: string, y: string)
    ensures x <= y ==> LexLe(x, y)
    decreases |x|
  {
    |x| == 0 || (|y| > 0 && (x[0] < y[0] || (x[0] == y[0] && LexLe(x[1..], y[1..]))))
  }

  lemma {:induction false} LexLeTotal(x: string, y: string)
    ensures LexLe(x, y) || LexLe(y, x)
    decreases |x|
  {
    if |x| > 0 && |y| > 0 && x[0] == y[0] {
      LexLeTotal(x[1..], y[1..]);
    }
  }

  lemma {:induction false} LexLeAntisymmetric(x: string, y: string)
    requires LexLe(x, y) && LexLe(y, x)
    ensures x == y
    decreases |x|
  {
    if |x| > 0 {
      LexLeAntisymmetric(x[1..], y[1..]);
      assert x == [x[0]] + x[1..];
      assert y == [y[0]] + y[1..];
    }
  }

  /** `tuple(sorted([p, q]))`: the two names, smaller first. */
  type PairKey = (string, string)

  function SortedPair(p: string, q: string): (k: PairKey)
    ensures LexLe(k.0, k.1)
    ensures k == (p, q) || k == (q, p)
  {
    if LexLe(p, q) then (p, q) else LexLeTotal(p, q); (q, p)
  }

  /** The same two players give the same key in either order. */
  lemma SortedPairSymmetric(p: string, q: string)
    ensures SortedPair(p, q) == SortedPair(q, p)
  {
    if LexLe(p, q) && LexLe(q, p) {
      LexLeAntisymmetric(p, q);
    }
  }

  /** The key of a row: its two players, sorted. */
  function PairOf(m: Match): (k: PairKey)
    ensures k == (m.player1, m.player2) || k == (m.player2, m.player1)
  {
    SortedPair(m.player1, m.player2)
  }

  /** The two counters of a pair: `a` counts the pair's rows won by the row's
      `Player_1`, `b` the others. */
  datatype Counts = Counts(a: nat, b: nat)

  type Table = map<PairKey, Counts>

  /** The counters of a key, (0, 0) for a pair not met yet: reading through
      `Lookup` is reading after the loop seeds a missing pair with zeros. */
  function Lookup(t: Table, k: PairKey): (c: Counts)
    ensures k in t ==> c == t[k]
    ensures k !in t ==> c == Counts(0, 0)
  {
    if k in t then t[k] else Counts(0, 0)
  }

  /** The update after a row: one win more in `A` when `Winner` is `Player_1`,
      otherwise (including a winner who is neither player) one more in `B`. */
  function Record(t: Table, m: Match): (t': Table)
    ensures t'.Keys == t.Keys + {PairOf(m)}
  {
    var k := PairOf(m);
    var c := Lookup(t, k);
    t[k := if m.winner == m.player1 then Counts(c.a + 1, c.b) else Counts(c.a, c.b + 1)]
  }

  /** The table after processing `rows` in order from an empty table: it
      has an entry for the pair of every row. */
  function Fold(rows: seq<Match>): (t: Table)
    ensures forall j :: 0 <= j < |rows| ==> PairOf(rows[j]) in t
    decreases |rows|
  {
    if rows == [] then map[] else Record(Fold(rows[..|rows| - 1]), rows[|rows| - 1])
  }

  /** The columns `h2h_A_wins`, `h2h_B_wins`: row `i` gets its pair's
      counters after the rows strictly before it. */
  function Features(rows: seq<Match>): (fs: seq<Counts>)
    ensures |fs| == |rows|
  {
    seq(|rows|, i requires 0 <= i < |rows| => Lookup(Fold(rows[..i]), PairOf(rows[i])))
  }

  /** The dictionary `h2h` of `add_h2h`. */
  class Tracker {
    var table: Table

    constructor ()
      ensures table == map[]
    {
      table := map[];
    }

    /** One iteration of the loop: create the entry if it is missing, read
        the counters, then update them with the row's outcome. */
    method Step(m: Match) returns (before: Counts)
      modifies this
      ensures before == Lookup(old(table), PairOf(m))
      ensures table == Record(old(table), m)
    {
      var pair := PairOf(m);
      if pair !in table {
        table := table[pair := Counts(0, 0)];
      }
      before := table[pair];
      if m.winner == m.player1 {
        table := table[pair := Counts(table[pair].a + 1, table[pair].b)];
      } else {
        table := table[pair := Counts(table[pair].a, table[pair].b + 1)];
      }
    }
  }

  /** `add_h2h`: the counters each row sees are those of the strictly
      earlier rows. */
  method AddH2H(rows: seq<Match>) returns (fs: seq<Counts>)
    ensures fs == Features(rows)
  {
    var h2h := new Tracker();
    fs := [];
    for i := 0 to |rows|
      invariant h2h.table == Fold(rows[..i])
      invariant fs == Features(rows[..i])
    {
      var before := h2h.Step(rows[i]);
      FoldStep(rows, i);
      FeaturesStep(rows, i);
      fs := fs + [before];
    }
    assert rows[..|rows|] == rows;
  }

  /** Processing one more row is one more `Record`. */
  lemma FoldStep(rows: seq<Match>, i: nat)
    requires i < |rows|
    ensures Fold(rows[..i + 1]) == Record(Fold(rows[..i]), rows[i])
  {
    assert rows[..i + 1][..i] == rows[..i];
  }

  /** Processing one more row emits one more pair of counters, read from
      the table of the rows before it. */
  lemma FeaturesStep(rows: seq<Match>, i: nat)
    requires i < |rows|
    ensures Features(rows[..i + 1]) == Features(rows[..i]) + [Lookup(Fold(rows[..i]), PairOf(rows[i]))]
  {
    var longer, shorter := Features(rows[..i + 1]), Features(rows[..i]) + [Lookup(Fold(rows[..i]), PairOf(rows[i]))];
    forall j | 0 <= j <= i
      ensures longer[j] == shorter[j]
    {
      assert rows[..i + 1][..j] == rows[..j];
      if j < i {
        assert rows[..i][..j] == rows[..j];
      }
    }
  }

  /** The number of rows whose key is `k`. */
  function Meetings(rows: seq<Match>, k: PairKey): nat {
    if rows == [] then 0
    else Meetings(rows[..|rows| - 1], k) + (if PairOf(rows[|rows| - 1]) == k then 1 else 0)
  }

  /** The number of rows whose key is `k` and whose `Winner` is `Player_1`. */
  function FirstSlotWins(rows: seq<Match>, k: PairKey): nat {
    if rows == [] then 0
    else
      var m := rows[|rows| - 1];
      FirstSlotWins(rows[..|rows| - 1], k) + (if PairOf(m) == k && m.winner == m.player1 then 1 else 0)
  }

  /** What the counters hold: `A` is the number of the pair's rows won from
      the first slot, and `A + B` is the number of rows of the pair. */
  lemma {:induction false} FoldCounts(rows: seq<Match>, k: PairKey)
    ensures Lookup(Fold(rows), k).a == FirstSlotWins(rows, k)
    ensures Lookup(Fold(rows), k).a + Lookup(Fold(rows), k).b == Meetings(rows, k)
  {
    if rows != [] {
      FoldCounts(rows[..|rows| - 1], k);
    }
  }

  /** Conservation, as each row sees it: the two emitted counters add up to
      the number of earlier meetings of the same two players. */
  lemma FeaturesConservation(rows: seq<Match>, i: nat)
    requires i < |rows|
    ensures Features(rows)[i].a + Features(rows)[i].b == Meetings(rows[..i], PairOf(rows[i]))
    ensures Features(rows)[i].a == FirstSlotWins(rows[..i], PairOf(rows[i]))
  {
    FoldCounts(rows[..i], PairOf(rows[i]));
  }

  /** Cold start: the first meeting of two players emits (0, 0). */
  lemma FeaturesColdStart(rows: seq<Match>, i: nat)
    requires i < |rows|
    requires forall j :: 0 <= j < i ==> PairOf(rows[j]) != PairOf(rows[i])
    ensures Features(rows)[i] == Counts(0, 0)
  {
    NoMeetings(rows[..i], PairOf(rows[i]));
    FeaturesConservation(rows, i);
  }

  lemma {:induction false} NoMeetings(rows: seq<Match>, k: PairKey)
    requires forall j :: 0 <= j < |rows| ==> PairOf(rows[j]) != k
    ensures Meetings(rows, k) == 0
  {
    if rows != [] {
      NoMeetings(rows[..|rows| - 1], k);
    }
  }

  /** One row touches only its own pair, and adds exactly one win to exactly
      one of its counters, chosen by the slot of the winner. */
  lemma RecordEffect(t: Table, m: Match, k: PairKey)
    ensures k != PairOf(m) ==> Lookup(Record(t, m), k) == Lookup(t, k)
    ensures k == PairOf(m) && m.winner == m.player1 ==>
              Lookup(Record(t, m), k) == Counts(Lookup(t, k).a + 1, Lookup(t, k).b)
    ensures k == PairOf(m) && m.winner != m.player1 ==>
              Lookup(Record(t, m), k) == Counts(Lookup(t, k).a, Lookup(t, k).b + 1)
  {
  }

  /** Rows (X, Y) and (Y, X) read and update the same entry. */
  lemma SameEntryEitherOrder(m: Match, n: Match)
    requires m.player1 == n.player2 && m.player2 == n.player1
    ensures PairOf(m) == PairOf(n)
  {
    SortedPairSymmetric(m.player1, m.player2);
  }

  /** No leakage: the counters a row sees depend only on the rows before it
      and on its own two players, not on its outcome or on any later row. */
  lemma FeaturesNoLeakage(rows: seq<Match>, rows': seq<Match>, i: nat)
    requires i < |rows| && i < |rows'|
    requires rows[..i] == rows'[..i]
    requires PairOf(rows[i]) == PairOf(rows'[i])
    ensures Features(rows)[i] == Features(rows')[i]
  {
  }

  /** Truncating the table after row `k` leaves the features of the rows
      kept unchanged. */
  lemma FeaturesPrefix(rows: seq<Match>, k: nat)
    requires k <= |rows|
    ensures Features(rows[..k]) == Features(rows)[..k]
  {
    forall i | 0 <= i < k
      ensures Features(rows[..k])[i] == Features(rows)[i]
    {
      assert rows[..k][..i] == rows[..i];
    }
  }

  /** Two rows can be recorded in either order: the table after both is the
      same, whether or not they belong to the same pair. */
  lemma RecordCommutes(t: Table, m: Match, n: Match)
    ensures Record(Record(t, m), n) == Record(Record(t, n), m)
  {
  }

  /** Exchanging two adjacent rows of different pairs changes no emitted
      counters: each of the two rows sees what it saw before, and so does
      every later row. */
  lemma FeaturesSwapDisjoint(rows: seq<Match>, i: nat)
    requires i + 1 < |rows|
    requires PairOf(rows[i]) != PairOf(rows[i + 1])
    ensures Features(SwapAdjacent(rows, i))[i] == Features(rows)[i + 1]
    ensures Features(SwapAdjacent(rows, i))[i + 1] == Features(rows)[i]
    ensures forall j :: i + 2 <= j < |rows| ==> Features(SwapAdjacent(rows, i))[j] == Features(rows)[j]
  {
    var sw := SwapAdjacent(rows, i);
    FoldStep(rows, i);
    FoldStep(sw, i);
    RecordEffect(Fold(rows[..i]), rows[i], PairOf(rows[i + 1]));
    RecordEffect(Fold(rows[..i]), rows[i + 1], PairOf(rows[i]));
    forall j | i + 2 <= j < |rows|
      ensures Features(sw)[j] == Features(rows)[j]
    {
      SwappedFold(rows, i, j);
    }
  }

  /** Right after the two exchanged rows, both orders give the same table. */
  lemma SwappedPairFold(rows: seq<Match>, i: nat)
    requires i + 1 < |rows|
    ensures Fold(SwapAdjacent(rows, i)[..i + 2]) == Fold(rows[..i + 2])
  {
    var sw := SwapAdjacent(rows, i);
    var before := Fold(rows[..i]);
    FoldStep(sw, i);
    FoldStep(sw, i + 1);
    assert Fold(sw[..i + 2]) == Record(Record(before, rows[i + 1]), rows[i]);
    FoldStep(rows, i);
    FoldStep(rows, i + 1);
    assert Fold(rows[..i + 2]) == Record(Record(before, rows[i]), rows[i + 1]);
    RecordCommutes(before, rows[i], rows[i + 1]);
  }

  /** Two sequences of rows that reach the same table after `k` rows and
      agree from there on reach the same table after every later row. */
  lemma {:induction false} FoldAgree(xs: seq<Match>, ys: seq<Match>, k: nat, j: nat)
    requires k <= j <= |xs| == |ys|
    requires Fold(xs[..k]) == Fold(ys[..k])
    requires forall l :: k <= l < |xs| ==> xs[l] == ys[l]
    ensures Fold(xs[..j]) == Fold(ys[..j])
    decreases j
  {
    if j > k {
      FoldAgree(xs, ys, k, j - 1);
      FoldStep(xs, j - 1);
      FoldStep(ys, j - 1);
    }
  }

  /** From then on the two tables stay equal. */
  lemma SwappedFold(rows: seq<Match>, i: nat, j: nat)
    requires i + 2 <= j <= |rows|
    ensures Fold(SwapAdjacent(rows, i)[..j]) == Fold(rows[..j])
  {
    SwappedPairFold(rows, i);
    FoldAgree(SwapAdjacent(rows, i), rows, i + 2, j);
  }

  /** Slot, not identity: "Ann" beats "Bob" twice, once from each slot, and
      the pair ends with one win in `A` and one in `B`. */
  lemma SlotNotIdentity()
    ensures
      var r1 := Match("Ann", "Bob", "Ann", "Hard", 1, 2);
      var r2 := Match("Bob", "Ann", "Ann", "Hard", 2, 1);
      Lookup(Fold([r1, r2]), ("Ann", "Bob")) == Counts(1, 1)
  {
    var r1 := Match("Ann", "Bob", "Ann", "Hard", 1, 2);
    var r2 := Match("Bob", "Ann", "Ann", "Hard", 2, 1);
    assert LexLe("Ann", "Bob");
    assert !LexLe("Bob", "Ann");
    assert PairOf(r1) == ("Ann", "Bob") && PairOf(r2) == ("Ann", "Bob");
    assert [r1][..0] == [];
    assert Fold([r1]) == map[("Ann", "Bob") := Counts(1, 0)];
    assert [r1, r2][..1] == [r1];
  }
}
