/** `preprocess`: the null filter, then the surface code, the rank
    difference, the head-to-head counters, the surface win rates and the
    label, each as a column of the cleaned table. */
module Pipeline {
  import opened Records
  import Columns
  import HeadToHead
  import SurfaceWinrate

  /** A row of the output table: the match and its derived columns. */
  datatype FeatureRow = FeatureRow(
    m: Match,
    surfaceCode: Option<int>,
    rankDiff: int,
    h2hA: nat,
    h2hB: nat,
    rateA: real,
    rateB: real,
    target: int)

  /** The output table of a cleaned sequence of matches. */
  function Assemble(ms: seq<Match>): (out: seq<FeatureRow>)
    ensures |out| == |ms|
  {
    var h := HeadToHead.Features(ms);
    var r := SurfaceWinrate.Features(ms);
    seq(|ms|, i requires 0 <= i < |ms| =>
      FeatureRow(ms[i], Columns.EncodeSurface(ms[i].surface), Columns.RankDiff(ms[i]),
                 h[i].a, h[i].b, r[i].a, r[i].b, Columns.Target(ms[i])))
  }

  /** The pipeline, step by step in the source's order. */
  method Preprocess(raw: seq<RawRow>) returns (out: seq<FeatureRow>)
    ensures out == Assemble(CleanNulls(raw))
    ensures |out| == CountComplete(raw)
  {
    var ms := CleanNulls(raw);
    CleanNullsLength(raw);
    var codes := seq(|ms|, i requires 0 <= i < |ms| => Columns.EncodeSurface(ms[i].surface));
    var diffs := seq(|ms|, i requires 0 <= i < |ms| => Columns.RankDiff(ms[i]));
    var h2h := HeadToHead.AddH2H(ms);
    var rates := SurfaceWinrate.AddSurfaceWinrate(ms);
    var targets := seq(|ms|, i requires 0 <= i < |ms| => Columns.Target(ms[i]));
    out := seq(|ms|, i requires 0 <= i < |ms| =>
      FeatureRow(ms[i], codes[i], diffs[i], h2h[i].a, h2h[i].b, rates[i].a, rates[i].b, targets[i]));
  }

  /** What each output row carries: its label is 1 exactly when `Player_1`
      won, its rates lie in [0, 1), and its two head-to-head counters add up
      to the number of earlier meetings of its two players. */
  lemma AssembleRow(ms: seq<Match>, i: nat)
    requires i < |ms|
    ensures Assemble(ms)[i].target in {0, 1}
    ensures Assemble(ms)[i].target == 1 <==> ms[i].winner == ms[i].player1
    ensures 0.0 <= Assemble(ms)[i].rateA < 1.0 && 0.0 <= Assemble(ms)[i].rateB < 1.0
    ensures Assemble(ms)[i].h2hA + Assemble(ms)[i].h2hB ==
              HeadToHead.Meetings(ms[..i], HeadToHead.PairOf(ms[i]))
  {
    SurfaceWinrate.FeaturesBounds(ms, i);
    HeadToHead.FeaturesConservation(ms, i);
  }

  /** No leakage, for the whole table: cutting the matches after row `k`
      leaves the first `k` output rows as they were. */
  lemma AssemblePrefix(ms: seq<Match>, k: nat)
    requires k <= |ms|
    ensures Assemble(ms[..k]) == Assemble(ms)[..k]
  {
    HeadToHead.FeaturesPrefix(ms, k);
    SurfaceWinrate.FeaturesPrefix(ms, k);
  }

  /** No leakage, for one row: its derived features other than the label
      are the same whatever its own outcome and whatever follows it. */
  lemma AssembleNoLeakage(ms: seq<Match>, ms': seq<Match>, i: nat)
    requires i < |ms| && i < |ms'|
    requires ms[..i] == ms'[..i]
    requires ms[i].player1 == ms'[i].player1 && ms[i].player2 == ms'[i].player2
    requires ms[i].surface == ms'[i].surface
    requires ms[i].rank1 == ms'[i].rank1 && ms[i].rank2 == ms'[i].rank2
    ensures Assemble(ms)[i].h2hA == Assemble(ms')[i].h2hA
    ensures Assemble(ms)[i].h2hB == Assemble(ms')[i].h2hB
    ensures Assemble(ms)[i].rateA == Assemble(ms')[i].rateA
    ensures Assemble(ms)[i].rateB == Assemble(ms')[i].rateB
    ensures Assemble(ms)[i].rankDiff == Assemble(ms')[i].rankDiff
    ensures Assemble(ms)[i].surfaceCode == Assemble(ms')[i].surfaceCode
  {
    HeadToHead.FeaturesNoLeakage(ms, ms', i);
    SurfaceWinrate.FeaturesNoLeakage(ms, ms', i);
  }

  /** A worked example: Alice beats Bob, Bob beats Alice, Alice beats Carol,
      all on hard courts. Entering the second match Alice leads 1-0 and has
      won her one hard-court match; entering the third she has won one of two. */
  lemma Scenario()
    ensures
      var ms := [Match("Alice", "Bob", "Alice", "Hard", 1, 2),
                 Match("Alice", "Bob", "Bob", "Hard", 1, 2),
                 Match("Alice", "Carol", "Alice", "Hard", 1, 3)];
      && Assemble(ms)[0].h2hA == 0 && Assemble(ms)[0].h2hB == 0 && Assemble(ms)[0].rateA == 0.0
      && Assemble(ms)[1].h2hA == 1 && Assemble(ms)[1].h2hB == 0
      && Assemble(ms)[1].rateA == 1.0 / (1.0 + SurfaceWinrate.Eps)
      && Assemble(ms)[2].rateA == 1.0 / (2.0 + SurfaceWinrate.Eps)
      && Assemble(ms)[2].target == 1
  {
    var ms := [Match("Alice", "Bob", "Alice", "Hard", 1, 2),
               Match("Alice", "Bob", "Bob", "Hard", 1, 2),
               Match("Alice", "Carol", "Alice", "Hard", 1, 3)];
    assert ms[..0] == [];
    assert ms[..1] == [ms[0]];
    assert ms[..2] == [ms[0], ms[1]];
    assert HeadToHead.LexLe("Alice", "Bob");
    assert HeadToHead.PairOf(ms[0]) == ("Alice", "Bob") == HeadToHead.PairOf(ms[1]);
    HeadToHead.FeaturesConservation(ms, 1);
    assert [ms[0], ms[1]][..1] == [ms[0]];
    SurfaceWinrate.FoldCounts(ms[..1], "Alice", "Hard");
    SurfaceWinrate.FoldCounts(ms[..2], "Alice", "Hard");
  }

  /** Order independence across disjoint competitor sets: exchanging two
      adjacent matches with no player in common exchanges their output rows
      and leaves every later output row unchanged. */
  lemma AssembleSwapDisjoint(ms: seq<Match>, i: nat)
    requires i + 1 < |ms|
    requires DisjointPlayers(ms[i], ms[i + 1])
    ensures Assemble(SwapAdjacent(ms, i))[i] == Assemble(ms)[i + 1]
    ensures Assemble(SwapAdjacent(ms, i))[i + 1] == Assemble(ms)[i]
    ensures forall j :: i + 2 <= j < |ms| ==> Assemble(SwapAdjacent(ms, i))[j] == Assemble(ms)[j]
  {
    assert HeadToHead.PairOf(ms[i]) != HeadToHead.PairOf(ms[i + 1]);
    HeadToHead.FeaturesSwapDisjoint(ms, i);
    SurfaceWinrate.FeaturesSwapDisjoint(ms, i);
  }
}
