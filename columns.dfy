/** The column-wise pieces of the pipeline: the surface code table,
    the rank difference and the outcome label. */
module Columns {
  import opened Records

  /** The surface names the table knows, in code order. */
  const KnownSurfaces: seq<string> := ["Unknown", "Hard", "Clay", "Grass", "Carpet"]

  /** `encode_Surface`: the fixed table Hard 0, Clay 1, Grass 2, Carpet 3,
      Unknown -1. Any other name has no code (NaN in the table). */
  function EncodeSurface(s: string): (code: Option<int>)
    ensures code.Some? <==> s in KnownSurfaces
    ensures code.Some? ==> -1 <= code.value <= 3 && KnownSurfaces[code.value + 1] == s
  {
    if s == "Hard" then Some(0)
    else if s == "Clay" then Some(1)
    else if s == "Grass" then Some(2)
    else if s == "Carpet" then Some(3)
    else if s == "Unknown" then Some(-1)
    else None
  }

  /** The inverse of the surface table: the name carrying a code. */
  function SurfaceName(code: int): (s: Option<string>)
    ensures s.Some? <==> -1 <= code <= 3
  {
    if -1 <= code <= 3 then Some(KnownSurfaces[code + 1]) else None
  }

  /** Decoding an encoded name gives the name back. */
  lemma SurfaceNameOfEncode(s: string)
    requires s in KnownSurfaces
    ensures SurfaceName(EncodeSurface(s).value) == Some(s)
  {
  }

  /** Encoding a decoded code gives the code back: the table is a bijection
      between the five names and -1..3. */
  lemma {:induction false} EncodeOfSurfaceName(code: int)
    requires -1 <= code <= 3
    ensures EncodeSurface(SurfaceName(code).value) == Some(code)
  {
  }

  /** Two different known names never share a code. */
  lemma EncodeSurfaceInjective(s: string, t: string)
    requires EncodeSurface(s).Some? && EncodeSurface(s) == EncodeSurface(t)
    ensures s == t
  {
  }

  /** `add_rank_diff`: `Rank_1 - Rank_2`; negative when the first player is
      the better ranked (the smaller rank number). */
  function RankDiff(m: Match): (d: int)
    ensures d < 0 <==> m.rank1 < m.rank2
    ensures d == 0 <==> m.rank1 == m.rank2
  {
    m.rank1 - m.rank2
  }

  /** The same match with the two player slots exchanged. */
  function Swap(m: Match): (w: Match)
    ensures w.player1 == m.player2 && w.player2 == m.player1
    ensures w.rank1 == m.rank2 && w.rank2 == m.rank1
    ensures w.winner == m.winner && w.surface == m.surface
  {
    Match(m.player2, m.player1, m.winner, m.surface, m.rank2, m.rank1)
  }

  /** Listing the players the other way round negates the rank difference. */
  lemma RankDiffSwap(m: Match)
    ensures RankDiff(Swap(m)) == -RankDiff(m)
  {
  }

  /** The label of `preprocess`: 1 when `Winner` is `Player_1`, else 0. */
  function Target(m: Match): (t: int)
    ensures t == 0 || t == 1
    ensures t == 1 <==> m.winner == m.player1
  {
    if m.winner == m.player1 then 1 else 0
  }

  /** When the winner is one of two distinct players, swapping the slots
      flips the label. When the winner is neither player, both orders give 0. */
  lemma TargetSwap(m: Match)
    ensures m.winner in {m.player1, m.player2} && m.player1 != m.player2 ==>
              Target(Swap(m)) == 1 - Target(m)
    ensures m.winner !in {m.player1, m.player2} ==> Target(m) == 0 && Target(Swap(m)) == 0
  {
  }
}
