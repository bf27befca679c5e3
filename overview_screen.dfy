/**
 * The overview screen: the total value locked across all chains and the
 * first five chains as received, numbered from 1.
 */
module OverviewScreen {
  import opened Wrappers
  import opened Chains

  /** How many chains the "Top Chains by TVL" card lists. */
  const TopCount: nat := 5

  /**
   * `reduce((sum, chain) => sum + (chain.tvl || 0), 0)`, folding from the
   * left. Over exact reals it agrees with the fold from the right: the first
   * chain's value plus the total of the rest.
   */
  function SumTvl(cs: seq<Chain>): (total: real)
    ensures cs != [] ==> total == TvlOrZero(cs[0]) + SumTvl(cs[1..])
  {
    if cs == [] then 0.0
    else
      var init := cs[..|cs| - 1];
      assert |cs| > 1 ==> init[1..] == cs[1..][..|cs[1..]| - 1];
      SumTvl(init) + TvlOrZero(cs[|cs| - 1])
  }

  /** `totalTVL`: the sum over the received chains; 0 when there is no data. */
  function TotalTvl(data: Option<seq<Chain>>): (total: real)
    ensures data.None? || data == Some([]) ==> total == 0.0
  {
    match data
    case None => 0.0
    case Some(cs) => SumTvl(cs)
  }

  /** Receiving one more chain raises the total by exactly its `tvl || 0`. */
  lemma SumTvlAppend(cs: seq<Chain>, c: Chain)
    ensures SumTvl(cs + [c]) == SumTvl(cs) + TvlOrZero(c)
  {
  }

  /** The total of two lists back to back is the sum of their totals. */
  lemma {:induction false} SumTvlConcat(s: seq<Chain>, t: seq<Chain>)
    ensures SumTvl(s + t) == SumTvl(s) + SumTvl(t)
    decreases |t|
  {
    if t == [] {
      assert s + t == s;
    } else {
      var init, last := t[..|t| - 1], t[|t| - 1];
      assert t == init + [last];
      assert s + t == (s + init) + [last];
      SumTvlConcat(s, init);
      SumTvlAppend(s + init, last);
      SumTvlAppend(init, last);
    }
  }

  /** Over exact reals, the total does not depend on the order the API returns the chains in. */
  lemma {:induction false} SumTvlPermutation(s: seq<Chain>, t: seq<Chain>)
    requires multiset(s) == multiset(t)
    ensures SumTvl(s) == SumTvl(t)
    decreases |s|
  {
    if s != [] {
      var init, last := s[..|s| - 1], s[|s| - 1];
      assert s == init + [last];
      assert last in multiset(t);
      var k :| 0 <= k < |t| && t[k] == last;
      var rest := t[..k] + t[k + 1..];
      assert t == t[..k] + [last] + t[k + 1..];
      assert multiset(rest) == multiset(t) - multiset{last};
      assert multiset(init) == multiset(s) - multiset{last};
      SumTvlPermutation(init, rest);
      SumTvlConcat(t[..k], t[k + 1..]);
      SumTvlConcat(t[..k] + [last], t[k + 1..]);
      SumTvlAppend(t[..k], last);
      SumTvlAppend(init, last);
    } else {
      assert |t| == |multiset(t)| == 0;
    }
  }

  /** With no negative values, the total is at least the value of each chain. */
  lemma {:induction false} SumTvlBounds(cs: seq<Chain>, i: nat)
    requires forall c :: c in cs ==> TvlOrZero(c) >= 0.0
    requires i < |cs|
    ensures 0.0 <= TvlOrZero(cs[i]) <= SumTvl(cs)
  {
    assert cs == cs[..i] + [cs[i]] + cs[i + 1..];
    SumTvlConcat(cs[..i] + [cs[i]], cs[i + 1..]);
    SumTvlAppend(cs[..i], cs[i]);
    SumTvlNonNegative(cs[..i]);
    SumTvlNonNegative(cs[i + 1..]);
  }

  lemma {:induction false} SumTvlNonNegative(cs: seq<Chain>)
    requires forall c :: c in cs ==> TvlOrZero(c) >= 0.0
    ensures SumTvl(cs) >= 0.0
  {
    if cs != [] {
      assert cs[|cs| - 1] in cs;
      SumTvlNonNegative(cs[..|cs| - 1]);
    }
  }

  /**
   * `topChains`: the first min(5, n) chains exactly as received, no
   * re-sorting; empty when there is no data.
   */
  function TopChains(data: Option<seq<Chain>>): (top: seq<Chain>)
    ensures data.None? ==> top == []
    ensures data.Some? ==>
      |top| == (if |data.value| < TopCount then |data.value| else TopCount) && top <= data.value
  {
    match data
    case None => []
    case Some(cs) => if |cs| < TopCount then cs else cs[..TopCount]
  }

  /**
   * The card titled "Top Chains by TVL" lists the received order, even when
   * a later chain holds more value than an earlier one.
   */
  lemma TopChainsNotRanked()
    ensures var low, high := Chain(None, "L", Some(1.0), None, None), Chain(None, "H", Some(2.0), None, None);
      && TopChains(Some([low, high])) == [low, high]
      && TvlOrZero(TopChains(Some([low, high]))[0]) < TvlOrZero(TopChains(Some([low, high]))[1])
  {
  }

  /** One row of the top-chains card: its displayed rank and its chain. */
  datatype RankedRow = RankedRow(rank: nat, chain: Chain)

  /** `map((chain, index) => ...)` with the rank `index + first`. */
  function RankFrom(cs: seq<Chain>, first: nat): (rows: seq<RankedRow>)
    ensures |rows| == |cs|
    ensures forall i :: 0 <= i < |cs| ==> rows[i] == RankedRow(first + i, cs[i])
  {
    if cs == [] then [] else [RankedRow(first, cs[0])] + RankFrom(cs[1..], first + 1)
  }

  /** The rows of the card: ranks 1, 2, ... in order, at most five, over TopChains. */
  function TopChainRows(data: Option<seq<Chain>>): (rows: seq<RankedRow>)
    ensures |rows| == |TopChains(data)| <= TopCount
    ensures forall i :: 0 <= i < |rows| ==> rows[i].rank == i + 1 && rows[i].chain == TopChains(data)[i]
  {
    RankFrom(TopChains(data), 1)
  }
}
