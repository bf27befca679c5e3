/**
 * The chain list screen: the derived list (search filter, then a stable sort
 * by the selected key), the change indicator on each card, and the list key.
 */
module ChainsScreen {
  import opened Wrappers
  import opened Chains
  import opened Text
  import opened ArraySort

  /** The three sort buttons; `Tvl` is the initial selection. */
  datatype SortKey = Tvl | Name | Protocols

  /**
   * `String.prototype.localeCompare` of the platform's locale: negative when
   * the first string sorts before the second, positive when after, zero when
   * the locale ranks them equal.
   */
  type LocaleCompare = (string, string) -> int

  /** What the model assumes of localeCompare: a total preorder on strings. */
  ghost predicate LocaleOrder(locale: LocaleCompare) {
    && (forall a, b :: locale(a, b) > 0 <==> locale(b, a) < 0)
    && (forall a, b, c :: locale(a, b) <= 0 && locale(b, c) <= 0 ==> locale(a, c) <= 0)
  }

  /**
   * The arrow function handed to `filtered.sort`, for the selected key: `a`
   * goes first when it holds more value locked or more protocols, or when
   * the locale puts its name first; a tie when those are equal.
   */
  function Compare(key: SortKey, locale: LocaleCompare, a: Chain, b: Chain): (r: real)
    ensures key == Tvl ==>
      (r < 0.0 <==> TvlOrZero(a) > TvlOrZero(b)) && (r == 0.0 <==> TvlOrZero(a) == TvlOrZero(b))
    ensures key == Protocols ==>
      (r < 0.0 <==> ProtocolsOrZero(a) > ProtocolsOrZero(b))
      && (r == 0.0 <==> ProtocolsOrZero(a) == ProtocolsOrZero(b))
    ensures key == Name ==>
      (r < 0.0 <==> locale(a.name, b.name) < 0) && (r == 0.0 <==> locale(a.name, b.name) == 0)
  {
    match key
    case Tvl => TvlOrZero(b) - TvlOrZero(a)
    case Name => locale(a.name, b.name) as real
    case Protocols => (ProtocolsOrZero(b) - ProtocolsOrZero(a)) as real
  }

  function Comparator(key: SortKey, locale: LocaleCompare): Comparator<Chain> {
    (a, b) => Compare(key, locale, a, b)
  }

  /** Every key gives the sort a consistent comparator, as the standard asks. */
  lemma ComparatorConsistent(key: SortKey, locale: LocaleCompare)
    requires LocaleOrder(locale)
    ensures Consistent(Comparator(key, locale))
  {
  }

  /** Sorted by `tvl`: value locked never increases along the list, absent read as 0. */
  lemma SortedByTvl(s: seq<Chain>, locale: LocaleCompare)
    ensures Sorted(s, Comparator(Tvl, locale)) <==>
      forall i, j :: 0 <= i < j < |s| ==> TvlOrZero(s[i]) >= TvlOrZero(s[j])
  {
  }

  /** Sorted by `protocols`: the protocol count never increases, absent read as 0. */
  lemma SortedByProtocols(s: seq<Chain>, locale: LocaleCompare)
    ensures Sorted(s, Comparator(Protocols, locale)) <==>
      forall i, j :: 0 <= i < j < |s| ==> ProtocolsOrZero(s[i]) >= ProtocolsOrZero(s[j])
  {
  }

  /** Sorted by `name`: names never decrease under the locale's comparison. */
  lemma SortedByName(s: seq<Chain>, locale: LocaleCompare)
    ensures Sorted(s, Comparator(Name, locale)) <==>
      forall i, j :: 0 <= i < j < |s| ==> locale(s[i].name, s[j].name) <= 0
  {
  }

  /** The search predicate: the lower-cased name includes the lower-cased search text. */
  predicate Matches(c: Chain, search: string, lower: CharFold) {
    Includes(Lower(c.name, lower), Lower(search, lower))
  }

  /**
   * `chains.filter(...)`: the records whose name matches, each kept as many
   * times as it occurs in the input, and nothing else.
   */
  function FilterChains(chains: seq<Chain>, search: string, lower: CharFold): (kept: seq<Chain>)
    ensures |kept| <= |chains|
    ensures forall c :: c in kept ==> Matches(c, search, lower)
    ensures forall c :: multiset(kept)[c] == if Matches(c, search, lower) then multiset(chains)[c] else 0
  {
    if chains == [] then []
    else
      assert chains == [chains[0]] + chains[1..];
      (if Matches(chains[0], search, lower) then [chains[0]] else [])
      + FilterChains(chains[1..], search, lower)
  }

  /** The filter keeps the received order: it distributes over concatenation. */
  lemma {:induction false} FilterConcat(s: seq<Chain>, t: seq<Chain>, search: string, lower: CharFold)
    ensures FilterChains(s + t, search, lower) == FilterChains(s, search, lower) + FilterChains(t, search, lower)
  {
    if s == [] {
      assert s + t == t;
    } else {
      assert (s + t)[0] == s[0];
      assert (s + t)[1..] == s[1..] + t;
      FilterConcat(s[1..], t, search, lower);
    }
  }

  /** An empty search text drops nothing. */
  lemma {:induction false} EmptySearchKeepsAll(chains: seq<Chain>, lower: CharFold)
    ensures FilterChains(chains, "", lower) == chains
  {
    if chains != [] {
      EmptySearchKeepsAll(chains[1..], lower);
    }
  }

  /**
   * `processedChains`: no data gives the empty list; otherwise the matching
   * records, sorted by the selected key, ties in their received order.
   */
  method ProcessChains(chains: Option<seq<Chain>>, search: string, key: SortKey,
                       lower: CharFold, locale: LocaleCompare) returns (view: seq<Chain>)
    requires LocaleOrder(locale)
    ensures chains.None? ==> view == []
    ensures chains.Some? ==>
      var kept := FilterChains(chains.value, search, lower);
      && Sorted(view, Comparator(key, locale))
      && SameTies(view, kept, Comparator(key, locale))
      && multiset(view) == multiset(kept)
    ensures forall c :: c in view ==> Matches(c, search, lower)
    ensures chains.Some? ==>
      forall c :: Matches(c, search, lower) ==> multiset(view)[c] == multiset(chains.value)[c]
    ensures chains.Some? && search == "" ==> multiset(view) == multiset(chains.value)
  {
    if chains.None? {
      return [];
    }
    var filtered := FilterChains(chains.value, search, lower);
    var a := new Chain[|filtered|](i requires 0 <= i < |filtered| => filtered[i]);
    assert a[..] == filtered;
    ComparatorConsistent(key, locale);
    Sort(a, Comparator(key, locale));
    view := a[..];
    forall c | c in view
      ensures Matches(c, search, lower)
    {
      assert multiset(view)[c] > 0;
    }
    if search == "" {
      EmptySearchKeepsAll(chains.value, lower);
    }
  }

  /**
   * The derived list is determined by its inputs: any two lists meeting
   * ProcessChains' postcondition for the same inputs are equal.
   */
  lemma DerivedViewDeterministic(chains: seq<Chain>, search: string, key: SortKey,
                                 lower: CharFold, locale: LocaleCompare, v: seq<Chain>, w: seq<Chain>)
    requires LocaleOrder(locale)
    requires Sorted(v, Comparator(key, locale))
    requires SameTies(v, FilterChains(chains, search, lower), Comparator(key, locale))
    requires Sorted(w, Comparator(key, locale))
    requires SameTies(w, FilterChains(chains, search, lower), Comparator(key, locale))
    ensures v == w
  {
    ComparatorConsistent(key, locale);
    SortedStableUnique(v, w, Comparator(key, locale));
  }

  /**
   * `chain.tvlPrevDay && chain.tvl > chain.tvlPrevDay`: the card shows
   * "trending up". When it does, the value rose by exactly the displayed
   * percentage of the previous value.
   */
  predicate TrendsUp(c: Chain)
    ensures TrendsUp(c) ==>
      && c.tvl.Some? && c.tvlPrevDay.Some? && c.tvlPrevDay.value != 0.0
      && ChangePercent(c).Some?
      && c.tvl.value == c.tvlPrevDay.value + ChangePercent(c).value * c.tvlPrevDay.value / 100.0
      && ChangePercent(c).value * c.tvlPrevDay.value > 0.0
  {
    match c.tvlPrevDay
    case None => false
    case Some(p) => p != 0.0 && c.tvl.Some? && c.tvl.value > p
  }

  function Abs(x: real): real {
    if x < 0.0 then -x else x
  }

  /**
   * The change percentage before formatting. A missing or zero previous
   * value short-circuits to 0, so the division is never by zero. `None`
   * stands for NaN: JavaScript's result when the current value is missing.
   */
  function ChangePercent(c: Chain): (pct: Option<real>)
    ensures c.tvlPrevDay.None? || c.tvlPrevDay == Some(0.0) ==> pct == Some(0.0)
    ensures pct.None? <==> c.tvl.None? && c.tvlPrevDay.Some? && c.tvlPrevDay.value != 0.0
  {
    match c.tvlPrevDay
    case None => Some(0.0)
    case Some(p) =>
      if p == 0.0 then Some(0.0)
      else if c.tvl.None? then None
      else Some(Abs(c.tvl.value - p) / p * 100.0)
  }

  /** Without a usable previous value the card reads "down" at 0%. */
  lemma NoBaselineShowsFlatDown(c: Chain)
    requires c.tvlPrevDay.None? || c.tvlPrevDay == Some(0.0)
    ensures !TrendsUp(c) && ChangePercent(c) == Some(0.0)
  {
  }

  /**
   * Direction and percentage together give back the current value from the
   * previous one: current = previous * (1 +/- percentage / 100).
   */
  lemma ChangeRecoversCurrent(c: Chain)
    requires c.tvl.Some? && c.tvlPrevDay.Some? && c.tvlPrevDay.value != 0.0
    ensures ChangePercent(c).Some?
    ensures var t, p, pct := c.tvl.value, c.tvlPrevDay.value, ChangePercent(c).value;
      t == if TrendsUp(c) then p + pct * p / 100.0 else p - pct * p / 100.0
    ensures !TrendsUp(c) ==> ChangePercent(c).value * c.tvlPrevDay.value >= 0.0
  {
  }

  /** A value that did not change shows "down" at 0%, whatever its sign. */
  lemma UnchangedShowsDown(c: Chain)
    requires c.tvl.Some? && c.tvlPrevDay.Some? && c.tvl.value == c.tvlPrevDay.value
    ensures !TrendsUp(c) && ChangePercent(c) == Some(0.0)
  {
  }

  /** With a positive previous value the percentage is non-negative, zero exactly when nothing changed. */
  lemma ChangeMagnitude(c: Chain)
    requires c.tvl.Some? && c.tvlPrevDay.Some? && c.tvlPrevDay.value > 0.0
    ensures ChangePercent(c).Some? && ChangePercent(c).value >= 0.0
    ensures ChangePercent(c).value == 0.0 <==> c.tvl.value == c.tvlPrevDay.value
  {
  }

  /**
   * `item.gecko_id || item.name`: a present, non-empty identifier, otherwise
   * the name; the key is empty only when both are.
   */
  function ListKey(c: Chain): (k: string)
    ensures c.geckoId.Some? && c.geckoId.value != "" ==> k == c.geckoId.value
    ensures k == c.name || Some(k) == c.geckoId
    ensures k == "" <==> c.name == "" && (c.geckoId.None? || c.geckoId.value == "")
  {
    match c.geckoId
    case Some(g) => if g != "" then g else c.name
    case None => c.name
  }

  /** Sorting by `tvl` `[A: 5, B: 10, C: absent]` gives `[B, A, C]`. */
  lemma TvlSortExample(locale: LocaleCompare, view: seq<Chain>)
    requires LocaleOrder(locale)
    requires
      var a := Chain(None, "A", Some(5.0), None, None);
      var b := Chain(None, "B", Some(10.0), None, None);
      var c := Chain(None, "C", None, None, None);
      Sorted(view, Comparator(Tvl, locale)) && SameTies(view, [a, b, c], Comparator(Tvl, locale))
    ensures view == [Chain(None, "B", Some(10.0), None, None),
                     Chain(None, "A", Some(5.0), None, None),
                     Chain(None, "C", None, None, None)]
  {
    var a := Chain(None, "A", Some(5.0), None, None);
    var b := Chain(None, "B", Some(10.0), None, None);
    var c := Chain(None, "C", None, None, None);
    var cmp := Comparator(Tvl, locale);
    ComparatorConsistent(Tvl, locale);
    assert cmp(b, a) == -5.0;
    UntiedSwap(b, a, cmp);
    SameTiesSnoc([b, a], [a, b], c, cmp);
    assert [b, a] + [c] == [b, a, c] && [a, b] + [c] == [a, b, c];
    SortedStableUnique(view, [b, a, c], cmp);
  }

  /** Sorting by `name` `[banana, Apple]` gives `[Apple, banana]` when the locale puts Apple first. */
  lemma NameSortExample(locale: LocaleCompare, view: seq<Chain>)
    requires LocaleOrder(locale) && locale("Apple", "banana") < 0
    requires
      var apple := Chain(None, "Apple", None, None, None);
      var banana := Chain(None, "banana", None, None, None);
      Sorted(view, Comparator(Name, locale)) && SameTies(view, [banana, apple], Comparator(Name, locale))
    ensures view == [Chain(None, "Apple", None, None, None), Chain(None, "banana", None, None, None)]
  {
    var apple := Chain(None, "Apple", None, None, None);
    var banana := Chain(None, "banana", None, None, None);
    var cmp := Comparator(Name, locale);
    ComparatorConsistent(Name, locale);
    assert cmp(apple, banana) < 0.0;
    UntiedSwap(apple, banana, cmp);
    SortedStableUnique(view, [apple, banana], cmp);
  }
}
