/** gilbert_shannon_reed.py, `calculate_differences`: the integer part of the
    experiment. A fixed starting deck is shuffled `num_shuffles` times over,
    NUM_DECKS times; then, for every position of the deck, the number of
    times each card landed there is tallied. */
module Experiment {
  import opened RandomSource
  import opened Riffle
  import ArrayShuffle

  const NUM_CARDS: nat := 52
  const NUM_DECKS: nat := 10000

  /** How many times `t` occurs in `s`. */
  function Count(s: seq<int>, t: int): (c: nat)
    ensures c == multiset(s)[t]
  {
    if s == [] then 0
    else
      assert s == [s[0]] + s[1..];
      (if s[0] == t then 1 else 0) + Count(s[1..], t)
  }

  /** One more card adds one to its own count and nothing to the others. */
  lemma CountAppend(s: seq<int>, x: int, t: int)
    ensures Count(s + [x], t) == Count(s, t) + if x == t then 1 else 0
  {
    assert multiset(s + [x]) == multiset(s) + multiset{x};
  }

  /** Counting in one more card of a prefix. */
  lemma CountPrefix(s: seq<int>, p: nat, t: int)
    requires 0 < p <= |s|
    ensures Count(s[..p], t) == Count(s[..p - 1], t) + if s[p - 1] == t then 1 else 0
  {
    assert s[..p] == s[..p - 1] + [s[p - 1]];
    CountAppend(s[..p - 1], s[p - 1], t);
  }

  /** `range(n)`: the cards 0, 1, ..., n - 1 in order. */
  function Range(n: nat): (r: seq<int>)
    ensures |r| == n
  {
    seq(n, i => i)
  }

  /** Each card of `range(n)` occurs exactly once, and nothing else does. */
  lemma {:induction false} RangeCount(n: nat, t: int)
    ensures Count(Range(n), t) == if 0 <= t < n then 1 else 0
  {
    if n > 0 {
      RangeCount(n - 1, t);
      assert Range(n) == Range(n - 1) + [n - 1];
    }
  }

  /** `s` is the cards 0 .. n - 1 in some order: what `np.random.shuffle`
      leaves in `orig_deck`. */
  predicate IsDeckOf(s: seq<int>, n: nat) {
    multiset(s) == multiset(Range(n))
  }

  /** A deck of n cards holds each card 0 .. n - 1 exactly once and nothing else. */
  lemma DeckCards(s: seq<int>, n: nat)
    requires IsDeckOf(s, n)
    ensures |s| == n
    ensures forall k | 0 <= k < |s| :: 0 <= s[k] < n
    ensures forall t | 0 <= t < n :: Count(s, t) == 1
  {
    assert |s| == |multiset(s)| == |multiset(Range(n))| == n;
    forall k | 0 <= k < |s|
      ensures 0 <= s[k] < n
    {
      assert s[k] in multiset(s);
      RangeCount(n, s[k]);
    }
    forall t | 0 <= t < n
      ensures Count(s, t) == 1
    {
      RangeCount(n, t);
    }
  }

  /** Every shuffle of the sequence has enough coin draws for an n-card deck. */
  predicate Covers(ds: seq<Draws>, n: nat) {
    forall j | 0 <= j < |ds| :: |ds[j].coins| >= n
  }

  /** `new_deck` after the inner loop: `deck` shuffled once per entry of `ds`,
      in order. */
  function ShuffleRepeatedly(deck: seq<int>, ds: seq<Draws>): (out: seq<int>)
    requires |deck| >= 2 && Covers(ds, |deck|)
    ensures |out| == |deck|
  {
    if ds == [] then deck
    else ShuffleOnce(ShuffleRepeatedly(deck, ds[..|ds| - 1]), ds[|ds| - 1])
  }

  /** However many times it is shuffled, the deck keeps its cards. */
  lemma {:induction false} RepeatedIsPermutation(deck: seq<int>, ds: seq<Draws>)
    requires |deck| >= 2 && Covers(ds, |deck|)
    ensures multiset(ShuffleRepeatedly(deck, ds)) == multiset(deck)
  {
    if ds != [] {
      RepeatedIsPermutation(deck, ds[..|ds| - 1]);
      ShuffleIsPermutation(ShuffleRepeatedly(deck, ds[..|ds| - 1]), ds[|ds| - 1]);
    }
  }

  /** Every row of `draws` gives enough draws for every shuffle of the deck. */
  predicate AllCover(draws: seq<seq<Draws>>, n: nat) {
    forall i | 0 <= i < |draws| :: Covers(draws[i], n)
  }

  /** `shuffled_decks`: row i is the starting deck after the shuffles of `draws[i]`. */
  function Trials(deck: seq<int>, draws: seq<seq<Draws>>): (decks: seq<seq<int>>)
    requires |deck| >= 2 && AllCover(draws, |deck|)
    ensures |decks| == |draws|
    ensures forall i | 0 <= i < |decks| :: |decks[i]| == |deck|
  {
    seq(|draws|, i requires 0 <= i < |draws| => ShuffleRepeatedly(deck, draws[i]))
  }

  /** Every trial is a deck of the same n cards. */
  lemma TrialsAreDecks(deck: seq<int>, draws: seq<seq<Draws>>, n: nat)
    requires |deck| >= 2 && AllCover(draws, |deck|) && IsDeckOf(deck, n)
    ensures forall i | 0 <= i < |draws| :: IsDeckOf(Trials(deck, draws)[i], n)
  {
    forall i | 0 <= i < |draws|
      ensures IsDeckOf(Trials(deck, draws)[i], n)
    {
      RepeatedIsPermutation(deck, draws[i]);
    }
  }

  /** `shuffled_decks[:, p]`: the card every trial left at position p. */
  function Column(decks: seq<seq<int>>, p: nat): (col: seq<int>)
    requires forall i | 0 <= i < |decks| :: p < |decks[i]|
    ensures |col| == |decks|
    ensures forall i | 0 <= i < |decks| :: col[i] == decks[i][p]
  {
    seq(|decks|, i requires 0 <= i < |decks| => decks[i][p])
  }

  /** The same column, read out of the array that holds the trials. */
  function ColumnOf(a: array2<int>, p: nat): (col: seq<int>)
    requires p < a.Length1
    reads a
    ensures |col| == a.Length0
    ensures forall i | 0 <= i < a.Length0 :: col[i] == a[i, p]
  {
    seq(a.Length0, i requires 0 <= i < a.Length0 reads a => a[i, p])
  }

  /** The occurrences of each card 0 .. n - 1 in `col`, card by card. */
  function Counts(col: seq<int>, n: nat): (f: seq<nat>)
    ensures |f| == n
    ensures forall t | 0 <= t < n :: f[t] == multiset(col)[t]
  {
    seq(n, t => Count(col, t))
  }

  function Sum(s: seq<int>): int {
    if s == [] then 0 else Sum(s[..|s| - 1]) + s[|s| - 1]
  }

  /** Adding one to an entry adds one to the sum. */
  lemma {:induction false} SumIncrement(s: seq<int>, x: nat)
    requires x < |s|
    ensures Sum(s[x := s[x] + 1]) == Sum(s) + 1
  {
    var u := s[x := s[x] + 1];
    if x < |s| - 1 {
      SumIncrement(s[..|s| - 1], x);
      assert u[..|u| - 1] == s[..|s| - 1][x := s[x] + 1];
    } else {
      assert u[..|u| - 1] == s[..|s| - 1];
    }
  }

  /** When every card of `col` lies in 0 .. n - 1, the tallies add up to the
      number of cards tallied. */
  lemma {:induction false} CountsSum(col: seq<int>, n: nat)
    requires forall k | 0 <= k < |col| :: 0 <= col[k] < n
    ensures Sum(Counts(col, n)) == |col|
  {
    if col == [] {
      assert Counts(col, n) == seq(n, _ => 0);
      ZeroSum(n);
    } else {
      var init, x := col[..|col| - 1], col[|col| - 1];
      assert col == init + [x];
      CountsSum(init, n);
      CountsAppend(init, x, n);
      SumIncrement(Counts(init, n), x);
    }
  }

  lemma CountsAppend(init: seq<int>, x: int, n: nat)
    requires 0 <= x < n
    ensures Counts(init + [x], n) == Counts(init, n)[x := Counts(init, n)[x] + 1]
  {
    forall t | 0 <= t < n
      ensures Counts(init + [x], n)[t] == Counts(init, n)[x := Counts(init, n)[x] + 1][t]
    {
      CountAppend(init, x, t);
    }
  }

  lemma {:induction false} ZeroSum(n: nat)
    ensures Sum(seq(n, _ => 0)) == 0
  {
    if n > 0 {
      assert seq(n, _ => 0)[..n - 1] == seq(n - 1, _ => 0);
      ZeroSum(n - 1);
    }
  }

  /** The smallest value of a non-empty sequence. */
  function Min(s: seq<int>): (m: int)
    requires s != []
    ensures m in s
    ensures forall k | 0 <= k < |s| :: m <= s[k]
  {
    if |s| == 1 then s[0]
    else
      var m := Min(s[1..]);
      if s[0] <= m then s[0] else m
  }

  /** The largest value of a non-empty sequence. */
  function Max(s: seq<int>): (m: int)
    requires s != []
    ensures m in s
    ensures forall k | 0 <= k < |s| :: s[k] <= m
  {
    if |s| == 1 then s[0]
    else
      var m := Max(s[1..]);
      if s[0] >= m then s[0] else m
  }

  /** The frequencies of the values from `v` up to `hi` that occur in `s`,
      in increasing order of value; values that do not occur are skipped. */
  function FreqFrom(s: seq<int>, v: int, hi: int): (f: seq<nat>)
    ensures forall k | 0 <= k < |f| :: f[k] > 0
    ensures |f| <= if v <= hi then hi - v + 1 else 0
    decreases hi - v + 1
  {
    if v > hi then []
    else
      var c := Count(s, v);
      (if c > 0 then [c] else []) + FreqFrom(s, v + 1, hi)
  }

  /** `sp.stats.itemfreq(s)[:, 1]`: the frequency of each distinct value of
      `s`, in increasing order of value. */
  function ItemFreq(s: seq<int>): (f: seq<nat>)
    requires s != []
    ensures forall k | 0 <= k < |f| :: f[k] > 0
    ensures |f| <= Max(s) - Min(s) + 1
  {
    FreqFrom(s, Min(s), Max(s))
  }

  /** Without the appended deck a card that never landed in a position is
      simply skipped: here card 1 is missing, so the count of card 2 moves into
      slot 1 and the list is one entry short. */
  lemma ItemFreqSkipsMissing()
    ensures ItemFreq([2, 0, 2]) == [1, 2]
  {
    var s := [2, 0, 2];
    assert Min(s) == 0 && Max(s) == 2;
    assert Count(s, 0) == 1 && Count(s, 1) == 0 && Count(s, 2) == 2;
    assert FreqFrom(s, 3, 2) == [];
  }

  /** When every value from `v` to `hi` occurs, nothing is skipped: the
      frequencies line up with the values. */
  lemma {:induction false} FreqFromAll(s: seq<int>, v: int, hi: int)
    requires v <= hi + 1
    requires forall t | v <= t <= hi :: Count(s, t) > 0
    ensures |FreqFrom(s, v, hi)| == hi - v + 1
    ensures forall j | 0 <= j <= hi - v :: FreqFrom(s, v, hi)[j] == Count(s, v + j)
    decreases hi - v + 1
  {
    if v <= hi {
      FreqFromAll(s, v + 1, hi);
      assert FreqFrom(s, v, hi) == [Count(s, v)] + FreqFrom(s, v + 1, hi);
    }
  }

  /** Cards drawn from 0 .. n - 1 that include both 0 and n - 1 range from 0 to n - 1. */
  lemma Extremes(s: seq<int>, n: nat)
    requires forall k | 0 <= k < |s| :: 0 <= s[k] < n
    requires 0 in s && n - 1 in s
    ensures Min(s) == 0 && Max(s) == n - 1
  {
  }

  /** Appending a deck of n cards to a column of cards adds exactly one
      occurrence of each card, and nothing outside 0 .. n - 1. */
  lemma AppendDeck(col: seq<int>, deck: seq<int>, n: nat)
    requires forall k | 0 <= k < |col| :: 0 <= col[k] < n
    requires IsDeckOf(deck, n)
    ensures forall k | 0 <= k < |col + deck| :: 0 <= (col + deck)[k] < n
    ensures forall t | 0 <= t < n :: Count(col + deck, t) == Count(col, t) + 1
  {
    DeckCards(deck, n);
    var all := col + deck;
    assert multiset(all) == multiset(col) + multiset(deck);
    forall t | 0 <= t < n
      ensures Count(all, t) == Count(col, t) + 1
    {
      assert Count(deck, t) == 1;
    }
  }

  /** Why the whole deck is appended before `itemfreq` and 1 subtracted after:
      with every card present at least once, the frequencies line up with the
      cards 0 .. n - 1, and taking the 1 back gives each card's count in the
      column exactly (so never a negative count), even for cards that never
      landed in that position. */
  lemma BiasCorrection(col: seq<int>, deck: seq<int>, n: nat)
    requires forall k | 0 <= k < |col| :: 0 <= col[k] < n
    requires IsDeckOf(deck, n) && n >= 1
    ensures |ItemFreq(col + deck)| == n
    ensures forall t | 0 <= t < n :: ItemFreq(col + deck)[t] - 1 == Count(col, t)
  {
    AppendDeck(col, deck, n);
    AllPresent(col + deck, n);
  }

  /** When the values are cards 0 .. n - 1 and every card occurs, `itemfreq`
      gives one frequency per card, in card order. */
  lemma AllPresent(s: seq<int>, n: nat)
    requires n >= 1 && s != []
    requires forall k | 0 <= k < |s| :: 0 <= s[k] < n
    requires forall t | 0 <= t < n :: Count(s, t) > 0
    ensures |ItemFreq(s)| == n
    ensures forall t | 0 <= t < n :: ItemFreq(s)[t] == Count(s, t)
  {
    assert Count(s, 0) > 0 && Count(s, n - 1) > 0;
    assert 0 in multiset(s) && n - 1 in multiset(s);
    Extremes(s, n);
    assert ItemFreq(s) == FreqFrom(s, 0, n - 1);
    FreqFromAll(s, 0, n - 1);
  }

  /** `a[i] = row` on a two-dimensional array: row i is overwritten, every
      other entry is kept. */
  method SetRow(a: array2<int>, i: nat, row: seq<int>)
    requires i < a.Length0 && |row| == a.Length1
    modifies a
    ensures forall d, q | 0 <= d < a.Length0 && 0 <= q < a.Length1 ::
      a[d, q] == if d == i then row[q] else old(a[d, q])
  {
    for q := 0 to a.Length1
      invariant forall d, r | 0 <= d < a.Length0 && 0 <= r < a.Length1 ::
        a[d, r] == if d == i && r < q then row[r] else old(a[d, r])
    {
      a[i, q] := row[q];
    }
  }

  /** The inner loops of the experiment: row i of the result is the starting
      deck after the shuffles of `draws[i]`. Both loop bodies only reassign
      `new_deck` to a freshly shuffled array; the starting deck is never
      changed. */
  method ShuffleDecks(numShuffles: nat, origDeck: array<int>, draws: seq<seq<Draws>>)
    returns (shuffledDecks: array2<int>)
    requires origDeck.Length == NUM_CARDS
    requires |draws| == NUM_DECKS
    requires forall i | 0 <= i < NUM_DECKS :: |draws[i]| == numShuffles
    requires AllCover(draws, NUM_CARDS)
    ensures fresh(shuffledDecks)
    ensures shuffledDecks.Length0 == NUM_DECKS && shuffledDecks.Length1 == NUM_CARDS
    ensures forall d, p | 0 <= d < NUM_DECKS && 0 <= p < NUM_CARDS ::
      shuffledDecks[d, p] == Trials(origDeck[..], draws)[d][p]
  {
    shuffledDecks := new int[NUM_DECKS, NUM_CARDS];
    ghost var trials := Trials(origDeck[..], draws);
    for i := 0 to NUM_DECKS
      invariant forall d, p | 0 <= d < i && 0 <= p < NUM_CARDS :: shuffledDecks[d, p] == trials[d][p]
    {
      var newDeck := origDeck;
      for j := 0 to numShuffles
        invariant forall d, p | 0 <= d < i && 0 <= p < NUM_CARDS :: shuffledDecks[d, p] == trials[d][p]
        invariant newDeck.Length == NUM_CARDS
        invariant Covers(draws[i][..j], NUM_CARDS)
        invariant newDeck[..] == ShuffleRepeatedly(origDeck[..], draws[i][..j])
      {
        var next := ArrayShuffle.Shuffle(newDeck, draws[i][j]);
        newDeck := next.value;
        assert draws[i][..j + 1][..j] == draws[i][..j];
      }
      assert draws[i][..numShuffles] == draws[i];
      assert newDeck[..] == trials[i];
      SetRow(shuffledDecks, i, newDeck[..]);
    }
  }

  /** The tally loop: for each position, append the whole starting deck to the
      column, take `itemfreq`, and subtract 1. Row p of the result counts how
      often each card landed at position p. The division by NUM_DECKS that
      turns these counts into relative frequencies is not modelled. */
  method TallyPositions(shuffledDecks: array2<int>, origDeck: array<int>) returns (counts: array2<int>)
    requires shuffledDecks.Length1 == NUM_CARDS
    requires origDeck.Length == NUM_CARDS && IsDeckOf(origDeck[..], NUM_CARDS)
    requires forall d, p | 0 <= d < shuffledDecks.Length0 && 0 <= p < NUM_CARDS ::
      0 <= shuffledDecks[d, p] < NUM_CARDS
    ensures fresh(counts)
    ensures counts.Length0 == NUM_CARDS && counts.Length1 == NUM_CARDS
    ensures forall p, t | 0 <= p < NUM_CARDS && 0 <= t < NUM_CARDS ::
      counts[p, t] == Count(ColumnOf(shuffledDecks, p), t)
  {
    counts := new int[NUM_CARDS, NUM_CARDS];
    for i := 0 to NUM_CARDS
      invariant forall p, t | 0 <= p < i && 0 <= t < NUM_CARDS :: counts[p, t] == Count(ColumnOf(shuffledDecks, p), t)
    {
      var col := ColumnOf(shuffledDecks, i);
      ghost var landed := col;
      col := col + origDeck[..];
      BiasCorrection(landed, origDeck[..], NUM_CARDS);
      var colFreqs: seq<int> := ItemFreq(col);
      colFreqs := seq(|colFreqs|, k requires 0 <= k < |colFreqs| => colFreqs[k] - 1);
      SetRow(counts, i, colFreqs);
    }
  }

  /** The integer part of `calculate_differences(num_shuffles)`: `origDeck` is
      the starting deck `np.random.shuffle` produced and `draws[i]` the
      generator outputs of the i-th trial. Entry [p, t] of the result is the
      number of trials that left card t at position p. */
  method CalculateCounts(numShuffles: nat, origDeck: array<int>, draws: seq<seq<Draws>>)
    returns (counts: array2<int>)
    requires origDeck.Length == NUM_CARDS && IsDeckOf(origDeck[..], NUM_CARDS)
    requires |draws| == NUM_DECKS
    requires forall i | 0 <= i < NUM_DECKS :: |draws[i]| == numShuffles
    requires AllCover(draws, NUM_CARDS)
    ensures fresh(counts)
    ensures counts.Length0 == NUM_CARDS && counts.Length1 == NUM_CARDS
    ensures forall p, t | 0 <= p < NUM_CARDS && 0 <= t < NUM_CARDS ::
      counts[p, t] == Count(Column(Trials(origDeck[..], draws), p), t)
  {
    var shuffledDecks := ShuffleDecks(numShuffles, origDeck, draws);
    ghost var trials := Trials(origDeck[..], draws);
    TrialsAreDecks(origDeck[..], draws, NUM_CARDS);
    forall d, p | 0 <= d < NUM_DECKS && 0 <= p < NUM_CARDS
      ensures 0 <= shuffledDecks[d, p] < NUM_CARDS
    {
      DeckCards(trials[d], NUM_CARDS);
    }
    counts := TallyPositions(shuffledDecks, origDeck);
    forall p | 0 <= p < NUM_CARDS
      ensures ColumnOf(shuffledDecks, p) == Column(trials, p)
    {
    }
  }

  /** Every position's tallies add up to the number of trials. */
  lemma PositionTotals(deck: seq<int>, draws: seq<seq<Draws>>, n: nat, p: nat)
    requires |deck| == n >= 2 && IsDeckOf(deck, n) && AllCover(draws, n) && p < n
    ensures Sum(Counts(Column(Trials(deck, draws), p), n)) == |draws|
  {
    DeckCards(deck, n);
    var trials := Trials(deck, draws);
    TrialsAreDecks(deck, draws, n);
    var col := Column(trials, p);
    forall k | 0 <= k < |col|
      ensures 0 <= col[k] < n
    {
      DeckCards(trials[k], n);
    }
    CountsSum(col, n);
  }

  /** How often card t landed in positions 0 .. p - 1, all together. */
  function LandedBefore(decks: seq<seq<int>>, t: int, p: nat): int
    requires forall i | 0 <= i < |decks| :: p <= |decks[i]|
  {
    if p == 0 then 0 else LandedBefore(decks, t, p - 1) + Count(Column(decks, p - 1), t)
  }

  lemma {:induction false} NothingLanded(t: int, p: nat)
    ensures LandedBefore([], t, p) == 0
  {
    if p > 0 {
      NothingLanded(t, p - 1);
    }
  }

  lemma ColumnAppend(init: seq<seq<int>>, row: seq<int>, p: nat)
    requires forall i | 0 <= i < |init| :: p < |init[i]|
    requires p < |row|
    ensures Column(init + [row], p) == Column(init, p) + [row[p]]
  {
  }

  /** One more deck adds its own occurrences of t among its first p cards. */
  lemma {:induction false} LandedBeforeStep(init: seq<seq<int>>, row: seq<int>, t: int, p: nat)
    requires forall i | 0 <= i < |init| :: p <= |init[i]|
    requires p <= |row|
    ensures LandedBefore(init + [row], t, p) == LandedBefore(init, t, p) + Count(row[..p], t)
  {
    if p > 0 {
      LandedBeforeStep(init, row, t, p - 1);
      ColumnAppend(init, row, p - 1);
      CountAppend(Column(init, p - 1), row[p - 1], t);
      CountPrefix(row, p, t);
    }
  }

  /** In a collection of decks of the same n cards, every card lands in
      exactly one position per deck, so its counts over all positions add up
      to the number of decks. */
  lemma {:induction false} DecksCardTotal(decks: seq<seq<int>>, n: nat, t: int)
    requires forall i | 0 <= i < |decks| :: IsDeckOf(decks[i], n) && |decks[i]| == n
    requires 0 <= t < n
    ensures LandedBefore(decks, t, n) == |decks|
  {
    if decks == [] {
      NothingLanded(t, n);
    } else {
      var k := |decks| - 1;
      var init, row := decks[..k], decks[k];
      assert decks == init + [row];
      DecksCardTotal(init, n, t);
      LandedBeforeStep(init, row, t, n);
      DeckCards(row, n);
      assert row[..n] == row;
    }
  }

  /** Every card's tallies over all positions add up to the number of trials. */
  lemma CardTotals(deck: seq<int>, draws: seq<seq<Draws>>, n: nat, t: int)
    requires |deck| == n >= 2 && IsDeckOf(deck, n) && AllCover(draws, n) && 0 <= t < n
    ensures LandedBefore(Trials(deck, draws), t, n) == |draws|
  {
    TrialsAreDecks(deck, draws, n);
    DecksCardTotal(Trials(deck, draws), n, t);
  }
}
