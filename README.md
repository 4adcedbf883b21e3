# Gilbert–Shannon–Reeds riffle shuffle, modelled and proved in Dafny

The repository implements the Gilbert–Shannon–Reeds (GSR) riffle shuffle twice:

- `gilbert_shannon_reed.py` works on a numpy array. It fills a preallocated output slot by slot, reading the two packets in place through two counters.
- `Gilbert-Shannon-Reeds.py` works on lists. It copies the two packets out and slices one card off the bottom of a packet at each step.

Both versions share two helpers:

- `get_random_number_for_right_deck` gives the cut: how many top cards go to the right hand.
- `should_drop_from_right_deck` gives the merge rule: which hand drops the next card. When only one hand holds cards, that hand is forced. When both do, `randint(0, 2) == 0` decides, a fair coin when the generator is fair; the shuffles test its answer with `is True`, and the model reads that answer as a Python `bool` (see "Left out"). When neither hand holds cards, or a count is negative, it raises a ValueError.

`calculate_differences` repeats the shuffle many times on a fixed starting deck. It then tallies, for every position, how often each card landed there. That tally first appends the whole starting deck to each column so that `itemfreq` sees every card.

The project is organised as follows:

- `random_source.dfy` (`RandomSource`) is the generator interface. `randint(low, high)` either gives a value in `[low, high)` chosen by an opaque raw draw, or gives the `EmptyRange` error. The two ValueErrors of the core are error values of a `Result` type.
- `riffle.dfy` (`Riffle`) is the reference riffle as values.
  - `Merge` drops the bottom card of one packet per step. Step i consults coin draw i, but only when both packets hold cards.
  - `Move` and `Deal` run the same rule step by step on a `Table`.
  - `ShuffleOnce` cuts with `randint(1, n)` and merges.
  - The lemmas prove the properties of the shuffle: the output is a permutation; it interleaves the two reversed packets; every such interleaving is reachable; and the fixed-seed degenerate case and the documented example hold.
- `sub_decks.dfy` (`SubDecks`) holds the two helpers. They are identical in both files.
- `array_shuffle.dfy` (`ArrayShuffle`) is the array version as a method over `array<int>`. Its loop invariant is the function `Dealt`, which is proved to deal exactly `Deal`, and hence `Merge`.
- `list_shuffle.dfy` (`ListShuffle`) is the list version as a method with a `while` loop over sequences. Its loop invariant is `Deal` itself. `BothVersionsAgree` runs both versions on the same deck and draws and shows the results are equal.
- `experiment.dfy` (`Experiment`) is the integer part of `calculate_differences`. It covers the repeated shuffles into a two-dimensional array, `itemfreq`, and the bias correction, and proves that the tallies add up both ways.

Randomness is a parameter. One shuffle call consumes a `Draws` value: the raw draw behind the cut, and one raw draw per step for the merge rule. A fixed seed re-seeds the generator before every call, so every cut sees the same value and every merge-rule call sees the same coin; `Seeded` models this with a fixed cut draw and a constant coin draw, taken independently of each other, because `randint(1, n)` and `randint(0, 2)` may consume different outputs of the same generator state. The code raises for a deck of fewer than two cards, because `randint(1, 1)` and `randint(1, 0)` are empty ranges. The code has no special case for one-card or empty decks, and the model follows it: both shuffles return `Err(EmptyRange)` there. The merge rule uses a fair coin, not the size-weighted probability of the textbook GSR model; the model follows the code.

## Model

| member | source | states |
|---|---|---|
| RandomSource.RandInt | gilbert_shannon_reed.py:37-38 | `randint(low, high)` succeeds exactly when `low < high`, with a value in `[low, high)`; otherwise it is the EmptyRange error |
| RandomSource.RandIntReachesAll | gilbert_shannon_reed.py:37-38 | every value of a non-empty range is produced by some generator state |
| SubDecks.RightDeckSize | gilbert_shannon_reed.py:24-38 | the cut succeeds exactly when the deck has at least two cards, and is then between 1 and num-1; otherwise EmptyRange; the list version's copy, Gilbert-Shannon-Reeds.py:9-20, is identical |
| SubDecks.RightDeckSizeReachesAll | gilbert_shannon_reed.py:31-38 | every cut from 1 to num-1 is possible |
| SubDecks.DropFromRight | gilbert_shannon_reed.py:40-80 | both packets non-empty: the coin decides; only the right packet non-empty: true; only the left: false; BothSubDecksEmpty exactly when a count is negative or both are zero; the list version's copy, Gilbert-Shannon-Reeds.py:21-57, is identical |
| SubDecks.DropFromRightIsRule | gilbert_shannon_reed.py:62-80 | on counts that are not negative and not both zero, the helper's answer is the merge rule `Riffle.Merge`, `Riffle.Move` and the array loop use |
| Riffle.Merge | gilbert_shannon_reed.py:106-123 | the merge deals every card of both packets: its length is the sum of the packet lengths |
| Riffle.MergeInterleaves | gilbert_shannon_reed.py:112-123 | dropping from the bottom puts each packet on the pile in reverse order, interleaved with the other, and nothing else |
| Riffle.MergeComplete | gilbert_shannon_reed.py:106-123 | conversely, every interleaving of the two reversed packets is the merge for some sequence of coin draws |
| Riffle.MergeAllRight | gilbert_shannon_reed.py:62-76 | if every coin says "right", the right packet is dealt out entirely, reversed, before the reversed left packet |
| Riffle.MergeAllLeft | gilbert_shannon_reed.py:62-80 | if every coin says "left", the reversed left packet comes first, then the reversed right packet |
| Riffle.InterleavesPermutation | gilbert_shannon_reed.py:88-89 | an interleaving holds exactly the cards of the two packets: its length is their sum and its multiset their union |
| Riffle.Move | Gilbert-Shannon-Reeds.py:84-93 | one step takes one card off the packets and adds one card to the pile |
| Riffle.MoveKeepsCards | Gilbert-Shannon-Reeds.py:84-93 | one step keeps the pile dealt so far and leaves each packet a top part of what it was; the cards of pile and packets together are unchanged, so the card the pile gains is the one a packet lost |
| Riffle.Deal | Gilbert-Shannon-Reeds.py:76-93 | after k steps the pile holds k cards and the packets together hold the other n-k |
| Riffle.DealFollowsMerge | Gilbert-Shannon-Reeds.py:77-93 | at every step, the pile so far followed by the merge of what is left of the packets is the merge of the whole packets |
| Riffle.DealKeepsTops | Gilbert-Shannon-Reeds.py:86-92 | what is left of each packet is always its top part, because cards leave only from the bottom |
| Riffle.DealtOut | Gilbert-Shannon-Reeds.py:77-94 | once all cards are dealt, the pile is the merge |
| Riffle.ShuffleOnce | gilbert_shannon_reed.py:96-124 | a shuffle returns a deck of the same size |
| Riffle.ShuffleIsPermutation | gilbert_shannon_reed.py:85-89 | a shuffle returns the cards of the input deck, each as often as it occurs there |
| Riffle.ShuffleIsRiffle | gilbert_shannon_reed.py:94-123 | a shuffle interleaves the reversed top r cards with the reversed other cards, for some r in [1, n-1] |
| Riffle.ShuffleReachesEveryRiffle | gilbert_shannon_reed.py:94-123 | every such interleaving, for every proper cut, is the outcome of some draws |
| Riffle.SeededShuffle | gilbert_shannon_reed.py:97-111 | with a fixed seed the cut is fixed and the coin is the same at every step, whatever cut and coin the seed gives, so the output is one reversed packet followed by the other |
| Riffle.ShuffleExample | gilbert_shannon_reed.py:90-92 | the documented example: `[0, 7, 3, 8, 4, 9]` shuffles to `[4, 8, 3, 7, 0, 9]` when the cut is 5 and the coin says "right"; the list version documents the same example at Gilbert-Shannon-Reeds.py:65-67 |
| ArrayShuffle.Step | gilbert_shannon_reed.py:112-123 | one loop iteration fills one more slot, counts the two packets down by one in total, and grows neither counter |
| ArrayShuffle.StepDropsBottom | gilbert_shannon_reed.py:112-123 | one loop iteration keeps the filled slots, copies the bottom card of the packet the merge rule chose (`deck[n_right - 1]` or `deck[cut + n_left - 1]`) into the next slot, and counts only that packet down |
| ArrayShuffle.Dealt | gilbert_shannon_reed.py:102-123 | loop invariant: after `index` iterations, n_right <= the cut, n_left <= n - cut, n_right + n_left == n - index, and `index` slots are filled |
| ArrayShuffle.StepMatchesMove | gilbert_shannon_reed.py:112-123 | copying `deck[n_right - 1]` or `deck[cut + n_left - 1]` is dropping the bottom card of the right packet `deck[..n_right]` or the left packet `deck[cut..cut + n_left]` |
| ArrayShuffle.DealtMatchesDeal | gilbert_shannon_reed.py:102-123 | after every iteration, the counters describe the packets left by the reference dealing and the filled slots are its pile |
| ArrayShuffle.DealtIsShuffle | gilbert_shannon_reed.py:96-124 | after n iterations the filled array is the GSR shuffle of the deck |
| ArrayShuffle.Shuffle | gilbert_shannon_reed.py:82-124 | EmptyRange exactly when the deck has fewer than two cards; otherwise a fresh array holding the reference shuffle of the deck (a permutation of it, by Riffle.ShuffleIsPermutation) |
| ListShuffle.Shuffle | Gilbert-Shannon-Reeds.py:58-94 | EmptyRange exactly when the deck has fewer than two cards; otherwise the shuffle of the deck, a permutation of it; the loop ends because n_left + n_right drops by one per step |
| ListShuffle.BothVersionsAgree | Gilbert-Shannon-Reeds.py:58-94 | the list version and the array version return the same result, deck for deck and draw for draw |
| Experiment.Count | gilbert_shannon_reed.py:164 | the count of a card in a column is its multiplicity |
| Experiment.RangeCount | gilbert_shannon_reed.py:147 | `range(n)` holds each of 0 .. n-1 exactly once and nothing else |
| Experiment.DeckCards | gilbert_shannon_reed.py:147-148 | the starting deck, a shuffled `range(n)`, has n cards, all in 0 .. n-1, each exactly once |
| Experiment.ShuffleRepeatedly | gilbert_shannon_reed.py:151-153 | shuffling again and again keeps the deck's size |
| Experiment.RepeatedIsPermutation | gilbert_shannon_reed.py:151-153 | shuffling k times in a row still returns a permutation of the starting deck |
| Experiment.Trials | gilbert_shannon_reed.py:149-154 | NUM_DECKS independent trials, each a deck of the starting deck's size |
| Experiment.TrialsAreDecks | gilbert_shannon_reed.py:149-154 | every trial is a permutation of the cards 0 .. n-1 |
| Experiment.Column | gilbert_shannon_reed.py:158 | `shuffled_decks[:, p]` has one entry per trial, the card that trial left at position p |
| Experiment.ColumnOf | gilbert_shannon_reed.py:158 | the same column, read out of the two-dimensional array |
| Experiment.Counts | gilbert_shannon_reed.py:164-165 | the per-card counts of a column are the multiplicities of the cards 0 .. n-1 |
| Experiment.CountsSum | gilbert_shannon_reed.py:157-166 | when every entry of a column is a card 0 .. n-1, its per-card counts add up to the column's length |
| Experiment.ItemFreq | gilbert_shannon_reed.py:164 | `itemfreq(...)[:, 1]` lists only positive frequencies, at most one per value between the minimum and the maximum |
| Experiment.ItemFreqSkipsMissing | gilbert_shannon_reed.py:159-164 | a value that does not occur is skipped, so the frequencies no longer line up with the cards |
| Experiment.FreqFromAll | gilbert_shannon_reed.py:159-164 | when every value of a range occurs, the frequencies line up with the values |
| Experiment.BiasCorrection | gilbert_shannon_reed.py:159-165 | appending the starting deck makes `itemfreq` return exactly NUM_CARDS frequencies, aligned with the cards; subtracting 1 gives each card's count in the column, never negative |
| Experiment.SetRow | gilbert_shannon_reed.py:154 | `a[i] = row` overwrites row i and keeps every other entry |
| Experiment.ShuffleDecks | gilbert_shannon_reed.py:145-154 | row d of `shuffled_decks` is the starting deck after the shuffles of trial d |
| Experiment.TallyPositions | gilbert_shannon_reed.py:156-166 | entry [p, t] is the number of trials that left card t at position p |
| Experiment.CalculateCounts | gilbert_shannon_reed.py:136-166 | entry [p, t] of the tally is the number of trials that left card t at position p, in terms of the trials themselves |
| Experiment.PositionTotals | gilbert_shannon_reed.py:156-166 | every position's counts add up to the number of trials (NUM_DECKS) |
| Experiment.DecksCardTotal | gilbert_shannon_reed.py:156-166 | in decks that are each a permutation of 0 .. n-1, every card's counts over all positions add up to the number of decks |
| Experiment.CardTotals | gilbert_shannon_reed.py:149-166 | every card's counts over all positions add up to the number of trials (NUM_DECKS) |

## Left out

- The generator's algorithm, and the mapping from a seed to a value, are not modelled.
  - A raw draw reaches a range by repeated subtraction of the range size. numpy uses masked rejection sampling instead, so the model does not say which seed gives which value.
  - The documented examples are proved for a draw whose values match the documented ones (cut 5, coin "right").
  - The seed-0 examples of the helpers fall under this as well.
- The order in which calls without a seed consume the global generator stream is not modelled. One shuffle call gets a `Draws` value with one coin draw per step. Any stream fits this shape, with unused draws skipped.
- `Draws` must offer at least one coin draw per card. This is a bound on the oracle, not a demand the code makes.
- Integer widths are not modelled. numpy `int` arrays are 64-bit, and card values and counts stay far below that limit.
- The `float64` storage of `shuffled_decks` and `rel_freqs` is not modelled: card values and counts are stored as `int`. The division by NUM_DECKS, the sum of squared differences, the relative entropy and the Kolmogorov–Smirnov statistic are floating-point and are left out. `UNIFORM_REL_FREQS` is left out too.
- `np.random.shuffle(orig_deck)` is a parameter. The starting deck is any permutation of `range(NUM_CARDS)`.
- The multiprocessing pool and the plots are left out. So is the map over 1 .. MAX_NUM_SHUFFLES, which only runs `calculate_differences` once per shuffle count.
- ListShuffle.Shuffle: the loop invariant ties the packets to the reference dealing but does not restate that each packet is the top part of its half. That fact is proved once about the dealing (`Riffle.DealKeepsTops`) rather than carried through the loop.
- The `is True` test on the merge rule's answer (gilbert_shannon_reed.py:112, Gilbert-Shannon-Reeds.py:84) is modelled as a test of a boolean. That matches the code only when `randint` returns a Python `int`, so that `num == 0` is a Python `bool`; the documented shuffle example shows this behaviour. If `randint` returned a numpy integer, `num == 0` would be a numpy bool, `is True` would always be false, and both versions would always drop from the left packet while both packets hold cards. The model does not cover that case.
