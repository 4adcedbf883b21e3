/** gilbert_shannon_reed.py: the array version of the shuffle. The output is a
    preallocated array filled slot by slot while two counters track how many
    cards remain in each packet; the packets themselves are never copied, they
    are read in place from the input deck. */
module ArrayShuffle {
  import opened RandomSource
  import opened Riffle
  import opened SubDecks

  /** Where the array loop stands: the slots filled so far and the two counters. */
  datatype Hands = Hands(pile: seq<int>, nRight: nat, nLeft: nat)

  /** One iteration of the loop body: copy `cards[nRight - 1]` and count the
      right packet down, or copy `cards[cut + nLeft - 1]` and count the left
      packet down. The contract bounds the counters so both reads stay inside
      their packet. */
  function Step(cards: seq<int>, cut: nat, h: Hands, fromRight: bool): (g: Hands)
    requires h.nRight <= cut && cut + h.nLeft <= |cards|
    requires if fromRight then h.nRight > 0 else h.nLeft > 0
    ensures g.nRight <= h.nRight && g.nLeft <= h.nLeft
    ensures g.nRight + g.nLeft == h.nRight + h.nLeft - 1
    ensures |g.pile| == |h.pile| + 1
  {
    if fromRight then
      Hands(h.pile + [cards[h.nRight - 1]], h.nRight - 1, h.nLeft)
    else
      Hands(h.pile + [cards[cut + h.nLeft - 1]], h.nRight, h.nLeft - 1)
  }

  /** One iteration keeps the slots already filled, fills the next one with
      the bottom card of the packet the merge rule chose, and counts only that
      packet down. */
  lemma StepDropsBottom(cards: seq<int>, cut: nat, h: Hands, fromRight: bool)
    requires h.nRight <= cut && cut + h.nLeft <= |cards|
    requires if fromRight then h.nRight > 0 else h.nLeft > 0
    ensures var g := Step(cards, cut, h, fromRight);
      g.pile[..|h.pile|] == h.pile
      && (fromRight ==> g.nLeft == h.nLeft && g.pile[|h.pile|] == cards[h.nRight - 1])
      && (!fromRight ==> g.nRight == h.nRight && g.pile[|h.pile|] == cards[cut + h.nLeft - 1])
  {
  }

  /** The loop's state after `k` iterations. The contract is the loop
      invariant: the counters never exceed their packet and add up to the
      cards still to be dealt. */
  function Dealt(cards: seq<int>, cut: nat, coins: seq<nat>, k: nat): (h: Hands)
    requires 1 <= cut < |cards| && k <= |cards| <= |coins|
    ensures h.nRight <= cut && h.nLeft <= |cards| - cut
    ensures h.nRight + h.nLeft == |cards| - k
    ensures |h.pile| == k
  {
    if k == 0 then Hands([], cut, |cards| - cut)
    else
      var h := Dealt(cards, cut, coins, k - 1);
      Step(cards, cut, h, DropsRight(h.nRight, h.nLeft, coins[k - 1]))
  }

  /** The counters describe the packets of a merge in progress: the right
      packet left is `cards[..nRight]`, the left one `cards[cut..cut + nLeft]`. */
  predicate Matches(cards: seq<int>, cut: nat, h: Hands, t: Table)
    requires h.nRight <= cut && cut + h.nLeft <= |cards|
  {
    t == Table(h.pile, cards[..h.nRight], cards[cut..cut + h.nLeft])
  }

  /** Copying by index is dropping the bottom card of a packet. */
  lemma StepMatchesMove(cards: seq<int>, cut: nat, h: Hands, t: Table, draw: nat)
    requires h.nRight <= cut && cut + h.nLeft <= |cards| && h.nRight + h.nLeft > 0
    requires Matches(cards, cut, h, t)
    ensures Matches(cards, cut, Step(cards, cut, h, DropsRight(h.nRight, h.nLeft, draw)), Move(t, draw))
  {
    if DropsRight(h.nRight, h.nLeft, draw) {
      assert WithoutBottom(cards[..h.nRight]) == cards[..h.nRight - 1];
    } else {
      assert WithoutBottom(cards[cut..cut + h.nLeft]) == cards[cut..cut + h.nLeft - 1];
    }
  }

  /** The index arithmetic deals exactly the riffle of `cards[..cut]` and `cards[cut..]`. */
  lemma {:induction false} DealtMatchesDeal(cards: seq<int>, cut: nat, coins: seq<nat>, k: nat)
    requires 1 <= cut < |cards| && k <= |cards| <= |coins|
    ensures Matches(cards, cut, Dealt(cards, cut, coins, k), Deal(cards[..cut], cards[cut..], coins, k))
  {
    if k == 0 {
      assert cards[cut..cut + (|cards| - cut)] == cards[cut..];
    } else {
      DealtMatchesDeal(cards, cut, coins, k - 1);
      StepMatchesMove(cards, cut, Dealt(cards, cut, coins, k - 1),
        Deal(cards[..cut], cards[cut..], coins, k - 1), coins[k - 1]);
    }
  }

  /** Once every card is dealt, the filled array is the shuffle. */
  lemma DealtIsShuffle(deck: seq<int>, draws: Draws)
    requires |deck| >= 2 && |draws.coins| >= |deck|
    ensures Dealt(deck, RightDeckSize(|deck|, draws.split).value, draws.coins, |deck|).pile
      == ShuffleOnce(deck, draws)
  {
    var cut := RightDeckSize(|deck|, draws.split).value;
    var right, left := deck[..cut], deck[cut..];
    DealtMatchesDeal(deck, cut, draws.coins, |deck|);
    DealtOut(right, left, draws.coins, |deck|);
  }

  /** One Gilbert–Shannon–Reeds shuffle into a fresh array. The cut raises
      for a deck of fewer than two cards. Otherwise the remaining right packet
      is always `deck[..nRight]` and the remaining left packet
      `deck[cut..cut + nLeft]`, so both bottom-card reads stay in bounds and
      the merge rule is never asked with both packets empty. */
  method Shuffle(deck: array<int>, draws: Draws) returns (result: Result<array<int>>)
    requires |draws.coins| >= deck.Length
    ensures result.Ok? <==> deck.Length >= 2
    ensures result.Err? ==> result.error == EmptyRange
    ensures result.Ok? ==> fresh(result.value)
    ensures result.Ok? ==> result.value[..] == ShuffleOnce(deck[..], draws)
  {
    var numCards := deck.Length;
    var cutSize := RightDeckSize(numCards, draws.split);
    if cutSize.Err? {
      return Err(cutSize.error);
    }
    var cut := cutSize.value;
    var nRight := cut;
    var nLeft := numCards - cut;
    var shuffled := new int[numCards];
    ghost var cards := deck[..];
    for index := 0 to numCards
      invariant 0 <= nRight && 0 <= nLeft
      invariant Hands(shuffled[..index], nRight, nLeft) == Dealt(cards, cut, draws.coins, index)
    {
      var fromRight := DropFromRight(nLeft, nRight, draws.coins[index]).value;
      ghost var pile := shuffled[..index];
      ghost var next := Step(cards, cut, Hands(pile, nRight, nLeft), fromRight);
      if fromRight {
        shuffled[index] := deck[nRight - 1];
        nRight := nRight - 1;
      } else {
        shuffled[index] := deck[cut + nLeft - 1];
        nLeft := nLeft - 1;
      }
      assert shuffled[..index + 1] == pile + [shuffled[index]];
      assert Hands(shuffled[..index + 1], nRight, nLeft) == next;
    }
    assert shuffled[..] == shuffled[..numCards];
    DealtIsShuffle(cards, draws);
    return Ok(shuffled);
  }
}
