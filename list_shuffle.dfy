/** Gilbert-Shannon-Reeds.py: the list version of the shuffle. The two packets
    are copied out of the deck as lists; each step appends the bottom card of
    one of them to the pile and slices it off its packet. */
module ListShuffle {
  import opened RandomSource
  import opened Riffle
  import opened SubDecks
  import ArrayShuffle

  /** One Gilbert–Shannon–Reeds shuffle on lists. The cut raises for a deck of
      fewer than two cards; otherwise the loop runs while either packet holds
      a card, and each packet stays the top part of its half of the deck. */
  method Shuffle(deck: seq<int>, draws: Draws) returns (result: Result<seq<int>>)
    requires |draws.coins| >= |deck|
    ensures result.Ok? <==> |deck| >= 2
    ensures result.Err? ==> result.error == EmptyRange
    ensures result.Ok? ==> result.value == ShuffleOnce(deck, draws)
    ensures result.Ok? ==> multiset(result.value) == multiset(deck)
  {
    var n := |deck|;
    var cutSize := RightDeckSize(n, draws.split);
    if cutSize.Err? {
      return Err(cutSize.error);
    }
    var numberForRightDeck := cutSize.value;
    var rightDeck := deck[0..numberForRightDeck];
    var nRight := |rightDeck|;
    var leftDeck := deck[numberForRightDeck..n];
    var nLeft := |leftDeck|;
    var shuffledDeck := [];
    ghost var right, left := rightDeck, leftDeck;
    assert right == deck[..numberForRightDeck] && left == deck[numberForRightDeck..];
    while nLeft + nRight > 0
      invariant nRight == |rightDeck| && nLeft == |leftDeck|
      invariant |shuffledDeck| + nRight + nLeft == n
      invariant Table(shuffledDeck, rightDeck, leftDeck) == Deal(right, left, draws.coins, |shuffledDeck|)
      decreases nLeft + nRight
    {
      var dropFromRightDeck := DropFromRight(nLeft, nRight, draws.coins[|shuffledDeck|]).value;
      if dropFromRightDeck {
        shuffledDeck := shuffledDeck + [rightDeck[|rightDeck| - 1]];
        rightDeck := rightDeck[0..|rightDeck| - 1];
        nRight := |rightDeck|;
      } else {
        shuffledDeck := shuffledDeck + [leftDeck[|leftDeck| - 1]];
        leftDeck := leftDeck[0..|leftDeck| - 1];
        nLeft := |leftDeck|;
      }
    }
    DealtOut(right, left, draws.coins, n);
    ShuffleIsPermutation(deck, draws);
    return Ok(shuffledDeck);
  }

  /** Both versions of the shuffle deal the same cards in the same order from
      the same draws, and fail on the same decks. */
  method BothVersionsAgree(deck: seq<int>, draws: Draws) returns (fromList: Result<seq<int>>, fromArray: Result<seq<int>>)
    requires |draws.coins| >= |deck|
    ensures fromList == fromArray
    ensures fromList.Ok? <==> |deck| >= 2
  {
    fromList := Shuffle(deck, draws);
    var cards := new int[|deck|](i requires 0 <= i < |deck| => deck[i]);
    assert cards[..] == deck;
    var shuffled := ArrayShuffle.Shuffle(cards, draws);
    if shuffled.Ok? {
      fromArray := Ok(shuffled.value[..]);
    } else {
      fromArray := Err(shuffled.error);
    }
  }
}
