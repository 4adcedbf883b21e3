/** The two helpers both versions of the shuffle share: how many cards go to
    the right hand, and which hand drops the next card. */
module SubDecks {
  import opened RandomSource
  import opened Riffle

  /** How many cards the cut puts in the right packet: `randint(1, num)`. */
  function RightDeckSize(num: int, draw: nat): (r: Result<int>)
    ensures r.Ok? <==> num >= 2
    ensures r.Err? ==> r.error == EmptyRange
    ensures r.Ok? ==> 1 <= r.value <= num - 1
  {
    RandInt(1, num, draw)
  }

  /** Every proper cut is possible. */
  lemma RightDeckSizeReachesAll(num: int, k: int)
    requires 1 <= k <= num - 1
    ensures exists draw: nat :: RightDeckSize(num, draw) == Ok(k)
  {
    RandIntReachesAll(1, num, k);
    assert RightDeckSize(num, k - 1) == Ok(k);
  }

  /** The merge rule: whether the next card comes from the right packet. */
  function DropFromRight(nLeft: int, nRight: int, draw: nat): (r: Result<bool>)
    ensures nLeft > 0 && nRight > 0 ==> r == Ok(Coin(draw))
    ensures nLeft == 0 && nRight > 0 ==> r == Ok(true)
    ensures nLeft > 0 && nRight == 0 ==> r == Ok(false)
    ensures r.Err? <==> !(nLeft >= 0 && nRight >= 0 && nLeft + nRight > 0)
    ensures r.Err? ==> r.error == BothSubDecksEmpty
  {
    if nLeft > 0 && nRight > 0 then
      Ok(RandInt(0, 2, draw).value == 0)
    else if nLeft == 0 && nRight > 0 then
      Ok(true)
    else if nLeft > 0 && nRight == 0 then
      Ok(false)
    else
      Err(BothSubDecksEmpty)
  }

  /** On the counts a merge can reach, the helper answers with the merge rule
      the reference riffle uses. */
  lemma DropFromRightIsRule(nLeft: nat, nRight: nat, draw: nat)
    requires nLeft + nRight > 0
    ensures DropFromRight(nLeft, nRight, draw) == Ok(DropsRight(nRight, nLeft, draw))
  {
  }
}
