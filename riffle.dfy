/** The Gilbert–Shannon–Reeds riffle as a value: cut the deck into a right
    packet (the top r cards) and a left packet (the rest), then repeatedly move
    the BOTTOM card of one packet onto the shuffled pile. This is the reference
    the two imperative shuffles are proved against. */
module Riffle {
  import opened RandomSource

  /** The bottom card of a packet: its last element. */
  function Bottom(packet: seq<int>): int
    requires packet != []
  {
    packet[|packet| - 1]
  }

  /** The packet once its bottom card has been dropped. */
  function WithoutBottom(packet: seq<int>): seq<int>
    requires packet != []
  {
    packet[..|packet| - 1]
  }

  /** The packet read from its bottom card up. */
  function Reverse(s: seq<int>): (r: seq<int>)
    ensures |r| == |s|
  {
    if s == [] then [] else [Bottom(s)] + Reverse(WithoutBottom(s))
  }

  lemma {:induction false} ReversePermutation(s: seq<int>)
    ensures multiset(Reverse(s)) == multiset(s)
  {
    if s != [] {
      ReversePermutation(WithoutBottom(s));
      assert s == WithoutBottom(s) + [Bottom(s)];
    }
  }

  /** `s` is a riffle of `a` and `b`: it can be dealt by taking, card by card,
      the next card of `a` or the next card of `b`, each in its own order. */
  predicate Interleaves(s: seq<int>, a: seq<int>, b: seq<int>)
    decreases |s|
  {
    if s == [] then a == [] && b == []
    else
      (a != [] && s[0] == a[0] && Interleaves(s[1..], a[1..], b))
      || (b != [] && s[0] == b[0] && Interleaves(s[1..], a, b[1..]))
  }

  lemma {:induction false} InterleavesPermutation(s: seq<int>, a: seq<int>, b: seq<int>)
    requires Interleaves(s, a, b)
    ensures |s| == |a| + |b|
    ensures multiset(s) == multiset(a) + multiset(b)
  {
    if s != [] {
      assert s == [s[0]] + s[1..];
      if a != [] && s[0] == a[0] && Interleaves(s[1..], a[1..], b) {
        InterleavesPermutation(s[1..], a[1..], b);
        assert a == [a[0]] + a[1..];
      } else {
        InterleavesPermutation(s[1..], a, b[1..]);
        assert b == [b[0]] + b[1..];
      }
    }
  }

  /** The free decision of the merge rule: `randint(0, 2) == 0`. */
  predicate Coin(draw: nat) {
    RandInt(0, 2, draw) == Ok(0)
  }

  /** The merge rule for packets of `nRight` and `nLeft` cards: the right
      packet drops its bottom card when the left one is empty, or when both
      hold cards and the coin says so. */
  predicate DropsRight(nRight: nat, nLeft: nat, draw: nat) {
    nRight > 0 && (nLeft == 0 || Coin(draw))
  }

  /** The merge: `coins[i]` is the draw consulted at step i, and only when both
      packets still hold cards; an empty packet forces the other one. */
  function Merge(right: seq<int>, left: seq<int>, coins: seq<nat>): (out: seq<int>)
    requires |coins| >= |right| + |left|
    ensures |out| == |right| + |left|
    decreases |right| + |left|
  {
    if right == [] && left == [] then []
    else if DropsRight(|right|, |left|, coins[0]) then
      [Bottom(right)] + Merge(WithoutBottom(right), left, coins[1..])
    else
      [Bottom(left)] + Merge(right, WithoutBottom(left), coins[1..])
  }

  /** One step of the merge from the right packet, seen from a pile built so far. */
  lemma MergeStepRight(pile: seq<int>, right: seq<int>, left: seq<int>, coins: seq<nat>, full: seq<int>)
    requires |coins| >= |right| + |left|
    requires right != [] && DropsRight(|right|, |left|, coins[0])
    requires pile + Merge(right, left, coins) == full
    ensures (pile + [Bottom(right)]) + Merge(WithoutBottom(right), left, coins[1..]) == full
  {
    var rest := Merge(WithoutBottom(right), left, coins[1..]);
    assert (pile + [Bottom(right)]) + rest == pile + ([Bottom(right)] + rest);
  }

  /** One step of the merge from the left packet, seen from a pile built so far. */
  lemma MergeStepLeft(pile: seq<int>, right: seq<int>, left: seq<int>, coins: seq<nat>, full: seq<int>)
    requires |coins| >= |right| + |left|
    requires left != [] && !DropsRight(|right|, |left|, coins[0])
    requires pile + Merge(right, left, coins) == full
    ensures (pile + [Bottom(left)]) + Merge(right, WithoutBottom(left), coins[1..]) == full
  {
    var rest := Merge(right, WithoutBottom(left), coins[1..]);
    assert (pile + [Bottom(left)]) + rest == pile + ([Bottom(left)] + rest);
  }

  /** Each packet reaches the pile in reverse order, and the pile holds nothing else. */
  lemma {:induction false} MergeInterleaves(right: seq<int>, left: seq<int>, coins: seq<nat>)
    requires |coins| >= |right| + |left|
    ensures Interleaves(Merge(right, left, coins), Reverse(right), Reverse(left))
    decreases |right| + |left|
  {
    var out := Merge(right, left, coins);
    if right == [] && left == [] {
    } else if DropsRight(|right|, |left|, coins[0]) {
      MergeInterleaves(WithoutBottom(right), left, coins[1..]);
      assert out[1..] == Merge(WithoutBottom(right), left, coins[1..]);
      assert Reverse(right)[1..] == Reverse(WithoutBottom(right));
    } else {
      MergeInterleaves(right, WithoutBottom(left), coins[1..]);
      assert out[1..] == Merge(right, WithoutBottom(left), coins[1..]);
      assert Reverse(left)[1..] == Reverse(WithoutBottom(left));
    }
  }

  /** The first step of a merge whose first coin is `c`. */
  lemma MergeAfterCoin(right: seq<int>, left: seq<int>, c: nat, cs: seq<nat>)
    requires |right| + |left| > 0 && |cs| >= |right| + |left| - 1
    ensures Merge(right, left, [c] + cs) ==
      if DropsRight(|right|, |left|, c) then [Bottom(right)] + Merge(WithoutBottom(right), left, cs)
      else [Bottom(left)] + Merge(right, WithoutBottom(left), cs)
  {
    assert ([c] + cs)[1..] == cs;
  }

  /** Conversely, every riffle of the two reversed packets is dealt by some coins. */
  lemma {:induction false} MergeComplete(s: seq<int>, right: seq<int>, left: seq<int>)
    requires Interleaves(s, Reverse(right), Reverse(left))
    ensures |s| == |right| + |left|
    ensures exists coins: seq<nat> :: |coins| == |s| && Merge(right, left, coins) == s
    decreases |s|
  {
    InterleavesPermutation(s, Reverse(right), Reverse(left));
    if s == [] {
      assert Merge(right, left, []) == s;
    } else if Reverse(right) != [] && s[0] == Reverse(right)[0]
      && Interleaves(s[1..], Reverse(right)[1..], Reverse(left))
    {
      assert Reverse(right)[1..] == Reverse(WithoutBottom(right));
      MergeComplete(s[1..], WithoutBottom(right), left);
      var cs: seq<nat> :| |cs| == |s[1..]| && Merge(WithoutBottom(right), left, cs) == s[1..];
      MergeAfterCoin(right, left, 0, cs);
      assert Merge(right, left, [0] + cs) == [s[0]] + s[1..] == s;
    } else {
      assert Reverse(left)[1..] == Reverse(WithoutBottom(left));
      MergeComplete(s[1..], right, WithoutBottom(left));
      var cs: seq<nat> :| |cs| == |s[1..]| && Merge(right, WithoutBottom(left), cs) == s[1..];
      MergeAfterCoin(right, left, 1, cs);
      assert Merge(right, left, [1] + cs) == [s[0]] + s[1..] == s;
    }
  }

  /** When every free decision says "right", the right packet is dealt out
      entirely (bottom first) before the left one. */
  lemma {:induction false} MergeAllRight(right: seq<int>, left: seq<int>, coins: seq<nat>)
    requires |coins| >= |right| + |left|
    requires forall i | 0 <= i < |coins| :: Coin(coins[i])
    ensures Merge(right, left, coins) == Reverse(right) + Reverse(left)
    decreases |right| + |left|
  {
    if right != [] {
      MergeAllRight(WithoutBottom(right), left, coins[1..]);
    } else if left != [] {
      MergeAllRight(right, WithoutBottom(left), coins[1..]);
    }
  }

  /** When every free decision says "left", the left packet goes first. */
  lemma {:induction false} MergeAllLeft(right: seq<int>, left: seq<int>, coins: seq<nat>)
    requires |coins| >= |right| + |left|
    requires forall i | 0 <= i < |coins| :: !Coin(coins[i])
    ensures Merge(right, left, coins) == Reverse(left) + Reverse(right)
    decreases |right| + |left|
  {
    if left != [] {
      MergeAllLeft(right, WithoutBottom(left), coins[1..]);
    } else if right != [] {
      MergeAllLeft(WithoutBottom(right), left, coins[1..]);
    }
  }

  /** A merge in progress: the pile dealt so far and what is left of each packet. */
  datatype Table = Table(pile: seq<int>, right: seq<int>, left: seq<int>)

  /** One step of the merge rule: drop the bottom card of the right packet when
      the left one is empty or the coin says so, else that of the left packet. */
  function Move(t: Table, draw: nat): (u: Table)
    requires |t.right| + |t.left| > 0
    ensures |u.right| + |u.left| == |t.right| + |t.left| - 1
    ensures |u.pile| == |t.pile| + 1
  {
    if DropsRight(|t.right|, |t.left|, draw) then
      Table(t.pile + [Bottom(t.right)], WithoutBottom(t.right), t.left)
    else
      Table(t.pile + [Bottom(t.left)], t.right, WithoutBottom(t.left))
  }

  /** A step keeps the pile dealt so far, takes its card from the bottom of a
      packet, and loses or invents no card: the card the pile gains is the
      one a packet loses. */
  lemma MoveKeepsCards(t: Table, draw: nat)
    requires |t.right| + |t.left| > 0
    ensures var u := Move(t, draw);
      u.pile[..|t.pile|] == t.pile
      && |u.right| <= |t.right| && u.right == t.right[..|u.right|]
      && |u.left| <= |t.left| && u.left == t.left[..|u.left|]
    ensures var u := Move(t, draw);
      multiset(u.pile) + multiset(u.right) + multiset(u.left)
        == multiset(t.pile) + multiset(t.right) + multiset(t.left)
  {
    if DropsRight(|t.right|, |t.left|, draw) {
      assert t.right == WithoutBottom(t.right) + [Bottom(t.right)];
    } else {
      assert t.left == WithoutBottom(t.left) + [Bottom(t.left)];
    }
  }

  /** The table after `k` steps of dealing, step i consulting `coins[i]`. */
  function Deal(right: seq<int>, left: seq<int>, coins: seq<nat>, k: nat): (t: Table)
    requires k <= |right| + |left| <= |coins|
    ensures |t.right| + |t.left| == |right| + |left| - k
    ensures |t.pile| == k
  {
    if k == 0 then Table([], right, left)
    else Move(Deal(right, left, coins, k - 1), coins[k - 1])
  }

  /** Dealing step by step follows the merge: the pile so far, followed by the
      merge of what is left, is the merge of the whole packets. */
  lemma {:induction false} DealFollowsMerge(right: seq<int>, left: seq<int>, coins: seq<nat>, k: nat)
    requires k <= |right| + |left| <= |coins|
    ensures Deal(right, left, coins, k).pile
      + Merge(Deal(right, left, coins, k).right, Deal(right, left, coins, k).left, coins[k..])
      == Merge(right, left, coins)
  {
    var full := Merge(right, left, coins);
    if k == 0 {
      assert coins[0..] == coins;
      assert [] + full == full;
    } else {
      DealFollowsMerge(right, left, coins, k - 1);
      var t := Deal(right, left, coins, k - 1);
      assert coins[k - 1..][1..] == coins[k..];
      if DropsRight(|t.right|, |t.left|, coins[k - 1]) {
        MergeStepRight(t.pile, t.right, t.left, coins[k - 1..], full);
      } else {
        MergeStepLeft(t.pile, t.right, t.left, coins[k - 1..], full);
      }
    }
  }

  /** Cards only ever leave a packet from the bottom: what is left of each
      packet is its top part. */
  lemma {:induction false} DealKeepsTops(right: seq<int>, left: seq<int>, coins: seq<nat>, k: nat)
    requires k <= |right| + |left| <= |coins|
    ensures |Deal(right, left, coins, k).right| <= |right|
    ensures |Deal(right, left, coins, k).left| <= |left|
    ensures Deal(right, left, coins, k).right == right[..|Deal(right, left, coins, k).right|]
    ensures Deal(right, left, coins, k).left == left[..|Deal(right, left, coins, k).left|]
  {
    if k > 0 {
      DealKeepsTops(right, left, coins, k - 1);
      var t := Deal(right, left, coins, k - 1);
      if DropsRight(|t.right|, |t.left|, coins[k - 1]) {
        assert WithoutBottom(t.right) == right[..|t.right| - 1];
      } else {
        assert WithoutBottom(t.left) == left[..|t.left| - 1];
      }
    }
  }

  /** Once every card is dealt, the pile is the merge. */
  lemma DealtOut(right: seq<int>, left: seq<int>, coins: seq<nat>, n: nat)
    requires n == |right| + |left| <= |coins|
    ensures Deal(right, left, coins, n).pile == Merge(right, left, coins)
  {
    var t := Deal(right, left, coins, n);
    DealFollowsMerge(right, left, coins, n);
    assert t.pile + Merge(t.right, t.left, coins[n..]) == t.pile + [];
  }

  /** The generator outputs one shuffle call consumes: the draw behind the cut
      and, per step, the draw behind the free decision. */
  datatype Draws = Draws(split: nat, coins: seq<nat>)

  /** What a fixed seed gives: the generator is re-seeded before every call,
      so every cut sees the same value and every merge-rule call the same
      coin. The cut and the coin are separate draws, because `randint(1, n)`
      and `randint(0, 2)` may consume different outputs of the same state. */
  function Seeded(cut: nat, coin: nat, n: nat): (d: Draws)
    ensures |d.coins| == n
    ensures forall i | 0 <= i < n :: d.coins[i] == coin
  {
    Draws(cut, seq(n, _ => coin))
  }

  /** One shuffle of `deck`: cut off the top `randint(1, n)` cards as the right
      packet, then merge. Defined only for decks the cut can split (n >= 2). */
  function ShuffleOnce(deck: seq<int>, d: Draws): (out: seq<int>)
    requires |deck| >= 2 && |d.coins| >= |deck|
    ensures |out| == |deck|
  {
    var r := RandInt(1, |deck|, d.split).value;
    Merge(deck[..r], deck[r..], d.coins)
  }

  lemma ShuffleIsPermutation(deck: seq<int>, d: Draws)
    requires |deck| >= 2 && |d.coins| >= |deck|
    ensures multiset(ShuffleOnce(deck, d)) == multiset(deck)
  {
    var r := RandInt(1, |deck|, d.split).value;
    MergeInterleaves(deck[..r], deck[r..], d.coins);
    InterleavesPermutation(ShuffleOnce(deck, d), Reverse(deck[..r]), Reverse(deck[r..]));
    ReversePermutation(deck[..r]);
    ReversePermutation(deck[r..]);
    assert deck == deck[..r] + deck[r..];
  }

  /** A shuffle is a riffle of the two reversed packets of some proper cut. */
  lemma ShuffleIsRiffle(deck: seq<int>, d: Draws)
    requires |deck| >= 2 && |d.coins| >= |deck|
    ensures exists r | 1 <= r < |deck| ::
      Interleaves(ShuffleOnce(deck, d), Reverse(deck[..r]), Reverse(deck[r..]))
  {
    var r := RandInt(1, |deck|, d.split).value;
    MergeInterleaves(deck[..r], deck[r..], d.coins);
  }

  /** ... and every such riffle, for every proper cut, is some shuffle's outcome. */
  lemma ShuffleReachesEveryRiffle(deck: seq<int>, r: int, s: seq<int>)
    requires 1 <= r < |deck|
    requires Interleaves(s, Reverse(deck[..r]), Reverse(deck[r..]))
    ensures exists d: Draws | |d.coins| == |deck| :: ShuffleOnce(deck, d) == s
  {
    InterleavesPermutation(s, Reverse(deck[..r]), Reverse(deck[r..]));
    MergeComplete(s, deck[..r], deck[r..]);
    var coins: seq<nat> :| |coins| == |s| && Merge(deck[..r], deck[r..], coins) == s;
    RandIntReachesAll(1, |deck|, r);
    assert ShuffleOnce(deck, Draws(r - 1, coins)) == s;
  }

  /** With a fixed seed the riffle degenerates: one packet is dealt out after
      the other, each reversed, whichever cut and coin the seed gives. */
  lemma SeededShuffle(deck: seq<int>, cut: nat, coin: nat)
    requires |deck| >= 2
    ensures var r := RandInt(1, |deck|, cut).value;
      ShuffleOnce(deck, Seeded(cut, coin, |deck|))
        == if Coin(coin) then Reverse(deck[..r]) + Reverse(deck[r..])
           else Reverse(deck[r..]) + Reverse(deck[..r])
  {
    var r := RandInt(1, |deck|, cut).value;
    var coins := Seeded(cut, coin, |deck|).coins;
    if Coin(coin) {
      MergeAllRight(deck[..r], deck[r..], coins);
    } else {
      MergeAllLeft(deck[..r], deck[r..], coins);
    }
  }

  /** The documented example: a fixed seed that cuts 5 cards off a 6-card
      deck and whose coin always says "right". */
  lemma ShuffleExample()
    ensures ShuffleOnce([0, 7, 3, 8, 4, 9], Seeded(4, 0, 6)) == [4, 8, 3, 7, 0, 9]
  {
    var deck := [0, 7, 3, 8, 4, 9];
    SeededShuffle(deck, 4, 0);
    assert RandInt(1, 6, 4).value == 5;
    assert Coin(0);
    assert deck[..5] == [0, 7, 3, 8, 4] && deck[5..] == [9];
    assert Reverse([9]) == [9];
    assert Reverse([0]) == [0];
    assert WithoutBottom([0, 7]) == [0];
    assert WithoutBottom([0, 7, 3]) == [0, 7];
    assert WithoutBottom([0, 7, 3, 8]) == [0, 7, 3];
    assert WithoutBottom([0, 7, 3, 8, 4]) == [0, 7, 3, 8];
  }
}
