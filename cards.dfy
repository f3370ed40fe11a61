/**
 * Cards as the deck API returns them, the fixed suit and value orders of the
 * game screen, the comparator given to `cards.sort` and the order it leaves
 * a hand in. Since ECMAScript 2019 `Array.prototype.sort` is stable, and for
 * a consistent comparator a stable sort has exactly one possible result, so
 * `SortCards` (a stable insertion sort by rank) is what `sortCards` returns.
 */
module Cards {
  import JsArray
  import opened StableSort

  /** A card drawn from the deck API; suit and value are the API's strings. */
  datatype Card = Card(suit: string, value: string, code: string, image: string)

  const SuitOrder: seq<string> := ["SPADES", "HEARTS", "CLUBS", "DIAMONDS"]
  const ValueOrder: seq<string> :=
    ["2", "3", "4", "5", "6", "7", "8", "9", "10", "JACK", "QUEEN", "KING", "ACE"]

  /** `suitOrder.indexOf(c.suit)`: an unknown suit is -1 and sorts first. */
  function SuitIndex(c: Card): (r: int)
    ensures -1 <= r < |SuitOrder|
  {
    JsArray.IndexOf(SuitOrder, c.suit)
  }

  /** `valueOrder.indexOf(c.value)`: an unknown value is -1 and sorts first
      within its suit. */
  function ValueIndex(c: Card): (r: int)
    ensures -1 <= r < |ValueOrder|
  {
    JsArray.IndexOf(ValueOrder, c.value)
  }

  /** An unknown suit or value has index -1; a known one has its position
      in the fixed order. */
  lemma IndicesLocateCard(c: Card)
    ensures SuitIndex(c) == -1 <==> c.suit !in SuitOrder
    ensures 0 <= SuitIndex(c) ==> SuitOrder[SuitIndex(c)] == c.suit
    ensures ValueIndex(c) == -1 <==> c.value !in ValueOrder
    ensures 0 <= ValueIndex(c) ==> ValueOrder[ValueIndex(c)] == c.value
  {
    JsArray.IndexOfSpec(SuitOrder, c.suit);
    JsArray.IndexOfSpec(ValueOrder, c.value);
  }

  /** The comparator: the difference of the suit indices, or of the value
      indices when the suits tie. A positive result puts `b` first. */
  function Compare(a: Card, b: Card): (r: int)
    ensures r <= 0 <==> KeyLe(Rank(a), Rank(b))
    ensures r == 0 <==> Rank(a) == Rank(b)
  {
    var suitDiff := SuitIndex(a) - SuitIndex(b);
    if suitDiff != 0 then suitDiff else ValueIndex(a) - ValueIndex(b)
  }

  /** The only thing the comparator looks at: (suit index, value index). */
  function Rank(c: Card): (k: Key) {
    (SuitIndex(c), ValueIndex(c))
  }

  /** The comparator is the key comparison of the ranks, so it is consistent:
      it orders cards lexicographically by (suit index, value index), calls
      two cards equal exactly when both indices agree, and is antisymmetric. */
  lemma CompareIsRankOrder(a: Card, b: Card)
    ensures Compare(a, b) == KeyCompare(Rank(a), Rank(b))
    ensures Compare(a, b) <= 0 <==>
      SuitIndex(a) < SuitIndex(b) || (SuitIndex(a) == SuitIndex(b) && ValueIndex(a) <= ValueIndex(b))
    ensures Compare(a, b) == 0 <==> SuitIndex(a) == SuitIndex(b) && ValueIndex(a) == ValueIndex(b)
    ensures Compare(a, b) == -Compare(b, a)
  {
    KeyCompareIsConsistent(Rank(a), Rank(b));
  }

  /** The hand `sortCards` returns. */
  function SortCards(cards: seq<Card>): (r: seq<Card>)
    ensures |r| == |cards|
  {
    SortBy(cards, Rank)
  }

  /** `sortCards` returns the cards it was given, each as often. */
  lemma SortCardsPermutes(cards: seq<Card>)
    ensures |SortCards(cards)| == |cards|
    ensures multiset(SortCards(cards)) == multiset(cards)
  {
    SortByPermutes(cards, Rank);
  }

  /** A card is in the sorted hand exactly when it was in the hand. */
  lemma SortCardsKeepsMembers(cards: seq<Card>, c: Card)
    ensures c in SortCards(cards) <==> c in cards
  {
    SortCardsPermutes(cards);
    assert c in SortCards(cards) <==> c in multiset(SortCards(cards));
  }

  /** After `sortCards` every card is in order with the next one: a lower
      suit index, or the same suit index and a value index no greater. */
  lemma SortCardsSorted(cards: seq<Card>)
    ensures SortedBy(SortCards(cards), Rank)
    ensures var r := SortCards(cards);
      forall i :: 0 <= i < |r| - 1 ==>
        SuitIndex(r[i]) < SuitIndex(r[i + 1])
        || (SuitIndex(r[i]) == SuitIndex(r[i + 1]) && ValueIndex(r[i]) <= ValueIndex(r[i + 1]))
  {
    SortBySorted(cards, Rank);
    var r := SortCards(cards);
    forall i | 0 <= i < |r| - 1
      ensures SuitIndex(r[i]) < SuitIndex(r[i + 1])
        || (SuitIndex(r[i]) == SuitIndex(r[i + 1]) && ValueIndex(r[i]) <= ValueIndex(r[i + 1]))
    {
      assert KeyLe(Rank(r[i]), Rank(r[i + 1]));
    }
  }

  /** Cards of equal rank (duplicates, or cards of unknown suit and value)
      keep their relative order. */
  lemma SortCardsStable(cards: seq<Card>, k: Key)
    ensures WithKey(SortCards(cards), Rank, k) == WithKey(cards, Rank, k)
  {
    SortByStable(cards, Rank, k);
  }

  /** A hand that is already in order comes back unchanged, distinct cards
      or not. */
  lemma SortCardsOfSorted(cards: seq<Card>)
    requires SortedBy(cards, Rank)
    ensures SortCards(cards) == cards
  {
    SortByOfSorted(cards, Rank);
  }

  /** Sorting any hand twice is sorting it once. */
  lemma SortCardsIdempotent(cards: seq<Card>)
    ensures SortCards(SortCards(cards)) == SortCards(cards)
  {
    SortCardsSorted(cards);
    SortCardsOfSorted(SortCards(cards));
  }

  /** Whatever algorithm the JavaScript engine uses, a stable sort with this
      comparator produces `SortCards`. */
  lemma EngineSortIsSortCards(cards: seq<Card>, result: seq<Card>)
    requires SortedBy(result, Rank)
    requires forall k :: WithKey(result, Rank, k) == WithKey(cards, Rank, k)
    ensures result == SortCards(cards)
  {
    StableSortIsSortBy(cards, result, Rank);
  }

  /** `sortCards(cards)`: sorts the array in place with the comparator. */
  method SortCardsInPlace(a: array<Card>)
    modifies a
    ensures a[..] == SortCards(old(a[..]))
  {
    SortInPlace(a, Rank);
  }
}
