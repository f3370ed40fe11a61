/**
 * The game screen's state and the logic that drives it: the
 * `game-started` and `trump-revealed` handlers, the local start button, the
 * effect that deals once the game has started, the deal itself (the trump
 * popped off the draw, the rest cut into ten-card hands that are each
 * sorted) and the guard that decides whether this client shows a hand.
 * The deck API and the channel are not modelled: what they return is
 * passed in.
 */
module Game {
  import opened Wrappers
  import JsArray
  import opened Cards

  /** A seat at the table, built from a channel member. */
  datatype Player = Player(id: string, name: string, score: int)

  /** A channel member as the messaging service reports it. */
  datatype Member = Member(id: string, name: Option<string>)

  /** A channel event: its `type` and the parts of `data` the handlers read. */
  datatype Event = Event(kind: string, deckId: Option<string>, trumpCard: Option<Card>)

  /** The component's state variables. */
  datatype GameState = GameState(
    players: seq<Player>,
    playerCards: seq<seq<Card>>,
    trumpCard: Option<Card>,
    gameStarted: bool,
    deckId: Option<string>)

  /** The state of a freshly mounted game screen: no players, no hands, no
      trump and no deck id yet, so nothing is dealt and no hand is shown. */
  function Initial(initialGameStarted: bool): (s: GameState)
    ensures s.gameStarted == initialGameStarted
    ensures !ShouldDeal(s)
    ensures forall id :: DisplayedHand(s, id).None?
  {
    GameState([], [], None, initialGameStarted, None)
  }

  /** JavaScript truthiness of a deck id: present and not the empty string. */
  predicate Truthy(deckId: Option<string>) {
    deckId.Some? && deckId.value != ""
  }

  /** `member.user.name || member.user.id`. */
  function DisplayName(m: Member): (name: string)
    ensures name == m.id || m.name == Some(name)
    ensures name == "" ==> m.id == ""
  {
    if m.name.Some? && m.name.value != "" then m.name.value else m.id
  }

  /** One player per channel member, in membership order, with score 0 and
      the member's name, or its id when the name is missing or empty. */
  function PlayersFromMembers(members: seq<Member>): (r: seq<Player>)
    ensures |r| == |members|
    ensures forall i :: 0 <= i < |r| ==>
      r[i].id == members[i].id && r[i].score == 0
      && (if members[i].name.Some? && members[i].name.value != "" then r[i].name == members[i].name.value
          else r[i].name == members[i].id)
  {
    seq(|members|, i requires 0 <= i < |members| => Player(members[i].id, DisplayName(members[i]), 0))
  }

  /** `handleGameStarted`: a `game-started` event starts the game and adopts
      the event's deck id; any other event changes nothing. */
  function OnGameStarted(s: GameState, e: Event): (t: GameState)
    ensures e.kind == "game-started" ==> t.gameStarted && t.deckId == e.deckId
    ensures t.players == s.players && t.playerCards == s.playerCards && t.trumpCard == s.trumpCard
    ensures e.kind != "game-started" ==> t == s
  {
    if e.kind == "game-started" then s.(gameStarted := true, deckId := e.deckId) else s
  }

  /** `handleTrumpRevealed`: a `trump-revealed` event replaces the trump
      card and nothing else. */
  function OnTrumpRevealed(s: GameState, e: Event): (t: GameState)
    ensures t.players == s.players && t.playerCards == s.playerCards
    ensures t.gameStarted == s.gameStarted && t.deckId == s.deckId
    ensures t.trumpCard == if e.kind == "trump-revealed" then e.trumpCard else s.trumpCard
  {
    if e.kind == "trump-revealed" then s.(trumpCard := e.trumpCard) else s
  }

  /** `startGame` on this client: with a channel it stores the deck id the
      shuffle request returned (None when that request failed) and, once the
      `game-started` event has been sent, marks the game started. */
  function StartGame(s: GameState, channel: bool, newDeckId: Option<string>, sent: bool): (t: GameState)
    ensures !channel ==> t == s
    ensures channel ==> t.deckId == newDeckId && t.gameStarted == (s.gameStarted || sent)
    ensures t.players == s.players && t.playerCards == s.playerCards && t.trumpCard == s.trumpCard
  {
    if !channel then s
    else if sent then s.(deckId := newDeckId, gameStarted := true)
    else s.(deckId := newDeckId)
  }

  /** The condition of the dealing effect. */
  predicate ShouldDeal(s: GameState) {
    s.gameStarted && |s.players| > 0 && Truthy(s.deckId)
  }

  /** A `game-started` event makes the deal fire exactly when there are
      players and the event carried a usable deck id. */
  lemma GameStartedTriggersDeal(s: GameState, e: Event)
    requires e.kind == "game-started"
    ensures ShouldDeal(OnGameStarted(s, e)) <==> |s.players| > 0 && Truthy(e.deckId)
  {
  }

  /** A revealed trump never starts or stops a deal. */
  lemma TrumpRevealedKeepsTrigger(s: GameState, e: Event)
    ensures ShouldDeal(OnTrumpRevealed(s, e)) == ShouldDeal(s)
  {
  }

  /** `cards.pop()`: the trump is the last card drawn (undefined when the
      draw is empty). */
  function Trump(draw: seq<Card>): (r: Option<Card>)
    ensures r.Some? <==> draw != []
    ensures r.Some? ==> r.value == draw[|draw| - 1]
  {
    if draw == [] then None else Some(draw[|draw| - 1])
  }

  /** What is left of the draw after `pop()`. */
  function Remaining(draw: seq<Card>): (r: seq<Card>)
    ensures draw != [] ==> r + [draw[|draw| - 1]] == draw
    ensures draw == [] ==> r == []
  {
    if draw == [] then [] else draw[..|draw| - 1]
  }

  /** `cards.slice(i * 10, (i + 1) * 10)`: player `i`'s cards before sorting. */
  function HandSlice(cards: seq<Card>, i: nat): (r: seq<Card>)
    ensures 10 * (i + 1) <= |cards| ==> r == cards[10 * i..10 * (i + 1)]
    ensures |cards| <= 10 * i ==> r == []
  {
    JsArray.Slice(cards, 10 * i, 10 * (i + 1))
  }

  /** The first `count` hands of `cards`, before sorting. */
  function Hands(cards: seq<Card>, count: nat): (r: seq<seq<Card>>)
    ensures |r| == count
  {
    if count == 0 then [] else Hands(cards, count - 1) + [HandSlice(cards, count - 1)]
  }

  /** The hands as `dealCards` stores them: each slice sorted, in player
      order, as `dealtCards.push(sortCards(playerCards))` builds them. */
  function DealtHands(cards: seq<Card>, count: nat): (r: seq<seq<Card>>)
    ensures |r| == count
  {
    if count == 0 then [] else DealtHands(cards, count - 1) + [SortCards(HandSlice(cards, count - 1))]
  }

  /** Hand `i` is slice `i`. */
  lemma {:induction false} HandsAt(cards: seq<Card>, count: nat, i: nat)
    requires i < count
    ensures Hands(cards, count)[i] == HandSlice(cards, i)
  {
    if i < count - 1 {
      HandsAt(cards, count - 1, i);
      var h, e := Hands(cards, count), Hands(cards, count - 1);
      assert h == e + [HandSlice(cards, count - 1)];
      assert h[i] == e[i];
    }
  }

  /** Dealt hand `i` is slice `i`, sorted. */
  lemma {:induction false} DealtHandsAt(cards: seq<Card>, count: nat, i: nat)
    requires i < count
    ensures DealtHands(cards, count)[i] == SortCards(HandSlice(cards, i))
  {
    if i < count - 1 {
      DealtHandsAt(cards, count - 1, i);
      var d, e := DealtHands(cards, count), DealtHands(cards, count - 1);
      assert d == e + [SortCards(HandSlice(cards, count - 1))];
      assert d[i] == e[i];
    }
  }

  /** Dealt hand `i` holds exactly the cards of slice `i`. */
  lemma DealtHandMembers(cards: seq<Card>, count: nat, i: nat, c: Card)
    requires i < count
    ensures c in DealtHands(cards, count)[i] <==> c in HandSlice(cards, i)
  {
    DealtHandsAt(cards, count, i);
    SortCardsKeepsMembers(HandSlice(cards, i), c);
  }

  /** Lines 58-59 for one player: the slice is a fresh array that
      `sortCards` sorts in place and returns. */
  method SortedSlice(cards: seq<Card>, i: nat) returns (hand: seq<Card>)
    ensures hand == SortCards(HandSlice(cards, i))
  {
    var slice := HandSlice(cards, i);
    var playerCards := new Card[|slice|](k requires 0 <= k < |slice| => slice[k]);
    assert playerCards[..] == slice;
    SortCardsInPlace(playerCards);
    hand := playerCards[..];
  }

  /** The dealing loop of `dealCards`, on the cards left after the trump was
      popped: one sorted ten-card slice per player, pushed in player order. */
  method CutHands(cards: seq<Card>, playerCount: nat) returns (dealt: seq<seq<Card>>)
    ensures dealt == DealtHands(cards, playerCount)
  {
    dealt := [];
    for i := 0 to playerCount
      invariant dealt == DealtHands(cards, i)
    {
      var hand := SortedSlice(cards, i);
      dealt := dealt + [hand];
    }
  }

  /** `dealCards(playerCount, deckId)`. Nothing happens unless the deck id is
      truthy and the channel exists; then `10 * playerCount + 1` cards are
      requested. `draw` is the reply's card list, None when the request or
      its decoding failed (the error is caught and nothing changes);
      `trumpSent` says whether sending `trump-revealed` succeeded (if not, the
      trump is already set but no hands are dealt). */
  method DealCards(s: GameState, playerCount: nat, deckId: Option<string>, channel: bool,
                   draw: Option<seq<Card>>, trumpSent: bool)
    returns (request: Option<nat>, t: GameState)
    ensures request == if Truthy(deckId) && channel then Some(10 * playerCount + 1) else None
    ensures request.None? || draw.None? ==> t == s
    ensures request.Some? && draw.Some? ==>
      t.trumpCard == Trump(draw.value)
      && t.playerCards == (if trumpSent then DealtHands(Remaining(draw.value), playerCount) else s.playerCards)
      && t.players == s.players && t.gameStarted == s.gameStarted && t.deckId == s.deckId
  {
    t := s;
    if !(Truthy(deckId) && channel) {
      return None, t;
    }
    var totalCards := playerCount * 10;
    request := Some(totalCards + 1);
    if draw.None? {
      return;
    }
    var cards := draw.value;
    var revealedTrumpCard: Option<Card> := None;
    if |cards| > 0 {
      revealedTrumpCard := Some(cards[|cards| - 1]);
      cards := cards[..|cards| - 1];
    }
    t := t.(trumpCard := revealedTrumpCard);
    if !trumpSent {
      return;
    }
    var dealt := CutHands(cards, playerCount);
    t := t.(playerCards := dealt);
  }

  /** The dealing effect: `dealCards(players.length, deckId)` when the game
      has started, there are players and the deck id is truthy. */
  method DealEffect(s: GameState, channel: bool, draw: Option<seq<Card>>, trumpSent: bool)
    returns (request: Option<nat>, t: GameState)
    ensures request.Some? <==> ShouldDeal(s) && channel
    ensures request.Some? ==> request.value == 10 * |s.players| + 1 && request.value >= 11
    ensures request.None? || draw.None? ==> t == s
    ensures request.Some? && draw.Some? && trumpSent ==>
      t == s.(trumpCard := Trump(draw.value), playerCards := DealtHands(Remaining(draw.value), |s.players|))
    ensures request.Some? && draw.Some? && !trumpSent ==> t == s.(trumpCard := Trump(draw.value))
  {
    if ShouldDeal(s) {
      request, t := DealCards(s, |s.players|, s.deckId, channel, draw, trumpSent);
    } else {
      request, t := None, s;
    }
  }

  /** The first index of the player with this id, or -1. */
  function CurrentPlayerIndex(players: seq<Player>, id: string): (r: int)
    ensures -1 <= r < |players|
    ensures r == -1 <==> forall k :: 0 <= k < |players| ==> players[k].id != id
    ensures 0 <= r ==> players[r].id == id && forall k :: 0 <= k < r ==> players[k].id != id
  {
    JsArray.FindIndex(players, (p: Player) => p.id == id)
  }

  /** The hand this client renders: None when no `Hand` is shown, otherwise
      the cards passed to it (no cards when the index has no hand). */
  function DisplayedHand(s: GameState, id: string): (r: Option<seq<Card>>)
    ensures r.Some? <==>
      s.gameStarted && |s.playerCards| > 0 && exists k :: 0 <= k < |s.players| && s.players[k].id == id
    ensures r.Some? && CurrentPlayerIndex(s.players, id) < |s.playerCards| ==>
      r.value == s.playerCards[CurrentPlayerIndex(s.players, id)]
    ensures r.Some? && CurrentPlayerIndex(s.players, id) >= |s.playerCards| ==> r.value == []
  {
    var index := CurrentPlayerIndex(s.players, id);
    if s.gameStarted && |s.playerCards| > 0 && index != -1 then
      Some(if index < |s.playerCards| then s.playerCards[index] else [])
    else None
  }

  /** The hands concatenated in order. */
  function Flatten(hands: seq<seq<Card>>): (r: seq<Card>) {
    if hands == [] then [] else Flatten(hands[..|hands| - 1]) + hands[|hands| - 1]
  }

  function Min(a: int, b: int): (m: int) { if a < b then a else b }

  /** Read in order, the hands are the leading cards of what remains of the
      draw: all of it when there are enough players, the first
      `10 * playerCount` cards otherwise. */
  lemma {:induction false} HandsCoverDraw(cards: seq<Card>, playerCount: nat)
    ensures Flatten(Hands(cards, playerCount)) == cards[..Min(|cards|, 10 * playerCount)]
  {
    if playerCount > 0 {
      var p := playerCount - 1;
      var hs := Hands(cards, playerCount);
      assert hs[..|hs| - 1] == Hands(cards, p);
      HandsCoverDraw(cards, p);
      var a, b := Min(|cards|, 10 * p), Min(|cards|, 10 * playerCount);
      assert HandSlice(cards, p) == cards[a..b];
      assert cards[..a] + cards[a..b] == cards[..b];
    }
  }

  /** Sorting each hand keeps the multiset of all dealt cards. */
  lemma {:induction false} SortingKeepsDealtCards(cards: seq<Card>, count: nat)
    ensures multiset(Flatten(DealtHands(cards, count))) == multiset(Flatten(Hands(cards, count)))
  {
    if count > 0 {
      var d, h := DealtHands(cards, count), Hands(cards, count);
      assert d[..count - 1] == DealtHands(cards, count - 1);
      assert h[..count - 1] == Hands(cards, count - 1);
      SortingKeepsDealtCards(cards, count - 1);
      SortCardsPermutes(HandSlice(cards, count - 1));
    }
  }

  /** With exactly `10 * playerCount + 1` cards drawn, slice `i` of what
      remains after the trump is draw positions `10 * i` to `10 * i + 9`. */
  lemma ExactDealSlice(draw: seq<Card>, playerCount: nat, i: nat)
    requires |draw| == 10 * playerCount + 1 && i < playerCount
    ensures HandSlice(Remaining(draw), i) == draw[10 * i..10 * (i + 1)]
  {
    var rest := Remaining(draw);
    assert rest == draw[..10 * playerCount];
    assert 10 * (i + 1) <= |rest|;
  }

  /** With exactly `10 * playerCount + 1` cards drawn, player `i` gets
      exactly draw positions `10 * i` to `10 * i + 9`, sorted: ten cards. */
  lemma ExactDealHands(draw: seq<Card>, playerCount: nat, i: nat)
    requires |draw| == 10 * playerCount + 1 && i < playerCount
    ensures Hands(Remaining(draw), playerCount)[i] == draw[10 * i..10 * (i + 1)]
    ensures DealtHands(Remaining(draw), playerCount)[i] == SortCards(draw[10 * i..10 * (i + 1)])
    ensures |DealtHands(Remaining(draw), playerCount)[i]| == 10
  {
    var rest := Remaining(draw);
    ExactDealSlice(draw, playerCount, i);
    HandsAt(rest, playerCount, i);
    DealtHandsAt(rest, playerCount, i);
  }

  /** With exactly `10 * playerCount + 1` cards drawn, the trump is the last
      card, and the hands followed by the trump are the whole draw: before
      sorting in draw order, after sorting as a multiset. */
  lemma ExactDealCoversDraw(draw: seq<Card>, playerCount: nat)
    requires |draw| == 10 * playerCount + 1
    ensures Trump(draw) == Some(draw[10 * playerCount])
    ensures Flatten(Hands(Remaining(draw), playerCount)) + [draw[10 * playerCount]] == draw
    ensures multiset(Flatten(DealtHands(Remaining(draw), playerCount))) + multiset{draw[10 * playerCount]}
      == multiset(draw)
  {
    var rest := Remaining(draw);
    HandsCoverDraw(rest, playerCount);
    assert rest[..Min(|rest|, 10 * playerCount)] == rest;
    SortingKeepsDealtCards(rest, playerCount);
  }

  /** No card repeats in the sequence. */
  predicate Distinct(cards: seq<Card>) {
    forall i, j :: 0 <= i < j < |cards| ==> cards[i] != cards[j]
  }

  /** With exactly `10 * playerCount + 1` cards drawn, a card of slice `i`
      sits at one of the draw positions `10 * i` to `10 * i + 9`. */
  lemma SliceCardPosition(draw: seq<Card>, playerCount: nat, i: nat, c: Card) returns (q: nat)
    requires |draw| == 10 * playerCount + 1 && i < playerCount
    requires c in HandSlice(Remaining(draw), i)
    ensures 10 * i <= q < 10 * (i + 1) && draw[q] == c
  {
    ExactDealSlice(draw, playerCount, i);
    var slice := draw[10 * i..10 * (i + 1)];
    var m :| 0 <= m < 10 && slice[m] == c;
    q := 10 * i + m;
  }

  /** A card of player `i`'s sorted hand sits at one of the draw positions
      `10 * i` to `10 * i + 9`. */
  lemma DealtCardPosition(draw: seq<Card>, playerCount: nat, i: nat, c: Card) returns (q: nat)
    requires |draw| == 10 * playerCount + 1 && i < playerCount
    requires c in DealtHands(Remaining(draw), playerCount)[i]
    ensures 10 * i <= q < 10 * (i + 1) && draw[q] == c
  {
    DealtHandMembers(Remaining(draw), playerCount, i, c);
    q := SliceCardPosition(draw, playerCount, i, c);
  }

  /** When the draw holds no card twice, as a shuffled deck does, no card
      is in two hands and the trump is in none. */
  lemma DistinctDrawDisjointHands(draw: seq<Card>, playerCount: nat)
    requires |draw| == 10 * playerCount + 1 && Distinct(draw)
    ensures var hands := DealtHands(Remaining(draw), playerCount);
      (forall i, j, c :: 0 <= i < j < playerCount && c in hands[i] ==> c !in hands[j])
      && (forall i :: 0 <= i < playerCount ==> draw[10 * playerCount] !in hands[i])
  {
    var hands := DealtHands(Remaining(draw), playerCount);
    forall i, j, c | 0 <= i < j < playerCount && c in hands[i] ensures c !in hands[j] {
      var q := DealtCardPosition(draw, playerCount, i, c);
      if c in hands[j] {
        var q' := DealtCardPosition(draw, playerCount, j, c);
      }
    }
    forall i | 0 <= i < playerCount ensures draw[10 * playerCount] !in hands[i] {
      if draw[10 * playerCount] in hands[i] {
        var q := DealtCardPosition(draw, playerCount, i, draw[10 * playerCount]);
      }
    }
  }

  /** After a complete deal, the player whose id comes first at index `k`
      sees hand `k`: the sorted cards at draw positions `10 * k` onwards. */
  lemma OwnHandAfterDeal(s: GameState, draw: seq<Card>, id: string)
    requires s.gameStarted && |s.players| > 0
    requires 0 <= CurrentPlayerIndex(s.players, id)
    ensures var t := s.(playerCards := DealtHands(Remaining(draw), |s.players|));
      DisplayedHand(t, id) == Some(SortCards(HandSlice(Remaining(draw), CurrentPlayerIndex(s.players, id))))
  {
    var k := CurrentPlayerIndex(s.players, id);
    assert s.players[k].id == id;
    DealtHandsAt(Remaining(draw), |s.players|, k);
  }
}
