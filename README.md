# ten-to-one: a verified model of the game screen, the seating and the lobby

ten-to-one is a browser card game built on a chat service's channels and
on a public deck-of-cards web API. This project models its core in Dafny:

- **The game screen** (`Game.js`):
  - the fixed suit and value orders and the comparator `sortCards` passes
    to `Array.prototype.sort`;
  - the deal: `10 * playerCount + 1` cards are drawn, the last one is popped
    as the trump, and the rest is cut into ten-card slices that are each
    sorted;
  - the effect that starts a deal;
  - the `game-started` and `trump-revealed` handlers and the local start
    button;
  - the guard that decides whether this client shows a hand.
- **The table** (`Board.js`): `reorderPlayers`, which rotates the players so
  that this client's own player sits first.
- **The lobby** (`JoinGame.js`): the roster of usernames, with adding a
  friend after a user lookup, removing a name and the thresholds of the
  Add and Start buttons.

## Modules

- `JsArray` (`js_array.dfy`) gives the JavaScript built-ins the components
  use the semantics ECMAScript defines for them:
  - `slice` with negative and out-of-range bounds;
  - the `-1` of `findIndex` and `indexOf`;
  - `filter` by `!==`;
  - `trim` over the WhiteSpace and LineTerminator code points.
- `StableSort` (`sorting.dfy`) is a stable insertion sort by a two-level
  integer key, first as functions on sequences and then in place on an
  array. It is proved to be a permutation, sorted and stable. It is also
  proved to be the *only* sorted stable rearrangement. Since ECMAScript 2019
  `Array.prototype.sort` is stable and the comparator is consistent, that
  unique result is what `cards.sort` returns, whatever algorithm the engine
  uses.
- `Cards` (`cards.dfy`) holds the card record, the orders, the comparator,
  `SortCards` and the in-place `sortCards`.
- `Game` (`game.dfy`) holds the component state as a record, the handlers
  as state transitions, `dealCards` as a method with its dealing loop, and
  the lemmas about the partition of the draw.
- `Board` (`board.dfy`) holds `reorderPlayers` and the rotation lemmas.
- `JoinGame` (`join_game.dfy`) holds the roster as a class whose
  `usernames` field the handlers reassign, together with the pure
  transitions and the invariant they keep.
- `Wrappers` (`wrappers.dfy`) holds `Option`, which stands for `null` and
  `undefined`.

Outside inputs are parameters:
- the deck API's replies: the new deck id, and the list of drawn cards,
  which is None when the request or its decoding failed;
- whether `channel` exists;
- whether `channel.sendEvent` succeeded;
- the answer of the user lookup.

## Model

| member | source | states |
|---|---|---|
| JsArray.Slice | client/src/components/Game.js:58 | `slice(start, end)` is the plain subsequence for in-range bounds; an end at or before the start gives nothing when the end is not negative, or when both are negative; `slice(0, -k)` drops the last `k` elements; an end beyond the length is clamped |
| JsArray.SliceFrom | client/src/components/Board.js:10 | `slice(k)` is the suffix from `k`; `slice(-1)` of a non-empty list is its last element |
| JsArray.FindIndex | client/src/components/Game.js:125 | `findIndex` gives the first index whose element satisfies the predicate, and -1 exactly when no element does |
| JsArray.IndexOf | client/src/components/Game.js:20 | `indexOf` gives a value between -1 and the length minus one |
| JsArray.IndexOfSpec | client/src/components/Game.js:20-22 | `indexOf` is -1 exactly when the value is absent; otherwise it is the position of the first occurrence |
| JsArray.Without | client/src/components/JoinGame.js:43 | `filter(y => y !== x)` drops every copy of `x` and keeps every other element as often as before |
| JsArray.WithoutAppend | client/src/components/JoinGame.js:43 | the filter works piecewise on a concatenation, so the survivors keep their order |
| JsArray.Trim | client/src/components/JoinGame.js:12 | `trim()` is a piece of the input whose ends are not whitespace; it is empty exactly when the whole input is whitespace |
| StableSort.KeyCompareIsConsistent | client/src/components/Game.js:20-22 | the subtract-then-tie-break comparator agrees with the lexicographic order, is zero only on equal keys and is antisymmetric |
| StableSort.SortBy | client/src/components/Game.js:19 | the sort keeps the length of its input |
| StableSort.SortByPermutes | client/src/components/Game.js:19 | the sort returns the same elements, each as often |
| StableSort.SortBySorted | client/src/components/Game.js:19 | every pair of elements of the result is in key order |
| StableSort.SortByStable | client/src/components/Game.js:19 | for every key, the elements with that key keep their relative order |
| StableSort.SortByOfSorted | client/src/components/Game.js:19 | a sequence already in key order comes back unchanged, repeated keys included |
| StableSort.StableSortIsUnique | client/src/components/Game.js:19 | two sorted sequences that agree on the order of the elements of every key are equal |
| StableSort.StableSortIsSortBy | client/src/components/Game.js:19 | every sorted, stable rearrangement of the input is `SortBy` of it |
| StableSort.InsertInPlace | client/src/components/Game.js:19 | shifting `a[i]` left over the greater elements leaves `a[..i+1]` equal to the insertion of `a[i]` into `a[..i]`, and the rest of the array untouched |
| StableSort.SortInPlace | client/src/components/Game.js:19 | the in-place insertion sort leaves the array equal to `SortBy` of its old contents |
| Cards.SuitIndex | client/src/components/Game.js:15 | a suit's index in `suitOrder` lies between -1 and 3 |
| Cards.ValueIndex | client/src/components/Game.js:16 | a value's index in `valueOrder` lies between -1 and 12 |
| Cards.IndicesLocateCard | client/src/components/Game.js:15-22 | an unknown suit or value has index -1; a known one sits at its index in the fixed order |
| Cards.Compare | client/src/components/Game.js:20-22 | the comparator is non-positive exactly when the first card's (suit index, value index) is lexicographically no greater, and zero exactly when both indices agree |
| Cards.CompareIsRankOrder | client/src/components/Game.js:20-22 | the comparator is the key comparison of (suit index, value index): it is non-positive exactly in lexicographic order, zero exactly on equal indices, and antisymmetric |
| Cards.SortCards | client/src/components/Game.js:18-24 | `sortCards` keeps the number of cards |
| Cards.SortCardsPermutes | client/src/components/Game.js:18-24 | `sortCards` returns the cards it was given: same length, same multiset |
| Cards.SortCardsKeepsMembers | client/src/components/Game.js:18-24 | a card is in the sorted hand exactly when it was in the hand |
| Cards.SortCardsSorted | client/src/components/Game.js:15-22 | neighbouring cards of the result have a lower suit index, or the same suit index and a value index no greater |
| Cards.SortCardsStable | client/src/components/Game.js:18-24 | cards with the same suit and value indices keep their relative order |
| Cards.SortCardsOfSorted | client/src/components/Game.js:18-24 | a hand already in order comes back unchanged, with or without repeated (suit, value) pairs |
| Cards.SortCardsIdempotent | client/src/components/Game.js:18-24 | sorting any hand twice gives the same as sorting it once |
| Cards.EngineSortIsSortCards | client/src/components/Game.js:19 | any result a stable engine sort can give with this comparator equals `SortCards` |
| Cards.SortCardsInPlace | client/src/components/Game.js:19 | `cards.sort(comparator)` leaves the array holding `SortCards` of its old contents |
| Game.PlayersFromMembers | client/src/components/Game.js:77-83 | one player per member, in member order: the member's id, score 0, and the name, or the id when the name is missing or empty |
| Game.Initial | client/src/components/Game.js:7-11 | a freshly mounted screen has `gameStarted` as passed in, triggers no deal and shows no hand |
| Game.Truthy | client/src/components/Game.js:38 | a deck id is truthy exactly when it is present and not the empty string |
| Game.DisplayName | client/src/components/Game.js:80 | the shown name is the id or the member's own name, and it is empty only when the id is empty |
| Game.OnGameStarted | client/src/components/Game.js:85-90 | a `game-started` event sets `gameStarted` and the event's deck id; everything else stays; any other event changes nothing |
| Game.OnTrumpRevealed | client/src/components/Game.js:92-96 | a `trump-revealed` event changes the trump card and nothing else |
| Game.StartGame | client/src/components/Game.js:108-123 | without a channel nothing changes; with one the deck id becomes the shuffle result, and the game counts as started once the event was sent |
| Game.ShouldDeal | client/src/components/Game.js:70 | the deal fires exactly when the game has started, there is a player and the deck id is truthy |
| Game.GameStartedTriggersDeal | client/src/components/Game.js:70 | after `game-started` the deal fires exactly when there are players and the event's deck id is truthy |
| Game.TrumpRevealedKeepsTrigger | client/src/components/Game.js:70 | a revealed trump never starts or stops a deal |
| Game.Trump | client/src/components/Game.js:48 | `pop()` yields the last drawn card, or undefined for an empty draw |
| Game.Remaining | client/src/components/Game.js:48 | after `pop()` the list is the draw without its last card |
| Game.HandSlice | client/src/components/Game.js:58 | slice `i` is positions `10i` to `10i+9` when they exist, and empty past the end |
| Game.Hands | client/src/components/Game.js:56-60 | there is one cut hand per player |
| Game.DealtHands | client/src/components/Game.js:56-60 | there is one dealt hand per player |
| Game.HandsAt | client/src/components/Game.js:56-60 | the `i`-th cut hand is slice `i` |
| Game.DealtHandsAt | client/src/components/Game.js:56-60 | the `i`-th pushed hand is slice `i`, sorted |
| Game.DealtHandMembers | client/src/components/Game.js:58-59 | dealt hand `i` holds exactly the cards of slice `i` |
| Game.SortedSlice | client/src/components/Game.js:58-59 | one loop step copies slice `i` into a fresh array and returns it sorted |
| Game.CutHands | client/src/components/Game.js:56-60 | the loop pushes, in player order, one sorted slice per player |
| Game.DealCards | client/src/components/Game.js:37-67 | nothing happens unless the deck id is truthy and the channel exists; then `10*playerCount+1` cards are requested; a failed reply changes nothing; otherwise the trump is the popped card, and the hands are set only after the trump event was sent |
| Game.DealEffect | client/src/components/Game.js:69-73 | a deal is requested exactly when the game has started, there is a player, the deck id is truthy and the channel exists, for at least 11 cards; a failed reply changes nothing; a full deal stores the trump and the hands and changes nothing else; when the trump event cannot be sent, the trump is stored and the hands stay as they were |
| Game.CurrentPlayerIndex | client/src/components/Game.js:125 | the first index of a player with this id, -1 exactly when there is none |
| Game.DisplayedHand | client/src/components/Game.js:138-140 | a hand is shown exactly when the game has started, hands exist and the own id is among the players; it is the hand at the own index, or no cards when that hand is missing |
| Game.HandsCoverDraw | client/src/components/Game.js:56-60 | read in order, the cut hands are the leading `10*playerCount` cards of what is left of the draw, or all of it when the draw is short |
| Game.SortingKeepsDealtCards | client/src/components/Game.js:59 | sorting each hand keeps the multiset of all dealt cards |
| Game.ExactDealSlice | client/src/components/Game.js:41-58 | with exactly `10p+1` cards drawn, slice `i` of what is left after the pop is draw positions `10i` to `10i+9` |
| Game.ExactDealHands | client/src/components/Game.js:41-59 | with exactly `10p+1` cards drawn, player `i` gets draw positions `10i` to `10i+9` before sorting, and those ten cards sorted after |
| Game.ExactDealCoversDraw | client/src/components/Game.js:41-62 | with exactly `10p+1` cards drawn, the trump is the last card, and the hands followed by the trump are the whole draw: in order before sorting, as a multiset after |
| Game.SliceCardPosition | client/src/components/Game.js:58 | a card of slice `i` sits at one of draw positions `10i` to `10i+9` |
| Game.DealtCardPosition | client/src/components/Game.js:56-59 | a card of dealt hand `i` sits at one of draw positions `10i` to `10i+9` |
| Game.DistinctDrawDisjointHands | client/src/components/Game.js:41-62 | when no card repeats in the draw, no card is in two hands and the trump is in no hand |
| Game.OwnHandAfterDeal | client/src/components/Game.js:138-139 | after a full deal, the client whose id first occurs at index `k` is shown slice `k` sorted |
| Board.ReorderPlayers | client/src/components/Board.js:8-11 | the seating has as many seats as there are players |
| Board.RotationStart | client/src/components/Board.js:9 | the rotation starts at the current player's index, or at the last seat when the id is absent |
| Board.ReorderIsRotation | client/src/components/Board.js:9-10 | the seating is always the players turned to start at `RotationStart` |
| Board.ReorderIsPermutation | client/src/components/Board.js:10 | the seating holds the same players, each as often |
| Board.PresentPlayerRotation | client/src/components/Board.js:9-10 | with the id first found at `k`, the seating is `players[k..]` followed by `players[..k]` |
| Board.AbsentPlayerRotation | client/src/components/Board.js:9-10 | with the id absent, the last player moves to the front and the others keep their order |
| Board.SeatOf | client/src/components/Board.js:9-10 | seat `j` holds player `(m + j) % n`, where `m` is the rotation start |
| Board.CurrentPlayerSeatedFirst | client/src/components/Board.js:9 | when the id is present, the first seat holds the current player, anchored at its first occurrence |
| Board.FirstPlayerKeepsOrder | client/src/components/Board.js:10 | when the current player already sits first, the order is unchanged |
| Board.NoPlayersNoSeats | client/src/components/Board.js:10 | an empty player list gives an empty seating |
| Board.SameCircleForEveryClient | client/src/components/Board.js:8-11 | every client sees the same circle: one client's seating is another's turned by the distance between their first seats |
| Board.RotationAt | client/src/components/Board.js:10 | position `j` of a list turned by `m` is position `(m + j) % n` |
| Board.RotationComposes | client/src/components/Board.js:10 | turning by `m` and then by `d` is turning by `(m + d) % n` |
| JoinGame.RejectedAddChangesNothing | client/src/components/JoinGame.js:12-31 | an add with a blank name after trimming, an untrimmed name already listed, a full roster, or a lookup that finds nobody or fails changes nothing |
| JoinGame.AcceptedAddAppends | client/src/components/JoinGame.js:23 | otherwise the entered name, untrimmed, is appended at the end and the earlier names keep their places |
| JoinGame.DisabledAddChangesNothing | client/src/components/JoinGame.js:63 | while the Add button is disabled, no add changes the roster |
| JoinGame.AddKeepsInvariant | client/src/components/JoinGame.js:12-24 | an add keeps the own name first, at most five names and no duplicates |
| JoinGame.RemovingSelfIsRefused | client/src/components/JoinGame.js:39-42 | removing one's own name leaves the roster unchanged |
| JoinGame.RemoveDeletesName | client/src/components/JoinGame.js:43 | removing another name deletes every copy of it and keeps every other name, each as often |
| JoinGame.RemoveKeepsOrder | client/src/components/JoinGame.js:43 | on a roster without duplicates, removing the name at `k` closes the gap and keeps the others in order |
| JoinGame.RemoveKeepsInvariant | client/src/components/JoinGame.js:38-44 | a removal keeps the own name first, at most five names and no duplicates |
| JoinGame.StartableRoster | client/src/components/JoinGame.js:66 | a roster offered the Start button holds three to five distinct names, the own name first |
| JoinGame.AddEnabled | client/src/components/JoinGame.js:63 | the Add button is enabled exactly while there are fewer than five names |
| JoinGame.StartShown | client/src/components/JoinGame.js:66 | the Start button is shown exactly from three names on |
| JoinGame.AddOutcomeOf | client/src/components/JoinGame.js:12-31 | an add happens only for a name not yet listed, on a roster with room, after a lookup that found a user |
| JoinGame.AfterAdd | client/src/components/JoinGame.js:12-31 | an add leaves the roster as it was or appends the entered name |
| JoinGame.AfterRemove | client/src/components/JoinGame.js:38-44 | a removal never lengthens the roster and introduces no name that was not on it |
| JoinGame.Roster.constructor | client/src/components/JoinGame.js:8-9 | the text field starts empty and the roster as the own name alone |
| JoinGame.Roster.SetUsername | client/src/components/JoinGame.js:59 | typing replaces the text field and leaves the roster alone |
| JoinGame.Roster.AddUser | client/src/components/JoinGame.js:11-34 | `handleAddUser` takes the branch `AddOutcomeOf` names, leaves the roster as `AfterAdd`, clears the field only after an add, and keeps the roster invariant |
| JoinGame.Roster.RemoveUser | client/src/components/JoinGame.js:38-44 | `handleRemoveUser` refuses exactly the own name, leaves the roster as `AfterRemove`, and keeps the roster invariant |

## Left out

- The deck API's HTTP calls (`createNewDeck` and the draw `fetch`) are left out: they are network I/O. Their results are parameters: the new deck id, and the drawn cards as a list, or None when the request or its decoding failed.
- `channel.sendEvent`, `channel.on`/`off` and `channel.state.members` are left out: they are calls into the messaging SDK. Whether sending succeeded is a parameter, and members arrive as a given list.
- `client.queryUsers` in the lobby is left out: it is a remote call. Its answer is the three-valued `Lookup`.
- React scheduling is not modelled: when effects run, and in what order state updates land. In particular, `handleAddUser` appends to the `usernames` captured before its `await`, so two adds racing each other could lose one; every handler is modelled as atomic.
- Event ordering across clients is not modelled: it is concurrency.
- The deal effect (`Game.js` lines 69-73) has no dealer check, so every client whose guard holds draws its own `10 * playerCount + 1` cards from the shared deck and sends its own `trump-revealed`. `DealEffect` models one client. `DistinctDrawDisjointHands` and `OwnHandAfterDeal` hold within that client's draw, not across the draws of several clients. This is read from the code, not observed.
- Alerts, `console` output and all rendering are left out, apart from which hand is passed to `Hand`. When `playerCards[currentPlayerIndex]` is undefined, `Hand` shows "No cards to display", so the model passes it no cards.
- The circle layout of `Board.js` (lines 16-27) is left out: it is DOM styling with floating-point angles.
- Cookies are constants: the own username in the lobby, and the own user id on the game screen.
- A draw reply without a `cards` list fails with a TypeError at `pop`. The model treats it as the failed reply None, and the code's `catch` likewise leaves it without effect.
- Other files are not part of this model:
  - `JoinOrCreateGame.js` (channel creation, member listeners, random ids);
  - `App.js` and `Login.js` (session cookies, connect and disconnect);
  - `server/src/index.js` (password hashing and the chat server client). The login handler there sends no response when the password does not match.
