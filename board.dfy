/**
 * The table view: every client draws the players around a circle with its
 * own player in the first seat, so the seating is the players list rotated
 * to start at the current player.
 */
module Board {
  import JsArray
  import opened Game

  /** `reorderPlayers(players, currentPlayerId)`: the players from the first
      one with the current id onwards, then the ones before it. With no such
      player `findIndex` gives -1, and `slice(-1)` / `slice(0, -1)` move the
      last player to the front. */
  function ReorderPlayers(players: seq<Player>, currentPlayerId: string): (r: seq<Player>)
    ensures |r| == |players|
  {
    var currentPlayerIndex := CurrentPlayerIndex(players, currentPlayerId);
    JsArray.SliceFrom(players, currentPlayerIndex) + JsArray.Slice(players, 0, currentPlayerIndex)
  }

  /** The seat the rotation starts from: the current player's index, or the
      last seat when the id is absent. */
  function RotationStart(players: seq<Player>, currentPlayerId: string): (m: nat)
    ensures players != [] ==> m < |players|
  {
    var k := CurrentPlayerIndex(players, currentPlayerId);
    if k == -1 then (if players == [] then 0 else |players| - 1) else k
  }

  /** The seating is always a rotation of the players. */
  lemma ReorderIsRotation(players: seq<Player>, currentPlayerId: string)
    ensures ReorderPlayers(players, currentPlayerId) == Rotation(players, RotationStart(players, currentPlayerId))
  {
    var k := CurrentPlayerIndex(players, currentPlayerId);
    if players == [] {
    } else if k == -1 {
      assert JsArray.SliceFrom(players, k) == players[|players| - 1..];
      assert JsArray.Slice(players, 0, k) == players[..|players| - 1];
    } else {
      assert JsArray.SliceFrom(players, k) == players[k..];
      assert JsArray.Slice(players, 0, k) == players[..k];
    }
  }

  /** With the current id present at first index `k`, the seating is the
      players from `k` on, then the ones before `k`. */
  lemma PresentPlayerRotation(players: seq<Player>, currentPlayerId: string)
    requires 0 <= CurrentPlayerIndex(players, currentPlayerId)
    ensures var k := CurrentPlayerIndex(players, currentPlayerId);
      ReorderPlayers(players, currentPlayerId) == players[k..] + players[..k]
  {
    ReorderIsRotation(players, currentPlayerId);
  }

  /** With the current id absent, `findIndex` gives -1 and the last player
      moves to the front; the others keep their order. */
  lemma AbsentPlayerRotation(players: seq<Player>, currentPlayerId: string)
    requires forall k :: 0 <= k < |players| ==> players[k].id != currentPlayerId
    requires players != []
    ensures ReorderPlayers(players, currentPlayerId) == [players[|players| - 1]] + players[..|players| - 1]
  {
    ReorderIsRotation(players, currentPlayerId);
    assert players[|players| - 1..] == [players[|players| - 1]];
  }

  /** Hence the seating holds the same players the same number of times. */
  lemma ReorderIsPermutation(players: seq<Player>, currentPlayerId: string)
    ensures multiset(ReorderPlayers(players, currentPlayerId)) == multiset(players)
  {
    var m := RotationStart(players, currentPlayerId);
    ReorderIsRotation(players, currentPlayerId);
    assert players == players[..m] + players[m..];
  }

  /** Seat `j` holds player `(m + j) % n`, where `m` is the rotation start. */
  lemma SeatOf(players: seq<Player>, currentPlayerId: string, j: nat)
    requires j < |players|
    ensures ReorderPlayers(players, currentPlayerId)[j]
      == players[(RotationStart(players, currentPlayerId) + j) % |players|]
  {
    ReorderIsRotation(players, currentPlayerId);
    RotationAt(players, RotationStart(players, currentPlayerId), j);
  }

  /** When the current id is present, the first seat is its first player. */
  lemma CurrentPlayerSeatedFirst(players: seq<Player>, currentPlayerId: string)
    requires exists k :: 0 <= k < |players| && players[k].id == currentPlayerId
    ensures var r := ReorderPlayers(players, currentPlayerId);
      var k := CurrentPlayerIndex(players, currentPlayerId);
      r[0] == players[k] && r[0].id == currentPlayerId
      && forall i :: 0 <= i < k ==> players[i].id != currentPlayerId
  {
  }

  /** A current player who already sits first leaves the order unchanged. */
  lemma FirstPlayerKeepsOrder(players: seq<Player>)
    requires players != []
    ensures ReorderPlayers(players, players[0].id) == players
  {
    assert CurrentPlayerIndex(players, players[0].id) == 0;
  }

  /** No players, no seats. */
  lemma NoPlayersNoSeats(currentPlayerId: string)
    ensures ReorderPlayers([], currentPlayerId) == []
  {
  }

  /** How many seats clockwise `to` sits from `from` around `n` seats. */
  function Distance(from: nat, to: nat, n: nat): (d: nat)
    requires from < n && to < n
    ensures d < n
  {
    if from <= to then to - from else to + n - from
  }

  /** Going `Distance(from, to, n)` seats on from `from` arrives at `to`. */
  lemma DistanceArrives(from: nat, to: nat, n: nat)
    requires from < n && to < n
    ensures (from + Distance(from, to, n)) % n == to
  {
    if from <= to { ModBelow(to, n); } else { ModWrap(to + n, n); }
  }

  /** Every client sees the same circle: the seating of client `b` is the
      seating of client `a` turned on by the distance between their first
      seats. */
  lemma SameCircleForEveryClient(players: seq<Player>, a: string, b: string)
    requires players != []
    ensures var d := Distance(RotationStart(players, a), RotationStart(players, b), |players|);
      ReorderPlayers(players, b) == Rotation(ReorderPlayers(players, a), d)
  {
    var ma, mb := RotationStart(players, a), RotationStart(players, b);
    var d := Distance(ma, mb, |players|);
    ReorderIsRotation(players, a);
    ReorderIsRotation(players, b);
    DistanceArrives(ma, mb, |players|);
    RotationComposes(players, ma, d);
    var e := (ma + d) % |players|;
    assert e == mb;
    assert Rotation(players, e) == Rotation(players, mb);
  }

  /** `s[m..] + s[..m]`, the sequence turned to start at `m`. */
  function Rotation<T>(s: seq<T>, m: nat): (r: seq<T>)
    requires m <= |s|
    ensures |r| == |s|
  {
    s[m..] + s[..m]
  }

  /** Position `j` of the turned sequence is position `(m + j) % n`. */
  lemma RotationAt<T>(s: seq<T>, m: nat, j: nat)
    requires m < |s| && j < |s|
    ensures (m + j) % |s| < |s| && Rotation(s, m)[j] == s[(m + j) % |s|]
  {
    var n := |s|;
    if m + j < n { ModBelow(m + j, n); } else { ModWrap(m + j, n); }
  }

  /** Turning by `m` and then by `d` is turning by `(m + d) % n`. */
  lemma RotationComposes<T>(s: seq<T>, m: nat, d: nat)
    requires m < |s| && d < |s|
    ensures (m + d) % |s| < |s|
    ensures Rotation(Rotation(s, m), d) == Rotation(s, (m + d) % |s|)
  {
    var n := |s|;
    var e := (m + d) % n;
    TurnArithmetic(m, d, 0, n);
    forall j | 0 <= j < n
      ensures Rotation(Rotation(s, m), d)[j] == Rotation(s, e)[j]
    {
      TurnArithmetic(m, d, j, n);
      RotationAt(Rotation(s, m), d, j);
      RotationAt(s, m, (d + j) % n);
      RotationAt(s, e, j);
    }
  }

  /** Turning by `d` and then by `m` lands where turning by `(m + d) % n`
      does: `(m + (d + j) % n) % n == ((m + d) % n + j) % n`. */
  lemma TurnArithmetic(m: nat, d: nat, j: nat, n: nat)
    requires m < n && d < n && j < n
    ensures (d + j) % n < n && (m + d) % n < n
    ensures (m + (d + j) % n) % n == ((m + d) % n + j) % n
  {
    if m + d < n { ModBelow(m + d, n); } else { ModWrap(m + d, n); }
    if d + j < n { ModBelow(d + j, n); } else { ModWrap(d + j, n); }
    var t, e := (d + j) % n, (m + d) % n;
    if m + t < n { ModBelow(m + t, n); } else { ModWrap(m + t, n); }
    if e + j < n { ModBelow(e + j, n); } else { ModWrap(e + j, n); }
  }

  lemma ModBelow(x: int, n: int)
    requires 0 <= x < n
    ensures x % n == x
  {
  }

  lemma ModWrap(x: int, n: int)
    requires 0 < n <= x < 2 * n
    ensures x % n == x - n
  {
  }
}
