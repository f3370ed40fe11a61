/**
 * The lobby of the create-game screen: the player who creates a game builds
 * a roster of usernames, starting with their own, adds friends found by the
 * chat service's user lookup and removes them again; the game can start
 * with three to five names.
 */
module JoinGame {
  import JsArray

  /** At most this many names fit on the roster. */
  const MaxPlayers := 5
  /** The Start button appears from this many names on. */
  const MinPlayersToStart := 3

  /** What `client.queryUsers` answered for the entered name: at least one
      user, no user, or an exception. */
  datatype Lookup = Found | NotFound | Failed

  /** What `handleAddUser` did: nothing (blank or already listed), the full
      roster alert, the not-found alert, the error alert, or an add. */
  datatype AddOutcome = Ignored | TooMany | UserNotFound | LookupError | Added

  /** No name is listed twice. */
  predicate NoDuplicates(names: seq<string>) {
    forall i, j :: 0 <= i < j < |names| ==> names[i] != names[j]
  }

  /** What holds of the roster at every moment: the own name first, at most
      five names, none twice. */
  predicate RosterInvariant(self: string, usernames: seq<string>) {
    0 < |usernames| <= MaxPlayers && usernames[0] == self && NoDuplicates(usernames)
  }

  /** The Add button is enabled (line 63). */
  predicate AddEnabled(usernames: seq<string>) {
    |usernames| < MaxPlayers
  }

  /** The Start Game button is shown (line 66). */
  predicate StartShown(usernames: seq<string>) {
    |usernames| >= MinPlayersToStart
  }

  /** The branch `handleAddUser` takes for the entered `username`. */
  function AddOutcomeOf(usernames: seq<string>, username: string, lookup: Lookup): (o: AddOutcome)
    ensures o == Added ==> username !in usernames && AddEnabled(usernames) && lookup == Found
  {
    if JsArray.Trim(username) == [] || username in usernames then Ignored
    else if |usernames| >= MaxPlayers then TooMany
    else match lookup
      case NotFound => UserNotFound
      case Failed => LookupError
      case Found => Added
  }

  /** The roster after `handleAddUser`. */
  function AfterAdd(usernames: seq<string>, username: string, lookup: Lookup): (r: seq<string>)
    ensures r == usernames || r == usernames + [username]
  {
    if AddOutcomeOf(usernames, username, lookup) == Added then usernames + [username] else usernames
  }

  /** The roster after `handleRemoveUser(name)`. */
  function AfterRemove(self: string, usernames: seq<string>, name: string): (r: seq<string>)
    ensures |r| <= |usernames|
    ensures forall x :: x in r ==> x in usernames
  {
    if name == self then usernames else JsArray.Without(usernames, name)
  }

  /** An add whose name is blank after trimming, whose untrimmed name is
      already listed, that meets a full roster, or whose lookup finds no user
      or fails leaves the roster as it was. */
  lemma RejectedAddChangesNothing(usernames: seq<string>, username: string, lookup: Lookup)
    requires JsArray.Trim(username) == [] || username in usernames
      || |usernames| >= MaxPlayers || lookup != Found
    ensures AddOutcomeOf(usernames, username, lookup) != Added
    ensures AfterAdd(usernames, username, lookup) == usernames
  {
  }

  /** Otherwise the entered name, untrimmed, is appended at the end and the
      earlier names stay where they were. */
  lemma AcceptedAddAppends(usernames: seq<string>, username: string, lookup: Lookup)
    requires JsArray.Trim(username) != [] && username !in usernames
    requires |usernames| < MaxPlayers && lookup == Found
    ensures AddOutcomeOf(usernames, username, lookup) == Added
    ensures var r := AfterAdd(usernames, username, lookup);
      |r| == |usernames| + 1 && r[..|usernames|] == usernames && r[|usernames|] == username
  {
  }

  /** While the Add button is disabled, no add can change the roster. */
  lemma DisabledAddChangesNothing(usernames: seq<string>, username: string, lookup: Lookup)
    requires !AddEnabled(usernames)
    ensures AfterAdd(usernames, username, lookup) == usernames
  {
  }

  /** An add keeps the roster invariant. */
  lemma AddKeepsInvariant(self: string, usernames: seq<string>, username: string, lookup: Lookup)
    requires RosterInvariant(self, usernames)
    ensures RosterInvariant(self, AfterAdd(usernames, username, lookup))
  {
    var r := AfterAdd(usernames, username, lookup);
    if r != usernames {
      assert r == usernames + [username] && username !in usernames;
      forall i, j | 0 <= i < j < |r| ensures r[i] != r[j] {
        if j == |usernames| {
          assert r[i] == usernames[i];
        }
      }
    }
  }

  /** Removing one's own name is refused. */
  lemma RemovingSelfIsRefused(self: string, usernames: seq<string>)
    ensures AfterRemove(self, usernames, self) == usernames
  {
  }

  /** Removing anyone else deletes every occurrence of that name and keeps
      every other name as often as it was there. */
  lemma RemoveDeletesName(self: string, usernames: seq<string>, name: string)
    requires name != self
    ensures var r := AfterRemove(self, usernames, name);
      name !in r && multiset(r) == multiset(usernames)[name := 0]
      && forall other :: other != name ==> (other in r <==> other in usernames)
  {
    var r := AfterRemove(self, usernames, name);
    forall other | other != name ensures other in r <==> other in usernames {
      assert multiset(r)[other] == multiset(usernames)[other];
    }
  }

  /** On a roster without duplicates, removing the name at position `k`
      closes the gap and keeps the others in order. */
  lemma {:induction false} RemoveKeepsOrder(usernames: seq<string>, k: nat)
    requires NoDuplicates(usernames) && k < |usernames|
    ensures JsArray.Without(usernames, usernames[k]) == usernames[..k] + usernames[k + 1..]
  {
    var x := usernames[k];
    var before, after := usernames[..k], usernames[k + 1..];
    assert usernames == before + [x] + after;
    assert x !in before by {
      forall i | 0 <= i < k ensures before[i] != x { assert before[i] == usernames[i]; }
    }
    assert x !in after by {
      forall i | 0 <= i < |after| ensures after[i] != x { assert after[i] == usernames[k + 1 + i]; }
    }
    JsArray.WithoutAppend(before + [x], after, x);
    JsArray.WithoutAppend(before, [x], x);
    assert JsArray.Without([x], x) == [];
  }

  /** A removal keeps the roster invariant; in particular the own name is
      always on the roster. */
  lemma RemoveKeepsInvariant(self: string, usernames: seq<string>, name: string)
    requires RosterInvariant(self, usernames)
    ensures RosterInvariant(self, AfterRemove(self, usernames, name))
  {
    if name != self && name in usernames {
      var k :| 0 <= k < |usernames| && usernames[k] == name;
      RemoveKeepsOrder(usernames, k);
      DropKeepsNoDuplicates(usernames, k);
      assert k != 0;
    }
  }

  /** Closing the gap at `k` keeps the names distinct and, for `k > 0`, the
      first name first. */
  lemma DropKeepsNoDuplicates(names: seq<string>, k: nat)
    requires NoDuplicates(names) && k < |names|
    ensures NoDuplicates(names[..k] + names[k + 1..])
    ensures 0 < k ==> (names[..k] + names[k + 1..])[0] == names[0]
  {
    var r := names[..k] + names[k + 1..];
    forall i, j | 0 <= i < j < |r| ensures r[i] != r[j] {
      var i', j' := if i < k then i else i + 1, if j < k then j else j + 1;
      assert r[i] == names[i'] && r[j] == names[j'];
    }
  }

  /** A roster offered the Start button has three to five distinct names,
      the own name first. */
  lemma StartableRoster(self: string, usernames: seq<string>)
    requires RosterInvariant(self, usernames) && StartShown(usernames)
    ensures 3 <= |usernames| <= 5 && usernames[0] == self
    ensures |set name | name in usernames| == |usernames|
  {
    DistinctCount(usernames);
  }

  /** A sequence without duplicates has as many elements as distinct ones. */
  lemma {:induction false} DistinctCount(names: seq<string>)
    requires NoDuplicates(names)
    ensures |set name | name in names| == |names|
  {
    if names != [] {
      var last, init := names[|names| - 1], names[..|names| - 1];
      assert NoDuplicates(init) by {
        forall i, j | 0 <= i < j < |init| ensures init[i] != init[j] {
          assert init[i] == names[i] && init[j] == names[j];
        }
      }
      DistinctCount(init);
      assert last !in init by {
        forall i | 0 <= i < |init| ensures init[i] != last { assert init[i] == names[i]; }
      }
      assert names == init + [last];
      assert (set name | name in names) == (set name | name in init) + {last};
    }
  }

  /** The component's state: the own username (from the session cookie),
      the text field and the roster. */
  class Roster {
    const self: string
    var username: string
    var usernames: seq<string>

    predicate Valid()
      reads this
    {
      RosterInvariant(self, usernames)
    }

    /** `useState('')` and `useState([cookies.get("username")])`. */
    constructor (self: string)
      ensures this.self == self && username == "" && usernames == [self]
      ensures Valid()
    {
      this.self := self;
      username := "";
      usernames := [self];
    }

    /** The text field's `onChange`. */
    method SetUsername(value: string)
      requires Valid()
      modifies this
      ensures Valid()
      ensures username == value && usernames == old(usernames)
    {
      username := value;
    }

    /** `handleAddUser`, with the lookup's answer given as `lookup`. */
    method AddUser(lookup: Lookup) returns (outcome: AddOutcome)
      requires Valid()
      modifies this
      ensures Valid()
      ensures outcome == AddOutcomeOf(old(usernames), old(username), lookup)
      ensures usernames == AfterAdd(old(usernames), old(username), lookup)
      ensures username == if outcome == Added then "" else old(username)
    {
      AddKeepsInvariant(self, usernames, username, lookup);
      if JsArray.Trim(username) != [] && username !in usernames {
        if |usernames| < MaxPlayers {
          match lookup {
            case NotFound =>
              outcome := UserNotFound;
            case Failed =>
              outcome := LookupError;
            case Found =>
              usernames := usernames + [username];
              username := "";
              outcome := Added;
          }
        } else {
          outcome := TooMany;
        }
      } else {
        outcome := Ignored;
      }
    }

    /** `handleRemoveUser(removeUsername)`: `refused` is the alert for
        removing oneself. */
    method RemoveUser(removeUsername: string) returns (refused: bool)
      requires Valid()
      modifies this
      ensures Valid()
      ensures refused <==> removeUsername == self
      ensures usernames == AfterRemove(self, old(usernames), removeUsername)
      ensures username == old(username)
    {
      RemoveKeepsInvariant(self, usernames, removeUsername);
      if removeUsername == self {
        return true;
      }
      refused := false;
      usernames := JsArray.Without(usernames, removeUsername);
    }
  }
}
