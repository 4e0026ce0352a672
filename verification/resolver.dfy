/** Resolving candidate names to existing accounts: `getExisting` and `exists` of
    utils/checker.js (sequential chunked lookups) and of utils/username-checker.js
    (`getDiscovered` per chunk, retried after every network error). Names already in the
    ledger are taken as existing; the others are looked up on the blockchain, which is
    the oracle `onChain`, and the accounts found are registered. */
module Resolver {
  import opened Helper
  import opened Ledger

  /** The size of the slices sent to `lookupAccountNames`. */
  const ChunkSize: nat := 10000

  /** `lookupAccountNames(chunk)`: the blockchain answers one entry per requested name,
      `null` for a missing account; the non-null entries are kept, in request order. */
  function Lookup(chunk: seq<string>, onChain: string -> bool): (r: seq<string>)
    ensures forall x :: x in r <==> x in chunk && onChain(x)
    ensures |r| <= |chunk|
    decreases |chunk|
  {
    if |chunk| == 0 then []
    else (if onChain(chunk[0]) then [chunk[0]] else []) + Lookup(chunk[1..], onChain)
  }

  /** The names that already have a record, in order (`existing` before any lookup). */
  function Known(users: Users, names: seq<string>): (r: seq<string>)
    ensures forall x :: x in r <==> x in names && x in users
    decreases |names|
  {
    if |names| == 0 then []
    else (if names[0] in users then [names[0]] else []) + Known(users, names[1..])
  }

  /** The names without a record, in order (`toCheck`). */
  function Unknown(users: Users, names: seq<string>): (r: seq<string>)
    ensures forall x :: x in r <==> x in names && x !in users
    decreases |names|
  {
    if |names| == 0 then []
    else (if names[0] !in users then [names[0]] else []) + Unknown(users, names[1..])
  }

  function Min(a: int, b: int): int {
    if a < b then a else b
  }

  /** `toCheck.slice(i, i + 10000)` */
  function Chunk(toCheck: seq<string>, i: nat): seq<string>
    requires i < |toCheck|
  {
    toCheck[i..Min(i + ChunkSize, |toCheck|)]
  }

  /** The names from position `i` on (empty once the loop has passed the end). */
  function From(toCheck: seq<string>, i: nat): seq<string> {
    if i < |toCheck| then toCheck[i..] else []
  }

  /** The lookup loop of `getExisting` in utils/checker.js from index `i`: each chunk is
      looked up, its accounts appended to `existing` and registered. */
  function DiscoverFrom(users: Users, existing: seq<string>, toCheck: seq<string>, i: nat, onChain: string -> bool): (Users, seq<string>)
    decreases |toCheck| - i
  {
    if i >= |toCheck| then (users, existing)
    else
      var discovered := Lookup(Chunk(toCheck, i), onChain);
      DiscoverFrom(AddUsers(users, "", discovered), existing + discovered, toCheck, i + ChunkSize, onChain)
  }

  /** `getExisting(usernames)` of utils/checker.js: the ledger afterwards and the names found. */
  function GetExisting(users: Users, names: seq<string>, onChain: string -> bool): (Users, seq<string>) {
    var toCheck := Unknown(users, names);
    if |toCheck| == 0 then (users, names)
    else DiscoverFrom(users, Known(users, names), toCheck, 0, onChain)
  }

  lemma {:induction false} LookupAppend(a: seq<string>, b: seq<string>, onChain: string -> bool)
    ensures Lookup(a + b, onChain) == Lookup(a, onChain) + Lookup(b, onChain)
    decreases |a|
  {
    if |a| == 0 {
      assert a + b == b;
    } else {
      assert (a + b)[0] == a[0];
      assert (a + b)[1..] == a[1..] + b;
      LookupAppend(a[1..], b, onChain);
    }
  }

  lemma {:induction false} RegisterAllAppend(users: Users, a: seq<string>, b: seq<string>)
    ensures RegisterAll(RegisterAll(users, a), b) == RegisterAll(users, a + b)
    decreases |a|
  {
    if |a| == 0 {
      assert a + b == b;
    } else {
      assert (a + b)[0] == a[0];
      assert (a + b)[1..] == a[1..] + b;
      var n := a[0];
      RegisterAllAppend(if n != "" && n !in users then users[n := NewRecord] else users, a[1..], b);
    }
  }

  /** Registering two lists one after the other is registering their concatenation. */
  lemma AddUsersAppend(users: Users, a: seq<string>, b: seq<string>)
    ensures AddUsers(AddUsers(users, "", a), "", b) == AddUsers(users, "", a + b)
  {
    RegisterAllAppend(users, a, b);
  }

  /** With no name left to check, the known names are all the names. */
  lemma {:induction false} KnownWhenNoneUnknown(users: Users, names: seq<string>)
    requires |Unknown(users, names)| == 0
    ensures Known(users, names) == names
    decreases |names|
  {
    if |names| > 0 {
      assert names[0] in users;
      KnownWhenNoneUnknown(users, names[1..]);
      assert names == [names[0]] + names[1..];
    }
  }

  /** Looking the remaining names up chunk by chunk is looking them all up at once. */
  lemma {:induction false} DiscoverFromSpec(users: Users, existing: seq<string>, toCheck: seq<string>, i: nat, onChain: string -> bool)
    ensures DiscoverFrom(users, existing, toCheck, i, onChain)
      == (AddUsers(users, "", Lookup(From(toCheck, i), onChain)), existing + Lookup(From(toCheck, i), onChain))
    decreases |toCheck| - i
  {
    if i >= |toCheck| {
      assert existing + [] == existing;
    } else {
      var chunk := Chunk(toCheck, i);
      var discovered := Lookup(chunk, onChain);
      var rest := From(toCheck, i + ChunkSize);
      assert toCheck[i..] == chunk + rest;
      LookupAppend(chunk, rest, onChain);
      DiscoverFromSpec(AddUsers(users, "", discovered), existing + discovered, toCheck, i + ChunkSize, onChain);
      AddUsersAppend(users, discovered, Lookup(rest, onChain));
      assert existing + discovered + Lookup(rest, onChain) == existing + (discovered + Lookup(rest, onChain));
    }
  }

  /** `getExisting` returns the known names followed by the unknown names that are
      accounts, whatever the chunking, and registers exactly those accounts. */
  lemma GetExistingSpec(users: Users, names: seq<string>, onChain: string -> bool)
    ensures GetExisting(users, names, onChain).1
      == Known(users, names) + Lookup(Unknown(users, names), onChain)
    ensures GetExisting(users, names, onChain).0
      == AddUsers(users, "", Lookup(Unknown(users, names), onChain))
  {
    var toCheck := Unknown(users, names);
    if |toCheck| == 0 {
      KnownWhenNoneUnknown(users, names);
      assert Lookup(toCheck, onChain) == [];
      assert names + [] == names;
    } else {
      DiscoverFromSpec(users, Known(users, names), toCheck, 0, onChain);
      assert From(toCheck, 0) == toCheck;
    }
  }

  /** A name is returned exactly when it is known or is an account; every returned name
      except `''` (which `addUsers` skips) has a record afterwards; the ledger only grows,
      and only by accounts. */
  lemma GetExistingMembers(users: Users, names: seq<string>, onChain: string -> bool)
    ensures forall x :: x in GetExisting(users, names, onChain).1 <==> x in names && (x in users || onChain(x))
    ensures forall x :: x in GetExisting(users, names, onChain).1 && x != "" ==> x in GetExisting(users, names, onChain).0
    ensures forall k :: k in users ==> k in GetExisting(users, names, onChain).0 && GetExisting(users, names, onChain).0[k] == users[k]
    ensures forall k :: k in GetExisting(users, names, onChain).0 && k !in users ==>
      k in names && onChain(k) && GetExisting(users, names, onChain).0[k] == NewRecord
  {
    GetExistingSpec(users, names, onChain);
    AddUsersSpec(users, "", Lookup(Unknown(users, names), onChain));
  }

  /** With every name known, nothing is looked up and the names come back as they were. */
  lemma GetExistingAllKnown(users: Users, names: seq<string>, onChain: string -> bool)
    requires forall x :: x in names ==> x in users
    ensures GetExisting(users, names, onChain) == (users, names)
  {
    if |Unknown(users, names)| > 0 {
      assert Unknown(users, names)[0] in Unknown(users, names);
    }
  }

  /** `exists(username)` of utils/checker.js: `getExisting([username])` has one element. */
  function Exists(users: Users, name: string, onChain: string -> bool): (r: (Users, bool))
    ensures r.1 <==> name in users || onChain(name)
    ensures r.0 == if name !in users && onChain(name) then AddUsers(users, "", [name]) else users
  {
    GetExistingSpec(users, [name], onChain);
    assert [name][1..] == [];
    var res := GetExisting(users, [name], onChain);
    (res.0, |res.1| == 1)
  }

  /** The state of a promise the model follows: settled with a value, or still pending. */
  datatype Settled<T> = Settled(value: T) | Pending

  /** `getDiscovered(usernames)` of utils/username-checker.js. `attempts` lists the outcome
      of the successive `lookupAccountNames` calls, `true` for a network error; an error
      leads to a new call, and the promise stays pending while every call fails. */
  function GetDiscovered(users: Users, chunk: seq<string>, onChain: string -> bool, attempts: seq<bool>): Settled<(Users, seq<string>)>
    decreases |attempts|
  {
    if |attempts| == 0 then Pending
    else if attempts[0] then GetDiscovered(users, chunk, onChain, attempts[1..])
    else
      var discovered := Lookup(chunk, onChain);
      Settled((AddUsers(users, "", discovered), discovered))
  }

  /** Retrying changes nothing but the time taken: the promise settles as soon as one call
      succeeds, with the accounts of the chunk, registered. */
  lemma {:induction false} GetDiscoveredSpec(users: Users, chunk: seq<string>, onChain: string -> bool, attempts: seq<bool>)
    ensures GetDiscovered(users, chunk, onChain, attempts).Settled? <==> false in attempts
    ensures GetDiscovered(users, chunk, onChain, attempts).Settled? ==>
      GetDiscovered(users, chunk, onChain, attempts).value
        == (AddUsers(users, "", Lookup(chunk, onChain)), Lookup(chunk, onChain))
    decreases |attempts|
  {
    if |attempts| > 0 {
      GetDiscoveredSpec(users, chunk, onChain, attempts[1..]);
      assert false in attempts <==> !attempts[0] || false in attempts[1..];
    }
  }

  /** The chunks of utils/username-checker.js's `getExisting` from index `i` on; `net[k]`
      lists the attempts of the `k`-th remaining chunk. The chunks' results are gathered in
      chunk order, as `Promise.all` does. */
  function GatherFrom(users: Users, existing: seq<string>, toCheck: seq<string>, i: nat, onChain: string -> bool, net: seq<seq<bool>>): Settled<(Users, seq<string>)>
    decreases |toCheck| - i
  {
    if i >= |toCheck| then Settled((users, existing))
    else if |net| == 0 then Pending
    else
      match GetDiscovered(users, Chunk(toCheck, i), onChain, net[0])
      case Pending => Pending
      case Settled((after, discovered)) =>
        GatherFrom(after, existing + discovered, toCheck, i + ChunkSize, onChain, net[1..])
  }

  /** `getExisting(usernames)` of utils/username-checker.js. */
  function GetExistingRetrying(users: Users, names: seq<string>, onChain: string -> bool, net: seq<seq<bool>>): Settled<(Users, seq<string>)> {
    var toCheck := Unknown(users, names);
    if |toCheck| == 0 then Settled((users, names))
    else GatherFrom(users, Known(users, names), toCheck, 0, onChain, net)
  }

  /** Every remaining chunk has a call that succeeds. */
  predicate EachEventuallySucceeds(net: seq<seq<bool>>) {
    forall k :: 0 <= k < |net| ==> false in net[k]
  }

  lemma {:induction false} GatherFromSpec(users: Users, existing: seq<string>, toCheck: seq<string>, i: nat, onChain: string -> bool, net: seq<seq<bool>>)
    ensures GatherFrom(users, existing, toCheck, i, onChain, net).Settled? ==>
      GatherFrom(users, existing, toCheck, i, onChain, net).value == DiscoverFrom(users, existing, toCheck, i, onChain)
    ensures EachEventuallySucceeds(net) && i + |net| * ChunkSize >= |toCheck| ==>
      GatherFrom(users, existing, toCheck, i, onChain, net).Settled?
    decreases |toCheck| - i
  {
    if i < |toCheck| && |net| > 0 {
      var chunk := Chunk(toCheck, i);
      GetDiscoveredSpec(users, chunk, onChain, net[0]);
      var discovered := Lookup(chunk, onChain);
      GatherFromSpec(AddUsers(users, "", discovered), existing + discovered, toCheck, i + ChunkSize, onChain, net[1..]);
      if EachEventuallySucceeds(net) {
        assert net[0] == net[0];
        assert forall k :: 0 <= k < |net[1..]| ==> net[1..][k] == net[k + 1];
      }
    }
  }

  /** The retrying `getExisting` of utils/username-checker.js, once settled, returns what
      the sequential one of utils/checker.js returns and leaves the same ledger; it
      settles when every chunk has a call that succeeds. */
  lemma GetExistingRetryingSpec(users: Users, names: seq<string>, onChain: string -> bool, net: seq<seq<bool>>)
    ensures GetExistingRetrying(users, names, onChain, net).Settled? ==>
      GetExistingRetrying(users, names, onChain, net).value == GetExisting(users, names, onChain)
    ensures EachEventuallySucceeds(net) && |net| * ChunkSize >= |names| ==>
      GetExistingRetrying(users, names, onChain, net).Settled?
  {
    var toCheck := Unknown(users, names);
    if |toCheck| > 0 {
      GatherFromSpec(users, Known(users, names), toCheck, 0, onChain, net);
      UnknownLength(users, names);
    }
  }

  lemma {:induction false} UnknownLength(users: Users, names: seq<string>)
    ensures |Unknown(users, names)| <= |names|
    decreases |names|
  {
    if |names| > 0 {
      UnknownLength(users, names[1..]);
    }
  }

  /** A lookup of one name needs only the first chunk's calls to succeed. */
  lemma SingleNameSettles(users: Users, name: string, onChain: string -> bool, net: seq<seq<bool>>)
    ensures |net| > 0 && false in net[0] ==> GetExistingRetrying(users, [name], onChain, net).Settled?
  {
    assert [name][1..] == [];
    if name in users {
      assert Unknown(users, [name]) == [];
    } else if |net| > 0 {
      assert Unknown(users, [name]) == [name];
      assert Chunk([name], 0) == [name];
      GetDiscoveredSpec(users, [name], onChain, net[0]);
      if false in net[0] {
        var discovered := Lookup([name], onChain);
        var after := AddUsers(users, "", discovered);
        assert GatherFrom(after, Known(users, [name]) + discovered, [name], ChunkSize, onChain, net[1..]).Settled?;
        assert GatherFrom(users, Known(users, [name]), [name], 0, onChain, net).Settled?;
        assert GetExistingRetrying(users, [name], onChain, net) == GatherFrom(users, Known(users, [name]), [name], 0, onChain, net);
      }
    }
  }

  /** `exists(username)` of utils/username-checker.js. */
  function ExistsRetrying(users: Users, name: string, onChain: string -> bool, net: seq<seq<bool>>): (r: Settled<(Users, bool)>)
    ensures r.Settled? ==> r.value == Exists(users, name, onChain)
    ensures |net| > 0 && false in net[0] ==> r.Settled?
  {
    GetExistingRetryingSpec(users, [name], onChain, net);
    SingleNameSettles(users, name, onChain, net);
    match GetExistingRetrying(users, [name], onChain, net)
    case Pending => Pending
    case Settled((after, found)) => Settled((after, |found| == 1))
  }
}
