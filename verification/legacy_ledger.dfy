/** The ledger functions of the oldest checker (username-checker.js) where their code
    differs from the newer one: `_.union` for `addIgnored`, `_.pullAll` for
    `removeIgnored`, and an `addUsers` that looks records up by truthiness and does not
    flatten an array argument. Each is related to its `Ledger` counterpart. */
module LegacyLedger {
  import opened JsText
  import opened Helper
  import opened Ledger

  /** `_.union(xs, ys)`: the distinct elements of both arrays, in order of first occurrence. */
  function Union(xs: seq<string>, ys: seq<string>): seq<string> {
    PushAll([], xs + ys)
  }

  /** `_.union` and `merge` agree on every pair of arrays: both start from an empty array,
      so both also drop duplicates already present in the first one. */
  lemma UnionIsMerge(xs: seq<string>, ys: seq<string>)
    ensures Union(xs, ys) == Merge([xs, ys])
    ensures NoDup(Union(xs, ys))
    ensures forall x :: x in Union(xs, ys) <==> x in xs || x in ys
  {
    MergeIntoIsPushAll([], [xs, ys]);
    assert [xs, ys][1..] == [ys];
    assert [ys][1..] == [];
    assert Flatten([ys]) == ys + [] == ys;
    assert Flatten([xs, ys]) == xs + Flatten([ys]);
  }

  /** A duplicate in the old list is collapsed by the union. */
  lemma UnionCollapses()
    ensures Union(["a", "a"], []) == ["a"]
  {
    assert ["a", "a"] + [] == ["a", "a"];
    assert Push([], "a") == ["a"];
    assert ["a", "a"][1..] == ["a"];
  }

  /** `addIgnored(author, usernames)` of the oldest checker. */
  function LegacyAddIgnored(users: Users, author: string, names: seq<string>): Users
    requires author in users
  {
    users[author := users[author].(ignored := Union(users[author].ignored, names))]
  }

  /** The result holds exactly the old and the new names, each once, whatever the old
      list held; nothing else changes, and it is the newer `addIgnored`. */
  lemma LegacyAddIgnoredSpec(users: Users, author: string, names: seq<string>)
    requires author in users
    ensures LegacyAddIgnored(users, author, names) == AddIgnored(users, author, names)
    ensures LegacyAddIgnored(users, author, names).Keys == users.Keys
    ensures forall k :: k in users && k != author ==> LegacyAddIgnored(users, author, names)[k] == users[k]
    ensures var before := users[author]; var rec := LegacyAddIgnored(users, author, names)[author];
      && rec == before.(ignored := rec.ignored)
      && NoDup(rec.ignored)
      && (forall x :: x in rec.ignored <==> x in before.ignored || x in names)
  {
    UnionIsMerge(users[author].ignored, names);
  }

  /** `_.pullAll(ignored, mentions)`: for each value in turn, every occurrence is spliced out. */
  function LegacyRemoveIgnored(users: Users, author: string, names: seq<string>): Users
    requires author in users
  {
    users[author := users[author].(ignored := PullEach(users[author].ignored, names))]
  }

  /** Splicing the values out one by one is the newer `filter`. */
  lemma LegacyRemoveIgnoredSpec(users: Users, author: string, names: seq<string>)
    requires author in users
    ensures LegacyRemoveIgnored(users, author, names) == RemoveIgnored(users, author, names)
    ensures forall x :: x in LegacyRemoveIgnored(users, author, names)[author].ignored <==>
      x in users[author].ignored && x !in names
  {
    PullEachIsWithout(users[author].ignored, names);
    WithoutSpec(users[author].ignored, names);
  }

  /** An argument of the oldest `addUsers`: a name, or an array passed where a name is
      expected. */
  datatype Arg = Name(name: string) | List(names: seq<string>)

  /** The property key an argument is looked up and stored under: an array converts to
      its elements joined with commas. */
  function Key(a: Arg): string {
    match a
    case Name(n) => n
    case List(ns) => Join(ns, ",")
  }

  /** The `forEach` of the oldest `addUsers`. `username !== ''` holds for every array,
      and a record object is always truthy, so `!users[username]` is "no record". */
  function LegacyRegister(users: Users, args: seq<Arg>): Users
    decreases |args|
  {
    if |args| == 0 then users
    else
      var a := args[0];
      LegacyRegister(if a != Name("") && Key(a) !in users then users[Key(a) := NewRecord] else users, args[1..])
  }

  /** `addUsers(origin, ...usernames)` of the oldest checker. */
  function LegacyAddUsers(users: Users, origin: string, args: seq<Arg>): Users {
    LegacyRegister(LegacyRegister(users, if origin != "" then [Name(origin)] else []), args)
  }

  function Names(ns: seq<string>): seq<Arg> {
    seq(|ns|, i requires 0 <= i < |ns| => Name(ns[i]))
  }

  lemma {:induction false} LegacyRegisterNames(users: Users, ns: seq<string>)
    ensures LegacyRegister(users, Names(ns)) == RegisterAll(users, ns)
    decreases |ns|
  {
    if |ns| > 0 {
      assert Names(ns)[0] == Name(ns[0]);
      assert Names(ns)[1..] == Names(ns[1..]);
      var next := if ns[0] != "" && ns[0] !in users then users[ns[0] := NewRecord] else users;
      LegacyRegisterNames(next, ns[1..]);
    }
  }

  /** Called with names only, the oldest `addUsers` is the newer one. */
  lemma LegacyAddUsersNames(users: Users, origin: string, ns: seq<string>)
    ensures LegacyAddUsers(users, origin, Names(ns)) == AddUsers(users, origin, ns)
  {
    var o := if origin != "" then [origin] else [];
    assert Names(o) == if origin != "" then [Name(origin)] else [];
    LegacyRegisterNames(users, o);
    LegacyRegisterNames(RegisterAll(users, o), ns);
  }

  /** Called with an array, the oldest `addUsers` registers the comma-joined text as one
      name, and an empty array registers the empty name; the newer one flattens the array. */
  lemma LegacyAddUsersArray()
    ensures LegacyAddUsers(map[], "", [List(["ab", "cd"])]) == map["ab,cd" := NewRecord]
    ensures LegacyAddUsers(map[], "", [List([])]) == map["" := NewRecord]
    ensures AddUsers(map[], "", ["ab", "cd"]) == map["ab" := NewRecord, "cd" := NewRecord]
  {
    assert Join(["ab", "cd"], ",") == "ab,cd" by {
      assert ["ab", "cd"][1..] == ["cd"];
    }
    assert [List(["ab", "cd"])][1..] == [];
    assert [List([])][1..] == [];
    assert ["ab", "cd"][1..] == ["cd"];
    assert ["cd"][1..] == [];
  }
}
