/** The username ledger of the checker modules (utils/checker.js, utils/username-checker.js
    and username-checker.js): the `users` object, mapping every account name met so far to
    its record, and the small functions that update it. The oldest checker calls the
    counter `occurrences`; it is `occ` here. Where that checker's code differs, the
    `LegacyLedger` module relates its version to the one here. */
module Ledger {
  import opened JsText
  import opened Helper

  datatype Mode = Regular | Advanced | Off

  datatype Record = Record(mode: Mode, ignored: seq<string>, delay: nat, occ: nat, mentioned: seq<string>)

  /** `{ mode: 'regular', ignored: [], delay: 0, occ: 0, mentioned: [] }` */
  const NewRecord := Record(Regular, [], 0, 0, [])

  type Users = map<string, Record>

  /** The `forEach` of `addUsers`: a name gets a fresh record unless it is empty or known. */
  function RegisterAll(users: Users, names: seq<string>): Users
    decreases |names|
  {
    if |names| == 0 then users
    else
      var n := names[0];
      RegisterAll(if n != "" && n !in users then users[n := NewRecord] else users, names[1..])
  }

  /** `addUsers(origin, ...usernames)`: a non-empty origin (`null` is written `""` here) is
      registered first, then the names. */
  function AddUsers(users: Users, origin: string, names: seq<string>): Users {
    RegisterAll(RegisterAll(users, if origin != "" then [origin] else []), names)
  }

  /** What registering `names` amounts to: the known records untouched, and a fresh record
      for each new non-empty name. */
  function Registered(users: Users, names: seq<string>): Users {
    users + map n | n in names && n != "" && n !in users :: NewRecord
  }

  lemma {:induction false} RegisterAllSpec(users: Users, names: seq<string>)
    ensures RegisterAll(users, names) == Registered(users, names)
    decreases |names|
  {
    if |names| > 0 {
      var n := names[0];
      var next := if n != "" && n !in users then users[n := NewRecord] else users;
      RegisterAllSpec(next, names[1..]);
      RegisteredStep(users, names);
    }
  }

  /** Registering the first name and then the rest amounts to registering them all. */
  lemma RegisteredStep(users: Users, names: seq<string>)
    requires |names| > 0
    ensures var n := names[0];
      Registered(if n != "" && n !in users then users[n := NewRecord] else users, names[1..]) == Registered(users, names)
  {
    if names[0] != "" && names[0] !in users {
      RegisteredAdd(users, names);
    } else {
      RegisteredSkip(users, names);
    }
  }

  lemma RegisteredSkip(users: Users, names: seq<string>)
    requires |names| > 0 && (names[0] == "" || names[0] in users)
    ensures Registered(users, names[1..]) == Registered(users, names)
  {
    var a, b := Registered(users, names[1..]), Registered(users, names);
    forall k ensures k in a <==> k in b {
      assert k in names <==> k == names[0] || k in names[1..];
    }
    assert a.Keys == b.Keys;
  }

  lemma RegisteredAdd(users: Users, names: seq<string>)
    requires |names| > 0 && names[0] != "" && names[0] !in users
    ensures Registered(users[names[0] := NewRecord], names[1..]) == Registered(users, names)
  {
    var a, b := Registered(users[names[0] := NewRecord], names[1..]), Registered(users, names);
    forall k ensures k in a <==> k in b {
      assert k in names <==> k == names[0] || k in names[1..];
    }
    assert a.Keys == b.Keys;
    forall k | k in a ensures a[k] == b[k] {
      if k !in users {
        assert k in names;
      }
    }
  }

  /** `addUsers` never overwrites a record and never adds `''`; it adds exactly the new
      non-empty names among the origin and the others, each with a fresh record. */
  lemma AddUsersSpec(users: Users, origin: string, names: seq<string>)
    ensures forall k :: k in users ==> k in AddUsers(users, origin, names) && AddUsers(users, origin, names)[k] == users[k]
    ensures "" in AddUsers(users, origin, names) ==> "" in users
    ensures forall k :: k in AddUsers(users, origin, names) <==> k in users || (k != "" && (k == origin || k in names))
    ensures forall k :: k in AddUsers(users, origin, names) && k !in users ==> AddUsers(users, origin, names)[k] == NewRecord
  {
    var first := RegisterAll(users, if origin != "" then [origin] else []);
    RegisterAllSpec(users, if origin != "" then [origin] else []);
    RegisterAllSpec(first, names);
  }

  /** Registering the same names again changes nothing. */
  lemma AddUsersIdempotent(users: Users, origin: string, names: seq<string>)
    ensures AddUsers(AddUsers(users, origin, names), origin, names) == AddUsers(users, origin, names)
  {
    var once := AddUsers(users, origin, names);
    AddUsersSpec(users, origin, names);
    AddUsersSpec(once, origin, names);
  }

  /** `addIgnored(author, usernames)`: `ignored` becomes `merge(ignored, usernames)`
      (`_.union` in the oldest checker). The source dereferences `users[author]`. */
  function AddIgnored(users: Users, author: string, names: seq<string>): (r: Users)
    requires author in users
  {
    users[author := users[author].(ignored := Merge([users[author].ignored, names]))]
  }

  /** `ignored` keeps its order and gains the new names once each, in order; nothing else
      in the ledger changes. */
  lemma AddIgnoredSpec(users: Users, author: string, names: seq<string>)
    requires author in users
    requires NoDup(users[author].ignored)
    ensures AddIgnored(users, author, names).Keys == users.Keys
    ensures forall k :: k in users && k != author ==> AddIgnored(users, author, names)[k] == users[k]
    ensures var before := users[author]; var rec := AddIgnored(users, author, names)[author];
      && rec == before.(ignored := rec.ignored)
      && NoDup(rec.ignored)
      && before.ignored <= rec.ignored
      && (forall x :: x in rec.ignored <==> x in before.ignored || x in names)
  {
    MergeTwo(users[author].ignored, names);
  }

  /** `xs.filter(x => !drop.includes(x))` */
  function Without(xs: seq<string>, drop: seq<string>): (r: seq<string>)
    decreases |xs|
  {
    if |xs| == 0 then [] else (if xs[0] in drop then [] else [xs[0]]) + Without(xs[1..], drop)
  }

  lemma WithoutSpec(xs: seq<string>, drop: seq<string>)
    ensures forall x :: x in Without(xs, drop) <==> x in xs && x !in drop
    ensures NoDup(xs) ==> NoDup(Without(xs, drop))
    ensures (forall x :: x in xs ==> x !in drop) ==> Without(xs, drop) == xs
  {
    WithoutMembers(xs, drop);
    if NoDup(xs) {
      WithoutNoDup(xs, drop);
    }
    if forall x :: x in xs ==> x !in drop {
      WithoutNothing(xs, drop);
    }
  }

  lemma {:induction false} WithoutMembers(xs: seq<string>, drop: seq<string>)
    ensures forall x :: x in Without(xs, drop) <==> x in xs && x !in drop
    decreases |xs|
  {
    if |xs| > 0 {
      WithoutMembers(xs[1..], drop);
      assert forall x :: x in xs <==> x == xs[0] || x in xs[1..];
    }
  }

  lemma {:induction false} WithoutNoDup(xs: seq<string>, drop: seq<string>)
    requires NoDup(xs)
    ensures NoDup(Without(xs, drop))
    decreases |xs|
  {
    if |xs| > 0 {
      assert NoDup(xs[1..]);
      WithoutNoDup(xs[1..], drop);
      WithoutMembers(xs[1..], drop);
      assert xs[0] !in xs[1..];
    }
  }

  lemma {:induction false} WithoutNothing(xs: seq<string>, drop: seq<string>)
    requires forall x :: x in xs ==> x !in drop
    ensures Without(xs, drop) == xs
    decreases |xs|
  {
    if |xs| > 0 {
      assert xs[0] in xs;
      assert forall x :: x in xs[1..] ==> x in xs;
      WithoutNothing(xs[1..], drop);
      assert xs == [xs[0]] + xs[1..];
    }
  }

  /** Removal keeps the survivors in order: it distributes over concatenation. */
  lemma {:induction false} WithoutAppend(xs: seq<string>, ys: seq<string>, drop: seq<string>)
    ensures Without(xs + ys, drop) == Without(xs, drop) + Without(ys, drop)
    decreases |xs|
  {
    if |xs| == 0 {
      assert xs + ys == ys;
    } else {
      assert (xs + ys)[0] == xs[0];
      assert (xs + ys)[1..] == xs[1..] + ys;
      WithoutAppend(xs[1..], ys, drop);
    }
  }

  /** Removing the names one at a time (`_.pull` for each, app.js) or all at once
      (`filter`, `_.pullAll`) gives the same list. */
  function PullEach(xs: seq<string>, names: seq<string>): seq<string>
    decreases |names|
  {
    if |names| == 0 then xs else PullEach(Without(xs, [names[0]]), names[1..])
  }

  lemma {:induction false} WithoutTwice(xs: seq<string>, a: seq<string>, b: seq<string>)
    ensures Without(Without(xs, a), b) == Without(xs, a + b)
    decreases |xs|
  {
    if |xs| > 0 {
      var x, rest := xs[0], xs[1..];
      WithoutTwice(rest, a, b);
      assert x in a + b <==> x in a || x in b;
      assert Without(xs, a + b) == (if x in a + b then [] else [x]) + Without(rest, a + b);
      if x in a {
        assert Without(xs, a) == Without(rest, a);
      } else {
        var r := Without(rest, a);
        assert Without(xs, a) == [x] + r;
        assert ([x] + r)[0] == x && ([x] + r)[1..] == r;
        assert Without([x] + r, b) == (if x in b then [] else [x]) + Without(r, b);
      }
    }
  }

  lemma {:induction false} PullEachIsWithout(xs: seq<string>, names: seq<string>)
    ensures PullEach(xs, names) == Without(xs, names)
    decreases |names|
  {
    if |names| > 0 {
      PullEachIsWithout(Without(xs, [names[0]]), names[1..]);
      WithoutTwice(xs, [names[0]], names[1..]);
      assert [names[0]] + names[1..] == names;
    } else {
      WithoutSpec(xs, names);
    }
  }

  /** `removeIgnored(author, mentions)` */
  function RemoveIgnored(users: Users, author: string, names: seq<string>): Users
    requires author in users
  {
    users[author := users[author].(ignored := Without(users[author].ignored, names))]
  }

  /** `removeIgnored` drops exactly the given names from `ignored`, keeps the rest in order
      and changes nothing else; after `addIgnored` of the same names it leaves the list
      as it was, less those names. */
  lemma RemoveIgnoredSpec(users: Users, author: string, names: seq<string>)
    requires author in users
    ensures RemoveIgnored(users, author, names).Keys == users.Keys
    ensures forall k :: k in users && k != author ==> RemoveIgnored(users, author, names)[k] == users[k]
    ensures var before := users[author]; var rec := RemoveIgnored(users, author, names)[author];
      && rec == before.(ignored := rec.ignored)
      && (forall x :: x in rec.ignored <==> x in before.ignored && x !in names)
  {
    WithoutSpec(users[author].ignored, names);
  }

  /** Ignoring names and then un-ignoring them restores `ignored` minus those names. */
  lemma RemoveAfterAdd(users: Users, author: string, names: seq<string>)
    requires author in users
    requires NoDup(users[author].ignored)
    ensures RemoveIgnored(AddIgnored(users, author, names), author, names)[author].ignored
      == Without(users[author].ignored, names)
  {
    WithoutAfterMerge(users[author].ignored, names);
  }

  /** Removing the names just merged in gives the old list less those names. */
  lemma WithoutAfterMerge(xs: seq<string>, names: seq<string>)
    requires NoDup(xs)
    ensures Without(Merge([xs, names]), names) == Without(xs, names)
  {
    var merged := Merge([xs, names]);
    MergeTwo(xs, names);
    var extra := merged[|xs|..];
    assert merged == xs + extra;
    WithoutAppend(xs, extra, names);
    forall x | x in extra ensures x in names {
      var i :| 0 <= i < |extra| && extra[i] == x;
      assert merged[|xs| + i] == x;
    }
    WithoutAllDropped(extra, names);
  }

  lemma {:induction false} WithoutAllDropped(xs: seq<string>, drop: seq<string>)
    requires forall x :: x in xs ==> x in drop
    ensures Without(xs, drop) == []
    decreases |xs|
  {
    if |xs| > 0 {
      WithoutAllDropped(xs[1..], drop);
    }
  }

  /** One pass of the `forEach` of `addMentioned`: the name joins the author's history (once)
      and its own counter goes up. */
  function MentionOne(users: Users, author: string, name: string): Users
    requires author in users && name in users
  {
    var a := users[author];
    var afterPush := users[author := a.(mentioned := Push(a.mentioned, name))];
    afterPush[name := afterPush[name].(occ := afterPush[name].occ + 1)]
  }

  /** `addMentioned(author, usernames)`. The source dereferences `users[author]` and
      `users[username]` for every name. */
  function AddMentioned(users: Users, author: string, names: seq<string>): Users
    requires author in users
    requires forall n :: n in names ==> n in users
    decreases |names|
  {
    if |names| == 0 then users
    else
      var next := MentionOne(users, author, names[0]);
      AddMentioned(next, author, names[1..])
  }

  /** Number of times `x` occurs in `xs`. */
  function Count(xs: seq<string>, x: string): nat {
    multiset(xs)[x]
  }

  lemma MentionOneSpec(users: Users, author: string, name: string)
    requires author in users && name in users
    ensures MentionOne(users, author, name).Keys == users.Keys
    ensures forall k :: k in users ==> MentionOne(users, author, name)[k].occ == users[k].occ + (if k == name then 1 else 0)
    ensures forall k :: k in users ==>
      var rec := MentionOne(users, author, name)[k];
      rec.mode == users[k].mode && rec.ignored == users[k].ignored && rec.delay == users[k].delay
      && rec.mentioned == if k == author then Push(users[k].mentioned, name) else users[k].mentioned
  {
  }

  lemma CountCons(names: seq<string>, k: string)
    requires |names| > 0
    ensures Count(names, k) == (if k == names[0] then 1 else 0) + Count(names[1..], k)
  {
    assert names == [names[0]] + names[1..];
    assert multiset(names) == multiset([names[0]]) + multiset(names[1..]);
  }

  /** `addMentioned` adds to each counter the number of times the name is listed, extends
      the author's history with `PushAll` (so it stays duplicate-free and keeps its order),
      and changes no other field and no set of names. */
  lemma {:induction false} AddMentionedSpec(users: Users, author: string, names: seq<string>)
    requires author in users
    requires forall n :: n in names ==> n in users
    ensures AddMentioned(users, author, names).Keys == users.Keys
    ensures forall k :: k in users ==>
      AddMentioned(users, author, names)[k].occ == users[k].occ + Count(names, k)
    ensures forall k :: k in users ==>
      var rec := AddMentioned(users, author, names)[k];
      rec.mode == users[k].mode && rec.ignored == users[k].ignored && rec.delay == users[k].delay
      && rec.mentioned == if k == author then PushAll(users[k].mentioned, names) else users[k].mentioned
    decreases |names|
  {
    if |names| > 0 {
      var next := MentionOne(users, author, names[0]);
      MentionOneSpec(users, author, names[0]);
      AddMentionedSpec(next, author, names[1..]);
      forall k | k in users ensures AddMentioned(users, author, names)[k].occ == users[k].occ + Count(names, k) {
        CountCons(names, k);
      }
    }
  }

  /** `setDelay(username, delay)`: `NaN` is refused and changes nothing; any number is
      stored as its absolute value in that user's record and nowhere else. */
  function SetDelay(users: Users, name: string, delay: JsNumber): (res: (bool, Users))
    requires name in users
    ensures res.0 <==> delay.Int?
    ensures !res.0 ==> res.1 == users
    ensures res.0 ==> name in res.1 && res.1 == users[name := users[name].(delay := res.1[name].delay)]
    ensures res.0 ==> name in res.1 && res.1[name].delay as int == if delay.value < 0 then -delay.value else delay.value
  {
    match delay
    case NaN => (false, users)
    case Int(v) => (true, users[name := users[name].(delay := if v < 0 then -v else v)])
  }

  /** `setMode(username, mode)`: only that user's mode changes. */
  function SetMode(users: Users, name: string, mode: Mode): (r: Users)
    requires name in users
    ensures r.Keys == users.Keys
    ensures r[name].mode == mode
    ensures forall k :: k in users && k != name ==> r[k] == users[k]
    ensures r[name] == users[name].(mode := r[name].mode)
  {
    users[name := users[name].(mode := mode)]
  }
}
