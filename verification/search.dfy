/** The edit search shared by the `correct` functions of utils/checker.js and
    utils/username-checker.js: the existing names one edit away from the misspelt name,
    and, only when there are none, the existing valid names two edits away. */
module Search {
  import opened UsernameRule
  import opened Edits
  import opened Ledger
  import opened Resolver

  /** A name exists when the ledger knows it or the blockchain has the account. */
  ghost predicate Live(users: Users, onChain: string -> bool, x: string) {
    x in users || onChain(x)
  }

  ghost predicate HitAtOne(users: Users, onChain: string -> bool, u: string, x: string) {
    OneEditAway(x, u, Alphabet) && Live(users, onChain, x)
  }

  ghost predicate HitAtTwo(users: Users, onChain: string -> bool, u: string, x: string) {
    !Unallowed(x) && Live(users, onChain, x) && exists e :: OneEditAway(e, u, Alphabet) && OneEditAway(x, e, Alphabet)
  }

  /** `edits1(username, edits, false)`, `getExisting(edits)` and, when nothing was found,
      `getExisting(edits2(edits))`: the ledger afterwards and the names found. */
  function Hits(users: Users, u: string, onChain: string -> bool): (Users, seq<string>) {
    var edits := Edits1([], u, false);
    var first := GetExisting(users, edits, onChain);
    if |first.1| > 0 then first
    else GetExisting(first.0, Edits2(edits), onChain)
  }

  /** The names `getExisting` finds among the one-edit candidates. */
  lemma FirstRoundMembers(users: Users, u: string, onChain: string -> bool)
    ensures forall x :: x in GetExisting(users, Edits1([], u, false), onChain).1 <==> HitAtOne(users, onChain, u, x)
  {
    var edits := Edits1([], u, false);
    Edits1Spec([], u, false);
    GetExistingMembers(users, edits, onChain);
    forall x ensures x in GetExisting(users, edits, onChain).1 <==> HitAtOne(users, onChain, u, x) {
      assert x in edits <==> OneEditAway(x, u, Alphabet);
    }
  }

  /** The names `getExisting` finds among the two-edit candidates built from `cs`, the
      ledger `before` holding the same existing names as `users`. */
  lemma SecondRoundMembersWith(users: Users, before: Users, u: string, onChain: string -> bool, cs: string)
    requires forall x :: Live(before, onChain, x) <==> Live(users, onChain, x)
    ensures forall x :: x in GetExisting(before, Edits2Into([], Edits1With([], u, cs, false), cs), onChain).1 <==>
      !Unallowed(x) && Live(users, onChain, x) && exists e :: OneEditAway(e, u, cs) && OneEditAway(x, e, cs)
  {
    var edits := Edits1With([], u, cs, false);
    var twice := Edits2Into([], edits, cs);
    Edits1WithSpec([], u, cs, false);
    Edits2IntoSpec([], edits, cs);
    GetExistingMembers(before, twice, onChain);
    forall x ensures x in GetExisting(before, twice, onChain).1 <==>
      !Unallowed(x) && Live(users, onChain, x) && exists e :: OneEditAway(e, u, cs) && OneEditAway(x, e, cs)
    {
      if e :| e in edits && OneEditAway(x, e, cs) {
        assert OneEditAway(e, u, cs);
      }
      if e :| OneEditAway(e, u, cs) && OneEditAway(x, e, cs) {
        assert e in edits;
      }
    }
  }

  lemma SecondRoundMembers(users: Users, before: Users, u: string, onChain: string -> bool)
    requires forall x :: Live(before, onChain, x) <==> Live(users, onChain, x)
    ensures forall x :: x in GetExisting(before, Edits2(Edits1([], u, false)), onChain).1 <==> HitAtTwo(users, onChain, u, x)
  {
    SecondRoundMembersWith(users, before, u, onChain, Alphabet);
  }

  /** The names found are the existing names one edit away when there is one, and
      otherwise the existing valid names two edits away. */
  lemma HitsSpec(users: Users, u: string, onChain: string -> bool)
    ensures (exists y :: HitAtOne(users, onChain, u, y)) ==>
      forall x :: x in Hits(users, u, onChain).1 <==> HitAtOne(users, onChain, u, x)
    ensures (forall y :: !HitAtOne(users, onChain, u, y)) ==>
      forall x :: x in Hits(users, u, onChain).1 <==> HitAtTwo(users, onChain, u, x)
  {
    var edits := Edits1([], u, false);
    var first := GetExisting(users, edits, onChain);
    FirstRoundMembers(users, u, onChain);
    if |first.1| == 0 {
      GetExistingMembers(users, edits, onChain);
      forall x ensures Live(first.0, onChain, x) <==> Live(users, onChain, x) {
      }
      SecondRoundMembers(users, first.0, u, onChain);
    } else {
      assert HitAtOne(users, onChain, u, first.1[0]);
    }
  }

  /** The search keeps every record, and adds only accounts found on the blockchain, each
      with a fresh record. */
  lemma HitsLedger(users: Users, u: string, onChain: string -> bool)
    ensures forall k :: k in users ==> k in Hits(users, u, onChain).0 && Hits(users, u, onChain).0[k] == users[k]
    ensures forall k :: k in Hits(users, u, onChain).0 && k !in users ==> onChain(k) && Hits(users, u, onChain).0[k] == NewRecord
    ensures forall x :: x in Hits(users, u, onChain).1 && x != "" ==> x in Hits(users, u, onChain).0
  {
    var edits := Edits1([], u, false);
    var first := GetExisting(users, edits, onChain);
    GetExistingMembers(users, edits, onChain);
    if |first.1| == 0 {
      GetExistingMembers(first.0, Edits2(edits), onChain);
    }
  }
}
