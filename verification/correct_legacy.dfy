/** `correct(username, author, otherMentions)` of the oldest checker (username-checker.js):
    existence is the ledger's `isKnown` alone, `the` + the name is tried before the edit
    search, the edits come from the list-based generators, and a single hit is returned
    from the promise executor instead of being passed to `resolve`, so that promise never
    settles. The executor is synchronous: an exception rejects the promise. */
module LegacyCorrect {
  import opened Helper
  import opened Ledger
  import opened Resolver
  import opened Ranking
  import opened Edits
  import opened LegacyEdits
  import CheckerCorrect

  /** `edits1(username)` filtered by `isKnown`, and, when that is empty,
      `edits2(edits)` filtered by `isKnown`. */
  function Hits(users: Users, u: string): seq<string> {
    var edits := LegacyEdits1(u);
    var first := Known(users, edits);
    if |first| > 0 then first else Known(users, LegacyEdits2(edits))
  }

  /** `correct`: how the returned promise ends. The ledger is only read. */
  function Correct(users: Users, u: string, author: string, others: seq<string>): Outcome {
    var mentions := WithAuthor(author, others);
    var variant := Find(mentions, CheckerCorrect.VariantTest(u));
    if Truthy(variant) then Resolved(Some(variant.value))
    else if "the" + u in users then Resolved(Some("the" + u))
    else Guess(users, u, author, mentions)
  }

  /** The edit search of `correct` and the choice among its hits. */
  function Guess(users: Users, u: string, author: string, mentions: seq<string>): Outcome {
    var hits := Hits(users, u);
    if |hits| == 0 then Resolved(None)
    else if |hits| == 1 then NeverSettles
    else if author !in users && hits[0] !in mentions then Rejected
    else
      var preferred := Find(hits, CheckerCorrect.PreferredTest(users, author, mentions));
      if Truthy(preferred) then Resolved(Some(preferred.value))
      else Resolved(Some(SortDesc(hits, CheckerCorrect.Occ(users))[0]))
  }

  ghost predicate KnownAtOne(users: Users, u: string, x: string) {
    x in users && OneEditAway(x, u, Alphabet)
  }

  ghost predicate KnownAtTwo(users: Users, u: string, x: string) {
    x in users && exists e :: OneEditAway(e, u, Alphabet) && OneEditAway(x, e, Alphabet)
  }

  lemma {:induction false} KnownNoDup(users: Users, xs: seq<string>)
    requires NoDup(xs)
    ensures NoDup(Known(users, xs))
    decreases |xs|
  {
    if |xs| > 0 {
      KnownNoDup(users, xs[1..]);
      assert xs[0] !in xs[1..] by {
        forall k | 0 <= k < |xs[1..]| ensures xs[1..][k] != xs[0] {
          assert xs[1..][k] == xs[k + 1];
        }
      }
      assert xs[0] !in Known(users, xs[1..]);
    }
  }

  /** The known names among the two-edit candidates, for any alphabet `cs`. */
  lemma SecondRoundWith(users: Users, u: string, cs: string, edits: seq<string>, twice: seq<string>)
    requires forall x :: x in edits <==> OneEditAway(x, u, cs)
    requires forall x :: x in twice <==> exists e :: e in edits && OneEditAway(x, e, cs)
    ensures forall x :: x in Known(users, twice) <==>
      x in users && exists e :: OneEditAway(e, u, cs) && OneEditAway(x, e, cs)
  {
    forall x ensures x in Known(users, twice) <==>
      x in users && exists e :: OneEditAway(e, u, cs) && OneEditAway(x, e, cs)
    {
      if e :| e in edits && OneEditAway(x, e, cs) {
        assert OneEditAway(e, u, cs);
      }
      if e :| OneEditAway(e, u, cs) && OneEditAway(x, e, cs) {
        assert e in edits;
      }
    }
  }

  lemma SecondRound(users: Users, u: string)
    ensures forall x :: x in Known(users, LegacyEdits2(LegacyEdits1(u))) <==> KnownAtTwo(users, u, x)
  {
    var edits := LegacyEdits1(u);
    LegacyEdits1Spec(u);
    LegacyEdits2Spec(edits);
    SecondRoundWith(users, u, Alphabet, edits, LegacyEdits2(edits));
  }

  /** The hits hold no name twice and are the known names one edit away when there is
      one, and otherwise the known names two edits away (valid or not). */
  lemma HitsSpec(users: Users, u: string)
    ensures NoDup(Hits(users, u))
    ensures (exists y :: KnownAtOne(users, u, y)) ==>
      forall x :: x in Hits(users, u) <==> KnownAtOne(users, u, x)
    ensures (forall y :: !KnownAtOne(users, u, y)) ==>
      forall x :: x in Hits(users, u) <==> KnownAtTwo(users, u, x)
  {
    var edits := LegacyEdits1(u);
    LegacyEdits1Spec(u);
    LegacyEdits2Spec(edits);
    KnownNoDup(users, edits);
    KnownNoDup(users, LegacyEdits2(edits));
    var first := Known(users, edits);
    assert forall x :: x in first <==> KnownAtOne(users, u, x);
    if |first| == 0 {
      SecondRound(users, u);
    } else {
      assert KnownAtOne(users, u, first[0]);
    }
  }

  /** The hits are one list entry exactly when they are one name. */
  lemma SingleHit(users: Users, u: string)
    ensures |Hits(users, u)| == 1 <==>
      |Hits(users, u)| > 0 && forall x, y :: x in Hits(users, u) && y in Hits(users, u) ==> x == y
  {
    HitsSpec(users, u);
    SingletonWhenDistinct(Hits(users, u));
  }

  /** A duplicate-free sequence has one element exactly when all its elements are equal. */
  lemma SingletonWhenDistinct(xs: seq<string>)
    requires NoDup(xs)
    ensures |xs| == 1 <==> |xs| > 0 && forall x, y :: x in xs && y in xs ==> x == y
  {
    if |xs| > 1 {
      assert xs[0] in xs && xs[1] in xs;
    }
  }

  /** The choice step: no hit gives `null`, a single one leaves the promise pending,
      and any reply is one of the hits. */
  lemma GuessShape(users: Users, u: string, author: string, mentions: seq<string>)
    ensures Guess(users, u, author, mentions) == Resolved(None) <==> |Hits(users, u)| == 0
    ensures Guess(users, u, author, mentions) == NeverSettles <==> |Hits(users, u)| == 1
    ensures var out := Guess(users, u, author, mentions);
      out.Resolved? && out.reply.Some? ==> out.reply.value in Hits(users, u)
  {
    GuessReplyHit(users, u, author, mentions);
  }

  lemma GuessReplyHit(users: Users, u: string, author: string, mentions: seq<string>)
    ensures var out := Guess(users, u, author, mentions);
      out.Resolved? && out.reply.Some? ==> out.reply.value in Hits(users, u)
  {
    var hits := Hits(users, u);
    if |hits| > 1 {
      SortDescFirstIn(hits, CheckerCorrect.Occ(users));
      FindIn(hits, CheckerCorrect.PreferredTest(users, author, mentions));
    }
  }

  /** The search finds nothing exactly when no known name is one or two edits away. */
  lemma NoHits(users: Users, u: string)
    ensures |Hits(users, u)| == 0 <==>
      (forall y :: !KnownAtOne(users, u, y)) && (forall y :: !KnownAtTwo(users, u, y))
  {
    HitsSpec(users, u);
    var hits := Hits(users, u);
    if |hits| > 0 {
      if forall y :: !KnownAtOne(users, u, y) {
        assert KnownAtTwo(users, u, hits[0]);
      } else {
        assert KnownAtOne(users, u, hits[0]);
      }
    }
  }

  /** A hit is a known name one edit away, or two edits away when none is at one. */
  lemma HitKinds(users: Users, u: string, h: string)
    requires h in Hits(users, u)
    ensures h in users
    ensures KnownAtOne(users, u, h) || ((forall y :: !KnownAtOne(users, u, y)) && KnownAtTwo(users, u, h))
  {
    HitsSpec(users, u);
  }

  /** The ladder of the oldest checker: a matching mention (the author first); else
      `the` + the name if the ledger knows it; else the known names one edit away, or
      else two edits away: none gives `null`, a single one leaves the promise pending,
      several give the first one mentioned in the post or earlier by the author, else the
      first one of highest count. */
  lemma CorrectLadder(users: Users, u: string, author: string, others: seq<string>)
    ensures var mentions := WithAuthor(author, others);
      Correct(users, u, author, others) == Resolved(None) <==>
        CheckerCorrect.NoVariant(u, mentions) && "the" + u !in users
        && (forall y :: !KnownAtOne(users, u, y)) && (forall y :: !KnownAtTwo(users, u, y))
    ensures var mentions := WithAuthor(author, others);
      Correct(users, u, author, others) == NeverSettles <==>
        CheckerCorrect.NoVariant(u, mentions) && "the" + u !in users
        && |Hits(users, u)| > 0 && forall x, y :: x in Hits(users, u) && y in Hits(users, u) ==> x == y
    ensures var mentions := WithAuthor(author, others);
      var out := Correct(users, u, author, others);
      out.Resolved? && out.reply.Some? ==>
        (var i := FindIndex(mentions, CheckerCorrect.VariantTest(u));
           i < |mentions| && mentions[i] != "" && out.reply.value == mentions[i])
        || (CheckerCorrect.NoVariant(u, mentions) && "the" + u in users && out.reply.value == "the" + u)
        || (CheckerCorrect.NoVariant(u, mentions) && "the" + u !in users && out.reply.value in users
            && (KnownAtOne(users, u, out.reply.value)
                || ((forall y :: !KnownAtOne(users, u, y)) && KnownAtTwo(users, u, out.reply.value))))
    ensures var mentions := WithAuthor(author, others);
      var i := FindIndex(mentions, CheckerCorrect.VariantTest(u));
      i < |mentions| && mentions[i] != "" ==> Correct(users, u, author, others) == Resolved(Some(mentions[i]))
  {
    var mentions := WithAuthor(author, others);
    if CheckerCorrect.NoVariant(u, mentions) && "the" + u !in users {
      assert Correct(users, u, author, others) == Guess(users, u, author, mentions);
      GuessShape(users, u, author, mentions);
      NoHits(users, u);
      SingleHit(users, u);
      var out := Guess(users, u, author, mentions);
      if out.Resolved? && out.reply.Some? {
        HitKinds(users, u, out.reply.value);
      }
    }
  }

  /** A non-empty author who is not among the other mentions and matches the misspelt name
      is the suggestion, ahead of any matching mention. */
  lemma AuthorWins(users: Users, u: string, author: string, others: seq<string>)
    ensures author != "" && author !in others && PunctMatch(u, author) ==>
      Correct(users, u, author, others) == Resolved(Some(author))
  {
    AuthorFoundFirst(author, others, CheckerCorrect.VariantTest(u));
  }

  /** With several hits and the author's record present, nothing throws, and when no hit
      is mentioned the first hit of highest count is returned. */
  lemma CorrectMostMentioned(users: Users, u: string, author: string, others: seq<string>)
    requires author in users
    requires CheckerCorrect.NoVariant(u, WithAuthor(author, others)) && "the" + u !in users
    requires |Hits(users, u)| > 1
    requires forall h :: h in Hits(users, u) ==> !CheckerCorrect.Preferred(users, author, WithAuthor(author, others), h)
    ensures Correct(users, u, author, others)
      == Resolved(Some(Hits(users, u)[FirstMaxIndex(Hits(users, u), CheckerCorrect.Occ(users))]))
  {
    var hits := Hits(users, u);
    var mentions := WithAuthor(author, others);
    var p := FindIndex(hits, CheckerCorrect.PreferredTest(users, author, mentions));
    assert p == |hits|;
    SortDescHead(hits, CheckerCorrect.Occ(users));
  }
}
