/** `correct(username, author, otherMentions, tags)` of utils/username-checker.js: the
    ladder of utils/checker.js without the follow-circle step and without highlighting,
    whose tag test looks at the post's own tags only. The body runs as the `async`
    executor of a `new Promise`: an exception thrown in it is lost, and the promise then
    never settles. */
module UtilsCorrect {
  import opened Helper
  import opened Ledger
  import opened Resolver
  import opened Search
  import opened Ranking
  import opened Highlight
  import CheckerCorrect

  const Marker: string := CheckerCorrect.Marker

  /** The choice among the existing edits `hits`. */
  function Choose(users: Users, author: string, mentions: seq<string>, hits: seq<string>): Outcome
    requires |hits| > 0
  {
    if |hits| == 1 then Resolved(Some(Marker + hits[0]))
    else if author !in users && hits[0] !in mentions then NeverSettles
    else
      var preferred := Find(hits, CheckerCorrect.PreferredTest(users, author, mentions));
      if Truthy(preferred) then Resolved(Some(Marker + preferred.value))
      else if exists h :: h in hits && h !in users then NeverSettles
      else Resolved(Some(Marker + SortDesc(hits, CheckerCorrect.Occ(users))[0]))
  }

  /** `correct`: the ledger afterwards and how the returned promise ends. */
  function Correct(users: Users, u: string, author: string, others: seq<string>, tags: seq<string>, onChain: string -> bool): (Users, Outcome) {
    var mentions := WithAuthor(author, others);
    var variant := Find(mentions, CheckerCorrect.VariantTest(u));
    if Truthy(variant) then (users, Resolved(Some(Marker + variant.value)))
    else Guess(users, u, author, mentions, tags, onChain)
  }

  function Guess(users: Users, u: string, author: string, mentions: seq<string>, tags: seq<string>, onChain: string -> bool): (Users, Outcome) {
    var found := Hits(users, u, onChain);
    if |found.1| > 0 then (found.0, Choose(found.0, author, mentions, found.1))
    else Fallback(found.0, u, tags, onChain)
  }

  function Fallback(users: Users, u: string, tags: seq<string>, onChain: string -> bool): (Users, Outcome) {
    var the := Exists(users, "the" + u, onChain);
    if the.1 then (the.0, Resolved(Some(Marker + "the" + u)))
    else if u in tags then (the.0, Resolved(Some("#" + u)))
    else (the.0, Resolved(None))
  }

  /** Every reply naming an account is the marker followed by the plain name. */
  lemma ChooseNamesHit(users: Users, author: string, mentions: seq<string>, hits: seq<string>)
    requires |hits| > 0
    ensures Choose(users, author, mentions, hits).Resolved? ==>
      exists h :: h in hits && Choose(users, author, mentions, hits) == Resolved(Some(Marker + h))
  {
    var sorted := SortDesc(hits, CheckerCorrect.Occ(users));
    assert sorted[0] in multiset(sorted);
    var p := FindIndex(hits, CheckerCorrect.PreferredTest(users, author, mentions));
    if p < |hits| {
      assert hits[p] in hits;
    }
  }

  /** The ladder of this version: a reply is the marker followed by a matching mention,
      else by an existing name one edit away, else (none at one edit) by an existing valid
      name two edits away, else by `the` + the name if that account exists; else it is
      the name as a tag of the post; nothing found gives `null`. */
  lemma CorrectLadder(users: Users, u: string, author: string, others: seq<string>, tags: seq<string>, onChain: string -> bool)
    ensures var mentions := WithAuthor(author, others);
      Correct(users, u, author, others, tags, onChain).1 == Resolved(None) <==>
        CheckerCorrect.NoVariant(u, mentions)
        && (forall y :: !HitAtOne(users, onChain, u, y))
        && (forall y :: !HitAtTwo(users, onChain, u, y))
        && !Live(users, onChain, "the" + u)
        && u !in tags
    ensures var mentions := WithAuthor(author, others);
      var out := Correct(users, u, author, others, tags, onChain).1;
      out.Resolved? && out.reply.Some? ==>
        (var i := FindIndex(mentions, CheckerCorrect.VariantTest(u));
           i < |mentions| && mentions[i] != "" && out.reply.value == Marker + mentions[i])
        || (CheckerCorrect.NoVariant(u, mentions) && exists h ::
              (HitAtOne(users, onChain, u, h) || ((forall y :: !HitAtOne(users, onChain, u, y)) && HitAtTwo(users, onChain, u, h)))
              && out.reply.value == Marker + h)
        || (CheckerCorrect.NoVariant(u, mentions) && Live(users, onChain, "the" + u) && out.reply.value == Marker + "the" + u)
        || (CheckerCorrect.NoVariant(u, mentions) && !Live(users, onChain, "the" + u) && u in tags && out.reply.value == "#" + u)
  {
    var mentions := WithAuthor(author, others);
    HitsSpec(users, u, onChain);
    HitsLedger(users, u, onChain);
    var found := Hits(users, u, onChain);
    if |found.1| > 0 {
      ChooseNamesHit(found.0, author, mentions, found.1);
      if forall y :: !HitAtOne(users, onChain, u, y) {
        assert HitAtTwo(users, onChain, u, found.1[0]);
      } else {
        assert HitAtOne(users, onChain, u, found.1[0]);
      }
    } else {
      assert Live(found.0, onChain, "the" + u) <==> Live(users, onChain, "the" + u);
    }
    if !Truthy(Find(mentions, CheckerCorrect.VariantTest(u))) {
      assert Correct(users, u, author, others, tags, onChain) == Guess(users, u, author, mentions, tags, onChain);
    }
  }

  /** The first matching mention, with the author unshifted in front when not mentioned,
      is the suggestion whenever it is not empty; the ledger is left as it was. */
  lemma VariantFirst(users: Users, u: string, author: string, others: seq<string>, tags: seq<string>, onChain: string -> bool)
    ensures var mentions := WithAuthor(author, others);
      var i := FindIndex(mentions, CheckerCorrect.VariantTest(u));
      i < |mentions| && mentions[i] != "" ==>
        Correct(users, u, author, others, tags, onChain) == (users, Resolved(Some(Marker + mentions[i])))
  {
  }

  /** A non-empty author who is not among the other mentions and matches the misspelt name
      is the suggestion, ahead of any matching mention. */
  lemma AuthorWins(users: Users, u: string, author: string, others: seq<string>, tags: seq<string>, onChain: string -> bool)
    ensures author != "" && author !in others && PunctMatch(u, author) ==>
      Correct(users, u, author, others, tags, onChain) == (users, Resolved(Some(Marker + author)))
  {
    AuthorFoundFirst(author, others, CheckerCorrect.VariantTest(u));
  }

  /** How an outcome of utils/checker.js's `correct` corresponds to one of this version:
      the same reply once the `<strong>` markup is taken out, and a pending promise where
      the other one is rejected. */
  predicate Agree(checker: Outcome, utils: Outcome) {
    match checker
    case Resolved(reply) =>
      if reply.Some? then utils == Resolved(Some(StripTags(reply.value))) else utils == Resolved(None)
    case Rejected => utils == NeverSettles
    case NeverSettles => utils == NeverSettles
  }

  lemma StripMarker(x: string)
    ensures StripTags(Marker + x) == Marker + StripTags(x)
  {
    var s := Marker + x;
    assert s[..10] == Marker;
    forall k | 0 <= k < 10 ensures NoTagAt(s, k) {
      if |s| - k >= 8 {
        assert s[k..k + 8][1] == s[k + 1];
        assert s[k..k + 8][0] == s[k];
      }
      if |s| - k >= 9 {
        assert s[k..k + 9][0] == s[k];
        assert s[k..k + 9][1] == s[k + 1];
        assert s[k..k + 9][2] == s[k + 2];
      }
    }
    StripKeeps(s, 10);
    assert s[10..] == x;
  }

  lemma StripMarkedName(u: string, h: string)
    requires NoAngle(h)
    ensures StripTags(Marker + HighlightDifferences(u, h)) == Marker + h
  {
    StripMarker(HighlightDifferences(u, h));
    StripHighlight(u, h);
  }

  lemma StripMarkedThe(u: string)
    requires NoAngle(u)
    ensures StripTags(Marker + "<strong>the</strong>" + u) == Marker + "the" + u
  {
    var close := "</strong>" + u;
    assert Marker + "<strong>the</strong>" + u == Marker + ("<strong>" + ("t" + ("h" + ("e" + close))));
    StripMarker("<strong>" + ("t" + ("h" + ("e" + close))));
    StripOpen("t" + ("h" + ("e" + close)));
    StripChar('t', "h" + ("e" + close));
    StripChar('h', "e" + close);
    StripChar('e', close);
    StripClose(u);
    StripPlain(u);
  }

  lemma NoCircleHit(hits: seq<string>)
    ensures FindIndex(hits, CheckerCorrect.CircleTest([])) == |hits|
  {
  }

  /** The two choices agree once the markup is stripped, the follow circle being empty. */
  lemma ChooseAgree(users: Users, u: string, author: string, mentions: seq<string>, hits: seq<string>)
    requires |hits| > 0
    requires forall h :: h in hits ==> NoAngle(h)
    ensures Agree(CheckerCorrect.Choose(users, u, author, mentions, hits, []), Choose(users, author, mentions, hits))
  {
    var c := CheckerCorrect.Choose(users, u, author, mentions, hits, []);
    var v := Choose(users, author, mentions, hits);
    if |hits| == 1 {
      StripMarkedName(u, hits[0]);
    } else if !(author !in users && hits[0] !in mentions) {
      var preferred := Find(hits, CheckerCorrect.PreferredTest(users, author, mentions));
      if Truthy(preferred) {
        var p := FindIndex(hits, CheckerCorrect.PreferredTest(users, author, mentions));
        assert hits[p] in hits;
        StripMarkedName(u, preferred.value);
        assert c == Resolved(Some(Marker + HighlightDifferences(u, preferred.value)));
      } else {
        NoCircleHit(hits);
        if !exists h :: h in hits && h !in users {
          var sorted := SortDesc(hits, CheckerCorrect.Occ(users));
          assert sorted[0] in multiset(sorted);
          StripMarkedName(u, sorted[0]);
          assert c == Resolved(Some(Marker + HighlightDifferences(u, sorted[0])));
        }
      }
    }
  }

  /** The hits are existing names. */
  lemma HitsExist(users: Users, u: string, onChain: string -> bool)
    ensures forall h :: h in Hits(users, u, onChain).1 ==> Live(users, onChain, h)
  {
    HitsSpec(users, u, onChain);
  }

  lemma FallbackAgree(users: Users, u: string, author: string, tags: seq<string>, s: CheckerCorrect.Services)
    requires u !in s.trendingTags && u !in s.authorTags(author)
    requires NoAngle(u)
    ensures Fallback(users, u, tags, s.onChain).0 == CheckerCorrect.Fallback(users, u, author, tags, s).0
    ensures Agree(CheckerCorrect.Fallback(users, u, author, tags, s).1, Fallback(users, u, tags, s.onChain).1)
  {
    var the := Exists(users, "the" + u, s.onChain);
    if the.1 {
      StripMarkedThe(u);
    } else if u in tags {
      assert "#" + u == ['#'] + u;
      StripPlain("#" + u);
    }
  }

  lemma GuessAgree(users: Users, u: string, author: string, mentions: seq<string>, tags: seq<string>, s: CheckerCorrect.Services)
    requires |s.followCircle(author)| == 0
    requires u !in s.trendingTags && u !in s.authorTags(author)
    requires NoAngle(u)
    requires forall x :: x in users || s.onChain(x) ==> NoAngle(x)
    ensures Guess(users, u, author, mentions, tags, s.onChain).0 == CheckerCorrect.Guess(users, u, author, mentions, tags, s).0
    ensures Agree(CheckerCorrect.Guess(users, u, author, mentions, tags, s).1, Guess(users, u, author, mentions, tags, s.onChain).1)
  {
    var found := Hits(users, u, s.onChain);
    if |found.1| > 0 {
      HitsExist(users, u, s.onChain);
      assert s.followCircle(author) == [];
      ChooseAgree(found.0, u, author, mentions, found.1);
    } else {
      FallbackAgree(found.0, u, author, tags, s);
    }
  }

  /** utils/checker.js's `correct` refines this one: when the follow circle is empty and
      the word is neither a trending tag nor one of the author's (and no name involved
      holds a `<`), both leave the same ledger and give the same reply once the
      `<strong>` markup is removed; where the later version rejects, this one hangs. */
  lemma CheckerAgreesWithUtils(users: Users, u: string, author: string, others: seq<string>, tags: seq<string>, s: CheckerCorrect.Services)
    requires |s.followCircle(author)| == 0
    requires u !in s.trendingTags && u !in s.authorTags(author)
    requires NoAngle(u) && NoAngle(author) && forall m :: m in others ==> NoAngle(m)
    requires forall x :: x in users || s.onChain(x) ==> NoAngle(x)
    ensures Correct(users, u, author, others, tags, s.onChain).0 == CheckerCorrect.Correct(users, u, author, others, tags, s).0
    ensures Agree(CheckerCorrect.Correct(users, u, author, others, tags, s).1, Correct(users, u, author, others, tags, s.onChain).1)
  {
    var mentions := WithAuthor(author, others);
    var variant := Find(mentions, CheckerCorrect.VariantTest(u));
    if Truthy(variant) {
      var i := FindIndex(mentions, CheckerCorrect.VariantTest(u));
      assert mentions[i] in mentions;
      StripMarkedName(u, variant.value);
    } else {
      GuessAgree(users, u, author, mentions, tags, s);
    }
  }
}
