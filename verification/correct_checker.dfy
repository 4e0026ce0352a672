/** `correct(username, author, otherMentions, tags)` of utils/checker.js: the ladder of
    guesses for a mention of a missing account, first hit wins. The remote services are
    parameters: the blockchain's accounts, the follow circle of an author, the trending
    tags and the tags an author has used. The ledger is threaded through, since looking
    names up registers the accounts found. */
module CheckerCorrect {
  import opened Helper
  import opened Ledger
  import opened Resolver
  import opened Search
  import opened Ranking
  import opened Highlight

  /** The remote services `correct` and `isTag` consult. */
  datatype Services = Services(
    onChain: string -> bool,
    followCircle: string -> seq<string>,
    trendingTags: seq<string>,
    authorTags: string -> seq<string>)

  /** The start of every reply naming an account: it keeps the name from notifying. */
  const Marker: string := "@<em></em>"

  /** The key of `sort((a, b) => users[b].occ - users[a].occ)`. */
  function Occ(users: Users): string -> int {
    x => if x in users then users[x].occ else 0
  }

  /** The test of the history step: mentioned in the post, or earlier by the author. */
  predicate Preferred(users: Users, author: string, mentions: seq<string>, m: string) {
    m in mentions || (author in users && m in users[author].mentioned)
  }

  function PreferredTest(users: Users, author: string, mentions: seq<string>): string -> bool {
    m => Preferred(users, author, mentions, m)
  }

  function CircleTest(circle: seq<string>): string -> bool {
    m => m in circle
  }

  function VariantTest(u: string): string -> bool {
    m => PunctMatch(u, m)
  }

  /** `isTag(author, word, tags)`: a tag of the post, a trending tag or one of the author's. */
  predicate IsTag(author: string, word: string, tags: seq<string>, s: Services) {
    word in tags || word in s.trendingTags || word in s.authorTags(author)
  }

  /** The choice among the existing edits `hits`. The history test reads
      `users[author].mentioned` for every hit it tries that is not among the mentions, and
      the sort reads `users[h].occ` for every hit: both throw when the record is missing. */
  function Choose(users: Users, u: string, author: string, mentions: seq<string>, hits: seq<string>, circle: seq<string>): Outcome
    requires |hits| > 0
  {
    if |hits| == 1 then Resolved(Some(Marker + HighlightDifferences(u, hits[0])))
    else if author !in users && hits[0] !in mentions then Rejected
    else
      var preferred := Find(hits, PreferredTest(users, author, mentions));
      if Truthy(preferred) then Resolved(Some(Marker + HighlightDifferences(u, preferred.value)))
      else
        var near := Find(hits, CircleTest(circle));
        if Truthy(near) then Resolved(Some(Marker + HighlightDifferences(u, near.value)))
        else if exists h :: h in hits && h !in users then Rejected
        else Resolved(Some(Marker + HighlightDifferences(u, SortDesc(hits, Occ(users))[0])))
  }

  /** `correct`: the ledger afterwards and how the returned promise ends. */
  function Correct(users: Users, u: string, author: string, others: seq<string>, tags: seq<string>, s: Services): (Users, Outcome) {
    var mentions := WithAuthor(author, others);
    var variant := Find(mentions, VariantTest(u));
    if Truthy(variant) then (users, Resolved(Some(Marker + HighlightDifferences(u, variant.value))))
    else Guess(users, u, author, mentions, tags, s)
  }

  /** The steps of `correct` after the variant test: the edit search and the choice. */
  function Guess(users: Users, u: string, author: string, mentions: seq<string>, tags: seq<string>, s: Services): (Users, Outcome) {
    var found := Hits(users, u, s.onChain);
    if |found.1| > 0 then (found.0, Choose(found.0, u, author, mentions, found.1, s.followCircle(author)))
    else Fallback(found.0, u, author, tags, s)
  }

  /** The steps of `correct` when no edit exists: `the` + the name, then the tag test. */
  function Fallback(users: Users, u: string, author: string, tags: seq<string>, s: Services): (Users, Outcome) {
    var the := Exists(users, "the" + u, s.onChain);
    if the.1 then (the.0, Resolved(Some(Marker + "<strong>the</strong>" + u)))
    else if u in tags || IsTag(author, u, tags, s) then (the.0, Resolved(Some("#" + u)))
    else (the.0, Resolved(None))
  }

  /** The choice always names one of the hits, or throws. */
  lemma ChooseNamesHit(users: Users, u: string, author: string, mentions: seq<string>, hits: seq<string>, circle: seq<string>)
    requires |hits| > 0
    ensures Choose(users, u, author, mentions, hits, circle).Resolved? ==>
      exists h :: h in hits && Choose(users, u, author, mentions, hits, circle) == Resolved(Some(Marker + HighlightDifferences(u, h)))
  {
    SortDescFirstIn(hits, Occ(users));
    FindIn(hits, PreferredTest(users, author, mentions));
    FindIn(hits, CircleTest(circle));
    assert hits[0] in hits;
  }

  /** Several hits: the first one mentioned in the post or earlier by the author wins. */
  lemma ChoosePreferred(users: Users, u: string, author: string, mentions: seq<string>, hits: seq<string>, circle: seq<string>, i: nat)
    requires |hits| > 1 && author in users
    requires i < |hits| && hits[i] != "" && Preferred(users, author, mentions, hits[i])
    requires forall k :: 0 <= k < i ==> !Preferred(users, author, mentions, hits[k])
    ensures Choose(users, u, author, mentions, hits, circle) == Resolved(Some(Marker + HighlightDifferences(u, hits[i])))
  {
    var p := FindIndex(hits, PreferredTest(users, author, mentions));
    assert PreferredTest(users, author, mentions)(hits[i]);
    assert p == i;
  }

  /** Several hits, none mentioned: the first one in the follow circle wins. */
  lemma ChooseCircle(users: Users, u: string, author: string, mentions: seq<string>, hits: seq<string>, circle: seq<string>, i: nat)
    requires |hits| > 1 && author in users
    requires forall k :: 0 <= k < |hits| ==> !Preferred(users, author, mentions, hits[k])
    requires i < |hits| && hits[i] != "" && hits[i] in circle
    requires forall k :: 0 <= k < i ==> hits[k] !in circle
    ensures Choose(users, u, author, mentions, hits, circle) == Resolved(Some(Marker + HighlightDifferences(u, hits[i])))
  {
    var p := FindIndex(hits, PreferredTest(users, author, mentions));
    assert p == |hits|;
    var q := FindIndex(hits, CircleTest(circle));
    assert CircleTest(circle)(hits[i]);
    assert q == i;
  }

  /** Several hits, none mentioned and none in the follow circle, all with records: the
      first hit of highest count wins, since the sort is stable. */
  lemma ChooseMostMentioned(users: Users, u: string, author: string, mentions: seq<string>, hits: seq<string>, circle: seq<string>)
    requires |hits| > 1 && author in users
    requires forall k :: 0 <= k < |hits| ==> !Preferred(users, author, mentions, hits[k]) && hits[k] !in circle
    requires forall h :: h in hits ==> h in users
    ensures Choose(users, u, author, mentions, hits, circle)
      == Resolved(Some(Marker + HighlightDifferences(u, hits[FirstMaxIndex(hits, Occ(users))])))
  {
    var p := FindIndex(hits, PreferredTest(users, author, mentions));
    assert p == |hits|;
    var q := FindIndex(hits, CircleTest(circle));
    assert q == |hits|;
    SortDescHead(hits, Occ(users));
  }

  /** The ledger grows only by accounts of the blockchain, with fresh records. */
  ghost predicate Grows(before: Users, after: Users, onChain: string -> bool) {
    && (forall k :: k in before ==> k in after && after[k] == before[k])
    && (forall k :: k in after && k !in before ==> onChain(k) && after[k] == NewRecord)
  }

  lemma FallbackLedger(users: Users, u: string, author: string, tags: seq<string>, s: Services)
    ensures Grows(users, Fallback(users, u, author, tags, s).0, s.onChain)
  {
    AddUsersSpec(users, "", ["the" + u]);
  }

  lemma GuessLedger(users: Users, u: string, author: string, mentions: seq<string>, tags: seq<string>, s: Services)
    ensures Grows(users, Guess(users, u, author, mentions, tags, s).0, s.onChain)
  {
    HitsLedger(users, u, s.onChain);
    var found := Hits(users, u, s.onChain);
    FallbackLedger(found.0, u, author, tags, s);
  }

  /** The ledger afterwards keeps every record and holds, besides, only accounts found on
      the blockchain, with fresh records. */
  lemma CorrectLedger(users: Users, u: string, author: string, others: seq<string>, tags: seq<string>, s: Services)
    ensures Grows(users, Correct(users, u, author, others, tags, s).0, s.onChain)
  {
    var mentions := WithAuthor(author, others);
    if !Truthy(Find(mentions, VariantTest(u))) {
      GuessLedger(users, u, author, mentions, tags, s);
      assert Correct(users, u, author, others, tags, s) == Guess(users, u, author, mentions, tags, s);
    }
  }

  /** No variant among the mentions: the first mention passing the punctuation-blind test
      is missing or is `''`. */
  predicate NoVariant(u: string, mentions: seq<string>) {
    !Truthy(Find(mentions, VariantTest(u)))
  }

  /** The last steps: `the` + the name when that account exists, else the tag, else `null`. */
  lemma FallbackSpec(users: Users, u: string, author: string, tags: seq<string>, s: Services)
    ensures Fallback(users, u, author, tags, s).1 == Resolved(None) <==>
      !Live(users, s.onChain, "the" + u) && !IsTag(author, u, tags, s)
    ensures Fallback(users, u, author, tags, s).1.Resolved?
    ensures var out := Fallback(users, u, author, tags, s).1;
      out.reply.Some? ==>
        (Live(users, s.onChain, "the" + u) && out.reply.value == Marker + "<strong>the</strong>" + u)
        || (!Live(users, s.onChain, "the" + u) && IsTag(author, u, tags, s) && out.reply.value == "#" + u)
  {
  }

  /** After the variant test: a reply names an existing name one edit away, else (when
      there is none) an existing valid name two edits away, else comes from the last steps. */
  lemma GuessSpec(users: Users, u: string, author: string, mentions: seq<string>, tags: seq<string>, s: Services)
    ensures Guess(users, u, author, mentions, tags, s).1 == Resolved(None) <==>
      (forall y :: !HitAtOne(users, s.onChain, u, y))
      && (forall y :: !HitAtTwo(users, s.onChain, u, y))
      && !Live(users, s.onChain, "the" + u)
      && !IsTag(author, u, tags, s)
    ensures var out := Guess(users, u, author, mentions, tags, s).1;
      out.Resolved? && out.reply.Some? ==>
        (exists h ::
          (HitAtOne(users, s.onChain, u, h) || ((forall y :: !HitAtOne(users, s.onChain, u, y)) && HitAtTwo(users, s.onChain, u, h)))
          && out.reply.value == Marker + HighlightDifferences(u, h))
        || (Live(users, s.onChain, "the" + u) && out.reply.value == Marker + "<strong>the</strong>" + u)
        || (!Live(users, s.onChain, "the" + u) && IsTag(author, u, tags, s) && out.reply.value == "#" + u)
  {
    var found := Hits(users, u, s.onChain);
    if |found.1| > 0 {
      GuessFound(users, u, author, mentions, tags, s);
    } else {
      GuessNotFound(users, u, author, mentions, tags, s);
      FallbackSpec(found.0, u, author, tags, s);
    }
  }

  /** Some name was found: the reply, if any, names one of them. */
  lemma GuessFound(users: Users, u: string, author: string, mentions: seq<string>, tags: seq<string>, s: Services)
    ensures |Hits(users, u, s.onChain).1| > 0 ==>
      (exists y :: HitAtOne(users, s.onChain, u, y)) || (exists y :: HitAtTwo(users, s.onChain, u, y))
    ensures var out := Guess(users, u, author, mentions, tags, s).1;
      |Hits(users, u, s.onChain).1| > 0 ==>
        out != Resolved(None)
        && (out.Resolved? && out.reply.Some? ==>
          exists h ::
            (HitAtOne(users, s.onChain, u, h) || ((forall y :: !HitAtOne(users, s.onChain, u, y)) && HitAtTwo(users, s.onChain, u, h)))
            && out.reply.value == Marker + HighlightDifferences(u, h))
  {
    var found := Hits(users, u, s.onChain);
    if |found.1| > 0 {
      var out := Choose(found.0, u, author, mentions, found.1, s.followCircle(author));
      assert Guess(users, u, author, mentions, tags, s).1 == out;
      HitNamed(users, u, s.onChain, found.1[0]);
      ChooseNamesHit(found.0, u, author, mentions, found.1, s.followCircle(author));
      if out.Resolved? {
        var h :| h in found.1 && out == Resolved(Some(Marker + HighlightDifferences(u, h)));
        HitNamed(users, u, s.onChain, h);
      }
    }
  }

  /** A name the search returns is one edit away, or two when none is one away. */
  lemma HitNamed(users: Users, u: string, onChain: string -> bool, h: string)
    ensures h in Hits(users, u, onChain).1 ==>
      HitAtOne(users, onChain, u, h) || ((forall y :: !HitAtOne(users, onChain, u, y)) && HitAtTwo(users, onChain, u, h))
  {
    HitsSpec(users, u, onChain);
  }

  /** No name was found: there is none at one or two edits, and the last steps decide on
      the same accounts. */
  lemma GuessNotFound(users: Users, u: string, author: string, mentions: seq<string>, tags: seq<string>, s: Services)
    ensures |Hits(users, u, s.onChain).1| == 0 ==>
      (forall y :: !HitAtOne(users, s.onChain, u, y)) && (forall y :: !HitAtTwo(users, s.onChain, u, y))
    ensures var found := Hits(users, u, s.onChain);
      |found.1| == 0 ==>
        Guess(users, u, author, mentions, tags, s) == Fallback(found.0, u, author, tags, s)
        && (Live(found.0, s.onChain, "the" + u) <==> Live(users, s.onChain, "the" + u))
  {
    var found := Hits(users, u, s.onChain);
    if |found.1| == 0 {
      HitsSpec(users, u, s.onChain);
      HitsLedger(users, u, s.onChain);
      forall y ensures !HitAtOne(users, s.onChain, u, y) {
        assert y !in found.1;
      }
    }
  }

  /** The ladder. A reply names: a mention (the author first) equal to the name up to
      digits, dots, hyphens and a leading `the`; else an existing name one edit away; else,
      when there is none, an existing valid name two edits away; else `the` + the name if
      that account exists; else the name as a tag. Nothing of these found: `null`. */
  lemma CorrectLadder(users: Users, u: string, author: string, others: seq<string>, tags: seq<string>, s: Services)
    ensures var mentions := WithAuthor(author, others);
      Correct(users, u, author, others, tags, s).1 == Resolved(None) <==>
        NoVariant(u, mentions)
        && (forall y :: !HitAtOne(users, s.onChain, u, y))
        && (forall y :: !HitAtTwo(users, s.onChain, u, y))
        && !Live(users, s.onChain, "the" + u)
        && !IsTag(author, u, tags, s)
    ensures var mentions := WithAuthor(author, others);
      var out := Correct(users, u, author, others, tags, s).1;
      out.Resolved? && out.reply.Some? ==>
        (var i := FindIndex(mentions, VariantTest(u));
           i < |mentions| && mentions[i] != "" && out.reply.value == Marker + HighlightDifferences(u, mentions[i]))
        || (NoVariant(u, mentions) && exists h ::
              (HitAtOne(users, s.onChain, u, h) || ((forall y :: !HitAtOne(users, s.onChain, u, y)) && HitAtTwo(users, s.onChain, u, h)))
              && out.reply.value == Marker + HighlightDifferences(u, h))
        || (NoVariant(u, mentions) && Live(users, s.onChain, "the" + u) && out.reply.value == Marker + "<strong>the</strong>" + u)
        || (NoVariant(u, mentions) && !Live(users, s.onChain, "the" + u) && IsTag(author, u, tags, s) && out.reply.value == "#" + u)
    ensures var mentions := WithAuthor(author, others);
      var i := FindIndex(mentions, VariantTest(u));
      i < |mentions| && mentions[i] != "" ==>
        Correct(users, u, author, others, tags, s) == (users, Resolved(Some(Marker + HighlightDifferences(u, mentions[i]))))
  {
    var mentions := WithAuthor(author, others);
    GuessSpec(users, u, author, mentions, tags, s);
  }

  /** A non-empty author who is not among the other mentions and matches the misspelt name
      is the suggestion, ahead of any matching mention. */
  lemma AuthorWins(users: Users, u: string, author: string, others: seq<string>, tags: seq<string>, s: Services)
    ensures author != "" && author !in others && PunctMatch(u, author) ==>
      Correct(users, u, author, others, tags, s) == (users, Resolved(Some(Marker + HighlightDifferences(u, author))))
  {
    AuthorFoundFirst(author, others, VariantTest(u));
  }
}
