/** The mention check of app.js: the candidate names read from a post's metadata
    (`processPost`), the split between accounts that exist and wrong mentions
    (`processMentions`), and the reply that lists the wrong ones. */
module Mentions {
  import opened JsText
  import opened Helper
  import opened AppState

  /** The characters of `[?¿!¡.,;:-]`. */
  predicate IsTrailingMark(c: char) {
    c == '?' || c == '\U{BF}' || c == '!' || c == '\U{A1}' || c == '.' || c == ',' || c == ';' || c == ':' || c == '-'
  }

  /** Length of the run of marks `s` ends with. */
  function TrailingMarks(s: string): (n: nat)
    ensures n <= |s|
    ensures forall k :: |s| - n <= k < |s| ==> IsTrailingMark(s[k])
    ensures n == |s| || !IsTrailingMark(s[|s| - n - 1])
  {
    if |s| > 0 && IsTrailingMark(s[|s| - 1]) then 1 + TrailingMarks(s[..|s| - 1]) else 0
  }

  /** `user.replace(/[?¿!¡.,;:-]+$/, '').toLowerCase()`: the leftmost place where the
      marks can run to the end is the start of the longest such run. */
  function NormalizeMention(m: string): string {
    ToLower(m[..|m| - TrailingMarks(m)])
  }

  /** A normalised mention is the longest prefix that does not end with a mark, lower-cased. */
  lemma NormalizeMentionSpec(m: string)
    ensures var r := NormalizeMention(m);
      && |r| <= |m|
      && (forall k :: 0 <= k < |r| ==> r[k] == ToLowerChar(m[k]))
      && (forall k :: |r| <= k < |m| ==> IsTrailingMark(m[k]))
      && (|r| == 0 || !IsTrailingMark(r[|r| - 1]))
  {
  }

  /** Normalising twice is normalising once. */
  lemma NormalizeIdempotent(m: string)
    ensures NormalizeMention(NormalizeMention(m)) == NormalizeMention(m)
  {
    var r := NormalizeMention(m);
    NormalizeMentionSpec(m);
    if |r| > 0 {
      assert !IsTrailingMark(r[|r| - 1]);
    }
    assert TrailingMarks(r) == 0;
    assert r[..|r|] == r;
    assert ToLower(r) == r;
  }

  /** `xs.filter(keep)` */
  function Filter<T(!new)>(xs: seq<T>, keep: T -> bool): (r: seq<T>)
    ensures |r| <= |xs|
    ensures forall x :: x in r <==> x in xs && keep(x)
    decreases |xs|
  {
    if |xs| == 0 then []
    else
      var r := Filter(xs[..|xs| - 1], keep) + (if keep(xs[|xs| - 1]) then [xs[|xs| - 1]] else []);
      assert forall x :: x in xs <==> x in xs[..|xs| - 1] || x == xs[|xs| - 1] by {
        assert xs == xs[..|xs| - 1] + [xs[|xs| - 1]];
      }
      r
  }

  /** Filtering keeps whatever strictly increasing rank the elements had, so it keeps the
      order and the absence of duplicates. */
  lemma {:induction false} FilterKeepsRank<T(!new)>(xs: seq<T>, keep: T -> bool, rank: T -> int)
    requires forall i, j :: 0 <= i < j < |xs| ==> rank(xs[i]) < rank(xs[j])
    ensures forall i, j :: 0 <= i < j < |Filter(xs, keep)| ==> rank(Filter(xs, keep)[i]) < rank(Filter(xs, keep)[j])
    decreases |xs|
  {
    if |xs| > 0 {
      var init, last := xs[..|xs| - 1], xs[|xs| - 1];
      FilterKeepsRank(init, keep, rank);
      var r := Filter(xs, keep);
      var r0 := Filter(init, keep);
      assert xs[..|xs| - 1] == init;
      assert r == r0 + (if keep(last) then [last] else []);
      forall i, j | 0 <= i < j < |r| ensures rank(r[i]) < rank(r[j]) {
        if j < |r0| {
          assert r[i] == r0[i] && r[j] == r0[j];
          assert rank(r0[i]) < rank(r0[j]);
        } else {
          assert keep(last) && j == |r0| && r[j] == last;
          assert r[i] == r0[i];
          assert r0[i] in init;
          var k :| 0 <= k < |init| && init[k] == r0[i];
          assert xs[k] == r[i] && xs[|xs| - 1] == last;
          assert k < |xs| - 1;
          assert rank(xs[k]) < rank(xs[|xs| - 1]);
        }
      }
    }
  }

  /** Each raw mention normalised, in order. */
  function Normalized(raw: seq<string>): (r: seq<string>)
    ensures |r| == |raw|
  {
    seq(|raw|, i requires 0 <= i < |raw| => NormalizeMention(raw[i]))
  }

  /** The names `processPost` checks, from the post's `metadata.users`: normalised,
      without duplicates (`_.uniq`), at least three characters long, without a record
      yet, not a variant of the author's name (`isAuthorVariant` stands for the
      author-variation pattern), and not ignored by the author. */
  function Candidates(raw: seq<string>, accounts: Accounts, isAuthorVariant: string -> bool, ignored: seq<string>): seq<string> {
    var unique := PushAll([], Normalized(raw));
    var unknown := Filter(unique, m => |m| > 2 && m !in accounts);
    var others := Filter(unknown, m => !isAuthorVariant(m));
    if |ignored| > 0 then Filter(others, m => m !in ignored) else others
  }

  /** Filtering keeps the order of first appearance in `normal`. */
  lemma FilterKeepsOrder(xs: seq<string>, keep: string -> bool, normal: seq<string>)
    requires FirstOccurrenceOrder(xs, normal)
    ensures FirstOccurrenceOrder(Filter(xs, keep), normal)
  {
    var rank := x => if x in normal then FirstIndex(normal, x) else |normal|;
    forall i, j | 0 <= i < j < |xs| ensures rank(xs[i]) < rank(xs[j]) {
      assert xs[i] in xs && xs[j] in xs;
    }
    FilterKeepsRank(xs, keep, rank);
    var r := Filter(xs, keep);
    forall i, j | 0 <= i < j < |r| ensures FirstIndex(normal, r[i]) < FirstIndex(normal, r[j]) {
      assert r[i] in r && r[j] in r;
    }
  }

  /** The candidates appear in the order of their first appearance among the normalised
      mentions. */
  lemma CandidatesRank(raw: seq<string>, accounts: Accounts, isAuthorVariant: string -> bool, ignored: seq<string>)
    ensures FirstOccurrenceOrder(Candidates(raw, accounts, isAuthorVariant, ignored), Normalized(raw))
  {
    var normal := Normalized(raw);
    var unique := PushAll([], normal);
    var unknown := Filter(unique, m => |m| > 2 && m !in accounts);
    var others := Filter(unknown, m => !isAuthorVariant(m));
    PushAllOrder(normal);
    FilterKeepsOrder(unique, m => |m| > 2 && m !in accounts, normal);
    FilterKeepsOrder(unknown, m => !isAuthorVariant(m), normal);
    if |ignored| > 0 {
      FilterKeepsOrder(others, m => m !in ignored, normal);
    }
  }

  lemma CandidatesMembers(raw: seq<string>, accounts: Accounts, isAuthorVariant: string -> bool, ignored: seq<string>)
    ensures forall x :: x in Candidates(raw, accounts, isAuthorVariant, ignored) <==>
      x in Normalized(raw) && |x| > 2 && x !in accounts && !isAuthorVariant(x) && x !in ignored
  {
  }

  /** The candidates are the normalised mentions that pass every filter, each once, in
      the order of their first appearance. */
  lemma CandidatesSpec(raw: seq<string>, accounts: Accounts, isAuthorVariant: string -> bool, ignored: seq<string>)
    ensures var r := Candidates(raw, accounts, isAuthorVariant, ignored);
      && NoDup(r)
      && (forall x :: x in r <==>
            x in Normalized(raw) && |x| > 2 && x !in accounts && !isAuthorVariant(x) && x !in ignored)
      && FirstOccurrenceOrder(r, Normalized(raw))
  {
    CandidatesRank(raw, accounts, isAuthorVariant, ignored);
    OrderedNoDup(Candidates(raw, accounts, isAuthorVariant, ignored), Normalized(raw));
    CandidatesMembers(raw, accounts, isAuthorVariant, ignored);
  }

  /** Registered names, as operation fields. */
  function Fields(names: seq<string>): (r: seq<Field>)
    ensures |r| == |names|
    ensures forall i :: 0 <= i < |names| ==> r[i] == Given(names[i])
  {
    seq(|names|, i requires 0 <= i < |names| => Given(names[i]))
  }

  lemma {:induction false} AddUsersAppend(accounts: Accounts, fields: seq<Field>, f: Field)
    ensures AddUsers(accounts, fields + [f]) == AddUsers(AddUsers(accounts, fields), [f])
    decreases |fields|
  {
    if |fields| == 0 {
      assert fields + [f] == [f];
    } else {
      var key := KeyOf(fields[0]);
      var next := if key != "" && key !in accounts then accounts[key := Fresh] else accounts;
      assert (fields + [f])[0] == fields[0];
      assert (fields + [f])[1..] == fields[1..] + [f];
      AddUsersAppend(next, fields[1..], f);
    }
  }

  lemma FilterSnoc<T(!new)>(xs: seq<T>, x: T, keep: T -> bool)
    ensures Filter(xs + [x], keep) == Filter(xs, keep) + (if keep(x) then [x] else [])
  {
    assert (xs + [x])[..|xs|] == xs;
  }

  /** `'@' + name` for each name. */
  function AtNames(names: seq<string>): (r: seq<string>)
    ensures |r| == |names|
    ensures forall i :: 0 <= i < |names| ==> r[i] == "@" + names[i]
  {
    seq(|names|, i requires 0 <= i < |names| => "@" + names[i])
  }

  /** Registering one more name after the others. */
  lemma RegisterOneMore(accounts: Accounts, known: seq<string>, m: string)
    ensures AddUsers(accounts, Fields(known + [m])) == AddUsers(AddUsers(accounts, Fields(known)), [Given(m)])
  {
    assert Fields(known + [m]) == Fields(known) + [Given(m)];
    AddUsersAppend(accounts, Fields(known), Given(m));
  }

  lemma AtNamesSnoc(names: seq<string>, m: string)
    ensures AtNames(names + [m]) == AtNames(names) + ["@" + m]
  {
  }

  /** One more step of the loop, for the wrong mentions. */
  lemma WrongStep(xs: seq<string>, i: nat, keep: string -> bool)
    requires i < |xs|
    ensures keep(xs[i]) ==> AtNames(Filter(xs[..i + 1], keep)) == AtNames(Filter(xs[..i], keep)) + ["@" + xs[i]]
    ensures !keep(xs[i]) ==> AtNames(Filter(xs[..i + 1], keep)) == AtNames(Filter(xs[..i], keep))
  {
    assert xs[..i + 1] == xs[..i] + [xs[i]];
    FilterSnoc(xs[..i], xs[i], keep);
    if keep(xs[i]) {
      AtNamesSnoc(Filter(xs[..i], keep), xs[i]);
    } else {
      assert AtNames(Filter(xs[..i], keep)) + [] == AtNames(Filter(xs[..i], keep));
    }
  }

  /** One more step of the loop, for the registered names. */
  lemma RegisterStep(accounts: Accounts, xs: seq<string>, i: nat, keep: string -> bool)
    requires i < |xs|
    ensures keep(xs[i]) ==>
      AddUsers(accounts, Fields(Filter(xs[..i + 1], keep))) ==
      AddUsers(AddUsers(accounts, Fields(Filter(xs[..i], keep))), [Given(xs[i])])
    ensures !keep(xs[i]) ==>
      AddUsers(accounts, Fields(Filter(xs[..i + 1], keep))) == AddUsers(accounts, Fields(Filter(xs[..i], keep)))
  {
    assert xs[..i + 1] == xs[..i] + [xs[i]];
    FilterSnoc(xs[..i], xs[i], keep);
    if keep(xs[i]) {
      RegisterOneMore(accounts, Filter(xs[..i], keep), xs[i]);
    } else {
      assert Filter(xs[..i], keep) + [] == Filter(xs[..i], keep);
    }
  }

  /** The loop of `processMentions` after the names `ms`, as a recursive definition: the
      accounts and the wrong mentions so far. */
  function Scan(accounts: Accounts, ms: seq<string>, onChain: string -> bool, reported: string -> bool): (Accounts, seq<string>)
    decreases |ms|
  {
    if |ms| == 0 then (accounts, [])
    else
      var before := Scan(accounts, ms[..|ms| - 1], onChain, reported);
      var m := ms[|ms| - 1];
      if onChain(m) then (AddUsers(before.0, [Given(m)]), before.1)
      else if reported(m) then (before.0, before.1 + ["@" + m])
      else before
  }

  lemma {:induction false} ScanRegisters(accounts: Accounts, ms: seq<string>, onChain: string -> bool, reported: string -> bool)
    ensures Scan(accounts, ms, onChain, reported).0 == AddUsers(accounts, Fields(Filter(ms, onChain)))
    decreases |ms|
  {
    if |ms| > 0 {
      var i := |ms| - 1;
      assert ms[..i + 1] == ms;
      ScanRegisters(accounts, ms[..i], onChain, reported);
      RegisterStep(accounts, ms, i, onChain);
    }
  }

  lemma {:induction false} ScanReports(accounts: Accounts, ms: seq<string>, onChain: string -> bool, reported: string -> bool)
    ensures Scan(accounts, ms, onChain, reported).1 == AtNames(Filter(ms, m => !onChain(m) && reported(m)))
    decreases |ms|
  {
    if |ms| > 0 {
      var i := |ms| - 1;
      assert ms[..i + 1] == ms;
      ScanReports(accounts, ms[..i], onChain, reported);
      WrongStep(ms, i, m => !onChain(m) && reported(m));
    }
  }

  /** The loop registers the names the chain knows and reports the reported names it
      does not know, each in the order of the mentions. */
  lemma ScanSpec(accounts: Accounts, ms: seq<string>, onChain: string -> bool, reported: string -> bool)
    ensures Scan(accounts, ms, onChain, reported).0 == AddUsers(accounts, Fields(Filter(ms, onChain)))
    ensures Scan(accounts, ms, onChain, reported).1 == AtNames(Filter(ms, m => !onChain(m) && reported(m)))
  {
    ScanRegisters(accounts, ms, onChain, reported);
    ScanReports(accounts, ms, onChain, reported);
  }

  /** The loop of `processMentions` over the lookup reply: a name the chain does not know
      (`onChain` stands for `lookupAccountNames`, whose reply is null for such a name) is a
      wrong mention when `reported` holds for it (the text around it does not point to
      another social network); a name the chain knows is registered. */
  method ProcessMentions(accounts: Accounts, mentions: seq<string>, onChain: string -> bool, reported: string -> bool)
    returns (after: Accounts, wrong: seq<string>)
    ensures wrong == AtNames(Filter(mentions, m => !onChain(m) && reported(m)))
    ensures after == AddUsers(accounts, Fields(Filter(mentions, onChain)))
  {
    after, wrong := accounts, [];
    var i := 0;
    while i < |mentions|
      invariant 0 <= i <= |mentions|
      invariant (after, wrong) == Scan(accounts, mentions[..i], onChain, reported)
      decreases |mentions| - i
    {
      var m := mentions[i];
      assert mentions[..i + 1][..i] == mentions[..i];
      if onChain(m) {
        after := AddUsers(after, [Given(m)]);
      } else if reported(m) {
        wrong := wrong + ["@" + m];
      }
      i := i + 1;
    }
    assert mentions[..i] == mentions;
    ScanSpec(accounts, mentions, onChain, reported);
  }

  /** The registration half of `ProcessMentionsSpec`. */
  lemma RegistersKnown(accounts: Accounts, mentions: seq<string>, onChain: string -> bool)
    ensures var after := AddUsers(accounts, Fields(Filter(mentions, onChain)));
      && (forall k :: k in accounts ==> k in after && after[k] == accounts[k])
      && (forall m :: m in mentions && onChain(m) && m != "" ==> m in after)
      && (forall k :: k in after && k !in accounts ==> after[k] == Fresh && k in mentions && onChain(k))
  {
    var known := Filter(mentions, onChain);
    AddUsersSpec(accounts, Fields(known));
    var after := AddUsers(accounts, Fields(known));
    forall m | m in mentions && onChain(m) && m != ""
      ensures m in after
    {
      var i :| 0 <= i < |known| && known[i] == m;
      assert Fields(known)[i] in Fields(known);
    }
    forall k | k in after && k !in accounts
      ensures k in mentions && onChain(k)
    {
      var f :| f in Fields(known) && KeyOf(f) == k;
      var i :| 0 <= i < |Fields(known)| && Fields(known)[i] == f;
      assert known[i] in known;
    }
  }

  /** The wrong-mention half of `ProcessMentionsSpec`. */
  lemma WrongAreReported(mentions: seq<string>, isWrong: string -> bool)
    ensures var wrong := AtNames(Filter(mentions, isWrong));
      && (forall m :: m in mentions ==> ("@" + m in wrong <==> isWrong(m)))
      && (forall w :: w in wrong ==> |w| > 0 && w[0] == '@' && w[1..] in mentions)
  {
    var bad := Filter(mentions, isWrong);
    var wrong := AtNames(bad);
    forall w | w in wrong
      ensures |w| > 0 && w[0] == '@' && w[1..] in mentions
    {
      var i :| 0 <= i < |bad| && wrong[i] == w;
      assert w[1..] == bad[i];
      assert bad[i] in bad;
    }
    forall m | m in mentions
      ensures "@" + m in wrong <==> isWrong(m)
    {
      if "@" + m in wrong {
        var i :| 0 <= i < |bad| && wrong[i] == "@" + m;
        assert ("@" + m)[1..] == m && ("@" + bad[i])[1..] == bad[i];
        assert bad[i] in bad;
      }
      if isWrong(m) {
        var i :| 0 <= i < |bad| && bad[i] == m;
        assert wrong[i] == "@" + m;
      }
    }
  }

  /** A mention check only registers names the chain knows, as fresh records, and keeps
      every record it finds; the wrong mentions are exactly the reported names the chain
      does not know. */
  lemma ProcessMentionsSpec(accounts: Accounts, mentions: seq<string>, onChain: string -> bool, reported: string -> bool)
    ensures var known := Filter(mentions, onChain);
      var after := AddUsers(accounts, Fields(known));
      && (forall k :: k in accounts ==> k in after && after[k] == accounts[k])
      && (forall m :: m in mentions && onChain(m) && m != "" ==> m in after)
      && (forall k :: k in after && k !in accounts ==> after[k] == Fresh && k in mentions && onChain(k))
    ensures var wrong := AtNames(Filter(mentions, m => !onChain(m) && reported(m)));
      && (forall m :: m in mentions ==> ("@" + m in wrong <==> !onChain(m) && reported(m)))
      && (forall w :: w in wrong ==> |w| > 0 && w[0] == '@' && w[1..] in mentions)
  {
    RegistersKnown(accounts, mentions, onChain);
    WrongAreReported(mentions, m => !onChain(m) && reported(m));
  }

  /** `wrongMentions.map(mention => mention + ',')` */
  function Commas(wrong: seq<string>): (r: seq<string>)
    ensures |r| == |wrong|
    ensures forall i :: 0 <= i < |wrong| ==> r[i] == wrong[i] + ","
  {
    seq(|wrong|, i requires 0 <= i < |wrong| => wrong[i] + ",")
  }

  /** The first comma of the last name is removed and the first comma of the one before
      it becomes ` and`. */
  function Placed(cs: seq<string>): (r: seq<string>)
    requires |cs| >= 2
    ensures |r| == |cs|
  {
    var k := |cs|;
    var lastFixed := cs[k - 1 := ReplaceFirst(cs[k - 1], ',', "")];
    lastFixed[k - 2 := ReplaceFirst(lastFixed[k - 2], ',', " and")]
  }

  /** The list of wrong mentions as the message writes it: one name alone, or, with two
      or more, the names with their commas placed, joined with spaces. */
  function Listing(wrong: seq<string>): string
    requires |wrong| > 0
  {
    if |wrong| == 1 then wrong[0] else Join(Placed(Commas(wrong)), " ")
  }

  /** The usual English list: `a`, `a and b`, `a, b and c`, ... */
  function EnglishList(ws: seq<string>): string
    requires |ws| > 0
    decreases |ws|
  {
    if |ws| == 1 then ws[0]
    else if |ws| == 2 then ws[0] + " and " + ws[1]
    else ws[0] + ", " + EnglishList(ws[1..])
  }

  /** `(w + ",").replace(',', x)` when `w` has no comma. */
  lemma ReplaceAppendedComma(w: string, x: string)
    requires ',' !in w
    ensures ReplaceFirst(w + ",", ',', x) == w + x
  {
    var s := w + ",";
    assert s[|w|] == ',';
    IndexOfFirst(s, ',', |w|);
    assert s[..|w|] == w;
  }

  /** Index of a character's first occurrence. */
  lemma IndexOfFirst(s: string, c: char, i: nat)
    requires i < |s| && s[i] == c
    requires forall k :: 0 <= k < i ==> s[k] != c
    ensures IndexOf(s, c) == i
  {
    if i > 0 {
      assert s[1..][i - 1] == c;
      IndexOfFirst(s[1..], c, i - 1);
    }
  }

  /** The pieces the message joins, once the commas are placed. */
  function Pieces(wrong: seq<string>): (r: seq<string>)
    requires |wrong| >= 2
    ensures |r| == |wrong|
  {
    var k := |wrong|;
    seq(k, i requires 0 <= i < k => if i < k - 2 then wrong[i] + "," else if i == k - 2 then wrong[i] + " and" else wrong[i])
  }

  lemma {:induction false} JoinPieces(ws: seq<string>)
    requires |ws| >= 2
    ensures Join(Pieces(ws), " ") == EnglishList(ws)
    decreases |ws|
  {
    var p := Pieces(ws);
    if |ws| == 2 {
      assert Join(p, " ") == p[0] + " " + Join(p[1..], " ");
      assert Join(p[1..], " ") == ws[1];
    } else {
      JoinPieces(ws[1..]);
      assert p[1..] == Pieces(ws[1..]);
      assert Join(p, " ") == ws[0] + "," + " " + Join(Pieces(ws[1..]), " ");
    }
  }

  lemma PlacedLast(wrong: seq<string>)
    requires |wrong| >= 2 && ',' !in wrong[|wrong| - 1]
    ensures Placed(Commas(wrong))[|wrong| - 1] == wrong[|wrong| - 1]
  {
    var k := |wrong|;
    ReplaceAppendedComma(wrong[k - 1], "");
    assert wrong[k - 1] + "" == wrong[k - 1];
  }

  lemma PlacedSecondLast(wrong: seq<string>)
    requires |wrong| >= 2 && ',' !in wrong[|wrong| - 2]
    ensures Placed(Commas(wrong))[|wrong| - 2] == wrong[|wrong| - 2] + " and"
  {
    ReplaceAppendedComma(wrong[|wrong| - 2], " and");
  }

  lemma PlacedFront(wrong: seq<string>, i: int)
    requires 0 <= i < |wrong| - 2
    ensures Placed(Commas(wrong))[i] == wrong[i] + ","
  {
  }

  /** `Pieces` is determined by its three kinds of entries. */
  lemma PiecesUnique(wrong: seq<string>, p: seq<string>)
    requires |wrong| >= 2 && |p| == |wrong|
    requires forall i :: 0 <= i < |wrong| - 2 ==> p[i] == wrong[i] + ","
    requires p[|wrong| - 2] == wrong[|wrong| - 2] + " and"
    requires p[|wrong| - 1] == wrong[|wrong| - 1]
    ensures p == Pieces(wrong)
  {
    forall i | 0 <= i < |p| ensures p[i] == Pieces(wrong)[i] {
    }
  }

  lemma PlacedPieces(wrong: seq<string>)
    requires |wrong| >= 2
    requires forall i :: 0 <= i < |wrong| ==> ',' !in wrong[i]
    ensures Placed(Commas(wrong)) == Pieces(wrong)
  {
    var p := Placed(Commas(wrong));
    PlacedLast(wrong);
    PlacedSecondLast(wrong);
    forall i | 0 <= i < |wrong| - 2 ensures p[i] == wrong[i] + "," {
      PlacedFront(wrong, i);
    }
    PiecesUnique(wrong, p);
  }

  /** When no name holds a comma, the message lists the names as English does:
      `@a`, `@a and @b`, `@a, @b and @c`. */
  lemma ListingIsEnglish(wrong: seq<string>)
    requires |wrong| > 0
    requires forall i :: 0 <= i < |wrong| ==> ',' !in wrong[i]
    ensures Listing(wrong) == EnglishList(wrong)
  {
    if |wrong| >= 2 {
      PlacedPieces(wrong);
      JoinPieces(wrong);
    }
  }

  /** A comma inside a name is taken for the list's own: `@x,y` and `@z` are listed as
      `@x andy, @z`. */
  lemma CommaInName()
    ensures Listing(["@x,y", "@z"]) == "@x andy, @z"
  {
    CommaInNamePlaced();
    var p := ["@x andy,", "@z"];
    assert Join(p, " ") == p[0] + " " + p[1];
  }

  lemma CommaInNamePlaced()
    ensures Placed(Commas(["@x,y", "@z"])) == ["@x andy,", "@z"]
  {
    var ws := ["@x,y", "@z"];
    var cs := Commas(ws);
    assert ws[0] + "," == "@x,y," && ws[1] + "," == "@z,";
    assert cs == ["@x,y,", "@z,"];
    CommaDropped();
    CommaBecomesAnd();
    var lf := cs[1 := ReplaceFirst(cs[1], ',', "")];
    assert lf == ["@x,y,", "@z"];
  }

  lemma CommaDropped()
    ensures ReplaceFirst("@z,", ',', "") == "@z"
  {
    IndexOfFirst("@z,", ',', 2);
    assert "@z,"[..2] == "@z";
  }

  lemma CommaBecomesAnd()
    ensures ReplaceFirst("@x,y,", ',', " and") == "@x andy,"
  {
    IndexOfFirst("@x,y,", ',', 2);
    assert "@x,y,"[..2] == "@x" && "@x,y,"[3..] == "y,";
  }

  /** The message of `processMentions`; `kind` is "post" for a top-level post and
      "comment" otherwise. */
  function WrongMentionMessage(author: string, kind: string, wrong: seq<string>): string
    requires |wrong| > 0
  {
    "Hi @" + author + ", I'm @checky ! While checking the mentions made in this " + kind + " I found out that "
      + (if |wrong| > 1 then Listing(wrong) + " don't exist on Steem. Maybe you made some typos ?"
         else wrong[0] + " doesn't exist on Steem. Maybe you made a typo ?")
  }

  /** The reply queued after a mention check: one entry on the checked post when some
      mention is wrong, none otherwise. */
  function Report(author: string, permlink: string, title: string, parentAuthor: string, wrong: seq<string>): (r: Option<Entry>)
    ensures r.Some? <==> |wrong| > 0
    ensures r.Some? ==> r.value.author == author && r.value.permlink == permlink
  {
    if |wrong| > 0 then
      var kind := if parentAuthor == "" then "post" else "comment";
      Some(Entry(WrongMentionMessage(author, kind, wrong), author, permlink, "Possible wrong mentions found in " + title))
    else None
  }

  /** What one call of `processPost` does once the content is fetched. */
  datatype Plan = Skip | CheckNow | CheckLater(ms: nat)

  /** `processPost(..., mustBeNew)`: `isNew` is `last_update === created`. A new post seen
      by the stream is checked now when the author has no delay, and otherwise handed to
      a second call, without `mustBeNew`, after the delay in milliseconds. */
  function PostPlan(mustBeNew: bool, isNew: bool, delay: nat): Plan {
    var later := mustBeNew && isNew && delay > 0;
    var stillNew := if mustBeNew && isNew && delay == 0 then false else mustBeNew;
    if later then CheckLater(delay * 60 * 1000)
    else if !stillNew then CheckNow
    else Skip
  }

  /** The number of checks a comment seen by the stream leads to; `isNewLater` is what the
      second fetch finds. */
  function ChecksStarted(isNew: bool, isNewLater: bool, delay: nat): int {
    match PostPlan(true, isNew, delay)
    case Skip => 0
    case CheckNow => 1
    case CheckLater(_) => if PostPlan(false, isNewLater, delay) == CheckNow then 1 else 0
  }

  /** A new post is checked exactly once, right away without a delay or after the delay
      in minutes otherwise, and an edited one never; the deferred call always checks. */
  lemma PostPlanSpec(isNew: bool, isNewLater: bool, delay: nat)
    ensures ChecksStarted(isNew, isNewLater, delay) == if isNew then 1 else 0
    ensures PostPlan(true, isNew, delay) ==
      if !isNew then Skip else if delay == 0 then CheckNow else CheckLater(delay * 60000)
    ensures PostPlan(false, isNewLater, delay) == CheckNow
  {
  }

  /** The post a check is about. */
  datatype Post = Post(author: string, permlink: string, title: string, parentAuthor: string)

  /** The mention check of a fetched post: the candidates from its metadata's user list
      (`None` when `JSON.parse` fails or the list is missing: the exception is swallowed),
      then, when there are some, the lookup, the registration and the report. */
  function CheckPost(accounts: Accounts, ignored: seq<string>, users: Option<seq<string>>, post: Post,
                     isAuthorVariant: string -> bool, onChain: string -> bool, reported: string -> bool): (Accounts, Option<Entry>)
  {
    match users
    case None => (accounts, None)
    case Some(raw) =>
      var mentions := Candidates(raw, accounts, isAuthorVariant, ignored);
      if |mentions| == 0 then (accounts, None)
      else
        var wrong := AtNames(Filter(mentions, m => !onChain(m) && reported(m)));
        (AddUsers(accounts, Fields(Filter(mentions, onChain))), Report(post.author, post.permlink, post.title, post.parentAuthor, wrong))
  }

  /** Some element passes a filter exactly when the filter keeps something. */
  lemma FilterNonEmpty<T(!new)>(xs: seq<T>, keep: T -> bool)
    ensures |Filter(xs, keep)| > 0 <==> exists x :: x in xs && keep(x)
  {
    var r := Filter(xs, keep);
    if |r| > 0 {
      assert r[0] in r;
    }
  }

  /** A check reports on the post exactly when some mentioned name, normalised, is new,
      long enough, not a variant of the author's name, not ignored, unknown to the chain
      and reported by the text around it. The report goes to the post itself. */
  lemma CheckPostReports(accounts: Accounts, ignored: seq<string>, raw: seq<string>, post: Post,
                         isAuthorVariant: string -> bool, onChain: string -> bool, reported: string -> bool)
    ensures var entry := CheckPost(accounts, ignored, Some(raw), post, isAuthorVariant, onChain, reported).1;
      && (entry.Some? <==> exists x :: x in Normalized(raw) && |x| > 2 && x !in accounts && !isAuthorVariant(x)
                                        && x !in ignored && !onChain(x) && reported(x))
      && (entry.Some? ==> entry.value.author == post.author && entry.value.permlink == post.permlink)
  {
    var mentions := Candidates(raw, accounts, isAuthorVariant, ignored);
    CandidatesSpec(raw, accounts, isAuthorVariant, ignored);
    FilterNonEmpty(mentions, m => !onChain(m) && reported(m));
    if |mentions| == 0 {
      assert forall x :: x !in mentions;
    }
  }

  /** A check keeps every record and registers, as fresh records, only mentioned names
      the chain knows. */
  lemma CheckPostRegisters(accounts: Accounts, ignored: seq<string>, raw: seq<string>, post: Post,
                           isAuthorVariant: string -> bool, onChain: string -> bool, reported: string -> bool)
    ensures var after := CheckPost(accounts, ignored, Some(raw), post, isAuthorVariant, onChain, reported).0;
      && (forall k :: k in accounts ==> k in after && after[k] == accounts[k])
      && (forall k :: k in after && k !in accounts ==> after[k] == Fresh && k in Normalized(raw) && onChain(k))
  {
    var mentions := Candidates(raw, accounts, isAuthorVariant, ignored);
    CandidatesSpec(raw, accounts, isAuthorVariant, ignored);
    if |mentions| > 0 {
      ProcessMentionsSpec(accounts, mentions, onChain, reported);
    }
  }

  /** A listed wrong mention is `@` and one of the post's candidate names. */
  lemma ReportedNames(accounts: Accounts, ignored: seq<string>, raw: seq<string>,
                      isAuthorVariant: string -> bool, onChain: string -> bool, reported: string -> bool, w: string)
    ensures w in AtNames(Filter(Candidates(raw, accounts, isAuthorVariant, ignored), m => !onChain(m) && reported(m))) ==>
      && |w| > 0 && w[0] == '@'
      && var x := w[1..];
        x in Normalized(raw) && x !in accounts && x !in ignored && !onChain(x) && reported(x)
  {
    var mentions := Candidates(raw, accounts, isAuthorVariant, ignored);
    CandidatesSpec(raw, accounts, isAuthorVariant, ignored);
    ProcessMentionsSpec(accounts, mentions, onChain, reported);
  }
}
