/** The building blocks of the suggestion ladder shared by the three `correct` functions:
    the punctuation-blind comparison of names, `Array.prototype.find` with the truthiness
    test that follows it, and `sort((a, b) => users[b].occ - users[a].occ)[0]`, whose
    stability makes it pick the first name of highest count. */
module Ranking {
  import opened JsText
  import opened Helper

  /** `s.replace(/[\d.-]/g, '')` */
  function StripPunct(s: string): (r: string)
    ensures |r| <= |s|
    ensures forall k :: 0 <= k < |r| ==> !IsDigit(r[k]) && r[k] != '.' && r[k] != '-'
    decreases |s|
  {
    if |s| == 0 then ""
    else (if IsDigit(s[0]) || s[0] == '.' || s[0] == '-' then "" else [s[0]]) + StripPunct(s[1..])
  }

  /** Removing the punctuation works piece by piece: it distributes over concatenation. */
  lemma {:induction false} StripPunctAppend(a: string, b: string)
    ensures StripPunct(a + b) == StripPunct(a) + StripPunct(b)
    decreases |a|
  {
    if |a| > 0 {
      assert (a + b)[0] == a[0];
      assert (a + b)[1..] == a[1..] + b;
      StripPunctAppend(a[1..], b);
    } else {
      assert a + b == b;
    }
  }

  /** A single character is dropped exactly when it is a digit, a dot or a hyphen, and
      kept otherwise; with `StripPunctAppend` this fixes the result of every string. */
  lemma StripPunctChar(c: char)
    ensures StripPunct([c]) == if IsDigit(c) || c == '.' || c == '-' then "" else [c]
  {
    assert [c][1..] == "";
  }

  /** A name without digits, dots and hyphens is left as it is. */
  lemma {:induction false} StripPunctPlain(s: string)
    ensures (forall k :: 0 <= k < |s| ==> !IsDigit(s[k]) && s[k] != '.' && s[k] != '-') ==> StripPunct(s) == s
    decreases |s|
  {
    if |s| > 0 {
      StripPunctPlain(s[1..]);
      assert forall k :: 0 <= k < |s[1..]| ==> s[1..][k] == s[k + 1];
    }
  }

  /** The test of the first step of `correct`: the mention equals the misspelt name once
      digits, dots and hyphens are taken out of both, possibly with `the` in front. */
  predicate PunctMatch(u: string, mention: string) {
    var m := StripPunct(mention);
    var v := StripPunct(u);
    m == v || m == "the" + v
  }

  /** `if(!otherMentions.includes(author)) otherMentions.unshift(author)` */
  function WithAuthor(author: string, mentions: seq<string>): (r: seq<string>)
    ensures author in r
    ensures forall x :: x in r <==> x == author || x in mentions
    ensures author in mentions ==> r == mentions
    ensures author !in mentions ==> r == [author] + mentions && r[0] == author
  {
    if author in mentions then mentions else [author] + mentions
  }

  /** The author, when not already mentioned and matching the test, is what `find`
      returns: it is put in front of the others. */
  lemma AuthorFoundFirst(author: string, others: seq<string>, p: string -> bool)
    ensures author !in others && p(author) ==> Find(WithAuthor(author, others), p) == Some(author)
  {
  }

  /** Index of the first element satisfying `p`, `|xs|` when there is none. */
  function FindIndex<T>(xs: seq<T>, p: T -> bool): (i: nat)
    ensures i <= |xs|
    ensures forall k :: 0 <= k < i ==> !p(xs[k])
    ensures i < |xs| ==> p(xs[i])
    decreases |xs|
  {
    if |xs| == 0 then 0 else if p(xs[0]) then 0 else 1 + FindIndex(xs[1..], p)
  }

  /** `xs.find(p)`: the first element satisfying `p`, if any. */
  function Find<T>(xs: seq<T>, p: T -> bool): Option<T> {
    var i := FindIndex(xs, p);
    if i < |xs| then Some(xs[i]) else None
  }

  /** `if(suggestion)`: a found name counts only when it is not the empty string. */
  predicate Truthy(found: Option<string>) {
    found.Some? && found.value != ""
  }

  /** `xs.find(p)` is the element before which nothing satisfies `p`. */
  lemma FindSpec<T>(xs: seq<T>, p: T -> bool)
    ensures Find(xs, p).None? <==> forall k :: 0 <= k < |xs| ==> !p(xs[k])
    ensures Find(xs, p).Some? ==>
      exists i :: 0 <= i < |xs| && xs[i] == Find(xs, p).value && p(xs[i]) && forall k :: 0 <= k < i ==> !p(xs[k])
  {
    var i := FindIndex(xs, p);
    if i < |xs| {
      assert xs[i] == Find(xs, p).value;
    }
  }

  /** What `find` returns is an element of the array. */
  lemma FindIn<T>(xs: seq<T>, p: T -> bool)
    ensures Find(xs, p).Some? ==> Find(xs, p).value in xs
  {
    var i := FindIndex(xs, p);
    if i < |xs| {
      assert xs[i] in xs;
    }
  }

  /** The head of a sorted non-empty array is one of its elements. */
  lemma SortDescFirstIn<T>(xs: seq<T>, key: T -> int)
    requires |xs| > 0
    ensures SortDesc(xs, key)[0] in xs
  {
    var r := SortDesc(xs, key);
    assert r[0] in multiset(r);
  }

  /** Position of the first element of highest key. */
  function FirstMaxIndex<T>(xs: seq<T>, key: T -> int): (i: nat)
    requires |xs| > 0
    ensures i < |xs|
    ensures forall k :: 0 <= k < |xs| ==> key(xs[k]) <= key(xs[i])
    ensures forall k :: 0 <= k < i ==> key(xs[k]) < key(xs[i])
    decreases |xs|
  {
    if |xs| == 1 then 0
    else
      var j := FirstMaxIndex(xs[1..], key);
      if key(xs[1..][j]) <= key(xs[0]) then 0 else 1 + j
  }

  /** The stable insertion of `x` ahead of the rest: before the first element whose key
      is not larger than its own. */
  function InsertDesc<T>(x: T, sorted: seq<T>, key: T -> int): (r: seq<T>)
    ensures |r| == |sorted| + 1
    ensures multiset(r) == multiset(sorted) + multiset{x}
    decreases |sorted|
  {
    if |sorted| == 0 || key(sorted[0]) <= key(x) then [x] + sorted
    else
      assert sorted == [sorted[0]] + sorted[1..];
      [sorted[0]] + InsertDesc(x, sorted[1..], key)
  }

  /** `xs.sort((a, b) => key(b) - key(a))`: a stable sort by decreasing key. */
  function SortDesc<T>(xs: seq<T>, key: T -> int): (r: seq<T>)
    ensures |r| == |xs|
    ensures multiset(r) == multiset(xs)
    decreases |xs|
  {
    if |xs| == 0 then []
    else
      assert xs == [xs[0]] + xs[1..];
      InsertDesc(xs[0], SortDesc(xs[1..], key), key)
  }

  /** How a promise returned by `correct` ends: resolved with a reply (`null` is `None`),
      rejected by an exception, or never settled. */
  datatype Outcome = Resolved(reply: Option<string>) | Rejected | NeverSettles

  predicate SortedDesc<T>(xs: seq<T>, key: T -> int) {
    forall i, j :: 0 <= i < j < |xs| ==> key(xs[i]) >= key(xs[j])
  }

  lemma {:induction false} InsertDescSorted<T>(x: T, sorted: seq<T>, key: T -> int)
    requires SortedDesc(sorted, key)
    ensures SortedDesc(InsertDesc(x, sorted, key), key)
    decreases |sorted|
  {
    if |sorted| > 0 && key(sorted[0]) > key(x) {
      InsertDescSorted(x, sorted[1..], key);
      var t := InsertDesc(x, sorted[1..], key);
      InsertDescBound(x, sorted[1..], key, key(sorted[0]));
      var r := InsertDesc(x, sorted, key);
      assert r == [sorted[0]] + t;
      forall i, j | 0 <= i < j < |r| ensures key(r[i]) >= key(r[j]) {
        assert r[j] == t[j - 1];
        if i > 0 {
          assert r[i] == t[i - 1];
        }
      }
    }
  }

  /** Inserting a key no larger than `b` among keys no larger than `b` keeps them so. */
  lemma {:induction false} InsertDescBound<T>(x: T, s: seq<T>, key: T -> int, b: int)
    requires key(x) <= b
    requires forall k :: 0 <= k < |s| ==> key(s[k]) <= b
    ensures forall k :: 0 <= k < |s| + 1 ==> key(InsertDesc(x, s, key)[k]) <= b
    decreases |s|
  {
    var r := InsertDesc(x, s, key);
    if |s| == 0 || key(s[0]) <= key(x) {
      assert r == [x] + s;
      forall k | 0 < k < |r| ensures key(r[k]) <= b {
        assert r[k] == s[k - 1];
      }
    } else {
      InsertDescBound(x, s[1..], key, b);
      var t := InsertDesc(x, s[1..], key);
      assert r == [s[0]] + t;
      forall k | 0 < k < |r| ensures key(r[k]) <= b {
        assert r[k] == t[k - 1];
      }
    }
  }

  /** The sort is a permutation ordered by decreasing key. */
  lemma {:induction false} SortDescSorted<T>(xs: seq<T>, key: T -> int)
    ensures SortedDesc(SortDesc(xs, key), key)
    decreases |xs|
  {
    if |xs| > 0 {
      SortDescSorted(xs[1..], key);
      InsertDescSorted(xs[0], SortDesc(xs[1..], key), key);
    }
  }

  /** Because the sort is stable, its first element is the first element of highest key. */
  lemma {:induction false} SortDescHead<T>(xs: seq<T>, key: T -> int)
    requires |xs| > 0
    ensures SortDesc(xs, key)[0] == xs[FirstMaxIndex(xs, key)]
    decreases |xs|
  {
    if |xs| > 1 {
      SortDescHead(xs[1..], key);
    }
  }
}
