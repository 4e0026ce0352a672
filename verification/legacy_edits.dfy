/** The list-based edit generators of the oldest checker (username-checker.js):
    `getDeletes`, `getTransposes`, `getReplaces`, `getInserts`, `edits1` (`_.union` of
    the four lists) and `edits2` (`_.uniq` of the concatenated `edits1` lists).
    `getDeletes` and `getInserts` are the generators of `Edits`; `getTransposes` and
    `getReplaces` lack the "different character" tests of their later versions. */
module LegacyEdits {
  import opened Helper
  import opened Edits

  /** `getTransposes`: every position, exchanged with its successor, equal or not. */
  function LegacyTransposes(u: string): seq<string> {
    seq(|u|, i requires 0 <= i < |u| => TransposeAt(u, i))
  }

  /** The inner loop of `getReplaces` at position `i`: every character of `cs`. */
  function LegacyReplacesAt(u: string, i: nat, cs: string): seq<string>
    requires i < |u|
  {
    seq(|cs|, j requires 0 <= j < |cs| => Replace(u, i, cs[j]))
  }

  function LegacyReplacesFrom(u: string, i: nat, cs: string): seq<string>
    requires i <= |u|
    decreases |u| - i
  {
    if i == |u| then [] else LegacyReplacesAt(u, i, cs) + LegacyReplacesFrom(u, i + 1, cs)
  }

  /** `getReplaces(username, characters)` */
  function LegacyReplaces(u: string, cs: string): seq<string> {
    LegacyReplacesFrom(u, 0, cs)
  }

  /** `edits1(username)`: `_.union(deletes, transposes, replaces, inserts)`. */
  function LegacyEdits1(u: string): seq<string> {
    LegacyEdits1With(u, Alphabet)
  }

  /** The body of `edits1`, with `characters` as a parameter. */
  function LegacyEdits1With(u: string, cs: string): seq<string> {
    Merge([Deletes(u), LegacyTransposes(u), LegacyReplaces(u, cs), Inserts(u, cs)])
  }

  /** The loop of `edits2`: the `edits1` lists of `es`, concatenated in order. */
  function ConcatEdits1(es: seq<string>): seq<string>
    decreases |es|
  {
    if |es| == 0 then [] else LegacyEdits1(es[0]) + ConcatEdits1(es[1..])
  }

  /** `edits2(edits)`: `_.uniq` of the concatenation, first occurrences kept. */
  function LegacyEdits2(es: seq<string>): seq<string> {
    PushAll([], ConcatEdits1(es))
  }

  /** Exchanging two equal neighbours gives the string back. */
  lemma SwapOfEqualIsSame(x: string, u: string, p: int)
    requires IsSwapAt(x, u, p) && u[p] == u[p + 1]
    ensures x == u
  {
  }

  /** Two exchanges at the same position give the same string. */
  lemma LegacyTransposeAt(u: string, i: int)
    requires 0 <= i < |u|
    ensures i < |u| - 1 ==> IsSwapAt(LegacyTransposes(u)[i], u, i)
    ensures i == |u| - 1 ==> LegacyTransposes(u)[i] == u
  {
    if i < |u| - 1 {
      TransposeAtSwaps(u, i);
    } else {
      TransposeAtLast(u);
    }
  }

  lemma LegacyTransposesSound(u: string, i: int)
    requires 0 <= i < |u|
    ensures var x := LegacyTransposes(u)[i];
      x == u || (IsSwapAt(x, u, i) && u[i] != u[i + 1])
  {
    LegacyTransposeAt(u, i);
    if i < |u| - 1 && u[i] == u[i + 1] {
      SwapOfEqualIsSame(LegacyTransposes(u)[i], u, i);
    }
  }

  lemma LegacyTransposesComplete(u: string, x: string, p: int)
    requires IsSwapAt(x, u, p)
    ensures x in LegacyTransposes(u)
  {
    LegacyTransposeAt(u, p);
    SwapUnique(x, LegacyTransposes(u)[p], u, p);
  }

  lemma LegacyTransposesMember(u: string, x: string)
    ensures x in LegacyTransposes(u) <==>
      (|u| > 0 && x == u) || exists p :: IsSwapAt(x, u, p) && u[p] != u[p + 1]
  {
    if x in LegacyTransposes(u) {
      var i :| 0 <= i < |u| && LegacyTransposes(u)[i] == x;
      LegacyTransposesSound(u, i);
    }
    if |u| > 0 && x == u {
      LegacyTransposeAt(u, |u| - 1);
    }
    if p :| IsSwapAt(x, u, p) && u[p] != u[p + 1] {
      LegacyTransposesComplete(u, x, p);
    }
  }

  /** `getTransposes` yields `u` itself at every position whose character equals the next
      one and at the last position, and otherwise the exchanges of distinct neighbours. */
  lemma LegacyTransposesSpec(u: string)
    ensures |LegacyTransposes(u)| == |u|
    ensures forall i :: 0 <= i < |u| - 1 && u[i] == u[i + 1] ==> LegacyTransposes(u)[i] == u
    ensures forall x :: x in LegacyTransposes(u) <==>
      (|u| > 0 && x == u) || exists p :: IsSwapAt(x, u, p) && u[p] != u[p + 1]
  {
    forall i | 0 <= i < |u| - 1 && u[i] == u[i + 1]
      ensures LegacyTransposes(u)[i] == u
    {
      LegacyTransposeAt(u, i);
      SwapOfEqualIsSame(LegacyTransposes(u)[i], u, i);
    }
    forall x ensures x in LegacyTransposes(u) <==>
      (|u| > 0 && x == u) || exists p :: IsSwapAt(x, u, p) && u[p] != u[p + 1]
    {
      LegacyTransposesMember(u, x);
    }
  }

  lemma LegacyReplacesAtSpec(u: string, i: nat, cs: string, x: string)
    requires i < |u|
    ensures x in LegacyReplacesAt(u, i, cs) <==>
      (IsReplacementAt(x, u, i) && x[i] in cs) || (x == u && u[i] in cs)
  {
    if IsReplacementAt(x, u, i) && x[i] in cs {
      var j :| 0 <= j < |cs| && cs[j] == x[i];
      assert x == Replace(u, i, cs[j]);
      assert LegacyReplacesAt(u, i, cs)[j] == x;
    }
    if x == u && u[i] in cs {
      var j :| 0 <= j < |cs| && cs[j] == u[i];
      assert u == Replace(u, i, cs[j]);
      assert LegacyReplacesAt(u, i, cs)[j] == x;
    }
    if x in LegacyReplacesAt(u, i, cs) {
      var j :| 0 <= j < |cs| && LegacyReplacesAt(u, i, cs)[j] == x;
      if cs[j] == u[i] {
        assert x == u;
      }
    }
  }

  lemma {:induction false} LegacyReplacesFromSpec(u: string, i: nat, cs: string)
    requires i <= |u|
    ensures |LegacyReplacesFrom(u, i, cs)| == |cs| * (|u| - i)
    ensures forall x :: x in LegacyReplacesFrom(u, i, cs) <==>
      (exists p :: i <= p && IsReplacementAt(x, u, p) && x[p] in cs)
      || (x == u && exists p :: i <= p < |u| && u[p] in cs)
    decreases |u| - i
  {
    if i < |u| {
      LegacyReplacesFromSpec(u, i + 1, cs);
      MulStep(|cs|, |u| - (i + 1), |u| - i);
      forall x ensures x in LegacyReplacesFrom(u, i, cs) <==>
        (exists p :: i <= p && IsReplacementAt(x, u, p) && x[p] in cs)
        || (x == u && exists p :: i <= p < |u| && u[p] in cs)
      {
        LegacyReplacesAtSpec(u, i, cs, x);
      }
    }
  }

  /** `getReplaces` yields `|cs|` strings per position, and `u` itself as soon as one of
      its characters is in `cs` (it does not skip a character replaced by itself). */
  lemma LegacyReplacesSpec(u: string, cs: string)
    ensures |LegacyReplaces(u, cs)| == |cs| * |u|
    ensures forall x :: x in LegacyReplaces(u, cs) <==>
      (exists p :: IsReplacementAt(x, u, p) && x[p] in cs)
      || (x == u && exists p :: 0 <= p < |u| && u[p] in cs)
  {
    LegacyReplacesFromSpec(u, 0, cs);
  }

  lemma LegacyCandidateSpec(u: string, cs: string, x: string)
    ensures x in Deletes(u) || x in LegacyTransposes(u) || x in LegacyReplaces(u, cs) || x in Inserts(u, cs)
      <==> OneEditAway(x, u, cs)
  {
    DeletesSpec(u);
    LegacyTransposesSpec(u);
    LegacyReplacesSpec(u, cs);
    InsertsSpec(u, cs);
  }

  /** The oldest `edits1` holds no string twice and has exactly the members of the later
      `edits1` run without the validity filter: dropping the two "different character"
      tests only adds `u` itself, which the last transposition yields anyway. */
  lemma LegacyEdits1Spec(u: string)
    ensures NoDup(LegacyEdits1(u))
    ensures forall x :: x in LegacyEdits1(u) <==> OneEditAway(x, u, Alphabet)
    ensures forall x :: x in LegacyEdits1(u) <==> x in Edits1([], u, false)
  {
    LegacyEdits1WithSpec(u, Alphabet);
    Edits1Spec([], u, false);
  }

  lemma LegacyEdits1WithSpec(u: string, cs: string)
    ensures NoDup(LegacyEdits1With(u, cs))
    ensures forall x :: x in LegacyEdits1With(u, cs) <==> OneEditAway(x, u, cs)
  {
    var lists := [Deletes(u), LegacyTransposes(u), LegacyReplaces(u, cs), Inserts(u, cs)];
    MergeSpec(lists);
    forall x ensures x in LegacyEdits1With(u, cs) <==> OneEditAway(x, u, cs) {
      LegacyCandidateSpec(u, cs, x);
      assert (exists i :: 0 <= i < |lists| && x in lists[i]) <==>
        x in lists[0] || x in lists[1] || x in lists[2] || x in lists[3];
    }
  }

  /** The misspelt name is among its own one-edit candidates whenever it is not empty. */
  lemma OriginalAmongLegacyEdits1(u: string)
    requires |u| > 0
    ensures u in LegacyEdits1(u)
  {
    LegacyEdits1Spec(u);
  }

  lemma {:induction false} ConcatEdits1Members(es: seq<string>, x: string)
    ensures x in ConcatEdits1(es) <==> exists e :: e in es && OneEditAway(x, e, Alphabet)
    decreases |es|
  {
    if |es| > 0 {
      ConcatEdits1Members(es[1..], x);
      LegacyEdits1Spec(es[0]);
      if e :| e in es && OneEditAway(x, e, Alphabet) {
        if e != es[0] {
          assert e in es[1..];
        }
      }
      if e :| e in es[1..] && OneEditAway(x, e, Alphabet) {
        assert e in es;
      }
    }
  }

  /** The oldest `edits2` holds no string twice and, with no validity filter, every
      string one edit away from some member of `es`. */
  lemma LegacyEdits2Spec(es: seq<string>)
    ensures NoDup(LegacyEdits2(es))
    ensures forall x :: x in LegacyEdits2(es) <==> exists e :: e in es && OneEditAway(x, e, Alphabet)
  {
    forall x ensures x in LegacyEdits2(es) <==> exists e :: e in es && OneEditAway(x, e, Alphabet) {
      ConcatEdits1Members(es, x);
    }
  }
}
