/** The edit generators shared, line for line, by utils/checker.js and
    utils/username-checker.js: `deletes`, `transposes`, `replaces`, `inserts`,
    `edits1` and `edits2`. An edit set (a JavaScript `Set`) is an insertion-ordered,
    duplicate-free sequence; each generator is the sequence of candidates its loop
    offers, in loop order, and `AddEach` is the loop body that adds a candidate
    (when `mustBeValid` is false or the candidate passes the username rule). */
module Edits {
  import opened Helper
  import opened UsernameRule

  /** The `characters` array of `edits1`. */
  const Alphabet: string := "abcdefghijklmnopqrstuvwxyz0123456789.-"

  lemma AlphabetFacts()
    ensures |Alphabet| == 38
  {
  }

  function Delete(u: string, i: nat): string
    requires i < |u|
  {
    u[..i] + u[i + 1..]
  }

  function Insert(u: string, i: nat, c: char): string
    requires i <= |u|
  {
    u[..i] + [c] + u[i..]
  }

  function Replace(u: string, i: nat, c: char): string
    requires i < |u|
  {
    u[..i] + [c] + u[i + 1..]
  }

  // ----- the characterisations the generators are checked against -----

  /** `x` is `u` without its character at `i`. */
  predicate IsDeletionAt(x: string, u: string, i: int) {
    && |x| + 1 == |u| && 0 <= i < |u|
    && (forall k :: 0 <= k < i ==> x[k] == u[k])
    && (forall k :: i <= k < |x| ==> x[k] == u[k + 1])
  }

  /** `x` is `u` with one character put in at `i`. */
  predicate IsInsertionAt(x: string, u: string, i: int) {
    && |x| == |u| + 1 && 0 <= i <= |u|
    && (forall k :: 0 <= k < i ==> x[k] == u[k])
    && (forall k :: i < k < |x| ==> x[k] == u[k - 1])
  }

  /** `x` differs from `u` at position `i` and nowhere else. */
  predicate IsReplacementAt(x: string, u: string, i: int) {
    && |x| == |u| && 0 <= i < |u|
    && x[i] != u[i]
    && (forall k :: 0 <= k < |u| && k != i ==> x[k] == u[k])
  }

  /** `x` is `u` with the characters at `i` and `i + 1` exchanged. */
  predicate IsSwapAt(x: string, u: string, i: int) {
    && |x| == |u| && 0 <= i && i + 1 < |u|
    && x[i] == u[i + 1] && x[i + 1] == u[i]
    && (forall k :: 0 <= k < |u| && k != i && k != i + 1 ==> x[k] == u[k])
  }

  // ----- deletes -----

  /** `deletes`: removing each position in turn. */
  function Deletes(u: string): seq<string> {
    seq(|u|, i requires 0 <= i < |u| => Delete(u, i))
  }

  /** `deletes` offers exactly the `|u|` one-character removals, position by position. */
  lemma DeletesSpec(u: string)
    ensures |Deletes(u)| == |u|
    ensures forall i :: 0 <= i < |u| ==> IsDeletionAt(Deletes(u)[i], u, i)
    ensures forall x :: x in Deletes(u) <==> exists i :: IsDeletionAt(x, u, i)
  {
    forall x ensures x in Deletes(u) <==> exists i :: IsDeletionAt(x, u, i) {
      if x in Deletes(u) {
        var i :| 0 <= i < |u| && Deletes(u)[i] == x;
        assert IsDeletionAt(x, u, i);
      }
      if i :| IsDeletionAt(x, u, i) {
        assert x == Delete(u, i);
        assert Deletes(u)[i] == x;
      }
    }
  }

  // ----- inserts -----

  /** The inner loop of `inserts` at position `i`: each character of `cs` in turn. */
  function InsertsAt(u: string, i: nat, cs: string): seq<string>
    requires i <= |u|
  {
    seq(|cs|, j requires 0 <= j < |cs| => Insert(u, i, cs[j]))
  }

  /** The outer loop of `inserts`, from position `i` on. */
  function InsertsFrom(u: string, i: nat, cs: string): seq<string>
    requires i <= |u| + 1
    decreases |u| + 1 - i
  {
    if i == |u| + 1 then [] else InsertsAt(u, i, cs) + InsertsFrom(u, i + 1, cs)
  }

  /** `inserts(username, edits, characters, ...)` */
  function Inserts(u: string, cs: string): seq<string> {
    InsertsFrom(u, 0, cs)
  }

  lemma InsertsAtSpec(u: string, i: nat, cs: string, x: string)
    requires i <= |u|
    ensures x in InsertsAt(u, i, cs) <==> IsInsertionAt(x, u, i) && x[i] in cs
  {
    if IsInsertionAt(x, u, i) && x[i] in cs {
      var j :| 0 <= j < |cs| && cs[j] == x[i];
      assert x == Insert(u, i, cs[j]);
      assert InsertsAt(u, i, cs)[j] == x;
    }
  }

  lemma InsertsFromSpec(u: string, i: nat, cs: string)
    requires i <= |u| + 1
    ensures |InsertsFrom(u, i, cs)| == |cs| * (|u| + 1 - i)
    ensures forall x :: x in InsertsFrom(u, i, cs) <==> exists p :: i <= p && IsInsertionAt(x, u, p) && x[p] in cs
  {
    InsertsFromCount(u, i, cs);
    forall x ensures x in InsertsFrom(u, i, cs) <==> exists p :: i <= p && IsInsertionAt(x, u, p) && x[p] in cs {
      InsertsFromMember(u, i, cs, x);
    }
  }

  lemma {:induction false} InsertsFromCount(u: string, i: nat, cs: string)
    requires i <= |u| + 1
    ensures |InsertsFrom(u, i, cs)| == |cs| * (|u| + 1 - i)
    decreases |u| + 1 - i
  {
    if i <= |u| {
      InsertsFromCount(u, i + 1, cs);
      var a, b := InsertsAt(u, i, cs), InsertsFrom(u, i + 1, cs);
      assert InsertsFrom(u, i, cs) == a + b;
      CountStep(|a|, |b|, |cs|, |u| + 1 - i);
    }
  }

  lemma {:induction false} InsertsFromMember(u: string, i: nat, cs: string, x: string)
    requires i <= |u| + 1
    ensures x in InsertsFrom(u, i, cs) <==> exists p :: i <= p && IsInsertionAt(x, u, p) && x[p] in cs
    decreases |u| + 1 - i
  {
    if i <= |u| {
      InsertsFromMember(u, i + 1, cs, x);
      InsertsAtSpec(u, i, cs, x);
      assert InsertsFrom(u, i, cs) == InsertsAt(u, i, cs) + InsertsFrom(u, i + 1, cs);
      InsertionFromSplit(u, i, cs, x);
    }
  }

  /** An insertion at `i` or later is one at `i` or one at `i + 1` or later. */
  lemma InsertionFromSplit(u: string, i: nat, cs: string, x: string)
    ensures (exists p :: i <= p && IsInsertionAt(x, u, p) && x[p] in cs) <==>
      (IsInsertionAt(x, u, i) && x[i] in cs) || exists p :: i + 1 <= p && IsInsertionAt(x, u, p) && x[p] in cs
  {
    if exists p :: i <= p && IsInsertionAt(x, u, p) && x[p] in cs {
      var p :| i <= p && IsInsertionAt(x, u, p) && x[p] in cs;
      if p != i {
        assert i + 1 <= p;
      }
    }
  }

  /** `inserts` offers `|cs| * (|u| + 1)` strings (38 per position with the alphabet):
      exactly the insertions of a character of `cs` at one of the `|u| + 1` positions. */
  lemma InsertsSpec(u: string, cs: string)
    ensures |Inserts(u, cs)| == |cs| * (|u| + 1)
    ensures forall x :: x in Inserts(u, cs) <==> exists i :: IsInsertionAt(x, u, i) && x[i] in cs
  {
    InsertsFromSpec(u, 0, cs);
  }

  // ----- replaces -----

  /** The inner loop of `replaces` at position `i`, over the characters `cs`:
      a character equal to `u[i]` is skipped. */
  function ReplacesAt(u: string, i: nat, cs: string): seq<string>
    requires i < |u|
    decreases |cs|
  {
    if |cs| == 0 then []
    else (if u[i] != cs[0] then [Replace(u, i, cs[0])] else []) + ReplacesAt(u, i, cs[1..])
  }

  /** The outer loop of `replaces`, from position `i` on. */
  function ReplacesFrom(u: string, i: nat, cs: string): seq<string>
    requires i <= |u|
    decreases |u| - i
  {
    if i == |u| then [] else ReplacesAt(u, i, cs) + ReplacesFrom(u, i + 1, cs)
  }

  /** `replaces(username, edits, characters, ...)` */
  function Replaces(u: string, cs: string): seq<string> {
    ReplacesFrom(u, 0, cs)
  }

  lemma {:induction false} ReplacesAtCount(u: string, i: nat, cs: string)
    requires i < |u|
    requires NoDup(cs)
    ensures |ReplacesAt(u, i, cs)| == |cs| - (if u[i] in cs then 1 else 0)
    decreases |cs|
  {
    if |cs| > 0 {
      assert NoDup(cs[1..]);
      ReplacesAtCount(u, i, cs[1..]);
      assert cs[0] !in cs[1..];
      assert u[i] in cs <==> u[i] == cs[0] || u[i] in cs[1..];
    }
  }

  lemma {:induction false} ReplacesAtMembers(u: string, i: nat, cs: string)
    requires i < |u|
    ensures forall x :: x in ReplacesAt(u, i, cs) <==> IsReplacementAt(x, u, i) && x[i] in cs
    decreases |cs|
  {
    if |cs| > 0 {
      ReplacesAtMembers(u, i, cs[1..]);
      assert forall c :: c in cs <==> c == cs[0] || c in cs[1..];
      forall x ensures x in ReplacesAt(u, i, cs) <==> IsReplacementAt(x, u, i) && x[i] in cs {
        if IsReplacementAt(x, u, i) && x[i] == cs[0] {
          assert x == Replace(u, i, cs[0]);
        }
      }
    }
  }

  lemma MulStep(m: int, k: int, k1: int)
    requires k1 == k + 1
    ensures m * k1 == m + m * k
  {
  }

  /** `m` added `n` times, without the solver's non-linear arithmetic. */
  function Times(m: int, n: nat): int {
    if n == 0 then 0 else m + Times(m, n - 1)
  }

  lemma {:induction false} TimesIsProduct(m: int, n: nat)
    ensures Times(m, n) == m * n
  {
    if n > 0 {
      TimesIsProduct(m, n - 1);
      MulStep(m, n - 1, n);
    }
  }

  /** `m` strings for the first position and `m` for each of the other `n - 1`. */
  lemma CountStep(la: int, lb: int, m: int, n: int)
    requires la == m && lb == m * (n - 1)
    ensures la + lb == m * n
  {
    MulStep(m, n - 1, n);
  }

  /** The positions from `i` on whose character is one of `cs`. */
  function Hits(u: string, i: nat, cs: string): (r: nat)
    requires i <= |u|
    ensures r <= |u| - i
    decreases |u| - i
  {
    if i == |u| then 0 else (if u[i] in cs then 1 else 0) + Hits(u, i + 1, cs)
  }

  /** With duplicate-free `cs`, each position offers every character of `cs` but the one
      it holds. */
  lemma {:induction false} ReplacesFromCount(u: string, i: nat, cs: string)
    requires i <= |u|
    requires NoDup(cs)
    ensures |ReplacesFrom(u, i, cs)| == Times(|cs|, |u| - i) - Hits(u, i, cs)
    decreases |u| - i
  {
    if i < |u| {
      ReplacesFromCount(u, i + 1, cs);
      ReplacesAtCount(u, i, cs);
      ReplacesFromLength(u, i, cs);
    }
  }

  lemma {:induction false} HitsAll(u: string, i: nat, cs: string)
    requires i <= |u|
    requires forall k :: i <= k < |u| ==> u[k] in cs
    ensures Hits(u, i, cs) == |u| - i
    decreases |u| - i
  {
    if i < |u| {
      HitsAll(u, i + 1, cs);
    }
  }

  lemma ReplacesFromLength(u: string, i: nat, cs: string)
    requires i < |u|
    ensures |ReplacesFrom(u, i, cs)| == |ReplacesAt(u, i, cs)| + |ReplacesFrom(u, i + 1, cs)|
  {
  }

  lemma {:induction false} ReplacesFromMembers(u: string, i: nat, cs: string)
    requires i <= |u|
    ensures forall x :: x in ReplacesFrom(u, i, cs) <==> exists p :: i <= p && IsReplacementAt(x, u, p) && x[p] in cs
    decreases |u| - i
  {
    if i < |u| {
      ReplacesFromMembers(u, i + 1, cs);
      ReplacesAtMembers(u, i, cs);
    }
  }

  /** `replaces` offers exactly the strings that differ from `u` in one position, where
      they hold a character of `cs` (so never `u` itself); with duplicate-free `cs` and `u`
      spelled in `cs`, `|cs| - 1` per position (37 with the alphabet). */
  lemma ReplacesSpec(u: string, cs: string)
    ensures NoDup(cs) && (forall k :: 0 <= k < |u| ==> u[k] in cs) ==> |Replaces(u, cs)| == (|cs| - 1) * |u|
    ensures forall x :: x in Replaces(u, cs) <==> exists p :: IsReplacementAt(x, u, p) && x[p] in cs
    ensures u !in Replaces(u, cs)
  {
    ReplacesFromMembers(u, 0, cs);
    if NoDup(cs) && forall k :: 0 <= k < |u| ==> u[k] in cs {
      ReplacesFromCount(u, 0, cs);
      HitsAll(u, 0, cs);
      TimesIsProduct(|cs|, |u|);
      MulStep(|u|, |cs| - 1, |cs|);
    }
  }

  // ----- transposes -----

  /** A JavaScript array of one-character strings; `None` is `undefined` (a hole, or a
      read past the end). */
  type CharArray = seq<Option<char>>

  /** `username.split('')` */
  function Splits(u: string): CharArray {
    seq(|u|, k requires 0 <= k < |u| => Some(u[k]))
  }

  /** `a[k]` */
  function Get(a: CharArray, k: nat): Option<char> {
    if k < |a| then a[k] else None
  }

  /** `a[k] = v`: writing past the end lengthens the array, with holes in between. */
  function Store(a: CharArray, k: nat, v: Option<char>): (r: CharArray)
    ensures |r| == if k < |a| then |a| else k + 1
  {
    if k < |a| then a[k := v] else a + seq(k - |a|, _ => None) + [v]
  }

  /** How `join` prints one entry: `undefined` prints as nothing. */
  function EntryText(e: Option<char>): string {
    if e.Some? then [e.value] else ""
  }

  /** `a.join('')` */
  function JoinChars(a: CharArray): string {
    if |a| == 0 then "" else EntryText(a[0]) + JoinChars(a[1..])
  }

  /** One pass of the `transposes` loop body: copy, exchange `i` and `i + 1`, join. */
  function TransposeAt(u: string, i: nat): string
    requires i < |u|
  {
    var s := Splits(u);
    JoinChars(Store(Store(s, i, Get(s, i + 1)), i + 1, Get(s, i)))
  }

  /** The `transposes` loop from `i` on: a position is used when `splits[i] !== splits[i+1]`. */
  function TransposesFrom(u: string, i: nat): seq<string>
    requires i <= |u|
    decreases |u| - i
  {
    if i == |u| then []
    else
      var s := Splits(u);
      (if Get(s, i) != Get(s, i + 1) then [TransposeAt(u, i)] else []) + TransposesFrom(u, i + 1)
  }

  /** `transposes` */
  function Transposes(u: string): seq<string> {
    TransposesFrom(u, 0)
  }

  lemma {:induction false} JoinCharsAppend(a: CharArray, b: CharArray)
    ensures JoinChars(a + b) == JoinChars(a) + JoinChars(b)
    decreases |a|
  {
    if |a| == 0 {
      assert a + b == b;
    } else {
      assert (a + b)[0] == a[0];
      assert (a + b)[1..] == a[1..] + b;
      JoinCharsAppend(a[1..], b);
    }
  }

  lemma {:induction false} JoinSplits(u: string)
    ensures JoinChars(Splits(u)) == u
    decreases |u|
  {
    if |u| > 0 {
      assert Splits(u)[1..] == Splits(u[1..]);
      JoinSplits(u[1..]);
    }
  }

  /** Before the last position, the loop body exchanges two neighbouring characters. */
  lemma TransposeAtSwaps(u: string, i: nat)
    requires i + 1 < |u|
    ensures IsSwapAt(TransposeAt(u, i), u, i)
  {
    var w := u[..i] + [u[i + 1], u[i]] + u[i + 2..];
    var s := Splits(u);
    assert Store(Store(s, i, Get(s, i + 1)), i + 1, Get(s, i)) == Splits(w);
    JoinSplits(w);
  }

  /** At the last position `splits[i+1]` is `undefined`: the copy gets a hole at `i` and the
      last character one place further on, so the joined string is `u` itself. */
  lemma TransposeAtLast(u: string)
    requires |u| > 0
    ensures TransposeAt(u, |u| - 1) == u
  {
    var n := |u|;
    var s := Splits(u);
    var t := Store(Store(s, n - 1, None), n, Some(u[n - 1]));
    assert t == Splits(u[..n - 1]) + [None] + [Some(u[n - 1])];
    JoinCharsAppend(Splits(u[..n - 1]) + [None], [Some(u[n - 1])]);
    JoinCharsAppend(Splits(u[..n - 1]), [None]);
    JoinSplits(u[..n - 1]);
    assert u[..n - 1] + [u[n - 1]] == u;
  }

  /** One exchange at a position determines the string. */
  lemma SwapUnique(x: string, y: string, u: string, p: int)
    requires IsSwapAt(x, u, p) && IsSwapAt(y, u, p)
    ensures x == y
  {
    assert forall k :: 0 <= k < |x| ==> x[k] == y[k];
  }

  lemma TransposesFromSpec(u: string, i: nat)
    requires i <= |u|
    ensures forall x :: x in TransposesFrom(u, i) <==>
      (i < |u| && x == u) || exists p :: i <= p && IsSwapAt(x, u, p) && u[p] != u[p + 1]
    ensures i < |u| ==> |TransposesFrom(u, i)| > 0 && TransposesFrom(u, i)[|TransposesFrom(u, i)| - 1] == u
  {
    if i < |u| {
      TransposesFromLast(u, i);
    }
    forall x ensures x in TransposesFrom(u, i) <==>
      (i < |u| && x == u) || exists p :: i <= p && IsSwapAt(x, u, p) && u[p] != u[p + 1]
    {
      TransposesFromMember(u, i, x);
    }
  }

  /** The last iteration offers `u` itself. */
  lemma {:induction false} TransposesFromLast(u: string, i: nat)
    requires i < |u|
    ensures |TransposesFrom(u, i)| > 0 && TransposesFrom(u, i)[|TransposesFrom(u, i)| - 1] == u
    decreases |u| - i
  {
    var s := Splits(u);
    var head := if Get(s, i) != Get(s, i + 1) then [TransposeAt(u, i)] else [];
    assert TransposesFrom(u, i) == head + TransposesFrom(u, i + 1);
    if i + 1 < |u| {
      TransposesFromLast(u, i + 1);
    } else {
      TransposeAtLast(u);
      assert TransposesFrom(u, i + 1) == [];
    }
  }

  lemma {:induction false} TransposesFromMember(u: string, i: nat, x: string)
    requires i <= |u|
    ensures x in TransposesFrom(u, i) <==>
      (i < |u| && x == u) || exists p :: i <= p && IsSwapAt(x, u, p) && u[p] != u[p + 1]
    decreases |u| - i
  {
    if i < |u| {
      TransposesFromMember(u, i + 1, x);
      var s := Splits(u);
      var head := if Get(s, i) != Get(s, i + 1) then [TransposeAt(u, i)] else [];
      assert TransposesFrom(u, i) == head + TransposesFrom(u, i + 1);
      if i + 1 < |u| {
        TransposeAtHead(u, i, x);
        SwapFromSplit(u, i, x);
      } else {
        TransposeAtLast(u);
        assert TransposesFrom(u, i + 1) == [];
        assert x in TransposesFrom(u, i) <==> x == u;
      }
    }
  }

  /** Away from the end, the string a position offers is its exchange, when the
      neighbours differ. */
  lemma TransposeAtHead(u: string, i: nat, x: string)
    requires i + 1 < |u|
    ensures var s := Splits(u);
      x in (if Get(s, i) != Get(s, i + 1) then [TransposeAt(u, i)] else []) <==>
      IsSwapAt(x, u, i) && u[i] != u[i + 1]
  {
    var s := Splits(u);
    TransposeAtSwaps(u, i);
    if IsSwapAt(x, u, i) {
      SwapUnique(x, TransposeAt(u, i), u, i);
    }
    assert Get(s, i) != Get(s, i + 1) <==> u[i] != u[i + 1];
  }

  /** An exchange at `i` or later is one at `i` or one at `i + 1` or later. */
  lemma SwapFromSplit(u: string, i: nat, x: string)
    ensures (exists p :: i <= p && IsSwapAt(x, u, p) && u[p] != u[p + 1]) <==>
      (IsSwapAt(x, u, i) && u[i] != u[i + 1]) || exists p :: i + 1 <= p && IsSwapAt(x, u, p) && u[p] != u[p + 1]
  {
    if exists p :: i <= p && IsSwapAt(x, u, p) && u[p] != u[p + 1] {
      var p :| i <= p && IsSwapAt(x, u, p) && u[p] != u[p + 1];
      if p != i {
        assert i + 1 <= p;
      }
    }
  }

  /** `transposes` offers the exchanges of distinct neighbours and, from its last
      iteration, `u` itself; `u` is the last string it offers. */
  lemma TransposesSpec(u: string)
    ensures forall x :: x in Transposes(u) <==>
      (|u| > 0 && x == u) || exists p :: IsSwapAt(x, u, p) && u[p] != u[p + 1]
    ensures |u| > 0 ==> |Transposes(u)| > 0 && Transposes(u)[|Transposes(u)| - 1] == u
  {
    TransposesFromSpec(u, 0);
  }

  // ----- edits1 and edits2 -----

  /** `x` is one edit away from `u` in the sense of the generators: a removal, an exchange
      of distinct neighbours, a replacement or insertion of an alphabet character, or
      (from the last iteration of `transposes`) `u` itself when it is not empty. */
  ghost predicate OneEditAway(x: string, u: string, cs: string) {
    || (exists i :: IsDeletionAt(x, u, i))
    || (|u| > 0 && x == u)
    || (exists i :: IsSwapAt(x, u, i) && u[i] != u[i + 1])
    || (exists i :: IsReplacementAt(x, u, i) && x[i] in cs)
    || (exists i :: IsInsertionAt(x, u, i) && x[i] in cs)
  }

  /** Everything the four generators offer for `u`, in the order `edits1` calls them. */
  function Candidates(u: string, cs: string): seq<string> {
    Deletes(u) + Transposes(u) + Replaces(u, cs) + Inserts(u, cs)
  }

  lemma CandidateSpec(u: string, cs: string, x: string)
    ensures x in Candidates(u, cs) <==> OneEditAway(x, u, cs)
  {
    assert x in Candidates(u, cs) <==>
      x in Deletes(u) || x in Transposes(u) || x in Replaces(u, cs) || x in Inserts(u, cs);
    DeletesSpec(u);
    TransposesSpec(u);
    ReplacesSpec(u, cs);
    InsertsSpec(u, cs);
  }

  /** The statement every generator ends its loop body with:
      `if(!mustBeValid || !unallowedUsernameRegex.test(x)) edits.add(x)`, for each `x` of `xs`. */
  function AddEach(edits: seq<string>, xs: seq<string>, mustBeValid: bool): seq<string>
    decreases |xs|
  {
    if |xs| == 0 then edits
    else AddEach(if !mustBeValid || !Unallowed(xs[0]) then Push(edits, xs[0]) else edits, xs[1..], mustBeValid)
  }

  lemma {:induction false} AddEachSpec(edits: seq<string>, xs: seq<string>, mustBeValid: bool)
    ensures edits <= AddEach(edits, xs, mustBeValid)
    ensures NoDup(edits) ==> NoDup(AddEach(edits, xs, mustBeValid))
    ensures forall x :: x in AddEach(edits, xs, mustBeValid) <==>
      x in edits || (x in xs && (!mustBeValid || !Unallowed(x)))
    decreases |xs|
  {
    if |xs| > 0 {
      var next := if !mustBeValid || !Unallowed(xs[0]) then Push(edits, xs[0]) else edits;
      AddEachSpec(next, xs[1..], mustBeValid);
      assert forall x :: x in xs <==> x == xs[0] || x in xs[1..];
      assert edits <= next;
      if NoDup(edits) && xs[0] !in edits {
        assert NoDup(edits + [xs[0]]);
      }
    }
  }

  /** `edits1(username, edits, mustBeValid)`: the four generators in turn, adding to `edits`. */
  function Edits1(edits: seq<string>, u: string, mustBeValid: bool): seq<string> {
    Edits1With(edits, u, Alphabet, mustBeValid)
  }

  /** The body of `edits1`, with `characters` as a parameter. */
  function Edits1With(edits: seq<string>, u: string, cs: string, mustBeValid: bool): seq<string> {
    var afterDeletes := AddEach(edits, Deletes(u), mustBeValid);
    var afterTransposes := AddEach(afterDeletes, Transposes(u), mustBeValid);
    var afterReplaces := AddEach(afterTransposes, Replaces(u, cs), mustBeValid);
    AddEach(afterReplaces, Inserts(u, cs), mustBeValid)
  }

  lemma Edits1WithSpec(edits: seq<string>, u: string, cs: string, mustBeValid: bool)
    ensures edits <= Edits1With(edits, u, cs, mustBeValid)
    ensures NoDup(edits) ==> NoDup(Edits1With(edits, u, cs, mustBeValid))
    ensures forall x :: x in Edits1With(edits, u, cs, mustBeValid) <==>
      x in edits || (OneEditAway(x, u, cs) && (!mustBeValid || !Unallowed(x)))
  {
    var afterDeletes := AddEach(edits, Deletes(u), mustBeValid);
    var afterTransposes := AddEach(afterDeletes, Transposes(u), mustBeValid);
    var afterReplaces := AddEach(afterTransposes, Replaces(u, cs), mustBeValid);
    AddEachSpec(edits, Deletes(u), mustBeValid);
    AddEachSpec(afterDeletes, Transposes(u), mustBeValid);
    AddEachSpec(afterTransposes, Replaces(u, cs), mustBeValid);
    AddEachSpec(afterReplaces, Inserts(u, cs), mustBeValid);
    forall x ensures x in Edits1With(edits, u, cs, mustBeValid) <==>
      x in edits || (OneEditAway(x, u, cs) && (!mustBeValid || !Unallowed(x)))
    {
      CandidateSpec(u, cs, x);
    }
  }

  /** `edits1` only ever adds: what was there stays first and in order, no string twice,
      and the new strings are exactly those one edit away from `u` (the valid ones, when
      `mustBeValid`). */
  lemma Edits1Spec(edits: seq<string>, u: string, mustBeValid: bool)
    ensures edits <= Edits1(edits, u, mustBeValid)
    ensures NoDup(edits) ==> NoDup(Edits1(edits, u, mustBeValid))
    ensures forall x :: x in Edits1(edits, u, mustBeValid) <==>
      x in edits || (OneEditAway(x, u, Alphabet) && (!mustBeValid || !Unallowed(x)))
  {
    Edits1WithSpec(edits, u, Alphabet, mustBeValid);
  }

  /** As `correct` calls it (`mustBeValid` false, from an empty set), `edits1` holds the
      misspelt name itself whenever it is not empty. */
  lemma OriginalAmongEdits1(u: string)
    requires |u| > 0
    ensures u in Edits1([], u, false)
  {
    Edits1Spec([], u, false);
  }

  /** The `forEach` of `edits2` from the edit `es[0]` on, adding to `ed2`; `cs` is the
      `characters` array each `edits1` call uses. */
  function Edits2Into(ed2: seq<string>, es: seq<string>, cs: string): seq<string>
    decreases |es|
  {
    if |es| == 0 then ed2 else Edits2Into(Edits1With(ed2, es[0], cs, true), es[1..], cs)
  }

  /** `edits2(edits)` */
  function Edits2(es: seq<string>): seq<string> {
    Edits2Into([], es, Alphabet)
  }

  lemma {:induction false} Edits2IntoSpec(ed2: seq<string>, es: seq<string>, cs: string)
    ensures NoDup(ed2) ==> NoDup(Edits2Into(ed2, es, cs))
    ensures forall x :: x in Edits2Into(ed2, es, cs) <==>
      x in ed2 || (!Unallowed(x) && exists e :: e in es && OneEditAway(x, e, cs))
    decreases |es|
  {
    if |es| > 0 {
      var next := Edits1With(ed2, es[0], cs, true);
      Edits1WithSpec(ed2, es[0], cs, true);
      Edits2IntoSpec(next, es[1..], cs);
      forall x ensures x in Edits2Into(ed2, es, cs) <==>
        x in ed2 || (!Unallowed(x) && exists e :: e in es && OneEditAway(x, e, cs))
      {
        if e :| e in es && OneEditAway(x, e, cs) {
          if e != es[0] {
            assert e in es[1..];
          }
        }
        if e :| e in es[1..] && OneEditAway(x, e, cs) {
          assert e in es;
        }
      }
    }
  }

  /** `edits2` holds no string twice, only strings the username rule accepts, and
      exactly the accepted strings one edit away from some member of `es`. */
  lemma Edits2Spec(es: seq<string>)
    ensures NoDup(Edits2(es))
    ensures forall x :: x in Edits2(es) ==> !Unallowed(x)
    ensures forall x :: x in Edits2(es) <==> !Unallowed(x) && exists e :: e in es && OneEditAway(x, e, Alphabet)
  {
    Edits2IntoSpec([], es, Alphabet);
  }
}
