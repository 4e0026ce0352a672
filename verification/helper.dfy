/** The array and string helpers of utils/helper.js, and the "add unless already
    present" idiom (`Set.prototype.add`, `if(!arr.includes(x)) arr.push(x)`) that the
    rest of the bot builds its insertion-ordered, duplicate-free collections with. */
module Helper {
  import opened JsText

  datatype Option<T> = None | Some(value: T)

  predicate NoDup<T(==,!new)>(s: seq<T>) {
    forall i, j :: 0 <= i < j < |s| ==> s[i] != s[j]
  }

  /** Adds `x` at the end unless it is already present. */
  function Push<T(==,!new)>(acc: seq<T>, x: T): seq<T> {
    if x in acc then acc else acc + [x]
  }

  /** Adds every element of `xs`, in order, with `Push`. */
  function PushAll<T(==,!new)>(acc: seq<T>, xs: seq<T>): (r: seq<T>)
    decreases |xs|
    ensures acc <= r
    ensures forall x :: x in r <==> x in acc || x in xs
    ensures NoDup(acc) ==> NoDup(r)
  {
    if |xs| == 0 then acc
    else
      var r := PushAll(Push(acc, xs[0]), xs[1..]);
      assert forall x :: x in xs <==> x == xs[0] || x in xs[1..];
      r
  }

  lemma {:induction false} PushAllAppend<T(!new)>(acc: seq<T>, xs: seq<T>, ys: seq<T>)
    ensures PushAll(acc, xs + ys) == PushAll(PushAll(acc, xs), ys)
    decreases |xs|
  {
    if |xs| == 0 {
      assert xs + ys == ys;
    } else {
      assert (xs + ys)[0] == xs[0];
      assert (xs + ys)[1..] == xs[1..] + ys;
      PushAllAppend(Push(acc, xs[0]), xs[1..], ys);
    }
  }

  /** Adding elements that are all new appends them unchanged. */
  lemma {:induction false} PushAllFresh<T(!new)>(acc: seq<T>, xs: seq<T>)
    requires NoDup(acc + xs)
    ensures PushAll(acc, xs) == acc + xs
    decreases |xs|
  {
    if |xs| > 0 {
      var s := acc + xs;
      assert s[|acc|] == xs[0];
      assert xs[0] !in acc by {
        forall i | 0 <= i < |acc| ensures acc[i] != xs[0] {
          assert s[i] == acc[i];
        }
      }
      assert acc + [xs[0]] + xs[1..] == acc + xs;
      PushAllFresh(acc + [xs[0]], xs[1..]);
    }
  }

  /** Position of the first occurrence of `x` in `xs`. */
  function FirstIndex<T(==,!new)>(xs: seq<T>, x: T): (i: nat)
    requires x in xs
    ensures i < |xs| && xs[i] == x && x !in xs[..i]
  {
    if xs[0] == x then 0
    else
      var j := FirstIndex(xs[1..], x);
      assert xs[..1 + j] == [xs[0]] + xs[1..][..j];
      1 + j
  }

  lemma {:induction false} FirstIndexUnique<T(!new)>(xs: seq<T>, x: T, i: nat)
    requires i < |xs| && xs[i] == x && x !in xs[..i]
    ensures FirstIndex(xs, x) == i
  {
    if i > 0 {
      assert xs[0] == xs[..i][0];
      assert xs[1..][..i - 1] == xs[..i][1..];
      FirstIndexUnique(xs[1..], x, i - 1);
    }
  }

  lemma FirstIndexOfPrefix<T(!new)>(xs: seq<T>, ys: seq<T>, x: T)
    requires x in xs
    ensures FirstIndex(xs + ys, x) == FirstIndex(xs, x)
  {
    var i := FirstIndex(xs, x);
    assert (xs + ys)[..i] == xs[..i];
    FirstIndexUnique(xs + ys, x, i);
  }

  /** Elements appear in the order of their first occurrence in `xs`. */
  ghost predicate FirstOccurrenceOrder<T(!new)>(r: seq<T>, xs: seq<T>) {
    && (forall x :: x in r ==> x in xs)
    && (forall i, j :: 0 <= i < j < |r| ==> FirstIndex(xs, r[i]) < FirstIndex(xs, r[j]))
  }

  /** Elements in strictly increasing order of first occurrence are distinct. */
  lemma OrderedNoDup<T(!new)>(r: seq<T>, xs: seq<T>)
    requires FirstOccurrenceOrder(r, xs)
    ensures NoDup(r)
  {
    forall i, j | 0 <= i < j < |r| ensures r[i] != r[j] {
      assert FirstIndex(xs, r[i]) < FirstIndex(xs, r[j]);
    }
  }

  /** Starting from nothing, `PushAll` keeps the first occurrence of each element, in order. */
  lemma {:induction false} PushAllOrder<T(!new)>(xs: seq<T>)
    ensures FirstOccurrenceOrder(PushAll([], xs), xs)
    decreases |xs|
  {
    if |xs| > 0 {
      var ys, y := xs[..|xs| - 1], xs[|xs| - 1];
      assert xs == ys + [y];
      PushAllAppend([], ys, [y]);
      PushAllOrder(ys);
      var r0 := PushAll([], ys);
      assert PushAll(r0, [y]) == Push(r0, y);
      OrderExtend(r0, ys, [y]);
      if y !in r0 {
        assert y !in ys;
        FirstIndexUnique(xs, y, |ys|) by {
          assert xs[..|ys|] == ys;
        }
        OrderAppendLater(r0, xs, y);
      }
    }
  }

  /** Elements ordered by first occurrence in `ys` stay so when `ys` is extended. */
  lemma OrderExtend<T(!new)>(r: seq<T>, ys: seq<T>, zs: seq<T>)
    requires FirstOccurrenceOrder(r, ys)
    ensures FirstOccurrenceOrder(r, ys + zs)
  {
    forall z | z in ys ensures FirstIndex(ys + zs, z) == FirstIndex(ys, z) {
      FirstIndexOfPrefix(ys, zs, z);
    }
  }

  /** An element first occurring after all of `r` can be appended to it. */
  lemma OrderAppendLater<T(!new)>(r: seq<T>, xs: seq<T>, y: T)
    requires FirstOccurrenceOrder(r, xs) && y in xs
    requires forall x :: x in r ==> FirstIndex(xs, x) < FirstIndex(xs, y)
    ensures FirstOccurrenceOrder(r + [y], xs)
  {
    var r' := r + [y];
    forall i, j | 0 <= i < j < |r'| ensures FirstIndex(xs, r'[i]) < FirstIndex(xs, r'[j]) {
      assert r'[i] == r[i];
      if j < |r| {
        assert r'[j] == r[j];
      }
    }
  }

  function Flatten<T>(xss: seq<seq<T>>): seq<T> {
    if |xss| == 0 then [] else xss[0] + Flatten(xss[1..])
  }

  lemma {:induction false} InFlatten<T>(xss: seq<seq<T>>, x: T)
    ensures x in Flatten(xss) <==> exists i :: 0 <= i < |xss| && x in xss[i]
  {
    if |xss| > 0 {
      InFlatten(xss[1..], x);
      if x in Flatten(xss[1..]) {
        var i :| 0 <= i < |xss[1..]| && x in xss[1..][i];
        assert x in xss[i + 1];
      }
      forall i | 0 <= i < |xss| && x in xss[i] ensures x in Flatten(xss) {
        if i > 0 {
          assert xss[1..][i - 1] == xss[i];
        }
      }
    }
  }

  /** `merge(...arrays)` from the first array on, with `acc` the elements collected so far. */
  function MergeInto<T(==,!new)>(acc: seq<T>, arrays: seq<seq<T>>): seq<T>
    decreases |arrays|
  {
    if |arrays| == 0 then acc else MergeInto(PushAll(acc, arrays[0]), arrays[1..])
  }

  function Merge<T(==,!new)>(arrays: seq<seq<T>>): seq<T> {
    MergeInto([], arrays)
  }

  lemma {:induction false} MergeIntoIsPushAll<T(!new)>(acc: seq<T>, arrays: seq<seq<T>>)
    ensures MergeInto(acc, arrays) == PushAll(acc, Flatten(arrays))
    decreases |arrays|
  {
    if |arrays| > 0 {
      MergeIntoIsPushAll(PushAll(acc, arrays[0]), arrays[1..]);
      PushAllAppend(acc, arrays[0], Flatten(arrays[1..]));
    }
  }

  /** `merge` returns each element of the arrays exactly once, in order of first occurrence. */
  lemma MergeSpec<T(!new)>(arrays: seq<seq<T>>)
    ensures NoDup(Merge(arrays))
    ensures forall x :: x in Merge(arrays) <==> exists i :: 0 <= i < |arrays| && x in arrays[i]
    ensures FirstOccurrenceOrder(Merge(arrays), Flatten(arrays))
  {
    MergeIntoIsPushAll([], arrays);
    PushAllOrder(Flatten(arrays));
    forall x ensures x in Merge(arrays) <==> exists i :: 0 <= i < |arrays| && x in arrays[i] {
      InFlatten(arrays, x);
    }
  }

  /** Merging a single duplicate-free array gives that array back. */
  lemma MergeSingle<T(!new)>(a: seq<T>)
    requires NoDup(a)
    ensures Merge([a]) == a
  {
    MergeIntoIsPushAll([], [a]);
    assert Flatten([a]) == a by {
      assert [a][1..] == [];
    }
    assert [] + a == a;
    PushAllFresh([], a);
  }

  /** Merging two arrays, the first duplicate-free, appends the new elements of the second. */
  lemma MergeTwo<T(!new)>(a: seq<T>, b: seq<T>)
    requires NoDup(a)
    ensures Merge([a, b]) == PushAll(a, b)
  {
    assert [a, b][1..] == [b];
    assert [b][1..] == [];
    PushAllFresh([], a);
    assert [] + a == a;
    calc {
      Merge([a, b]);
      MergeInto(PushAll([], a), [b]);
      MergeInto(PushAll(a, b), []);
    }
  }

  /** `uniqCompact(array)` from position 0 on, with `acc` the elements kept so far. */
  function UniqCompactInto<T(==,!new)>(acc: seq<T>, xs: seq<Option<T>>): seq<T>
    decreases |xs|
  {
    if |xs| == 0 then acc
    else
      var acc' := if xs[0].Some? && xs[0].value !in acc then acc + [xs[0].value] else acc;
      UniqCompactInto(acc', xs[1..])
  }

  function UniqCompact<T(==,!new)>(xs: seq<Option<T>>): seq<T> {
    UniqCompactInto([], xs)
  }

  /** The present (non-null) values of `xs`, in order. */
  function Values<T(!new)>(xs: seq<Option<T>>): (r: seq<T>)
    ensures forall x :: x in r <==> Some(x) in xs
  {
    if |xs| == 0 then []
    else
      var rest := Values(xs[1..]);
      assert forall o :: o in xs <==> o == xs[0] || o in xs[1..];
      if xs[0].Some? then [xs[0].value] + rest else rest
  }

  lemma {:induction false} UniqCompactIntoIsPushAll<T(!new)>(acc: seq<T>, xs: seq<Option<T>>)
    ensures UniqCompactInto(acc, xs) == PushAll(acc, Values(xs))
    decreases |xs|
  {
    if |xs| > 0 {
      UniqCompactIntoIsPushAll(if xs[0].Some? && xs[0].value !in acc then acc + [xs[0].value] else acc, xs[1..]);
      if xs[0].Some? {
        assert Values(xs) == [xs[0].value] + Values(xs[1..]);
        PushAllAppend(acc, [xs[0].value], Values(xs[1..]));
        assert [xs[0].value][1..] == [];
      }
    }
  }

  /** `uniqCompact` keeps every non-null value exactly once, in order of first occurrence. */
  lemma UniqCompactSpec<T(!new)>(xs: seq<Option<T>>)
    ensures NoDup(UniqCompact(xs))
    ensures forall x :: x in UniqCompact(xs) <==> Some(x) in xs
    ensures FirstOccurrenceOrder(UniqCompact(xs), Values(xs))
  {
    UniqCompactIntoIsPushAll([], xs);
    PushAllOrder(Values(xs));
  }

  lemma AllSpaceSnoc(t: string, c: char)
    requires AllSpace(t) && IsSpace(c)
    ensures AllSpace(t + [c])
  {
    forall k | 0 <= k < |t| + 1 ensures IsSpace((t + [c])[k]) {
      if k < |t| {
        assert (t + [c])[k] == t[k];
      }
    }
  }

  /** Length of the run of `\s` characters that `s` ends with. */
  function TrailingSpaces(s: string): (n: nat)
    ensures n <= |s|
    ensures AllSpace(s[|s| - n..])
    ensures n == |s| || !IsSpace(s[|s| - n - 1])
  {
    if |s| > 0 && IsSpace(s[|s| - 1]) then
      var t := s[..|s| - 1];
      var m := TrailingSpaces(t);
      assert s[|s| - 1 - m..] == t[|t| - m..] + [s[|s| - 1]];
      AllSpaceSnoc(t[|t| - m..], s[|s| - 1]);
      assert m < |t| ==> s[|s| - 1 - m - 1] == t[|t| - m - 1];
      1 + m
    else 0
  }

  /** `r` is `s` with only white space cut off at either end. */
  ghost predicate SpaceMarginsOf(s: string, r: string) {
    exists i, j :: 0 <= i <= j <= |s| && r == s[i..j] && AllSpace(s[..i]) && AllSpace(s[j..])
  }

  /** `trim(str)`: `str.replace(/^\s+|\s+$/g, '')`. */
  function Trim(s: string): (r: string)
    ensures |r| == 0 || (!IsSpace(r[0]) && !IsSpace(r[|r| - 1]))
    ensures SpaceMarginsOf(s, r)
  {
    var i := LeadingSpaces(s);
    var n := TrailingSpaces(s[i..]);
    TrimMargins(s, i, n);
    s[i..|s| - n]
  }

  lemma TrimMargins(s: string, i: nat, n: nat)
    requires i == LeadingSpaces(s) && n == TrailingSpaces(s[i..])
    ensures i <= |s| - n
    ensures var r := s[i..|s| - n]; |r| == 0 || (!IsSpace(r[0]) && !IsSpace(r[|r| - 1]))
    ensures SpaceMarginsOf(s, s[i..|s| - n])
  {
    SuffixOfSlice(s, i, n);
    TrimEnds(s, i, n);
    MarginsWitness(s, i, |s| - n);
  }

  lemma SuffixOfSlice(s: string, i: nat, n: nat)
    requires i <= |s| && n <= |s| - i
    ensures s[i..][|s| - i - n..] == s[|s| - n..]
    ensures n < |s| - i ==> s[i..][|s| - i - n - 1] == s[|s| - n - 1]
  {
  }

  /** The first and last characters kept are not white space. */
  lemma TrimEnds(s: string, i: nat, n: nat)
    requires i <= |s| && (i == |s| || !IsSpace(s[i]))
    requires n <= |s| - i && (n == |s| - i || !IsSpace(s[|s| - n - 1]))
    ensures var r := s[i..|s| - n]; |r| == 0 || (!IsSpace(r[0]) && !IsSpace(r[|r| - 1]))
  {
    var j := |s| - n;
    if i < j {
      assert s[i..j][0] == s[i];
      assert s[i..j][j - i - 1] == s[j - 1];
    }
  }

  lemma MarginsWitness(s: string, i: nat, j: nat)
    requires i <= j <= |s| && AllSpace(s[..i]) && AllSpace(s[j..])
    ensures SpaceMarginsOf(s, s[i..j])
  {
  }

  lemma TrimIdempotent(s: string)
    ensures Trim(Trim(s)) == Trim(s)
  {
    var r := Trim(s);
    assert |r| == 0 || !IsSpace(r[0]);
    LeadingSpacesUnique(r, 0);
    assert r[0..] == r;
    assert TrailingSpaces(r) == 0 by {
      assert |r| == 0 || !IsSpace(r[|r| - 1]);
    }
    assert r[0..|r| - 0] == r;
  }
}
