/** `highlightDifferences(username, correction)` of utils/checker.js: the correction
    with the characters that differ from the misspelt name wrapped in `<strong>` tags.
    The result is modelled as one `Piece` per character of the correction; `Render`
    prints the pieces the way `highlighted.join('')` prints the array. */
module Highlight {
  import opened Edits

  datatype Piece = Plain(ch: char) | Strong(ch: char)

  /** `s.substring(start, end)`: both ends clamped to the string, swapped when reversed. */
  function JsSubstring(s: string, start: nat, end: nat): string {
    var a := if start < |s| then start else |s|;
    var b := if end < |s| then end else |s|;
    if a <= b then s[a..b] else s[b..a]
  }

  /** The loop of `highlightDifferences` from position `i` on, with `w` the current value of
      the `username` variable (the loop lengthens it at the first differences when the
      correction is the longer string). */
  function HighlightFrom(c: string, w: string, i: nat): (r: seq<Piece>)
    requires i <= |c|
    decreases |c| - i
    ensures |r| == |c| - i
  {
    if i == |c| then [] else [Mark(c, w, i)] + HighlightFrom(c, NextName(c, w, i), i + 1)
  }

  /** The piece for position `i`: plain where the correction agrees with the current name;
      otherwise marked unless the grown name is longer than the correction. */
  function Mark(c: string, w: string, i: nat): (p: Piece)
    requires i < |c|
    ensures p.ch == c[i]
  {
    if i < |w| && c[i] == w[i] then Plain(c[i])
    else if |c| >= |Grown(c, w, i)| then Strong(c[i])
    else Plain(c[i])
  }

  /** The `username` variable after position `i`. */
  function NextName(c: string, w: string, i: nat): string
    requires i < |c|
  {
    if i < |w| && c[i] == w[i] then w else Grown(c, w, i)
  }

  /** The `username` variable after a difference at `i`: when the correction is longer, the
      character at `i` is doubled (`substring(0, i + 1) + substring(i)`). */
  function Grown(c: string, w: string, i: nat): string {
    if |c| > |w| then JsSubstring(w, 0, i + 1) + JsSubstring(w, i, |w|) else w
  }

  /** The pieces of `highlightDifferences(u, c)`; two characters shorter means two
      deletions, which are not highlighted. */
  function Highlight(u: string, c: string): seq<Piece> {
    if |u| == |c| + 2 then seq(|c|, k requires 0 <= k < |c| => Plain(c[k]))
    else HighlightFrom(c, u, 0)
  }

  function RenderPiece(p: Piece): string {
    match p
    case Plain(ch) => [ch]
    case Strong(ch) => "<strong>" + [ch] + "</strong>"
  }

  function Render(ps: seq<Piece>): string {
    if |ps| == 0 then "" else RenderPiece(ps[0]) + Render(ps[1..])
  }

  /** `highlightDifferences(username, correction)` */
  function HighlightDifferences(u: string, c: string): string {
    Render(Highlight(u, c))
  }

  /** The characters the pieces carry. */
  function Text(ps: seq<Piece>): string {
    seq(|ps|, k requires 0 <= k < |ps| => ps[k].ch)
  }

  /** The text with every `<strong>` and `</strong>` tag taken out, scanning left to right. */
  function StripTags(s: string): string
    decreases |s|
  {
    if |s| == 0 then ""
    else if |s| >= 8 && s[..8] == "<strong>" then StripTags(s[8..])
    else if |s| >= 9 && s[..9] == "</strong>" then StripTags(s[9..])
    else [s[0]] + StripTags(s[1..])
  }

  /** Each piece carries the correction's character at its position. */
  lemma {:induction false} HighlightFromChars(c: string, w: string, i: nat)
    requires i <= |c|
    ensures forall k :: 0 <= k < |c| - i ==> HighlightFrom(c, w, i)[k].ch == c[i + k]
    decreases |c| - i
  {
    if i < |c| {
      var r := HighlightFrom(c, w, i);
      var r1 := HighlightFrom(c, NextName(c, w, i), i + 1);
      HighlightFromChars(c, NextName(c, w, i), i + 1);
      assert r == [Mark(c, w, i)] + r1;
      forall k | 0 < k < |c| - i ensures r[k].ch == c[i + k] {
        assert r[k] == r1[k - 1];
      }
    }
  }

  /** The pieces spell the correction, character for character. */
  lemma HighlightText(u: string, c: string)
    ensures Text(Highlight(u, c)) == c
  {
    if |u| != |c| + 2 {
      HighlightFromChars(c, u, 0);
    }
  }

  lemma StripOpen(x: string)
    ensures StripTags("<strong>" + x) == StripTags(x)
  {
    var s := "<strong>" + x;
    assert s[..8] == "<strong>" && s[8..] == x;
  }

  lemma StripClose(x: string)
    ensures StripTags("</strong>" + x) == StripTags(x)
  {
    var s := "</strong>" + x;
    assert s[..9] == "</strong>" && s[9..] == x;
    assert s[1] == '/';
  }

  lemma StripChar(c: char, x: string)
    requires c != '<'
    ensures StripTags([c] + x) == [c] + StripTags(x)
  {
    var s := [c] + x;
    assert s[0] == c && s[1..] == x;
    if |s| >= 8 {
      assert s[..8][0] == c;
    }
    if |s| >= 9 {
      assert s[..9][0] == c;
    }
  }

  lemma StripRenderPiece(p: Piece, rest: string)
    requires p.ch != '<'
    ensures StripTags(RenderPiece(p) + rest) == [p.ch] + StripTags(rest)
  {
    if p.Strong? {
      assert RenderPiece(p) + rest == "<strong>" + ([p.ch] + ("</strong>" + rest));
      StripOpen([p.ch] + ("</strong>" + rest));
      StripChar(p.ch, "</strong>" + rest);
      StripClose(rest);
    } else {
      assert RenderPiece(p) + rest == [p.ch] + rest;
      StripChar(p.ch, rest);
    }
  }

  lemma {:induction false} StripRender(ps: seq<Piece>)
    requires forall k :: 0 <= k < |ps| ==> ps[k].ch != '<'
    ensures StripTags(Render(ps)) == Text(ps)
    decreases |ps|
  {
    if |ps| > 0 {
      StripRenderPiece(ps[0], Render(ps[1..]));
      StripRender(ps[1..]);
    }
  }

  /** With the `<strong>` markup taken out, the output is the correction (which, being an
      account name, holds no `<`). */
  lemma StripHighlight(u: string, c: string)
    requires forall k :: 0 <= k < |c| ==> c[k] != '<'
    ensures StripTags(HighlightDifferences(u, c)) == c
  {
    HighlightText(u, c);
    var ps := Highlight(u, c);
    forall k | 0 <= k < |ps| ensures ps[k].ch != '<' {
      assert ps[k].ch == Text(ps)[k];
    }
    StripRender(ps);
  }

  lemma {:induction false} RenderPlain(ps: seq<Piece>)
    requires forall k :: 0 <= k < |ps| ==> ps[k].Plain?
    ensures Render(ps) == Text(ps)
    decreases |ps|
  {
    if |ps| > 0 {
      RenderPlain(ps[1..]);
    }
  }

  /** While the current name is at least as long as the correction it never changes, and a
      character is marked exactly when the two have equal length and differ there. */
  lemma {:induction false} HighlightNoGrowth(c: string, w: string, i: nat)
    requires i <= |c| <= |w|
    ensures forall k :: 0 <= k < |c| - i ==>
      (HighlightFrom(c, w, i)[k].Strong? <==> |c| == |w| && c[i + k] != w[i + k])
    decreases |c| - i
  {
    if i < |c| {
      HighlightNoGrowth(c, w, i + 1);
    }
  }

  /** Two characters fewer in the correction: it is returned unchanged. */
  lemma HighlightTwoDeletes(u: string, c: string)
    requires |u| == |c| + 2
    ensures HighlightDifferences(u, c) == c
  {
    RenderPlain(Highlight(u, c));
  }

  /** A correction shorter than the misspelt name (deletions) is returned unmarked. */
  lemma HighlightShorter(u: string, c: string)
    requires |u| > |c|
    ensures HighlightDifferences(u, c) == c
  {
    if |u| != |c| + 2 {
      HighlightNoGrowth(c, u, 0);
    }
    RenderPlain(Highlight(u, c));
    HighlightText(u, c);
  }

  /** A correction of the same length (replacements, transpositions) has exactly its
      differing characters marked. */
  lemma HighlightSameLength(u: string, c: string)
    requires |u| == |c|
    ensures |Highlight(u, c)| == |c|
    ensures forall k :: 0 <= k < |c| ==> (Highlight(u, c)[k].Strong? <==> c[k] != u[k])
  {
    HighlightNoGrowth(c, u, 0);
  }

  /** The first position at which `c` differs from `u` (or `u` has ended). */
  function FirstDiff(u: string, c: string): (q: nat)
    requires |c| > |u|
    ensures q <= |u|
    ensures forall k :: 0 <= k < q ==> c[k] == u[k]
    ensures q == |u| || c[q] != u[q]
  {
    if |u| == 0 || c[0] != u[0] then 0 else 1 + FirstDiff(u[1..], c[1..])
  }

  /** Where the correction agrees with the current name, its character is left plain. */
  lemma HighlightSame(c: string, w: string, i: nat)
    requires i < |c| && i < |w| && c[i] == w[i]
    ensures HighlightFrom(c, w, i) == [Plain(c[i])] + HighlightFrom(c, w, i + 1)
  {
  }

  lemma {:induction false} HighlightAgreeing(c: string, w: string, i: nat, q: nat)
    requires i <= q <= |c| && q <= |w|
    requires forall k :: i <= k < q ==> c[k] == w[k]
    ensures forall k :: 0 <= k < q - i ==> HighlightFrom(c, w, i)[k].Plain?
    ensures HighlightFrom(c, w, i)[q - i..] == HighlightFrom(c, w, q)
    decreases q - i
  {
    var r := HighlightFrom(c, w, i);
    if i < q {
      HighlightSame(c, w, i);
      HighlightAgreeing(c, w, i + 1, q);
      var r1 := HighlightFrom(c, w, i + 1);
      assert r == [Plain(c[i])] + r1;
      assert r[q - i..] == r1[q - i - 1..];
      forall k | 0 <= k < q - i ensures r[k].Plain? {
        if k > 0 {
          assert r[k] == r1[k - 1];
        }
      }
    } else {
      assert r[0..] == r;
    }
  }

  /** A correction with one character inserted has exactly one character marked: the
      first one at which it departs from the misspelt name. */
  lemma HighlightInsertion(u: string, c: string, p: nat)
    requires IsInsertionAt(c, u, p)
    ensures |Highlight(u, c)| == |c|
    ensures forall k :: 0 <= k < |c| ==> (Highlight(u, c)[k].Strong? <==> k == FirstDiff(u, c))
  {
    var q := FirstDiff(u, c);
    var r := HighlightFrom(c, u, 0);
    assert Highlight(u, c) == r;
    HighlightAgreeing(c, u, 0, q);
    HighlightAtDiff(u, c, p);
    var h := HighlightFrom(c, u, q);
    assert r[q..] == h;
    forall k | 0 <= k < |c| ensures r[k].Strong? <==> k == q {
      if k >= q {
        assert r[k] == h[k - q];
      }
    }
  }

  /** From the first difference on, only that difference is marked: the name grown there
      agrees with the rest of the correction. */
  lemma HighlightAtDiff(u: string, c: string, p: nat)
    requires IsInsertionAt(c, u, p)
    ensures var h := HighlightFrom(c, u, FirstDiff(u, c));
      |h| > 0 && h[0].Strong? && forall k :: 0 < k < |h| ==> h[k].Plain?
  {
    var q := FirstDiff(u, c);
    var w' := Grown(c, u, q);
    GrownAfterDiff(u, c, p);
    if q < |u| {
      HighlightAgreeing(c, w', q + 1, |c|);
    }
    var h := HighlightFrom(c, u, q);
    var h1 := HighlightFrom(c, w', q + 1);
    assert h == [Mark(c, u, q)] + h1;
    forall k | 0 < k < |h| ensures h[k].Plain? {
      assert h[k] == h1[k - 1];
    }
  }

  /** At the first difference the name grows to the correction's length, and past it the
      grown name agrees with the correction. */
  lemma GrownAfterDiff(u: string, c: string, p: nat)
    requires IsInsertionAt(c, u, p)
    ensures FirstDiff(u, c) >= p
    ensures var q := FirstDiff(u, c); var w' := Grown(c, u, q);
      |w'| == |c| - (if q < |u| then 0 else 1) && (forall k :: q < k < |w'| ==> c[k] == w'[k])
      && NextName(c, u, q) == w'
  {
    var q := FirstDiff(u, c);
    var w' := Grown(c, u, q);
    if q < |u| {
      assert w' == u[..q + 1] + u[q..];
      forall k | q < k < |c| ensures c[k] == w'[k] {
        assert w'[k] == u[k - 1];
      }
    } else {
      assert w' == u[..|u|] + [];
    }
  }

  /** No `<` in the string, as in every account name. */
  predicate NoAngle(s: string) {
    forall k :: 0 <= k < |s| ==> s[k] != '<'
  }

  /** No `<strong>` or `</strong>` starts at position `k`. */
  predicate NoTagAt(s: string, k: nat)
    requires k < |s|
  {
    !(|s| - k >= 8 && s[k..k + 8] == "<strong>") && !(|s| - k >= 9 && s[k..k + 9] == "</strong>")
  }

  lemma StripFirst(s: string)
    requires |s| > 0 && NoTagAt(s, 0)
    ensures StripTags(s) == [s[0]] + StripTags(s[1..])
  {
    if |s| >= 8 {
      assert s[..8] == s[0..8];
    }
    if |s| >= 9 {
      assert s[..9] == s[0..9];
    }
  }

  lemma NoTagShift(s: string, k: nat)
    requires k + 1 < |s| && NoTagAt(s, k + 1)
    ensures NoTagAt(s[1..], k)
  {
    if |s[1..]| - k >= 8 {
      assert s[1..][k..k + 8] == s[k + 1..k + 9];
    }
    if |s[1..]| - k >= 9 {
      assert s[1..][k..k + 9] == s[k + 1..k + 10];
    }
  }

  lemma ConsSlices(s: string, n: nat)
    requires 0 < n <= |s|
    ensures s[..n] == [s[0]] + s[1..][..n - 1]
    ensures s[1..][n - 1..] == s[n..]
  {
  }

  /** Characters that start no tag pass through `StripTags` unchanged. */
  lemma {:induction false} StripKeeps(s: string, n: nat)
    requires n <= |s|
    requires forall k :: 0 <= k < n ==> NoTagAt(s, k)
    ensures StripTags(s) == s[..n] + StripTags(s[n..])
    decreases n
  {
    if n > 0 {
      StripFirst(s);
      forall k | 0 <= k < n - 1 ensures NoTagAt(s[1..], k) {
        NoTagShift(s, k);
      }
      StripKeeps(s[1..], n - 1);
      ConsSlices(s, n);
    } else {
      assert s[..0] + StripTags(s[0..]) == StripTags(s);
    }
  }

  /** A string without `<` is its own stripped text. */
  lemma StripPlain(s: string)
    requires NoAngle(s)
    ensures StripTags(s) == s
  {
    forall k | 0 <= k < |s| ensures NoTagAt(s, k) {
      if |s| - k >= 8 {
        assert s[k..k + 8][0] == s[k];
      }
      if |s| - k >= 9 {
        assert s[k..k + 9][0] == s[k];
      }
    }
    StripKeeps(s, |s|);
    assert s[|s|..] == "";
  }
}
