/** The username-validity test shared by utils/checker.js and utils/username-checker.js:
    a string is rejected when `unallowedUsernameRegex`
    (`/(^|\.)[\d.-]|[.-](\.|$)|-{2}|.{17}|(^|\.).{0,2}(\.|$)/`) finds a match in it.
    Each alternative of the pattern is one predicate below; `IsValidUsername` restates
    the rule segment by segment, and `UnallowedIffInvalid` proves the two agree. */
module UsernameRule {
  import opened JsText

  /** `[\d.-]` */
  predicate IsDigitDotHyphen(c: char) {
    IsDigit(c) || c == '.' || c == '-'
  }

  /** Position `i` is where `(^|\.)` leaves off: the start of the string or just after a `.`. */
  predicate SegmentStart(s: string, i: int) {
    0 <= i <= |s| && (i == 0 || s[i - 1] == '.')
  }

  /** `(^|\.)[\d.-]` */
  predicate BadSegmentStart(s: string) {
    exists i :: 0 <= i < |s| && SegmentStart(s, i) && IsDigitDotHyphen(s[i])
  }

  /** `[.-](\.|$)` */
  predicate BadBeforeDotOrEnd(s: string) {
    exists i :: 0 <= i < |s| && (s[i] == '.' || s[i] == '-') && (i + 1 == |s| || s[i + 1] == '.')
  }

  /** `-{2}` */
  predicate DoubleHyphen(s: string) {
    exists i :: 0 <= i < |s| - 1 && s[i] == '-' && s[i + 1] == '-'
  }

  /** Seventeen characters from position `i` on, none a line terminator. */
  predicate SeventeenCharsAt(s: string, i: int) {
    0 <= i <= |s| - 17 && forall k :: i <= k < i + 17 ==> !IsLineTerminator(s[k])
  }

  /** `.{17}` */
  predicate SeventeenChars(s: string) {
    exists i :: 0 <= i <= |s| - 17 && SeventeenCharsAt(s, i)
  }

  /** `(^|\.).{0,2}(\.|$)` */
  predicate ShortSegment(s: string) {
    exists i, j :: 0 <= i <= j <= |s| && SegmentStart(s, i) && j <= i + 2 && NoLineTerminator(s[i..j]) && (j == |s| || s[j] == '.')
  }

  /** `unallowedUsernameRegex.test(s)` (utils/checker.js:7, utils/username-checker.js:6). */
  predicate Unallowed(s: string) {
    BadSegmentStart(s) || BadBeforeDotOrEnd(s) || DoubleHyphen(s) || SeventeenChars(s) || ShortSegment(s)
  }

  /** End (exclusive) of the dot-segment that starts at `i`: the next `.` or the end of `s`. */
  function SegmentEnd(s: string, i: nat): (e: nat)
    requires i <= |s|
    decreases |s| - i
    ensures i <= e <= |s|
    ensures e == |s| || s[e] == '.'
    ensures forall k :: i <= k < e ==> s[k] != '.'
  {
    if i == |s| || s[i] == '.' then i else SegmentEnd(s, i + 1)
  }

  /** The start of the dot-segment holding position `p`. */
  function SegmentOf(s: string, p: nat): (i: nat)
    requires p < |s|
    ensures i <= p && SegmentStart(s, i)
    ensures forall k :: i <= k < p ==> s[k] != '.'
  {
    if p == 0 || s[p - 1] == '.' then p else SegmentOf(s, p - 1)
  }

  lemma SegmentEndUnique(s: string, i: nat, e: nat)
    requires i <= e <= |s|
    requires e == |s| || s[e] == '.'
    requires forall k :: i <= k < e ==> s[k] != '.'
    ensures SegmentEnd(s, i) == e
    decreases e - i
  {
    if i < e {
      SegmentEndUnique(s, i + 1, e);
    }
  }

  /** A dot-segment is acceptable when it has at least three characters, does not start
      with a digit or a hyphen and does not end with a hyphen. */
  predicate GoodSegment(s: string, i: nat)
    requires i <= |s|
  {
    var e := SegmentEnd(s, i);
    e - i >= 3 && !IsDigit(s[i]) && s[i] != '-' && s[e - 1] != '-'
  }

  /** The rule in words: at most sixteen characters, no `--`, and every dot-segment acceptable. */
  predicate IsValidUsername(s: string) {
    && |s| <= 16
    && (forall i :: 0 <= i < |s| - 1 ==> !(s[i] == '-' && s[i + 1] == '-'))
    && (forall i :: 0 <= i <= |s| && SegmentStart(s, i) ==> GoodSegment(s, i))
  }

  lemma UnallowedImpliesInvalid(s: string)
    requires Unallowed(s)
    ensures !IsValidUsername(s)
  {
    if BadSegmentStart(s) {
      var i :| 0 <= i < |s| && SegmentStart(s, i) && IsDigitDotHyphen(s[i]);
      if s[i] == '.' {
        SegmentEndUnique(s, i, i);
      }
      assert !GoodSegment(s, i);
    } else if BadBeforeDotOrEnd(s) {
      var p :| 0 <= p < |s| && (s[p] == '.' || s[p] == '-') && (p + 1 == |s| || s[p + 1] == '.');
      if s[p] == '.' {
        SegmentEndUnique(s, p + 1, p + 1);
        assert !GoodSegment(s, p + 1);
      } else {
        var i := SegmentOf(s, p);
        SegmentEndUnique(s, i, p + 1);
        assert !GoodSegment(s, i);
      }
    } else if ShortSegment(s) {
      var i, j :| 0 <= i <= j <= |s| && SegmentStart(s, i) && j <= i + 2 && NoLineTerminator(s[i..j]) && (j == |s| || s[j] == '.');
      assert SegmentEnd(s, i) <= j;
      assert !GoodSegment(s, i);
    }
  }

  lemma InvalidImpliesUnallowed(s: string)
    requires NoLineTerminator(s)
    requires !IsValidUsername(s)
    ensures Unallowed(s)
  {
    if |s| > 16 {
      assert SeventeenCharsAt(s, 0);
    } else if exists i :: 0 <= i < |s| - 1 && s[i] == '-' && s[i + 1] == '-' {
      assert DoubleHyphen(s);
    } else {
      var i :| 0 <= i <= |s| && SegmentStart(s, i) && !GoodSegment(s, i);
      var e := SegmentEnd(s, i);
      if e - i <= 2 {
        assert NoLineTerminator(s[i..e]);
        assert ShortSegment(s);
      } else if IsDigit(s[i]) || s[i] == '-' {
        assert BadSegmentStart(s);
      } else {
        assert s[e - 1] == '-';
        assert BadBeforeDotOrEnd(s);
      }
    }
  }

  /** For strings without line terminators (every username the bot tests), the pattern
      rejects exactly the strings that break the segment rule. */
  lemma UnallowedIffInvalid(s: string)
    requires NoLineTerminator(s)
    ensures Unallowed(s) <==> !IsValidUsername(s)
  {
    if Unallowed(s) {
      UnallowedImpliesInvalid(s);
    }
    if !IsValidUsername(s) {
      InvalidImpliesUnallowed(s);
    }
  }
}
