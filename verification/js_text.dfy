/** The JavaScript string primitives the bot relies on, over `string` = `seq<char>`.
    Each function follows the ECMAScript built-in it stands for, restricted to
    the inputs the bot gives it. */
module JsText {

  /** The characters of the regular-expression class `\s`: white space and line terminators. */
  predicate IsSpace(c: char) {
    || c == '\t' || c == '\n' || c == '\U{B}' || c == '\U{C}' || c == '\r' || c == ' '
    || c == '\U{A0}' || c == '\U{1680}' || ('\U{2000}' <= c <= '\U{200A}')
    || c == '\U{2028}' || c == '\U{2029}' || c == '\U{202F}' || c == '\U{205F}'
    || c == '\U{3000}' || c == '\U{FEFF}'
  }

  /** The characters the regular-expression `.` does not match. */
  predicate IsLineTerminator(c: char) {
    c == '\n' || c == '\r' || c == '\U{2028}' || c == '\U{2029}'
  }

  /** `\d` */
  predicate IsDigit(c: char) {
    '0' <= c <= '9'
  }

  /** `[A-Za-z]` */
  predicate IsAsciiLetter(c: char) {
    'a' <= c <= 'z' || 'A' <= c <= 'Z'
  }

  predicate NoLineTerminator(s: string) {
    forall k :: 0 <= k < |s| ==> !IsLineTerminator(s[k])
  }

  predicate AllSpace(s: string) {
    forall k :: 0 <= k < |s| ==> IsSpace(s[k])
  }

  /** `toLowerCase`, for the ASCII letters (other characters are kept). */
  function ToLowerChar(c: char): (r: char)
    ensures !('A' <= r <= 'Z')
    ensures 'A' <= c <= 'Z' || r == c
  {
    if 'A' <= c <= 'Z' then (c as int + 32) as char else c
  }

  function ToLower(s: string): (r: string)
    ensures |r| == |s|
    ensures forall k :: 0 <= k < |s| ==> r[k] == ToLowerChar(s[k])
  {
    seq(|s|, k requires 0 <= k < |s| => ToLowerChar(s[k]))
  }

  /** Length of the run of `\s` characters that `s` starts with. */
  function LeadingSpaces(s: string): (n: nat)
    ensures n <= |s|
    ensures AllSpace(s[..n])
    ensures n == |s| || !IsSpace(s[n])
  {
    if |s| > 0 && IsSpace(s[0]) then
      var m := LeadingSpaces(s[1..]);
      assert s[..1 + m] == [s[0]] + s[1..][..m];
      1 + m
    else 0
  }

  /** Index of the first `c` in `s`, or `|s|` when there is none. */
  function IndexOf(s: string, c: char): (i: nat)
    ensures i <= |s|
    ensures c !in s[..i]
    ensures i < |s| <==> c in s
    ensures i < |s| ==> s[i] == c
  {
    if |s| == 0 then 0
    else if s[0] == c then 0
    else
      var j := IndexOf(s[1..], c);
      assert s[..1 + j] == [s[0]] + s[1..][..j];
      assert s == [s[0]] + s[1..];
      1 + j
  }

  /** `s.replace(c, with)` with a one-character string pattern: only the first occurrence is replaced. */
  function ReplaceFirst(s: string, c: char, with: string): string {
    var i := IndexOf(s, c);
    if i == |s| then s else s[..i] + with + s[i + 1..]
  }

  /** `xs.join(sep)` */
  function Join(xs: seq<string>, sep: string): string {
    if |xs| == 0 then ""
    else if |xs| == 1 then xs[0]
    else xs[0] + sep + Join(xs[1..], sep)
  }

  /** The separators of the pattern `/[\s,]+/`. */
  predicate IsNameSeparator(c: char) {
    IsSpace(c) || c == ','
  }

  function WordLength(s: string): (n: nat)
    ensures n <= |s|
    ensures forall k :: 0 <= k < n ==> !IsNameSeparator(s[k])
    ensures n == |s| || IsNameSeparator(s[n])
  {
    if |s| > 0 && !IsNameSeparator(s[0]) then 1 + WordLength(s[1..]) else 0
  }

  /** `s.split(/[\s,]+/).filter(x => x !== '')`: the maximal runs of non-separator characters. */
  function Tokens(s: string): (r: seq<string>)
    decreases |s|
    ensures forall i :: 0 <= i < |r| ==> |r[i]| > 0
    ensures forall i, k :: 0 <= i < |r| && 0 <= k < |r[i]| ==> !IsNameSeparator(r[i][k])
  {
    if |s| == 0 then []
    else if IsNameSeparator(s[0]) then Tokens(s[1..])
    else
      var n := WordLength(s);
      [s[..n]] + Tokens(s[n..])
  }

  lemma WordLengthUnique(s: string, n: nat)
    requires n <= |s|
    requires forall k :: 0 <= k < n ==> !IsNameSeparator(s[k])
    requires n == |s| || IsNameSeparator(s[n])
    ensures WordLength(s) == n
  {
  }

  /** A word of `a` that ends inside `a`, or at a separator that follows it, is a word
      of the longer string too. */
  lemma WordLengthExtends(a: string, r: string)
    requires WordLength(a) < |a| || (|r| > 0 && IsNameSeparator(r[0]))
    ensures WordLength(a + r) == WordLength(a)
  {
    var m := WordLength(a);
    var s := a + r;
    forall k | 0 <= k < m ensures !IsNameSeparator(s[k]) {
      assert s[k] == a[k];
    }
    if m < |a| {
      assert s[m] == a[m];
    } else {
      assert s[m] == r[0];
    }
    WordLengthUnique(s, m);
  }

  /** A separator splits the token list: the tokens of `a + [c] + b` are those of `a`
      followed by those of `b`; with `SingleToken` this determines `Tokens` completely. */
  lemma {:induction false} TokensSplit(a: string, c: char, b: string)
    requires IsNameSeparator(c)
    ensures Tokens(a + [c] + b) == Tokens(a) + Tokens(b)
    decreases |a|, 1
  {
    if |a| == 0 {
      var s := a + [c] + b;
      assert s == [c] + b;
      assert s[1..] == b;
    } else if IsNameSeparator(a[0]) {
      TokensSplitSkip(a, c, b);
    } else if WordLength(a) < |a| {
      TokensSplitWord(a, c, b);
    } else {
      TokensSplitLast(a, c, b);
    }
  }

  /** The case of `TokensSplit` where `a` starts with a separator. */
  lemma {:induction false} TokensSplitSkip(a: string, c: char, b: string)
    requires IsNameSeparator(c)
    requires |a| > 0 && IsNameSeparator(a[0])
    ensures Tokens(a + [c] + b) == Tokens(a) + Tokens(b)
    decreases |a|, 0
  {
    var s := a + [c] + b;
    assert s[0] == a[0];
    assert s[1..] == a[1..] + [c] + b;
    assert Tokens(s) == Tokens(a[1..] + [c] + b);
    TokensSplit(a[1..], c, b);
  }

  /** The case of `TokensSplit` where `a` starts with a word that ends inside `a`. */
  lemma {:induction false} TokensSplitWord(a: string, c: char, b: string)
    requires IsNameSeparator(c)
    requires |a| > 0 && !IsNameSeparator(a[0]) && WordLength(a) < |a|
    ensures Tokens(a + [c] + b) == Tokens(a) + Tokens(b)
    decreases |a|, 0
  {
    var s := a + [c] + b;
    var m := WordLength(a);
    assert s == a + ([c] + b);
    WordLengthExtends(a, [c] + b);
    assert s[0] == a[0];
    assert s[..m] == a[..m];
    assert s[m..] == a[m..] + [c] + b;
    assert Tokens(s) == [a[..m]] + Tokens(a[m..] + [c] + b);
    TokensSplit(a[m..], c, b);
  }

  /** The case of `TokensSplit` where all of `a` is one word. */
  lemma TokensSplitLast(a: string, c: char, b: string)
    requires IsNameSeparator(c)
    requires |a| > 0 && WordLength(a) == |a|
    ensures Tokens(a + [c] + b) == Tokens(a) + Tokens(b)
  {
    var s := a + [c] + b;
    var m := |a|;
    assert s == a + ([c] + b);
    WordLengthExtends(a, [c] + b);
    assert s[0] == a[0];
    assert s[..m] == a;
    assert Tokens(s) == [a] + Tokens(s[m..]);
    assert Tokens(s[m..]) == Tokens(b) by {
      assert s[m..] == [c] + b;
      assert ([c] + b)[0] == c && ([c] + b)[1..] == b;
    }
    assert a[..m] == a && a[m..] == [];
    assert Tokens(a) == [a];
  }

  lemma SingleToken(w: string)
    requires |w| > 0
    requires forall k :: 0 <= k < |w| ==> !IsNameSeparator(w[k])
    ensures Tokens(w) == [w]
  {
    WordLengthUnique(w, |w|);
    assert w[..|w|] == w;
    assert w[|w|..] == [];
  }

  /** The result of `parseInt`: a number or `NaN`. */
  datatype JsNumber = NaN | Int(value: int)

  /** Digit value of `c` in bases up to 16, or -1. */
  function DigitValue(c: char): int {
    if '0' <= c <= '9' then c as int - '0' as int
    else if 'a' <= c <= 'f' then c as int - 'a' as int + 10
    else if 'A' <= c <= 'F' then c as int - 'A' as int + 10
    else -1
  }

  predicate IsRadixDigit(c: char, radix: int) {
    0 <= DigitValue(c) < radix
  }

  function DigitRun(s: string, radix: int): (n: nat)
    ensures n <= |s|
    ensures forall k :: 0 <= k < n ==> IsRadixDigit(s[k], radix)
    ensures n == |s| || !IsRadixDigit(s[n], radix)
  {
    if |s| > 0 && IsRadixDigit(s[0], radix) then 1 + DigitRun(s[1..], radix) else 0
  }

  /** Value of a digit string, most significant digit first. */
  function DigitsValue(ds: string, radix: nat): int {
    if |ds| == 0 then 0 else DigitsValue(ds[..|ds| - 1], radix) * radix + DigitValue(ds[|ds| - 1])
  }

  /** The digits after the sign: a `0x`/`0X` prefix selects base 16, otherwise base 10;
      the longest run of digits is read and no digit at all gives `NaN`. */
  function ParseUnsigned(u: string): JsNumber {
    if |u| >= 2 && u[0] == '0' && (u[1] == 'x' || u[1] == 'X') then
      var n := DigitRun(u[2..], 16);
      if n == 0 then NaN else Int(DigitsValue(u[2..][..n], 16))
    else
      var n := DigitRun(u, 10);
      if n == 0 then NaN else Int(DigitsValue(u[..n], 10))
  }

  /** `parseInt(s)` with no radix: leading `\s` skipped, then an optional sign. */
  function ParseInt(s: string): (r: JsNumber)
    ensures (var t := s[LeadingSpaces(s)..]; |t| == 0 || IsAsciiLetter(t[0])) ==> r == NaN
  {
    var t := s[LeadingSpaces(s)..];
    if |t| > 0 && t[0] == '-' then
      match ParseUnsigned(t[1..])
      case NaN => NaN
      case Int(v) => Int(-v)
    else if |t| > 0 && t[0] == '+' then ParseUnsigned(t[1..])
    else ParseUnsigned(t)
  }

  function DigitChar(d: nat): (c: char)
    requires d < 10
    ensures IsDigit(c) && DigitValue(c) == d
  {
    ('0' as int + d) as char
  }

  function NatToString(n: nat): (s: string)
    ensures |s| > 0
    ensures forall k :: 0 <= k < |s| ==> IsDigit(s[k])
  {
    if n < 10 then [DigitChar(n)] else NatToString(n / 10) + [DigitChar(n % 10)]
  }

  /** How a JavaScript integer is printed by a template literal. */
  function IntToString(n: int): string {
    if n < 0 then "-" + NatToString(-n) else NatToString(n)
  }

  lemma {:induction false} NatToStringValue(n: nat)
    ensures DigitsValue(NatToString(n), 10) == n
  {
    if n >= 10 {
      var s := NatToString(n);
      assert s[..|s| - 1] == NatToString(n / 10);
      NatToStringValue(n / 10);
    }
  }

  lemma ParseUnsignedOfNatToString(m: nat, tail: string)
    requires |tail| == 0 || (!IsDigit(tail[0]) && !IsAsciiLetter(tail[0]))
    ensures ParseUnsigned(NatToString(m) + tail) == Int(m)
  {
    var ds := NatToString(m);
    var u := ds + tail;
    forall k | 0 <= k < |ds| ensures IsRadixDigit(u[k], 10) {
      assert u[k] == ds[k];
    }
    assert |ds| < |u| ==> u[|ds|] == tail[0];
    DigitRunUnique(u, 10, |ds|);
    assert u[..|ds|] == ds;
    assert !(|u| >= 2 && u[0] == '0' && (u[1] == 'x' || u[1] == 'X')) by {
      if |u| >= 2 {
        assert u[1] == if |ds| >= 2 then ds[1] else tail[0];
      }
    }
    NatToStringValue(m);
  }

  /** White space followed by something else: the white space is what is skipped. */
  lemma LeadingSpacesOfPrefix(ws: string, rest: string)
    requires AllSpace(ws)
    requires |rest| == 0 || !IsSpace(rest[0])
    ensures LeadingSpaces(ws + rest) == |ws|
    ensures (ws + rest)[|ws|..] == rest
  {
    var s := ws + rest;
    forall k | 0 <= k < |ws| ensures IsSpace(s[k]) {
      assert s[k] == ws[k];
    }
    assert |rest| > 0 ==> s[|ws|] == rest[0];
    LeadingSpacesUnique(s, |ws|);
  }

  /** Leading white space does not change what `parseInt` reads. */
  lemma ParseIntSkips(ws: string, t: string)
    requires AllSpace(ws)
    requires |t| > 0 && !IsSpace(t[0])
    ensures ParseInt(ws + t) == ParseInt(t)
  {
    LeadingSpacesOfPrefix(ws, t);
    LeadingSpacesUnique(t, 0);
    assert t[0..] == t;
  }

  /** `parseInt` of text that starts with a digit reads it unsigned. */
  lemma ParseIntOfUnsigned(t: string)
    requires |t| > 0 && IsDigit(t[0])
    ensures ParseInt(t) == ParseUnsigned(t)
  {
    LeadingSpacesUnique(t, 0);
    assert t[0..] == t;
  }

  /** `parseInt` of a minus sign followed by a number reads the negated number. */
  lemma ParseIntOfNegative(d: string, m: nat)
    requires ParseUnsigned(d) == Int(m)
    ensures ParseInt("-" + d) == Int(-(m as int))
  {
    var t := "-" + d;
    LeadingSpacesUnique(t, 0);
    assert t[0..] == t;
    assert t[0] == '-' && t[1..] == d;
  }

  /** `parseInt` reads back what a template literal prints: the text of a number, after
      any white space and followed by anything that is not a letter or digit, parses to it. */
  lemma ParseIntOfIntToString(ws: string, n: int, tail: string)
    requires AllSpace(ws)
    requires |tail| == 0 || (!IsDigit(tail[0]) && !IsAsciiLetter(tail[0]))
    ensures ParseInt(ws + IntToString(n) + tail) == Int(n)
  {
    var m: nat := if n < 0 then -n else n;
    var d := NatToString(m) + tail;
    ParseUnsignedOfNatToString(m, tail);
    if n < 0 {
      var t := "-" + d;
      assert ws + IntToString(n) + tail == ws + t;
      ParseIntSkips(ws, t);
      ParseIntOfNegative(d, m);
    } else {
      assert ws + IntToString(n) + tail == ws + d;
      assert d[0] == NatToString(m)[0];
      ParseIntSkips(ws, d);
      ParseIntOfUnsigned(d);
    }
  }

  lemma LeadingSpacesUnique(s: string, n: nat)
    requires n <= |s|
    requires forall k :: 0 <= k < n ==> IsSpace(s[k])
    requires n == |s| || !IsSpace(s[n])
    ensures LeadingSpaces(s) == n
  {
    if n > 0 {
      LeadingSpacesUnique(s[1..], n - 1);
    }
  }

  lemma DigitRunUnique(s: string, radix: int, n: nat)
    requires n <= |s|
    requires forall k :: 0 <= k < n ==> IsRadixDigit(s[k], radix)
    requires n == |s| || !IsRadixDigit(s[n], radix)
    ensures DigitRun(s, radix) == n
  {
  }
}
