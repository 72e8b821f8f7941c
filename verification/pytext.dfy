/** Python string and slice semantics that the plugins rely on, stated once:
    whitespace stripping, ASCII case folding, `str.split(sep)`, `sep.join`,
    substring tests, prefix slicing `s[:n]` with a possibly negative `n`,
    and the left-to-right `re.sub` of a delimited pattern `OPEN[^CLOSE]+CLOSE`. */
module PyText {

  datatype Option<T> = None | Some(value: T) {
    function GetOr(default: T): T {
      match this
      case Some(v) => v
      case None => default
    }
  }

  function Min(a: int, b: int): int { if a <= b then a else b }
  function Max(a: int, b: int): int { if a >= b then a else b }

  /** The characters for which Python's `str.isspace()` holds; these are what
      `strip()` removes and what the regex class `\s` matches. */
  predicate IsSpace(c: char) {
    var n := c as int;
    || (9 <= n <= 13) || (28 <= n <= 32) || n == 0x85 || n == 0xA0 || n == 0x1680
    || (0x2000 <= n <= 0x200A) || n == 0x2028 || n == 0x2029 || n == 0x202F
    || n == 0x205F || n == 0x3000
  }

  predicate IsAsciiDigit(c: char) { '0' <= c <= '9' }

  /** `s.isdigit()` restricted to ASCII digits: non-empty and all digits. */
  predicate IsDigits(s: string) {
    |s| > 0 && forall i :: 0 <= i < |s| ==> IsAsciiDigit(s[i])
  }

  function LowerChar(c: char): char {
    if 'A' <= c <= 'Z' then (c as int + 32) as char else c
  }

  /** `s.lower()` on the ASCII letters. */
  function Lower(s: string): (r: string)
    ensures |r| == |s|
    ensures forall i :: 0 <= i < |s| ==> r[i] == LowerChar(s[i])
  {
    seq(|s|, i requires 0 <= i < |s| => LowerChar(s[i]))
  }

  /** The first index at or after `from` that does not hold whitespace, or
      `|s|` when there is none. */
  function SkipSpaces(s: string, from: nat): (k: nat)
    requires from <= |s|
    ensures from <= k <= |s|
    ensures forall i :: from <= i < k ==> IsSpace(s[i])
    ensures k < |s| ==> !IsSpace(s[k])
    decreases |s| - from
  {
    if from == |s| || !IsSpace(s[from]) then from else SkipSpaces(s, from + 1)
  }

  /** One past the last index before `end` that does not hold whitespace, or 0
      when there is none. */
  function BackSpaces(s: string, end: nat): (k: nat)
    requires end <= |s|
    ensures k <= end
    ensures forall i :: k <= i < end ==> IsSpace(s[i])
    ensures k > 0 ==> !IsSpace(s[k - 1])
    decreases end
  {
    if end == 0 || !IsSpace(s[end - 1]) then end else BackSpaces(s, end - 1)
  }

  /** `s.strip()`: `s` without its leading and trailing whitespace. The result
      neither starts nor ends with whitespace, and it is empty exactly when `s`
      is all whitespace. */
  function Strip(s: string): (r: string)
    ensures |r| > 0 ==> !IsSpace(r[0]) && !IsSpace(r[|r| - 1])
    ensures r == "" <==> forall i :: 0 <= i < |s| ==> IsSpace(s[i])
  {
    var a := SkipSpaces(s, 0);
    if a == |s| then ""
    else
      var b := BackSpaces(s, |s|);
      assert a < b;
      s[a..b]
  }

  /** The stripped text is the slice between the leading and the trailing
      whitespace, and every character cut away is whitespace. */
  lemma StripSlice(s: string)
    ensures exists a, b :: (0 <= a <= b <= |s| && Strip(s) == s[a..b]
      && (forall i :: 0 <= i < a ==> IsSpace(s[i])) && (forall i :: b <= i < |s| ==> IsSpace(s[i])))
  {
    var a := SkipSpaces(s, 0);
    if a == |s| {
      assert Strip(s) == s[a..a];
    } else {
      var b := BackSpaces(s, |s|);
      assert Strip(s) == s[a..b];
    }
  }

  /** The stripped text occurs in the original. */
  lemma StripOccurs(s: string)
    ensures Contains(s, Strip(s))
  {
    StripSlice(s);
    var a, b :| 0 <= a <= b <= |s| && Strip(s) == s[a..b]
      && (forall i :: 0 <= i < a ==> IsSpace(s[i])) && (forall i :: b <= i < |s| ==> IsSpace(s[i]));
    assert OccursAt(s, Strip(s), a);
  }

  predicate StartsWith(s: string, prefix: string) {
    |prefix| <= |s| && s[..|prefix|] == prefix
  }

  /** `sub` occurs in `s` starting at index `i`. */
  predicate OccursAt(s: string, sub: string, i: int) {
    0 <= i && i + |sub| <= |s| && s[i..i + |sub|] == sub
  }

  /** `sub in s` for strings: `sub` occurs at some position of `s`. */
  predicate Contains(s: string, sub: string) {
    exists i | 0 <= i <= |s| - |sub| :: OccursAt(s, sub, i)
  }

  /** The first position at or after `from` where `sub` occurs. */
  function FindFrom(s: string, sub: string, from: nat): (k: nat)
    requires exists i :: from <= i && OccursAt(s, sub, i)
    ensures from <= k && OccursAt(s, sub, k)
    ensures forall i :: from <= i < k ==> !OccursAt(s, sub, i)
    decreases |s| - from
  {
    if OccursAt(s, sub, from) then from else FindFrom(s, sub, from + 1)
  }

  lemma PrefixOfAppend(a: string, b: string)
    ensures StartsWith(a + b, a)
  {
  }

  /** Slicing a concatenation at a point inside its first part. */
  lemma SliceOfAppend<T>(a: seq<T>, b: seq<T>, k: nat)
    requires k <= |a|
    ensures (a + b)[..k] == a[..k] && (a + b)[k..] == a[k..] + b
  {
  }

  /** `s.find(sub)`: the first position where `sub` occurs. */
  function Find(s: string, sub: string): (k: nat)
    requires Contains(s, sub)
    ensures OccursAt(s, sub, k)
    ensures forall i :: 0 <= i < k ==> !OccursAt(s, sub, i)
  {
    FindFrom(s, sub, 0)
  }

  /** The first components of a list of pairs: the keys of an association
      list, in order. */
  function Firsts<A, B>(ps: seq<(A, B)>): (ks: seq<A>)
    ensures |ks| == |ps|
    ensures forall i :: 0 <= i < |ps| ==> ks[i] == ps[i].0
  {
    seq(|ps|, i requires 0 <= i < |ps| => ps[i].0)
  }

  /** The first index of `c` in `s` (`s.index(c)`). */
  function IndexOf<T(==)>(s: seq<T>, c: T): (k: nat)
    requires c in s
    ensures k < |s| && s[k] == c && c !in s[..k]
  {
    if s[0] == c then 0 else 1 + IndexOf(s[1..], c)
  }

  /** The first index is the only position holding `c` with no `c` before it. */
  lemma IndexOfUnique<T>(s: seq<T>, c: T, k: nat)
    requires k < |s| && s[k] == c && c !in s[..k]
    ensures IndexOf(s, c) == k
  {
  }

  /** `s.split(sep)` for a one-character separator. */
  function Split(s: string, sep: char): (r: seq<string>)
    ensures |r| >= 1
    ensures forall i :: 0 <= i < |r| ==> sep !in r[i]
    decreases |s|
  {
    if sep in s then
      var k := IndexOf(s, sep);
      [s[..k]] + Split(s[k + 1..], sep)
    else [s]
  }

  /** `sep.join(xs)` */
  function Join(xs: seq<string>, sep: string): string
  {
    if |xs| == 0 then ""
    else if |xs| == 1 then xs[0]
    else xs[0] + sep + Join(xs[1..], sep)
  }

  /** The first piece of a split ends at the first separator. */
  lemma SplitAt(s: string, sep: char, j: nat)
    requires j < |s| && s[j] == sep && sep !in s[..j]
    ensures Split(s, sep) == [s[..j]] + Split(s[j + 1..], sep)
  {
    IndexOfUnique(s, sep, j);
  }

  /** Joining the pieces of a split with the separator gives back the text. */
  lemma {:induction false} JoinSplit(s: string, sep: char)
    ensures Join(Split(s, sep), [sep]) == s
    decreases |s|
  {
    if sep in s {
      var k := IndexOf(s, sep);
      JoinSplit(s[k + 1..], sep);
      SplitAround(s, k);
    }
  }

  /** A sequence is the part before an index, the element there and the part
      after it. */
  lemma SplitAround<T>(s: seq<T>, k: nat)
    requires k < |s|
    ensures s == s[..k] + [s[k]] + s[k + 1..]
  {
    assert s == s[..k] + s[k..];
    assert s[k..] == [s[k]] + s[k + 1..];
  }

  /** Splitting a join of separator-free pieces gives back the pieces. */
  lemma {:induction false} SplitJoin(xs: seq<string>, sep: char)
    requires |xs| >= 1
    requires forall i :: 0 <= i < |xs| ==> sep !in xs[i]
    ensures Split(Join(xs, [sep]), sep) == xs
  {
    if |xs| > 1 {
      var a, b := xs[0], Join(xs[1..], [sep]);
      assert Join(xs, [sep]) == a + [sep] + b;
      AroundElement(a, sep, b);
      SplitAt(a + [sep] + b, sep, |a|);
      SplitJoin(xs[1..], sep);
      assert xs == [a] + xs[1..];
    }
  }

  /** The parts of a sequence built around one element. */
  lemma AroundElement<T>(a: seq<T>, c: T, b: seq<T>)
    ensures (a + [c] + b)[..|a|] == a && (a + [c] + b)[|a|] == c && (a + [c] + b)[|a| + 1..] == b
  {
  }

  /** Python's `s[:n]`: a negative `n` counts from the end. */
  function PyPrefix<T>(s: seq<T>, n: int): (r: seq<T>)
    ensures |r| <= |s| && r == s[..|r|]
    ensures 0 <= n ==> |r| == Min(n, |s|)
    ensures n < 0 ==> |r| == Max(0, |s| + n)
  {
    if n >= 0 then s[..Min(n, |s|)] else s[..Max(0, |s| + n)]
  }

  /** Where the pattern `open [^close]+ close` matches at the very start of
      `s`: the index of its closing character. The body between the delimiters
      is non-empty and holds no `close`, so the closing character is the first
      `close` after `open`. */
  function MatchAt(s: string, open: string, close: char): (m: Option<nat>)
    ensures m.Some? ==> |open| < m.value < |s| && StartsWith(s, open) && s[m.value] == close
  {
    if StartsWith(s, open) && |open| < |s| && s[|open|] != close then
      FirstClose(s, close, |open| + 1)
    else None
  }

  /** The match ends at the first `close` after `open`, and there is no match
      exactly when `s` does not start with `open`, the body would be empty, or
      no `close` follows. */
  lemma MatchAtFacts(s: string, open: string, close: char)
    ensures MatchAt(s, open, close).Some? ==> close !in s[|open|..MatchAt(s, open, close).value]
    ensures MatchAt(s, open, close).None? ==>
      !StartsWith(s, open) || close !in s[|open|..] || s[|open|] == close
  {
    var m := MatchAt(s, open, close);
    if StartsWith(s, open) && |open| < |s| && s[|open|] != close {
      if m.Some? {
        assert s[|open|..m.value] == [s[|open|]] + s[|open| + 1..m.value];
      } else {
        assert s[|open|..] == [s[|open|]] + s[|open| + 1..];
      }
    }
  }

  /** The first `close` at or after `from`. */
  function FirstClose(s: string, close: char, from: nat): (m: Option<nat>)
    requires from <= |s|
    ensures m.Some? ==> from <= m.value < |s| && s[m.value] == close && close !in s[from..m.value]
    ensures m.None? ==> close !in s[from..]
    decreases |s| - from
  {
    if from == |s| then None
    else if s[from] == close then Some(from)
    else
      var m := FirstClose(s, close, from + 1);
      assert m.Some? ==> s[from..m.value] == [s[from]] + s[from + 1..m.value];
      assert s[from..] == [s[from]] + s[from + 1..];
      m
  }

  /** `re.sub(open + "[^" + close + "]+" + close, f, s)`: one left-to-right pass
      in which every match is replaced by `f` of its body and the text produced
      by `f` is never scanned again. */
  function SubDelimited(s: string, open: string, close: char, f: string -> string): string
    decreases |s|
  {
    if |s| == 0 then ""
    else
      match MatchAt(s, open, close)
      case Some(j) => f(s[|open|..j]) + SubDelimited(s[j + 1..], open, close, f)
      case None => [s[0]] + SubDelimited(s[1..], open, close, f)
  }

  /** A match at the start is replaced and the scan resumes after it. */
  lemma SubDelimitedAtMatch(s: string, open: string, close: char, f: string -> string, j: nat)
    requires |s| > 0 && MatchAt(s, open, close) == Some(j)
    ensures SubDelimited(s, open, close, f) == f(s[|open|..j]) + SubDelimited(s[j + 1..], open, close, f)
  {
    var rest := SubDelimited(s[j + 1..], open, close, f);
    assert SubDelimited(s, open, close, f) == f(s[|open|..MatchAt(s, open, close).value]) + rest;
  }

  /** Without a match at the start the first character is kept and the scan
      moves on by one. */
  lemma SubDelimitedNoMatch(s: string, open: string, close: char, f: string -> string)
    requires |s| > 0 && MatchAt(s, open, close).None?
    ensures SubDelimited(s, open, close, f) == [s[0]] + SubDelimited(s[1..], open, close, f)
  {
  }

  /** A text that starts with `open` and has `close` at `j` is `open`, the
      body, `close` and the rest. */
  lemma RebuildMatch(s: string, open: string, close: char, j: nat)
    requires |open| < j < |s| && s[..|open|] == open && s[j] == close
    ensures s == open + s[|open|..j] + [close] + s[j + 1..]
  {
    assert s[..j] == open + s[|open|..j] by {
      assert s[..j] == s[..|open|] + s[|open|..j];
    }
    assert s[j..] == [close] + s[j + 1..];
    assert s == s[..j] + s[j..];
  }

  /** When every replacement reproduces the matched text, the substitution
      changes nothing. */
  lemma {:induction false} SubDelimitedIdentity(s: string, open: string, close: char, f: string -> string)
    requires forall body :: f(body) == open + body + [close]
    ensures SubDelimited(s, open, close, f) == s
    decreases |s|
  {
    if |s| > 0 {
      match MatchAt(s, open, close)
      case Some(j) =>
        SubDelimitedIdentity(s[j + 1..], open, close, f);
        SubDelimitedAtMatch(s, open, close, f, j);
        RebuildMatch(s, open, close, j);
        assert f(s[|open|..j]) == open + s[|open|..j] + [close];
      case None =>
        SubDelimitedIdentity(s[1..], open, close, f);
        SubDelimitedNoMatch(s, open, close, f);
        assert s == [s[0]] + s[1..];
    }
  }

  /** Text that holds no opening delimiter passes through unchanged. */
  lemma {:induction false} SubDelimitedNoOpen(s: string, open: string, close: char, f: string -> string)
    requires |open| > 0
    requires open[0] !in s
    ensures SubDelimited(s, open, close, f) == s
    decreases |s|
  {
    if |s| > 0 {
      assert !StartsWith(s, open) by {
        assert |open| <= |s| ==> s[..|open|][0] == s[0];
      }
      SubDelimitedNoOpen(s[1..], open, close, f);
      SubDelimitedNoMatch(s, open, close, f);
      assert s == [s[0]] + s[1..];
    }
  }
}
