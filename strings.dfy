/** The fragments of Python's `str` behaviour the securities-list parser relies
    on, restricted to ASCII: a `char` stands for one byte of the rendered text.
    Python slicing clamps its bounds, `split` keeps empty pieces, `strip`
    removes what `str.isspace` accepts, and `replace` scans left to right. */
module Strings {

  datatype Option<+T> = None | Some(value: T)

  function Min(a: nat, b: nat): nat { if a <= b then a else b }

  /** ASCII characters for which Python's `str.isspace()` holds; the same set
      is matched by `\s` in a `str` pattern. */
  predicate IsSpace(c: char) {
    var n := c as int;
    n == 32 || 9 <= n <= 13 || 28 <= n <= 31
  }

  predicate IsBlankChar(c: char) { c == ' ' }

  predicate IsDigit(c: char) { '0' <= c <= '9' }

  predicate IsAlnum(c: char) { 'a' <= c <= 'z' || 'A' <= c <= 'Z' || IsDigit(c) }

  function LowerChar(c: char): char {
    if 'A' <= c <= 'Z' then (c as int + 32) as char else c
  }

  /** `s.lower()` over ASCII. */
  function Lower(s: string): string {
    seq(|s|, i requires 0 <= i < |s| => LowerChar(s[i]))
  }

  /** The lower-case keyword `w` stands at `i` in `s`, ignoring ASCII case
      (a literal in a pattern compiled with `re.IGNORECASE`). */
  predicate KeywordAt(s: string, i: nat, w: string) {
    i + |w| <= |s| && Lower(s[i..i + |w|]) == w
  }

  /** Lower-casing text without capitals changes nothing. */
  lemma LowerIdentity(s: string)
    requires forall i :: 0 <= i < |s| ==> !('A' <= s[i] <= 'Z')
    ensures Lower(s) == s
  {
  }

  /** `t` occurs in `s` starting at index `i`. */
  ghost predicate Occurs(s: string, t: string, i: int) {
    0 <= i && i + |t| <= |s| && s[i..i + |t|] == t
  }

  /** Python's `t in s` for strings, stated as an existence. */
  ghost predicate Contains(s: string, t: string) {
    exists i :: Occurs(s, t, i)
  }

  /** `i` is where `re.search(t, s)` reports a literal pattern `t`: the leftmost occurrence. */
  ghost predicate FirstOccurrence(s: string, t: string, i: int) {
    Occurs(s, t, i) && forall j :: 0 <= j < i ==> !Occurs(s, t, j)
  }

  /** Leftmost occurrence of `t` in `s` at or after `k`. */
  function IndexFrom(s: string, t: string, k: nat): (r: Option<nat>)
    ensures r.Some? ==> k <= r.value && Occurs(s, t, r.value)
    ensures r.Some? ==> forall j :: k <= j < r.value ==> !Occurs(s, t, j)
    ensures r.None? ==> forall j :: k <= j ==> !Occurs(s, t, j)
    decreases |s| - k
  {
    if k + |t| > |s| then None
    else if s[k..k + |t|] == t then Some(k)
    else IndexFrom(s, t, k + 1)
  }

  function Find(s: string, t: string): (r: Option<nat>)
    ensures r.Some? <==> Contains(s, t)
    ensures r.Some? ==> FirstOccurrence(s, t, r.value)
  {
    IndexFrom(s, t, 0)
  }

  /** Executable `t in s`. */
  function Has(s: string, t: string): (b: bool)
    ensures b <==> Contains(s, t)
  {
    Find(s, t).Some?
  }

  /** First index at or after `k` holding `c`. */
  function FindChar(s: string, c: char, k: nat): (r: Option<nat>)
    ensures r.Some? ==> k <= r.value < |s| && s[r.value] == c
    ensures r.Some? ==> forall j :: k <= j < r.value ==> s[j] != c
    ensures r.None? ==> forall j :: k <= j < |s| ==> s[j] != c
    decreases |s| - k
  {
    if k >= |s| then None
    else if s[k] == c then Some(k)
    else FindChar(s, c, k + 1)
  }

  /** The end of the longest run of characters satisfying `p` that starts at `j`. */
  function SkipWhile(s: string, j: nat, p: char -> bool): (k: nat)
    requires j <= |s|
    ensures j <= k <= |s|
    ensures forall m :: j <= m < k ==> p(s[m])
    ensures k < |s| ==> !p(s[k])
    decreases |s| - j
  {
    if j < |s| && p(s[j]) then SkipWhile(s, j + 1, p) else j
  }

  /** A run of exactly `n` characters satisfying `p`, followed by one that
      does not, is skipped exactly. */
  lemma {:induction false} SkipWhileExact(s: string, j: nat, n: nat, p: char -> bool)
    requires j + n < |s|
    requires forall m :: j <= m < j + n ==> p(s[m])
    requires !p(s[j + n])
    ensures SkipWhile(s, j, p) == j + n
    decreases n
  {
    if n > 0 {
      SkipWhileExact(s, j + 1, n - 1, p);
    }
  }

  /** Generic leftmost search, as `re.search` does it: try each start position
      `i`, `i + 1`, ..., `|s|` in turn with the anchored matcher `m`, which
      gives the end of the match at a position or `None`. */
  function Search(s: string, i: nat, m: (string, nat) -> Option<nat>): (r: Option<(nat, nat)>)
    ensures r.Some? ==> i <= r.value.0 <= |s| && m(s, r.value.0) == Some(r.value.1)
    ensures r.Some? ==> forall j :: i <= j < r.value.0 ==> m(s, j).None?
    ensures r.None? ==> forall j :: i <= j <= |s| ==> m(s, j).None?
    decreases |s| + 1 - i
  {
    if i > |s| then None
    else match m(s, i)
      case Some(e) => Some((i, e))
      case None => Search(s, i + 1, m)
  }

  /** The search reports `p` when the matcher succeeds there and at no
      earlier start. */
  lemma SearchFinds(s: string, i: nat, m: (string, nat) -> Option<nat>, p: nat, e: nat)
    requires i <= p <= |s| && m(s, p) == Some(e)
    requires forall j :: i <= j < p ==> m(s, j).None?
    ensures Search(s, i, m) == Some((p, e))
  {
  }

  function TrimLeft(s: string): string {
    if |s| > 0 && IsSpace(s[0]) then TrimLeft(s[1..]) else s
  }

  function TrimRight(s: string): string {
    if |s| > 0 && IsSpace(s[|s| - 1]) then TrimRight(s[..|s| - 1]) else s
  }

  /** `s.strip()`. */
  function Strip(s: string): string {
    TrimRight(TrimLeft(s))
  }

  /** `s.strip() == ''` holds exactly for strings made only of whitespace. */
  lemma {:induction false} StripEmpty(s: string)
    ensures Strip(s) == [] <==> forall i :: 0 <= i < |s| ==> IsSpace(s[i])
  {
    TrimLeftBlank(s);
    var t := TrimLeft(s);
    if t != [] {
      TrimRightKeepsFirst(t);
    }
  }

  /** `strip` keeps a contiguous piece of `s`: no character is invented. */
  lemma StripKeeps(s: string)
    ensures forall x :: x in Strip(s) ==> x in s
  {
    TrimLeftSuffix(s);
    TrimRightPrefix(TrimLeft(s));
  }

  lemma {:induction false} TrimLeftSuffix(s: string)
    ensures |TrimLeft(s)| <= |s| && TrimLeft(s) == s[|s| - |TrimLeft(s)|..]
    decreases |s|
  {
    if |s| > 0 && IsSpace(s[0]) {
      TrimLeftSuffix(s[1..]);
    }
  }

  lemma {:induction false} TrimRightPrefix(s: string)
    ensures |TrimRight(s)| <= |s| && TrimRight(s) == s[..|TrimRight(s)|]
    decreases |s|
  {
    if |s| > 0 && IsSpace(s[|s| - 1]) {
      TrimRightPrefix(s[..|s| - 1]);
    }
  }

  lemma {:induction false} TrimLeftBlank(s: string)
    ensures TrimLeft(s) == [] <==> forall i :: 0 <= i < |s| ==> IsSpace(s[i])
    ensures TrimLeft(s) != [] ==> !IsSpace(TrimLeft(s)[0])
    decreases |s|
  {
    if |s| > 0 && IsSpace(s[0]) {
      TrimLeftBlank(s[1..]);
      if TrimLeft(s) == [] {
        forall i | 0 <= i < |s| ensures IsSpace(s[i]) {
          if i > 0 { assert s[1..][i - 1] == s[i]; }
        }
      }
    }
  }

  lemma {:induction false} TrimRightKeepsFirst(s: string)
    requires s != [] && !IsSpace(s[0])
    ensures TrimRight(s) != [] && TrimRight(s)[0] == s[0]
    decreases |s|
  {
    if |s| > 1 && IsSpace(s[|s| - 1]) {
      TrimRightKeepsFirst(s[..|s| - 1]);
    }
  }

  /** Stripping whitespace padding off a word that neither starts nor ends with
      whitespace gives back the word. */
  lemma {:induction false} StripPadded(w: string, d: string)
    requires forall i :: 0 <= i < |w| ==> IsSpace(w[i])
    requires d != [] && !IsSpace(d[0]) && !IsSpace(d[|d| - 1])
    ensures Strip(w + d) == d
    decreases |w|
  {
    if w != [] {
      assert (w + d)[1..] == w[1..] + d;
      StripPadded(w[1..], d);
    } else {
      assert w + d == d;
    }
  }

  /** `s.replace(p, '')`: occurrences of `p` are removed left to right without overlap. */
  function ReplaceAll(s: string, p: string): string
    requires |p| > 0
    decreases |s|
  {
    if |s| < |p| then s
    else if s[..|p|] == p then ReplaceAll(s[|p|..], p)
    else [s[0]] + ReplaceAll(s[1..], p)
  }

  /** Removing a one-character pattern leaves none of that character. */
  lemma {:induction false} ReplaceAllDrops(s: string, c: char)
    ensures c !in ReplaceAll(s, [c])
    decreases |s|
  {
    if |s| >= 1 {
      ReplaceAllDrops(s[1..], c);
    }
  }

  /** Removing a pattern whose first character never appears changes nothing. */
  lemma {:induction false} ReplaceAllAbsent(s: string, p: string)
    requires |p| > 0
    requires forall i :: 0 <= i < |s| ==> s[i] != p[0]
    ensures ReplaceAll(s, p) == s
    decreases |s|
  {
    if |s| >= |p| {
      assert s[..|p|][0] == s[0];
      ReplaceAllAbsent(s[1..], p);
      assert [s[0]] + s[1..] == s;
    }
  }

  /** Python's `s[a:b]` for non-negative bounds: both are clamped to the length. */
  function Slice(s: string, a: nat, b: nat): string {
    if a >= b || a >= |s| then [] else s[a..Min(b, |s|)]
  }

  /** A character is in the clamped slice exactly when it stands in `s` between the bounds. */
  lemma SliceHas(s: string, a: nat, b: nat, c: char)
    ensures c in Slice(s, a, b) <==> exists m :: a <= m < b && m < |s| && s[m] == c
  {
    if exists m :: a <= m < b && m < |s| && s[m] == c {
      var m :| a <= m < b && m < |s| && s[m] == c;
      assert Slice(s, a, b)[m - a] == c;
    }
  }

  /** Python's `s[a:]` for a non-negative bound. */
  function SliceFrom(s: string, a: nat): string {
    if a >= |s| then [] else s[a..]
  }

  /** `t in s[a:]` holds exactly when `t` occurs in `s` at or after `a`. */
  lemma SliceFromContains(s: string, a: nat, t: string)
    requires |t| > 0
    ensures Contains(SliceFrom(s, a), t) <==> exists m :: a <= m && Occurs(s, t, m)
  {
    if Contains(SliceFrom(s, a), t) {
      var i :| Occurs(SliceFrom(s, a), t, i);
      assert s[a + i..a + i + |t|] == SliceFrom(s, a)[i..i + |t|];
      assert Occurs(s, t, a + i);
    }
    if exists m :: a <= m && Occurs(s, t, m) {
      var m :| a <= m && Occurs(s, t, m);
      assert SliceFrom(s, a)[m - a..m - a + |t|] == s[m..m + |t|];
      assert Occurs(SliceFrom(s, a), t, m - a);
    }
  }

  /** `s.split(sep)` for a one-character separator: empty pieces are kept. */
  function Split(s: string, sep: char): (r: seq<string>)
    ensures |r| >= 1
    decreases |s|
  {
    match FindChar(s, sep, 0)
    case None => [s]
    case Some(i) => [s[..i]] + Split(s[i + 1..], sep)
  }

  /** `sep.join(parts)`. */
  function Join(parts: seq<string>, sep: char): string {
    if |parts| == 0 then []
    else if |parts| == 1 then parts[0]
    else parts[0] + [sep] + Join(parts[1..], sep)
  }

  /** `split` is undone by `join`, and no piece holds the separator. */
  lemma {:induction false} SplitJoin(s: string, sep: char)
    ensures Join(Split(s, sep), sep) == s
    ensures forall k :: 0 <= k < |Split(s, sep)| ==> sep !in Split(s, sep)[k]
    decreases |s|
  {
    match FindChar(s, sep, 0)
    case None =>
    case Some(i) =>
      var rest := Split(s[i + 1..], sep);
      SplitJoin(s[i + 1..], sep);
      assert Split(s, sep) == [s[..i]] + rest;
      assert s == s[..i] + [sep] + s[i + 1..];
      forall k | 0 <= k < |Split(s, sep)| ensures sep !in Split(s, sep)[k] {
        if k > 0 { assert Split(s, sep)[k] == rest[k - 1]; }
      }
  }

  /** `''.join(c for c in s if c.isdigit())`. */
  function Digits(s: string): string {
    if s == [] then [] else (if IsDigit(s[0]) then [s[0]] else []) + Digits(s[1..])
  }

  function DigitValue(c: char): nat {
    if IsDigit(c) then c as int - '0' as int else 0
  }

  /** The digits kept are digits, every digit of `s` is kept, and nothing is
      kept exactly when `s` has no digit. */
  lemma {:induction false} DigitsOnly(s: string)
    ensures AllDigits(Digits(s))
    ensures forall i :: 0 <= i < |s| && IsDigit(s[i]) ==> s[i] in Digits(s)
    ensures Digits(s) == [] <==> forall i :: 0 <= i < |s| ==> !IsDigit(s[i])
    decreases |s|
  {
    if s != [] {
      DigitsOnly(s[1..]);
      forall i | 0 < i < |s| && IsDigit(s[i]) ensures s[i] in Digits(s) {
        assert s[1..][i - 1] == s[i];
      }
      if Digits(s) == [] {
        forall i | 0 <= i < |s| ensures !IsDigit(s[i]) {
          if i > 0 { assert s[1..][i - 1] == s[i]; }
        }
      }
    }
  }

  /** Decimal value of a string of ASCII digits. */
  function Decimal(d: string): nat {
    if d == [] then 0 else 10 * Decimal(d[..|d| - 1]) + DigitValue(d[|d| - 1])
  }

  predicate AllDigits(d: string) {
    forall i :: 0 <= i < |d| ==> IsDigit(d[i])
  }

  /** Python's `int(d)` for an ASCII string that is either digits or not a number
      (the only inputs it gets here): `None` is the ValueError. */
  function ParseDecimal(d: string): Option<nat> {
    if d != [] && AllDigits(d) then Some(Decimal(d)) else None
  }
}
