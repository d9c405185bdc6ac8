/**
 * The few str operations the name transformers rely on: str.replace,
 * character filtering, ASCII case mapping (lower, upper, title, capitalize),
 * and Python's slice bounds.
 */
module Text {

  // ---------------------------------------------------------------- slicing

  /** Python's normalisation of a slice bound `i` against a sequence of length `n`. */
  function SliceIndex(i: int, n: nat): (k: nat)
    ensures k <= n
    ensures 0 <= i <= n ==> k == i
    ensures i < 0 && 0 <= n + i ==> k == n + i
  {
    if i < 0 then (if n + i < 0 then 0 else n + i)
    else if i > n then n
    else i
  }

  /** Python's `s[:i]`. */
  function Take<T>(s: seq<T>, i: int): (r: seq<T>)
    ensures r <= s
  {
    s[..SliceIndex(i, |s|)]
  }

  /** Python's `s[i:]`. */
  function Drop<T>(s: seq<T>, i: int): (r: seq<T>)
    ensures |r| <= |s| && r == s[|s| - |r|..]
  {
    s[SliceIndex(i, |s|)..]
  }

  // ---------------------------------------------------------------- str.replace

  /** There is an occurrence of `find` somewhere in `s`. */
  ghost predicate Occurs(s: seq<char>, find: seq<char>) {
    exists i :: 0 <= i <= |s| && find <= s[i..]
  }

  /** str.replace with an empty pattern: `repl` before every character and at the end. */
  function Interleave(s: seq<char>, repl: seq<char>): (r: seq<char>)
    ensures |r| == |s| + (|s| + 1) * |repl|
  {
    if s == [] then repl else repl + [s[0]] + Interleave(s[1..], repl)
  }

  /**
   * The layout of `Interleave(s, repl)`: block i, starting at i * (|repl| + 1),
   * is `repl` followed by `s[i]`, and one more `repl` closes the string.
   */
  lemma InterleaveLayout(s: seq<char>, repl: seq<char>)
    ensures forall i :: 0 <= i < |s| ==> BlockAt(Interleave(s, repl), i * (|repl| + 1), repl, s[i])
    ensures |s| * (|repl| + 1) <= |Interleave(s, repl)|
    ensures Interleave(s, repl)[|s| * (|repl| + 1)..] == repl
  {
    forall i | 0 <= i < |s|
      ensures BlockAt(Interleave(s, repl), i * (|repl| + 1), repl, s[i])
    {
      InterleaveBlock(s, repl, i);
    }
    InterleaveTail(s, repl);
  }

  /** `r` holds `repl` and then `c` from position `k` on. */
  predicate BlockAt(r: seq<char>, k: int, repl: seq<char>, c: char) {
    0 <= k && k + |repl| < |r| && r[k..k + |repl|] == repl && r[k + |repl|] == c
  }

  lemma {:induction false} InterleaveBlock(s: seq<char>, repl: seq<char>, i: int)
    requires 0 <= i < |s|
    ensures BlockAt(Interleave(s, repl), i * (|repl| + 1), repl, s[i])
    decreases i
  {
    var r, rest, w := Interleave(s, repl), Interleave(s[1..], repl), |repl| + 1;
    assert r == (repl + [s[0]]) + rest;
    if i > 0 {
      InterleaveBlock(s[1..], repl, i - 1);
      NextBlock(i, w);
      var k, k' := i * w, (i - 1) * w;
      assert r[k..k + |repl|] == rest[k'..k' + |repl|];
      assert r[k + |repl|] == rest[k' + |repl|];
    }
  }

  lemma {:induction false} InterleaveTail(s: seq<char>, repl: seq<char>)
    ensures |s| * (|repl| + 1) <= |Interleave(s, repl)|
    ensures Interleave(s, repl)[|s| * (|repl| + 1)..] == repl
    decreases |s|
  {
    if s != [] {
      var r, rest, w := Interleave(s, repl), Interleave(s[1..], repl), |repl| + 1;
      assert r == (repl + [s[0]]) + rest;
      InterleaveTail(s[1..], repl);
      NextBlock(|s|, w);
      assert r[|s| * w..] == rest[(|s| - 1) * w..];
    }
  }

  /** Block i starts one block after block i - 1. */
  lemma NextBlock(i: int, w: int)
    ensures i * w == (i - 1) * w + w
  {
  }

  /** str.replace with a non-empty pattern: scan left to right, replacing each non-overlapping match. */
  function ReplaceScan(s: seq<char>, find: seq<char>, repl: seq<char>): seq<char>
    requires find != []
    decreases |s|
  {
    if s == [] then []
    else if find <= s then repl + ReplaceScan(s[|find|..], find, repl)
    else [s[0]] + ReplaceScan(s[1..], find, repl)
  }

  /** Python's `s.replace(find, repl)`. */
  function Replace(s: seq<char>, find: seq<char>, repl: seq<char>): seq<char> {
    if find == [] then Interleave(s, repl) else ReplaceScan(s, find, repl)
  }

  /** With no occurrence of a non-empty pattern, replace gives the string back. */
  lemma {:induction false} ReplaceAbsent(s: seq<char>, find: seq<char>, repl: seq<char>)
    ensures find != [] && !Occurs(s, find) ==> Replace(s, find, repl) == s
  {
    if find != [] && !Occurs(s, find) && s != [] {
      assert !(find <= s[0..]);
      assert s[0..] == s;
      ReplaceAbsent(s[1..], find, repl);
    }
  }

  /** Replacing a pattern by itself changes nothing, the empty pattern included. */
  lemma {:induction false} ReplaceWithItself(s: seq<char>, find: seq<char>)
    ensures Replace(s, find, find) == s
  {
    if s != [] {
      ReplaceWithItself(s[1..], find);
      if find != [] && find <= s {
        ReplaceWithItself(s[|find|..], find);
        assert s == find + s[|find|..];
      }
    }
  }

  /**
   * Replacing one character by another that the string does not contain, and
   * then back, restores the string.
   */
  lemma {:induction false} ReplaceCharRoundTrip(s: seq<char>, x: char, y: char)
    requires x != y && y !in s
    ensures Replace(Replace(s, [x], [y]), [y], [x]) == s
  {
    if s != [] {
      ReplaceCharRoundTrip(s[1..], x, y);
      var t := Replace(s[1..], [x], [y]);
      if s[0] == x {
        assert [x] <= s;
        assert Replace(s, [x], [y]) == [y] + t;
        assert [y] <= [y] + t && ([y] + t)[1..] == t;
      } else {
        assert !([x] <= s);
        assert Replace(s, [x], [y]) == [s[0]] + t;
        assert !([y] <= [s[0]] + t) && ([s[0]] + t)[1..] == t;
      }
    }
  }

  // ---------------------------------------------------------------- filtering

  /** The characters of `s` that `keep` accepts, in their order. */
  function Filter(s: seq<char>, keep: char -> bool): (r: seq<char>)
    ensures |r| <= |s|
    ensures forall c :: c in r <==> c in s && keep(c)
  {
    if s == [] then [] else (if keep(s[0]) then [s[0]] else []) + Filter(s[1..], keep)
  }

  /** `a` is obtained from `b` by deleting some characters. */
  predicate IsSubsequence(a: seq<char>, b: seq<char>)
    decreases |b|
  {
    if a == [] then true
    else if b == [] then false
    else (a[0] == b[0] && IsSubsequence(a[1..], b[1..])) || IsSubsequence(a, b[1..])
  }

  lemma {:induction false} FilterIsSubsequence(s: seq<char>, keep: char -> bool)
    ensures IsSubsequence(Filter(s, keep), s)
  {
    if s != [] {
      var rest := Filter(s[1..], keep);
      FilterIsSubsequence(s[1..], keep);
      if keep(s[0]) {
        assert Filter(s, keep) == [s[0]] + rest;
        assert ([s[0]] + rest)[1..] == rest;
      } else {
        assert Filter(s, keep) == rest;
      }
    }
  }

  /** A filter that keeps every character of `s` gives `s` back. */
  lemma {:induction false} FilterKeepsAll(s: seq<char>, keep: char -> bool)
    requires forall c :: c in s ==> keep(c)
    ensures Filter(s, keep) == s
  {
    if s != [] {
      FilterKeepsAll(s[1..], keep);
    }
  }

  /** Two filters in a row are one filter by the conjunction. */
  lemma {:induction false} FilterCompose(s: seq<char>, p: char -> bool, q: char -> bool, pq: char -> bool)
    requires forall c :: pq(c) == (p(c) && q(c))
    ensures Filter(Filter(s, p), q) == Filter(s, pq)
  {
    if s != [] {
      FilterCompose(s[1..], p, q, pq);
      var rest := Filter(s[1..], p);
      if p(s[0]) {
        assert Filter(s, p) == [s[0]] + rest;
        assert ([s[0]] + rest)[1..] == rest;
        assert Filter([s[0]] + rest, q) == (if q(s[0]) then [s[0]] else []) + Filter(rest, q);
      } else {
        assert Filter(s, p) == rest;
      }
    }
  }

  /** `s.replace(c, "")` deletes every `c` and nothing else. */
  lemma {:induction false} ReplaceCharByNothing(s: seq<char>, c: char, keep: char -> bool)
    requires forall x :: keep(x) == (x != c)
    ensures Replace(s, [c], []) == Filter(s, keep)
  {
    if s != [] {
      ReplaceCharByNothing(s[1..], c, keep);
      if s[0] == c {
        assert [c] <= s;
      } else {
        assert !([c] <= s);
      }
    }
  }

  // ---------------------------------------------------------------- ASCII case

  predicate IsAsciiLetter(c: char) {
    'a' <= c <= 'z' || 'A' <= c <= 'Z'
  }

  predicate IsUpperLetter(c: char) {
    'A' <= c <= 'Z'
  }

  predicate IsLowerLetter(c: char) {
    'a' <= c <= 'z'
  }

  /** Changing the case of a character keeps it the same letter. */
  lemma CaseCharAgree(c: char)
    ensures LowerChar(UpperChar(c)) == LowerChar(c) && LowerChar(LowerChar(c)) == LowerChar(c)
    ensures !IsUpperLetter(LowerChar(c)) && !IsLowerLetter(UpperChar(c))
  {
  }

  function LowerChar(c: char): (d: char)
    ensures IsAsciiLetter(d) == IsAsciiLetter(c) && (d == '.' <==> c == '.')
  {
    if 'A' <= c <= 'Z' then (c as int + 32) as char else c
  }

  function UpperChar(c: char): (d: char)
    ensures IsAsciiLetter(d) == IsAsciiLetter(c) && (d == '.' <==> c == '.')
  {
    if 'a' <= c <= 'z' then (c as int - 32) as char else c
  }

  /** str.lower, ASCII letters only. */
  function Lower(s: seq<char>): (r: seq<char>) {
    seq(|s|, i requires 0 <= i < |s| => LowerChar(s[i]))
  }

  /** str.upper, ASCII letters only. */
  function Upper(s: seq<char>): (r: seq<char>) {
    seq(|s|, i requires 0 <= i < |s| => UpperChar(s[i]))
  }

  /** str.title, ASCII letters only: a letter is upper-cased after a non-letter, lower-cased after a letter. */
  function Title(s: seq<char>): (r: seq<char>) {
    seq(|s|, i requires 0 <= i < |s| =>
      if i == 0 || !IsAsciiLetter(s[i - 1]) then UpperChar(s[i]) else LowerChar(s[i]))
  }

  /** str.capitalize, ASCII letters only: first character upper-cased, the rest lower-cased. */
  function Capitalize(s: seq<char>): (r: seq<char>) {
    if s == [] then [] else [UpperChar(s[0])] + Lower(s[1..])
  }

  lemma LowerLetters(s: seq<char>)
    ensures forall j :: 0 <= j < |s| ==> LowerChar(Lower(s)[j]) == LowerChar(s[j]) && !IsUpperLetter(Lower(s)[j])
  {
    forall j | 0 <= j < |s| ensures LowerChar(Lower(s)[j]) == LowerChar(s[j]) && !IsUpperLetter(Lower(s)[j]) {
      CaseCharAgree(s[j]);
    }
  }

  lemma UpperLetters(s: seq<char>)
    ensures forall j :: 0 <= j < |s| ==> LowerChar(Upper(s)[j]) == LowerChar(s[j]) && !IsLowerLetter(Upper(s)[j])
  {
    forall j | 0 <= j < |s| ensures LowerChar(Upper(s)[j]) == LowerChar(s[j]) && !IsLowerLetter(Upper(s)[j]) {
      CaseCharAgree(s[j]);
    }
  }

  lemma TitleLetters(s: seq<char>)
    ensures forall j :: 0 <= j < |s| ==> LowerChar(Title(s)[j]) == LowerChar(s[j]) && TitleCasedAt(Title(s), s, j)
  {
    var r := Title(s);
    forall j | 0 <= j < |s| ensures LowerChar(r[j]) == LowerChar(s[j]) && TitleCasedAt(r, s, j) {
      CaseCharAgree(s[j]);
      if j == 0 || !IsAsciiLetter(s[j - 1]) {
        assert r[j] == UpperChar(s[j]);
      } else {
        assert r[j] == LowerChar(s[j]);
      }
    }
  }

  /** Position `j` of `r` is cased as str.title cases position `j` of `s`. */
  predicate TitleCasedAt(r: seq<char>, s: seq<char>, j: int)
    requires 0 <= j < |r| == |s|
  {
    if j == 0 || !IsAsciiLetter(s[j - 1]) then !IsLowerLetter(r[j]) else !IsUpperLetter(r[j])
  }

  lemma CapitalizeLetters(s: seq<char>)
    ensures forall j :: 0 <= j < |s| ==> LowerChar(Capitalize(s)[j]) == LowerChar(s[j])
    ensures forall j :: 0 <= j < |s| ==>
      if j == 0 then !IsLowerLetter(Capitalize(s)[j]) else !IsUpperLetter(Capitalize(s)[j])
  {
    if s != [] {
      var r := Capitalize(s);
      LowerLetters(s[1..]);
      CaseCharAgree(s[0]);
      forall j | 1 <= j < |s| ensures r[j] == Lower(s[1..])[j - 1] && s[j] == s[1..][j - 1] {
      }
    }
  }

  lemma LowerIdempotent(s: seq<char>)
    ensures Lower(Lower(s)) == Lower(s)
  {
    var r := Lower(s);
    assert forall i :: 0 <= i < |s| ==> Lower(r)[i] == LowerChar(LowerChar(s[i])) == r[i];
  }

  lemma UpperIdempotent(s: seq<char>)
    ensures Upper(Upper(s)) == Upper(s)
  {
    var r := Upper(s);
    assert forall i :: 0 <= i < |s| ==> Upper(r)[i] == UpperChar(UpperChar(s[i])) == r[i];
  }

  lemma CaseCharIdempotent(c: char)
    ensures UpperChar(UpperChar(c)) == UpperChar(c) && LowerChar(LowerChar(c)) == LowerChar(c)
  {
  }

  lemma TitleIdempotent(s: seq<char>)
    ensures Title(Title(s)) == Title(s)
  {
    var r := Title(s);
    forall i | 0 <= i < |s| ensures Title(r)[i] == r[i] {
      TitleCharStable(s, i);
    }
  }

  /** Title case decides each character from the previous one's letter-ness, which it keeps. */
  lemma TitleCharStable(s: seq<char>, i: nat)
    requires i < |s|
    ensures Title(Title(s))[i] == Title(s)[i]
  {
    var r := Title(s);
    var c := s[i];
    CaseCharIdempotent(c);
    var up := i == 0 || !IsAsciiLetter(s[i - 1]);
    assert r[i] == if up then UpperChar(c) else LowerChar(c);
    if i > 0 {
      assert IsAsciiLetter(r[i - 1]) == IsAsciiLetter(s[i - 1]);
    }
    assert Title(r)[i] == if up then UpperChar(r[i]) else LowerChar(r[i]);
  }

  lemma CapitalizeIdempotent(s: seq<char>)
    ensures Capitalize(Capitalize(s)) == Capitalize(s)
  {
    if s != [] {
      var r := Capitalize(s);
      assert r[0] == UpperChar(s[0]) && r[1..] == Lower(s[1..]);
      LowerIdempotent(s[1..]);
    }
  }
}
