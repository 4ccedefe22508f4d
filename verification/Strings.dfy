/**
 Strings as the program compares, trims and searches them.
 */
module Strings {
  import opened Wrappers

  // ----- Lexicographic order, a strict total order -----

  predicate Less(a: string, b: string) {
    b != [] && (a == [] || a[0] < b[0] || (a[0] == b[0] && Less(a[1..], b[1..])))
  }

  lemma {:induction false} LessTotal(a: string, b: string)
    ensures Less(a, b) || a == b || Less(b, a)
    ensures !(Less(a, b) && Less(b, a))
    ensures !Less(a, a)
  {
    if a != [] {
      LessTotal(a[1..], a[1..]);
      if b != [] && a[0] == b[0] {
        LessTotal(a[1..], b[1..]);
        if a[1..] == b[1..] {
          assert a == [a[0]] + a[1..] && b == [b[0]] + b[1..];
        }
      }
    }
  }

  lemma {:induction false} LessTransitive(a: string, b: string, c: string)
    requires Less(a, b) && Less(b, c)
    ensures Less(a, c)
  {
    if a != [] && a[0] == b[0] && b[0] == c[0] {
      LessTransitive(a[1..], b[1..], c[1..]);
    }
  }

  // ----- Trimming and searching -----

  // The characters that `trim` removes: Unicode white space.
  predicate IsSpace(c: char) {
    || '\t' <= c <= '\r' || c == ' ' || c == '\U{85}' || c == '\U{A0}' || c == '\U{1680}'
    || '\U{2000}' <= c <= '\U{200A}' || c == '\U{2028}' || c == '\U{2029}' || c == '\U{202F}'
    || c == '\U{205F}' || c == '\U{3000}'
  }

  function TrimStart(s: string): string {
    if s != [] && IsSpace(s[0]) then TrimStart(s[1..]) else s
  }

  function TrimEnd(s: string): string {
    if s != [] && IsSpace(s[|s| - 1]) then TrimEnd(s[..|s| - 1]) else s
  }

  function Trim(s: string): string {
    TrimEnd(TrimStart(s))
  }

  ghost predicate AllSpace(s: string) {
    forall i | 0 <= i < |s| :: IsSpace(s[i])
  }

  // Trimming takes away the white space at both ends and nothing else.
  lemma TrimTakesEnds(front: string, s: string, back: string)
    requires AllSpace(front) && AllSpace(back)
    requires s != [] && !IsSpace(s[0]) && !IsSpace(s[|s| - 1])
    ensures Trim(front + s + back) == s
  {
    TrimStartTakes(front, s + back);
    assert front + s + back == front + (s + back);
    TrimEndTakes(s, back);
  }

  lemma {:induction false} TrimStartTakes(front: string, s: string)
    requires AllSpace(front) && s != [] && !IsSpace(s[0])
    ensures TrimStart(front + s) == s
  {
    if front == [] {
      assert front + s == s;
    } else {
      TrimStartTakes(front[1..], s);
      assert (front + s)[1..] == front[1..] + s;
    }
  }

  lemma {:induction false} TrimEndTakes(s: string, back: string)
    requires AllSpace(back) && s != [] && !IsSpace(s[|s| - 1])
    ensures TrimEnd(s + back) == s
    decreases |back|
  {
    if back == [] {
      assert s + back == s;
    } else {
      TrimEndTakes(s, back[..|back| - 1]);
      assert (s + back)[..|s + back| - 1] == s + back[..|back| - 1];
    }
  }

  predicate IsNameChar(c: char) {
    '0' <= c <= '9' || 'a' <= c <= 'z' || 'A' <= c <= 'Z' || c == '_'
  }

  // The first occurrence of a character from `i` on.
  function Find(s: string, i: nat, c: char): (r: Option<nat>)
    requires i <= |s|
    ensures r.None? ==> forall k | i <= k < |s| :: s[k] != c
    ensures r.Some? ==> i <= r.value < |s| && s[r.value] == c && forall k | i <= k < r.value :: s[k] != c
    decreases |s| - i
  {
    if i == |s| then None else if s[i] == c then Some(i) else Find(s, i + 1, c)
  }

  lemma {:induction false} FindIs(s: string, i: nat, c: char, at: nat)
    requires i <= at < |s| && s[at] == c && forall k | i <= k < at :: s[k] != c
    ensures Find(s, i, c) == Some(at)
    decreases at - i
  {
    if i < at {
      FindIs(s, i + 1, c, at);
    }
  }

  lemma {:induction false} FindNone(s: string, i: nat, c: char)
    requires i <= |s| && forall k | i <= k < |s| :: s[k] != c
    ensures Find(s, i, c) == None
    decreases |s| - i
  {
    if i < |s| {
      FindNone(s, i + 1, c);
    }
  }

  // `rest` stands in `whole` from `n` to the end.
  ghost predicate Behind(whole: string, n: nat, rest: string) {
    |whole| == n + |rest| && whole[n..] == rest
  }

  lemma BehindAt(whole: string, n: nat, rest: string, at: nat)
    requires Behind(whole, n, rest) && n <= at < |whole|
    ensures whole[at] == rest[at - n]
  {
    assert whole[n..][at - n] == whole[at];
  }

  lemma FindBehind(whole: string, n: nat, rest: string, i: nat, c: char, from: nat)
    requires Behind(whole, n, rest) && i <= |rest| && from == n + i
    ensures Find(whole, from, c)
         == match Find(rest, i, c) { case None => None case Some(k) => Some(n + k) }
  {
    var found := Find(rest, i, c);
    var end := if found.Some? then n + found.value else |whole|;
    forall at | from <= at < end ensures whole[at] != c {
      BehindAt(whole, n, rest, at);
    }
    if found.Some? {
      BehindAt(whole, n, rest, end);
      FindIs(whole, from, c, end);
    } else {
      FindNone(whole, from, c);
    }
  }

  lemma SliceBehind(whole: string, n: nat, rest: string, i: nat, j: nat, from: nat, to: nat)
    requires Behind(whole, n, rest) && i <= j <= |rest| && from == n + i && to == n + j
    ensures whole[from..to] == rest[i..j]
  {
    assert whole[n..][i..j] == whole[from..to];
  }

  // `first` stands at the front of `whole`.
  lemma FindInFront(first: string, whole: string, i: nat, c: char)
    requires first <= whole && i <= |first| && Find(first, i, c).Some?
    ensures Find(whole, i, c) == Find(first, i, c)
  {
    var end := Find(first, i, c).value;
    forall at | i <= at < end ensures whole[at] != c {
      assert whole[at] == first[at];
    }
    FindIs(whole, i, c, end);
  }
}
