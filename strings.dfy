/**
 * The JavaScript string operations the crypto tool relies on:
 * `String.prototype.split` and `Array.prototype.join` with a one-character
 * separator, and `String.prototype.includes`.
 */
module Strings {

  /** `s.split(sep)`: the pieces of `s` between occurrences of `sep`. */
  function Split(s: string, sep: char): (parts: seq<string>)
    ensures |parts| == Count(s, sep) + 1
    ensures FreeOf(parts, sep)
    ensures Join(parts, sep) == s
  {
    if s == [] then [[]]
    else
      var rest := Split(s[1..], sep);
      SplitStep(s, sep, rest);
      if s[0] == sep then [[]] + rest
      else [[s[0]] + rest[0]] + rest[1..]
  }

  /** The inductive step of Split: what one more leading character does. */
  lemma SplitStep(s: string, sep: char, rest: seq<string>)
    requires s != []
    requires |rest| == Count(s[1..], sep) + 1
    requires FreeOf(rest, sep)
    requires Join(rest, sep) == s[1..]
    ensures s[0] == sep ==>
      var parts := [[]] + rest;
      |parts| == Count(s, sep) + 1 && FreeOf(parts, sep) && Join(parts, sep) == s
    ensures s[0] != sep ==>
      var parts := [[s[0]] + rest[0]] + rest[1..];
      |parts| == Count(s, sep) + 1 && FreeOf(parts, sep) && Join(parts, sep) == s
  {
    if s[0] == sep {
      SplitStepAtSeparator(s[1..], sep, rest);
    } else {
      SplitStepInPiece(s[0], s[1..], sep, rest);
    }
  }

  lemma SplitStepAtSeparator(tail: string, sep: char, rest: seq<string>)
    requires |rest| >= 1 && Join(rest, sep) == tail
    ensures Join([[]] + rest, sep) == [sep] + tail
  {
    var parts := [[]] + rest;
    assert parts[1..] == rest;
  }

  lemma SplitStepInPiece(c: char, tail: string, sep: char, rest: seq<string>)
    requires c != sep && |rest| >= 1
    requires FreeOf(rest, sep)
    requires Join(rest, sep) == tail
    ensures FreeOf([[c] + rest[0]] + rest[1..], sep)
    ensures Join([[c] + rest[0]] + rest[1..], sep) == [c] + tail
  {
    var first := [c] + rest[0];
    var parts := [first] + rest[1..];
    assert rest[0] in rest;
    assert sep !in first;
    forall i | 1 <= i < |parts| ensures sep !in parts[i] {
      assert parts[i] == rest[i];
    }
    assert parts[1..] == rest[1..];
    if |rest| > 1 {
      assert Join(parts, sep) == first + [sep] + Join(rest[1..], sep);
    }
  }

  /** `parts.join(sep)`. */
  function Join(parts: seq<string>, sep: char): (s: string)
    ensures |parts| == 1 ==> s == parts[0]
  {
    if parts == [] then []
    else if |parts| == 1 then parts[0]
    else parts[0] + [sep] + Join(parts[1..], sep)
  }

  /** The number of occurrences of `c` in `s`. */
  function Count(s: string, c: char): (n: nat)
    ensures n == 0 <==> c !in s
  {
    if s == [] then 0 else (if s[0] == c then 1 else 0) + Count(s[1..], c)
  }

  /** No piece contains the separator. */
  predicate FreeOf(parts: seq<string>, sep: char) {
    forall i :: 0 <= i < |parts| ==> sep !in parts[i]
  }

  /** `s.includes(t)`: `t` occurs in `s` at some position. */
  predicate Contains(s: string, t: string) {
    exists i :: 0 <= i <= |s| - |t| && OccursAt(s, t, i)
  }

  /** `t` occurs in `s` starting at position `i`. */
  predicate OccursAt(s: string, t: string, i: nat)
    requires i + |t| <= |s|
  {
    s[i..i + |t|] == t
  }

  /** A piece free of the separator splits into itself. */
  lemma {:induction false} SplitNoSeparator(a: string, sep: char)
    requires sep !in a
    ensures Split(a, sep) == [a]
  {
    if a != [] {
      SplitNoSeparator(a[1..], sep);
      assert a == [a[0]] + a[1..];
    }
  }

  /** A separator-free piece followed by the separator splits off as one part. */
  lemma {:induction false} SplitFirst(a: string, rest: string, sep: char)
    requires sep !in a
    ensures Split(a + [sep] + rest, sep) == [a] + Split(rest, sep)
  {
    if a == [] {
      assert a + [sep] + rest == [sep] + rest;
      SplitAtSeparator(rest, sep);
    } else {
      var tail := a[1..] + [sep] + rest;
      assert a + [sep] + rest == [a[0]] + tail;
      SplitFirst(a[1..], rest, sep);
      SplitInPiece(a[0], tail, sep);
      assert [a[0]] + a[1..] == a;
    }
  }

  /** Splitting a string that starts with the separator. */
  lemma SplitAtSeparator(t: string, sep: char)
    ensures Split([sep] + t, sep) == [[]] + Split(t, sep)
  {
    assert ([sep] + t)[1..] == t;
  }

  /** Splitting a string that starts with another character. */
  lemma SplitInPiece(c: char, t: string, sep: char)
    requires c != sep
    ensures Split([c] + t, sep) == [[c] + Split(t, sep)[0]] + Split(t, sep)[1..]
  {
    assert ([c] + t)[1..] == t;
  }

  /** Splitting undoes joining pieces that are free of the separator. */
  lemma {:induction false} SplitJoin(parts: seq<string>, sep: char)
    requires |parts| >= 1
    requires FreeOf(parts, sep)
    ensures Split(Join(parts, sep), sep) == parts
  {
    if |parts| == 1 {
      SplitNoSeparator(parts[0], sep);
    } else {
      assert FreeOf(parts[1..], sep) by {
        forall i | 0 <= i < |parts| - 1 ensures sep !in parts[1..][i] {
          assert parts[1..][i] == parts[i + 1];
        }
      }
      SplitJoin(parts[1..], sep);
      SplitFirst(parts[0], Join(parts[1..], sep), sep);
      assert parts == [parts[0]] + parts[1..];
    }
  }
}
