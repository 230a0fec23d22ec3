/**
 * The string primitives of JavaScript that the sync tool relies on, over
 * `seq<char>`: `split` and `join` on a one-character separator, a global
 * one-character `replace`, `replace` with a string pattern (first occurrence
 * only), `endsWith`, and the decimal rendering of integers.
 */
module Strings {
  import opened Wrappers

  /** `s.split(sep)` for a one-character separator: never empty, no piece contains `sep`. */
  function Split(s: string, sep: char): (r: seq<string>)
    ensures |r| >= 1
    ensures forall i :: 0 <= i < |r| ==> sep !in r[i]
    decreases |s|
  {
    if s == [] then [""]
    else
      var rest := Split(s[1..], sep);
      if s[0] == sep then [""] + rest
      else [[s[0]] + rest[0]] + rest[1..]
  }

  /** `parts.join(sep)`. */
  function Join(parts: seq<string>, sep: char): string
    decreases |parts|
  {
    if |parts| == 0 then ""
    else if |parts| == 1 then parts[0]
    else parts[0] + [sep] + Join(parts[1..], sep)
  }

  /** Joining the pieces of a split gives back the original text. */
  lemma {:induction false} JoinSplit(s: string, sep: char)
    ensures Join(Split(s, sep), sep) == s
    decreases |s|
  {
    if s != [] {
      var rest := Split(s[1..], sep);
      JoinSplit(s[1..], sep);
      if s[0] == sep {
        assert Split(s, sep) == [""] + rest;
        assert ([""] + rest)[1..] == rest;
      } else {
        var r := Split(s, sep);
        assert r == [[s[0]] + rest[0]] + rest[1..];
        if |rest| > 1 {
          assert r[1..] == rest[1..];
          assert Join(rest, sep) == rest[0] + [sep] + Join(rest[1..], sep);
        }
      }
    }
  }

  /** Splitting a join of separator-free pieces gives back the pieces. */
  lemma {:induction false} SplitJoin(parts: seq<string>, sep: char)
    requires |parts| >= 1
    requires forall i :: 0 <= i < |parts| ==> sep !in parts[i]
    ensures Split(Join(parts, sep), sep) == parts
    decreases |parts|, |parts[0]|
  {
    var p := parts[0];
    if p == [] {
      if |parts| > 1 {
        SplitJoin(parts[1..], sep);
        assert Join(parts, sep) == [sep] + Join(parts[1..], sep);
        assert ([sep] + Join(parts[1..], sep))[1..] == Join(parts[1..], sep);
      }
    } else {
      var parts' := [p[1..]] + parts[1..];
      assert sep !in parts'[0] by { assert forall c :: c in p[1..] ==> c in p; }
      SplitJoin(parts', sep);
      assert parts'[1..] == parts[1..];
      var j := Join(parts, sep);
      if |parts| == 1 {
        assert j == p;
      } else {
        assert j == p + [sep] + Join(parts[1..], sep);
        assert Join(parts', sep) == p[1..] + [sep] + Join(parts[1..], sep);
      }
      assert j[0] == p[0] && j[1..] == Join(parts', sep);
      assert [p[0]] + p[1..] == p;
      assert [[p[0]] + p[1..]] + parts[1..] == parts;
    }
  }

  /** Joining two non-empty runs of pieces puts one separator between them. */
  lemma {:induction false} JoinAppend(a: seq<string>, b: seq<string>, sep: char)
    requires |a| >= 1 && |b| >= 1
    ensures Join(a + b, sep) == Join(a, sep) + [sep] + Join(b, sep)
    decreases |a|
  {
    if |a| == 1 {
      assert (a + b)[1..] == b;
    } else {
      assert (a + b)[1..] == a[1..] + b;
      JoinAppend(a[1..], b, sep);
    }
  }

  /** `s.replace(/x/g, y)` for one character `x`: position by position, every `x` becomes `y`. */
  function ReplaceChar(s: string, x: char, y: char): (r: string)
    ensures |r| == |s|
    ensures forall i :: 0 <= i < |s| ==> r[i] == (if s[i] == x then y else s[i])
  {
    if s == [] then [] else [if s[0] == x then y else s[0]] + ReplaceChar(s[1..], x, y)
  }

  /** `s.replace(/c/g, '')`: every `c` dropped, the other characters kept in order. */
  function RemoveChar(s: string, c: char): (r: string)
    ensures c !in r
    ensures c !in s ==> r == s
    ensures |r| <= |s|
  {
    if s == [] then []
    else if s[0] == c then RemoveChar(s[1..], c)
    else [s[0]] + RemoveChar(s[1..], c)
  }

  /** Removing `c` works piecewise: it distributes over concatenation. */
  lemma {:induction false} RemoveCharAppend(a: string, b: string, c: char)
    ensures RemoveChar(a + b, c) == RemoveChar(a, c) + RemoveChar(b, c)
  {
    if a == [] {
      assert a + b == b;
    } else {
      assert (a + b)[0] == a[0];
      assert (a + b)[1..] == a[1..] + b;
      RemoveCharAppend(a[1..], b, c);
      if a[0] != c {
        assert RemoveChar(a + b, c) == [a[0]] + RemoveChar(a[1..] + b, c);
        assert RemoveChar(a, c) == [a[0]] + RemoveChar(a[1..], c);
      }
    }
  }

  /** Together: `RemoveChar` keeps exactly the characters other than `c`, in their order. */
  lemma {:induction false} RemoveCharFilter(s: string, c: char)
    ensures forall i :: 0 <= i < |s| ==>
      RemoveChar(s, c) == RemoveChar(s[..i], c) + (if s[i] == c then [] else [s[i]]) + RemoveChar(s[i+1..], c)
  {
    forall i | 0 <= i < |s|
      ensures RemoveChar(s, c) == RemoveChar(s[..i], c) + (if s[i] == c then [] else [s[i]]) + RemoveChar(s[i+1..], c)
    {
      assert s == s[..i] + ([s[i]] + s[i+1..]);
      RemoveCharAppend(s[..i], [s[i]] + s[i+1..], c);
      RemoveCharAppend([s[i]], s[i+1..], c);
      assert RemoveChar([s[i]], c) == (if s[i] == c then [] else [s[i]]);
    }
  }

  predicate OccursAt(s: string, pat: string, j: int) {
    0 <= j && j + |pat| <= |s| && s[j..j + |pat|] == pat
  }

  /** `s.indexOf(pat, from)`: the first position at or after `from` where `pat` occurs. */
  function IndexOf(s: string, pat: string, from: nat): (r: Option<nat>)
    ensures r.Some? ==> from <= r.value && OccursAt(s, pat, r.value)
    ensures r.Some? ==> forall j :: from <= j < r.value ==> !OccursAt(s, pat, j)
    ensures r.None? ==> forall j :: from <= j ==> !OccursAt(s, pat, j)
    decreases |s| - from
  {
    if from + |pat| > |s| then None
    else if s[from..from + |pat|] == pat then Some(from)
    else IndexOf(s, pat, from + 1)
  }

  /** `s.replace(pat, '')` with a string pattern: only the first occurrence is removed. */
  function RemoveFirst(s: string, pat: string): string {
    match IndexOf(s, pat, 0)
    case None => s
    case Some(i) => s[..i] + s[i + |pat|..]
  }

  /** Removing a prefix pattern from a string that starts with it leaves the rest. */
  lemma RemoveFirstPrefix(pat: string, rest: string)
    ensures RemoveFirst(pat + rest, pat) == rest
  {
    assert OccursAt(pat + rest, pat, 0) by { assert (pat + rest)[0..|pat|] == pat; }
    assert (pat + rest)[|pat|..] == rest;
  }

  predicate EndsWith(s: string, suffix: string) {
    |suffix| <= |s| && s[|s| - |suffix|..] == suffix
  }

  function DigitChar(d: nat): char
    requires d < 10
  {
    "0123456789"[d]
  }

  function NatToString(n: nat): (r: string)
    ensures |r| >= 1 && (n < 10 <==> |r| == 1)
    decreases n
  {
    if n < 10 then [DigitChar(n)] else NatToString(n / 10) + [DigitChar(n % 10)]
  }

  /** `String(n)` for an integer. */
  function IntToString(n: int): string {
    if n < 0 then "-" + NatToString(-n) else NatToString(n)
  }

  /** Distinct numbers print differently. */
  lemma {:induction false} NatToStringInjective(a: nat, b: nat)
    requires NatToString(a) == NatToString(b)
    ensures a == b
    decreases a
  {
    var s := NatToString(a);
    if a >= 10 {
      var p := NatToString(a / 10);
      var q := NatToString(b / 10);
      assert s == p + [DigitChar(a % 10)] == q + [DigitChar(b % 10)];
      assert s[..|s| - 1] == p && s[..|s| - 1] == q;
      NatToStringInjective(a / 10, b / 10);
      assert DigitChar(a % 10) == DigitChar(b % 10);
    }
  }
}
