/** String helpers that the workflow relies on: Ruby's `String#index`,
    `String#include?`, `String#split`, `Integer#to_s`, prefix stripping and the
    scanning steps of a small XML reader. */
module Text {
  import opened Wrappers

  /** `k` occurs in `s` at index `i`. */
  predicate OccursAt(s: string, k: string, i: nat) {
    i + |k| <= |s| && s[i..i + |k|] == k
  }

  /** `k` is a substring of `s`. */
  ghost predicate HasSubstring(s: string, k: string) {
    exists i: nat :: OccursAt(s, k, i)
  }

  predicate StartsWith(s: string, p: string) {
    |p| <= |s| && s[..|p|] == p
  }

  lemma OccursAtShift(s: string, k: string, j: nat)
    requires |s| > 0
    ensures OccursAt(s[1..], k, j) <==> OccursAt(s, k, j + 1)
  {
    if j + |k| <= |s[1..]| {
      assert s[1..][j..j + |k|] == s[j + 1..j + 1 + |k|];
    }
  }

  lemma OccursAtTail(s: string, k: string)
    requires |s| > 0
    ensures forall j: nat :: 1 <= j ==> (OccursAt(s, k, j) <==> OccursAt(s[1..], k, j - 1))
  {
    forall j: nat | 1 <= j
      ensures OccursAt(s, k, j) <==> OccursAt(s[1..], k, j - 1)
    {
      OccursAtShift(s, k, j - 1);
    }
  }

  /** Ruby's `String#index`: the leftmost index at which `k` occurs in `s`. */
  function IndexOf(s: string, k: string): (r: Option<nat>)
    ensures r.Some? ==> OccursAt(s, k, r.value)
    ensures r.Some? ==> forall j: nat :: j < r.value ==> !OccursAt(s, k, j)
    ensures r.None? ==> forall j: nat :: !OccursAt(s, k, j)
    decreases |s|
  {
    if StartsWith(s, k) then
      assert s[0..|k|] == s[..|k|];
      Some(0)
    else if |s| == 0 then
      None
    else
      OccursAtTail(s, k);
      match IndexOf(s[1..], k)
      case Some(j) => Some(j + 1)
      case None => None
  }

  /** Ruby's `String#include?`. */
  function Includes(s: string, k: string): (r: bool)
    ensures r <==> HasSubstring(s, k)
  {
    IndexOf(s, k).Some?
  }

  /** `s` without its prefix `p`, or None when `s` does not start with `p`. */
  function StripPrefix(s: string, p: string): (r: Option<string>)
    ensures r.Some? <==> StartsWith(s, p)
    ensures r.Some? ==> s == p + r.value
  {
    if StartsWith(s, p) then Some(s[|p|..]) else None
  }

  lemma StripPrefixOfConcat(p: string, x: string)
    ensures StripPrefix(p + x, p) == Some(x)
  {
    assert (p + x)[..|p|] == p;
    assert (p + x)[|p|..] == x;
  }

  // ---------------------------------------------------------------------------
  // Ruby's String#split with a non-empty string separator

  /** The fields joined back together, `sep` between each two. */
  function Join(parts: seq<string>, sep: string): string
    requires |parts| > 0
  {
    if |parts| == 1 then parts[0] else parts[0] + sep + Join(parts[1..], sep)
  }

  /** Cutting `s` after an index leaves the occurrences that end by it. */
  lemma OccursAtPrefix(s: string, k: string, n: nat, j: nat)
    requires n <= |s|
    ensures OccursAt(s[..n], k, j) <==> j + |k| <= n && OccursAt(s, k, j)
  {
    if j + |k| <= n {
      assert s[..n][j..j + |k|] == s[j..j + |k|];
    }
  }

  /** An occurrence with none before it is the one `String#index` finds. */
  lemma IndexOfUnique(s: string, k: string, i: nat)
    requires OccursAt(s, k, i)
    requires forall j: nat :: j < i ==> !OccursAt(s, k, j)
    ensures IndexOf(s, k) == Some(i)
  {
  }

  /** The text up to an occurrence of `k` and through it. */
  lemma SplitAtOccurrence(s: string, k: string, i: nat)
    requires OccursAt(s, k, i)
    ensures s[..i] + k == s[..i + |k|]
  {
    assert s[i..i + |k|] == k;
  }

  /** A prefix that still holds the leftmost occurrence of `k` has it as
      its own leftmost occurrence. */
  lemma PrefixKeepsLeftmost(s: string, k: string, n: nat, i: nat)
    requires i + |k| <= n <= |s| && OccursAt(s, k, i)
    requires forall j: nat :: j < i ==> !OccursAt(s, k, j)
    ensures IndexOf(s[..n], k) == Some(i)
  {
    forall j: nat | j < i
      ensures !OccursAt(s[..n], k, j)
    {
      OccursAtPrefix(s, k, n, j);
    }
    OccursAtPrefix(s, k, n, i);
    IndexOfUnique(s[..n], k, i);
  }

  /** The first field followed by the separator is where the leftmost
      separator of `s` ends, so that separator is the first one in it too. */
  lemma FirstFieldLeftmost(s: string, sep: string, i: nat)
    requires OccursAt(s, sep, i)
    requires forall j: nat :: j < i ==> !OccursAt(s, sep, j)
    ensures IndexOf(s[..i] + sep, sep) == Some(i)
  {
    PrefixKeepsLeftmost(s, sep, i + |sep|, i);
    SplitAtOccurrence(s, sep, i);
  }

  /** No occurrence of `sep` lies wholly before its leftmost one. */
  lemma NoneBeforeFirst(s: string, sep: string, i: nat)
    requires |sep| > 0 && IndexOf(s, sep) == Some(i)
    ensures forall j: nat :: !OccursAt(s[..i], sep, j)
  {
    forall j: nat | OccursAt(s[..i], sep, j)
      ensures false
    {
      assert s[..i][j..j + |sep|] == s[j..j + |sep|];
      assert OccursAt(s, sep, j);
    }
  }

  /** Every field of `s` between occurrences of `sep`, leftmost first,
      including empty ones: joined with `sep` they give back `s`, and none of
      them holds `sep`. */
  function SplitFields(s: string, sep: string): (r: seq<string>)
    requires |sep| > 0
    ensures |r| > 0
    ensures Join(r, sep) == s
    ensures forall k :: 0 <= k < |r| ==> !HasSubstring(r[k], sep)
    ensures forall k :: 0 <= k < |r| - 1 ==> IndexOf(r[k] + sep, sep) == Some(|r[k]|)
    decreases |s|
  {
    match IndexOf(s, sep)
    case None => [s]
    case Some(i) =>
      NoneBeforeFirst(s, sep, i);
      var rest := SplitFields(s[i + |sep|..], sep);
      var fields := [s[..i]] + rest;
      assert s == s[..i] + sep + s[i + |sep|..] by {
        assert s[i..i + |sep|] == sep;
      }
      assert fields[1..] == rest;
      assert forall k :: 0 <= k < |fields| - 1 ==> IndexOf(fields[k] + sep, sep) == Some(|fields[k]|) by {
        FirstFieldLeftmost(s, sep, i);
        forall k | 1 <= k < |fields| - 1
          ensures IndexOf(fields[k] + sep, sep) == Some(|fields[k]|)
        {
          assert fields[k] == rest[k - 1];
        }
      }
      fields
  }

  function DropTrailingEmpty(parts: seq<string>): (r: seq<string>)
    ensures |r| <= |parts| && r == parts[..|r|]
    ensures |r| > 0 ==> r[|r| - 1] != []
    ensures forall i :: |r| <= i < |parts| ==> parts[i] == []
  {
    if |parts| > 0 && parts[|parts| - 1] == [] then
      DropTrailingEmpty(parts[..|parts| - 1])
    else
      parts
  }

  /** Ruby's `s.split(sep)`: the fields, trailing empty fields removed. */
  function Split(s: string, sep: string): (r: seq<string>)
    requires |sep| > 0
    ensures |r| <= |SplitFields(s, sep)| && r == SplitFields(s, sep)[..|r|]
    ensures forall k :: |r| <= k < |SplitFields(s, sep)| ==> SplitFields(s, sep)[k] == []
    ensures |r| > 0 ==> r[|r| - 1] != []
    ensures forall k :: 0 <= k < |r| ==> !HasSubstring(r[k], sep)
  {
    DropTrailingEmpty(SplitFields(s, sep))
  }

  /** Splitting `a + sep + b`, where neither part holds the separator's first
      character, gives back `a` and `b`. */
  lemma SplitJoined(a: string, sep: string, b: string)
    requires |sep| > 0 && sep[0] !in a && sep[0] !in b && b != []
    ensures Split(a + sep + b, sep) == [a, b]
  {
    var s := a + sep + b;
    assert s[|a|..|a| + |sep|] == sep;
    assert OccursAt(s, sep, |a|);
    forall j: nat | j < |a|
      ensures !OccursAt(s, sep, j)
    {
      assert s[j] == a[j] && a[j] in a;
      if j + |sep| <= |s| {
        assert s[j..j + |sep|][0] == s[j];
      }
    }
    assert IndexOf(s, sep) == Some(|a|);
    assert s[..|a|] == a && s[|a| + |sep|..] == b;
    forall j: nat
      ensures !OccursAt(b, sep, j)
    {
      if j + |sep| <= |b| {
        assert b[j..j + |sep|][0] == b[j] && b[j] in b;
      }
    }
    assert SplitFields(s, sep) == [a, b];
  }

  // ---------------------------------------------------------------------------
  // Ruby's Integer#to_s and its inverse

  predicate IsDigit(c: char) {
    '0' <= c <= '9'
  }

  function DigitChar(d: nat): (c: char)
    requires d < 10
    ensures IsDigit(c)
  {
    ('0' as int + d) as char
  }

  function DigitValue(c: char): nat
    requires IsDigit(c)
  {
    c as int - '0' as int
  }

  /** The decimal numeral of `n`, most significant digit first. */
  function NatToString(n: nat): (r: string)
    ensures |r| > 0
    ensures forall i :: 0 <= i < |r| ==> IsDigit(r[i])
    decreases n
  {
    if n < 10 then [DigitChar(n)] else NatToString(n / 10) + [DigitChar(n % 10)]
  }

  function DigitsToNat(s: string): nat
    requires forall i :: 0 <= i < |s| ==> IsDigit(s[i])
  {
    if s == [] then 0 else 10 * DigitsToNat(s[..|s| - 1]) + DigitValue(s[|s| - 1])
  }

  lemma {:induction false} DigitsRoundTrip(n: nat)
    ensures DigitsToNat(NatToString(n)) == n
    decreases n
  {
    var r := NatToString(n);
    if n >= 10 {
      DigitsRoundTrip(n / 10);
      assert r[..|r| - 1] == NatToString(n / 10);
    }
  }

  /** Ruby's `Integer#to_s`: a minus sign before negative numbers. */
  function IntToString(t: int): (r: string)
    ensures forall i :: 0 <= i < |r| ==> IsDigit(r[i]) || r[i] == '-'
  {
    if t < 0 then "-" + NatToString(-t) else NatToString(t)
  }

  /** Reads back a numeral written by IntToString. */
  function ParseInt(s: string): Option<int> {
    if |s| > 0 && s[0] == '-' then
      if forall i :: 1 <= i < |s| ==> IsDigit(s[i]) then Some(-(DigitsToNat(s[1..]) as int)) else None
    else
      if forall i :: 0 <= i < |s| ==> IsDigit(s[i]) then Some(DigitsToNat(s)) else None
  }

  lemma IntToStringRoundTrip(t: int)
    ensures ParseInt(IntToString(t)) == Some(t)
  {
    if t < 0 {
      DigitsRoundTrip(-t);
      assert IntToString(t)[1..] == NatToString(-t);
    } else {
      DigitsRoundTrip(t);
      assert IsDigit(NatToString(t)[0]);
    }
  }

  // ---------------------------------------------------------------------------
  // Lines and their concatenation without line breaks

  /** Each string followed by a line break, as a heredoc lays them out. */
  function Lines(ls: seq<string>): string {
    if ls == [] then "" else ls[0] + "\n" + Lines(ls[1..])
  }

  /** Lines without line breaks of their own are the fields between the
      line breaks, with an empty field after the last one. */
  lemma {:induction false} LinesSplitFields(ls: seq<string>)
    requires forall i :: 0 <= i < |ls| ==> '\n' !in ls[i]
    ensures SplitFields(Lines(ls), "\n") == ls + [""]
  {
    if ls != [] {
      var s := Lines(ls);
      var n := |ls[0]|;
      FirstLineBreak(ls);
      assert s[..n] == ls[0] && s[n + 1..] == Lines(ls[1..]);
      LinesSplitFields(ls[1..]);
      assert [ls[0]] + (ls[1..] + [""]) == ls + [""];
    }
  }

  /** The first line break of the lines is the one ending the first line. */
  lemma FirstLineBreak(ls: seq<string>)
    requires ls != [] && '\n' !in ls[0]
    ensures IndexOf(Lines(ls), "\n") == Some(|ls[0]|)
  {
    var s := Lines(ls);
    var n := |ls[0]|;
    assert s[n..n + 1] == "\n";
    forall j: nat | j < n
      ensures !OccursAt(s, "\n", j)
    {
      assert s[j] == ls[0][j];
    }
    IndexOfUnique(s, "\n", n);
  }

  function Concat(ls: seq<string>): string {
    if ls == [] then "" else ls[0] + Concat(ls[1..])
  }

  function RemoveNewlines(s: string): (r: string)
    ensures '\n' !in r
  {
    if s == [] then "" else (if s[0] == '\n' then "" else [s[0]]) + RemoveNewlines(s[1..])
  }

  lemma {:induction false} RemoveNewlinesConcat(a: string, b: string)
    ensures RemoveNewlines(a + b) == RemoveNewlines(a) + RemoveNewlines(b)
  {
    if a != [] {
      var head := if a[0] == '\n' then "" else [a[0]];
      assert (a + b)[0] == a[0];
      assert (a + b)[1..] == a[1..] + b;
      assert RemoveNewlines(a + b) == head + RemoveNewlines(a[1..] + b);
      RemoveNewlinesConcat(a[1..], b);
      assert RemoveNewlines(a) == head + RemoveNewlines(a[1..]);
    } else {
      assert a + b == b;
    }
  }

  lemma {:induction false} RemoveNewlinesNone(s: string)
    requires '\n' !in s
    ensures RemoveNewlines(s) == s
  {
    if s != [] {
      assert s[0] in s;
      assert forall c :: c in s[1..] ==> c in s;
      RemoveNewlinesNone(s[1..]);
    }
  }

  /** Taking the line breaks out of `Lines(ls)` gives `Concat(ls)`, when no
      line holds a break of its own. */
  lemma {:induction false} RemoveNewlinesLines(ls: seq<string>)
    requires forall i :: 0 <= i < |ls| ==> '\n' !in ls[i]
    ensures RemoveNewlines(Lines(ls)) == Concat(ls)
  {
    if ls != [] {
      var rest := Lines(ls[1..]);
      var head := ls[0] + "\n";
      assert Lines(ls) == head + rest;
      RemoveNewlinesConcat(head, rest);
      RemoveNewlinesConcat(ls[0], "\n");
      assert RemoveNewlines("\n") == "";
      assert '\n' !in ls[0];
      RemoveNewlinesNone(ls[0]);
      assert RemoveNewlines(head) == ls[0];
      RemoveNewlinesLines(ls[1..]);
      assert Concat(ls) == ls[0] + Concat(ls[1..]);
    }
  }

  // ---------------------------------------------------------------------------
  // Scanning steps of the XML reader

  /** The longest prefix of `s` without `c`, and what follows it. */
  function TakeUntil(s: string, c: char): (r: (string, string))
    ensures s == r.0 + r.1
    ensures c !in r.0
    ensures r.1 == [] || r.1[0] == c
  {
    if s == [] || s[0] == c then ([], s)
    else
      var p := TakeUntil(s[1..], c);
      ([s[0]] + p.0, p.1)
  }

  /** The split TakeUntil makes is the only one with its two properties. */
  lemma {:induction false} TakeUntilConcat(x: string, y: string, c: char)
    requires c !in x
    requires y == [] || y[0] == c
    ensures TakeUntil(x + y, c) == (x, y)
  {
    if x != [] {
      assert (x + y)[0] == x[0] && x[0] in x;
      assert (x + y)[1..] == x[1..] + y;
      assert forall d :: d in x[1..] ==> d in x;
      TakeUntilConcat(x[1..], y, c);
      assert [x[0]] + x[1..] == x;
    } else {
      assert x + y == y;
    }
  }
}
