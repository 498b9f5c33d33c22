/** `FontAwesome#select!`: keeps the icons whose id contains every keyword. */
module Matcher {
  import opened Text
  import opened Icons

  /** Every keyword occurs somewhere in `id` (case-sensitive). */
  predicate MatchesAll(id: string, keywords: seq<string>) {
    forall k | k in keywords :: Includes(id, k)
  }

  /** The selection: the icons that match every keyword, in catalog order.
      SelectMembership, SelectCount and SelectSubsequence state it exactly. */
  function Select(icons: seq<Icon>, keywords: seq<string>): (r: seq<Icon>)
    ensures |r| <= |icons|
    ensures forall i :: 0 <= i < |r| ==> r[i] in icons && MatchesAll(r[i].id, keywords)
  {
    if icons == [] then []
    else
      var rest := Select(icons[..|icons| - 1], keywords);
      var last := icons[|icons| - 1];
      if MatchesAll(last.id, keywords) then rest + [last] else rest
  }

  /** One pass of the selection: the icons whose id contains `keyword`. */
  method KeepMatching(icons: seq<Icon>, keyword: string) returns (kept: seq<Icon>)
    ensures kept == Select(icons, [keyword])
  {
    kept := [];
    for j := 0 to |icons|
      invariant kept == Select(icons[..j], [keyword])
    {
      assert icons[..j + 1][..j] == icons[..j];
      if Includes(icons[j].id, keyword) {
        kept := kept + [icons[j]];
      }
    }
    assert icons[..|icons|] == icons;
  }

  /** With no keywords every icon is kept, in its original order. */
  lemma {:induction false} SelectNoKeywords(icons: seq<Icon>)
    ensures Select(icons, []) == icons
  {
    if icons != [] {
      SelectNoKeywords(icons[..|icons| - 1]);
      assert icons[..|icons| - 1] + [icons[|icons| - 1]] == icons;
    }
  }

  /** Selecting by `a` and then by `b` is selecting by all of `a + b`: the
      keywords can be applied one at a time. */
  lemma {:induction false} SelectThenSelect(icons: seq<Icon>, a: seq<string>, b: seq<string>)
    ensures Select(Select(icons, a), b) == Select(icons, a + b)
  {
    if icons != [] {
      var init, last := icons[..|icons| - 1], icons[|icons| - 1];
      SelectThenSelect(init, a, b);
      assert MatchesAll(last.id, a + b) <==> MatchesAll(last.id, a) && MatchesAll(last.id, b) by {
        assert forall k :: k in a + b <==> k in a || k in b;
      }
      var s := Select(init, a);
      if MatchesAll(last.id, a) {
        assert (s + [last])[..|s + [last]| - 1] == s;
      }
    }
  }

  /** Each icon occurs in the selection exactly as often as in the catalog
      when it matches every keyword, and not at all otherwise. */
  lemma {:induction false} SelectCount(icons: seq<Icon>, keywords: seq<string>, x: Icon)
    ensures multiset(Select(icons, keywords))[x] ==
      if MatchesAll(x.id, keywords) then multiset(icons)[x] else 0
  {
    if icons != [] {
      var init, last := icons[..|icons| - 1], icons[|icons| - 1];
      SelectCount(init, keywords, x);
      assert icons == init + [last];
      var rest := Select(init, keywords);
      if MatchesAll(last.id, keywords) {
        assert multiset(Select(icons, keywords)) == multiset(rest) + multiset{last};
      } else {
        assert Select(icons, keywords) == rest;
      }
    }
  }

  /** An icon is selected if and only if it is in the catalog and every
      keyword is a substring of its id. */
  lemma SelectMembership(icons: seq<Icon>, keywords: seq<string>, x: Icon)
    ensures x in Select(icons, keywords) <==>
      x in icons && forall k :: k in keywords ==> HasSubstring(x.id, k)
  {
    SelectCount(icons, keywords, x);
  }

  /** A keyword that no id contains makes the selection empty. */
  lemma SelectNoMatch(icons: seq<Icon>, keywords: seq<string>, k: string)
    requires k in keywords
    requires forall x :: x in icons ==> !HasSubstring(x.id, k)
    ensures Select(icons, keywords) == []
  {
    var r := Select(icons, keywords);
    if r != [] {
      SelectMembership(icons, keywords, r[0]);
    }
  }

  /** Only the set of keywords matters: reordering or repeating them leaves the
      selection, and its order, unchanged. */
  lemma {:induction false} SelectKeywordOrder(icons: seq<Icon>, a: seq<string>, b: seq<string>)
    requires forall k :: k in a <==> k in b
    ensures Select(icons, a) == Select(icons, b)
  {
    if icons != [] {
      SelectKeywordOrder(icons[..|icons| - 1], a, b);
    }
  }

  /** `a` is an order-preserving subsequence of `b`, witnessed by the strictly
      increasing positions `idx` in `b` of the elements of `a`. */
  ghost predicate Embeds<T>(idx: seq<nat>, a: seq<T>, b: seq<T>) {
    |idx| == |a| &&
    (forall i :: 0 <= i < |idx| ==> idx[i] < |b| && a[i] == b[idx[i]]) &&
    (forall i, j :: 0 <= i < j < |idx| ==> idx[i] < idx[j])
  }

  ghost predicate IsSubsequence<T>(a: seq<T>, b: seq<T>) {
    exists idx :: Embeds(idx, a, b)
  }

  /** The catalog positions of the selected icons. */
  ghost function SelectedPositions(icons: seq<Icon>, keywords: seq<string>): seq<nat> {
    if icons == [] then []
    else
      var rest := SelectedPositions(icons[..|icons| - 1], keywords);
      if MatchesAll(icons[|icons| - 1].id, keywords) then rest + [|icons| - 1] else rest
  }

  lemma {:induction false} SelectedPositionsEmbed(icons: seq<Icon>, keywords: seq<string>)
    ensures Embeds(SelectedPositions(icons, keywords), Select(icons, keywords), icons)
  {
    if icons != [] {
      var init := icons[..|icons| - 1];
      SelectedPositionsEmbed(init, keywords);
    }
  }

  /** The selection is an order-preserving subsequence of the catalog. */
  lemma SelectSubsequence(icons: seq<Icon>, keywords: seq<string>)
    ensures IsSubsequence(Select(icons, keywords), icons)
  {
    SelectedPositionsEmbed(icons, keywords);
  }
}
