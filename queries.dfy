/** The pure rules the ad service applies: the ad validator, substring search
    and the two filters behind `ListAds` and `SearchAds`. */
module Queries {
  import opened Entities

  /** The ad validator: a title of 1 to 100 characters and a text of 1 to 500.
      The validator library is external; this is its observable rule. */
  predicate ValidAd(title: string, text: string) {
    1 <= |title| <= 100 && 1 <= |text| <= 500
  }

  /** Go's `strings.Contains`: `pattern` is a prefix of some suffix of `s`.
      The empty pattern is contained in every string. */
  predicate Contains(s: string, pattern: string)
    ensures Contains(s, pattern) ==> |pattern| <= |s|
    ensures pattern == [] ==> Contains(s, pattern)
    decreases |s|
  {
    pattern <= s || (|s| > 0 && Contains(s[1..], pattern))
  }

  /** `pattern` occurs in `s` starting at offset `k`. */
  ghost predicate OccursAt(s: string, pattern: string, k: int) {
    0 <= k && k + |pattern| <= |s| && s[k..k + |pattern|] == pattern
  }

  /** `Contains` is substring search: it holds exactly when the pattern occurs at some offset. */
  lemma {:induction false} ContainsIffOccurs(s: string, pattern: string)
    ensures Contains(s, pattern) <==> exists k :: OccursAt(s, pattern, k)
    decreases |s|
  {
    if pattern <= s {
      assert OccursAt(s, pattern, 0);
    } else if |s| > 0 {
      ContainsIffOccurs(s[1..], pattern);
      if k :| OccursAt(s[1..], pattern, k) {
        assert s[k + 1..k + 1 + |pattern|] == s[1..][k..k + |pattern|];
        assert OccursAt(s, pattern, k + 1);
      }
      assert !OccursAt(s, pattern, 0);
      if k :| OccursAt(s, pattern, k) {
        assert k != 0;
        assert s[1..][k - 1..k - 1 + |pattern|] == s[k..k + |pattern|];
        assert OccursAt(s[1..], pattern, k - 1);
      }
    } else {
      assert |pattern| > 0;
    }
  }

  /** The filter of a listing request or a search request. */
  datatype Query =
    | ListQuery(published: bool, user: int, created: int)
    | SearchQuery(pattern: string)

  /** Whether ad `a` passes filter `q`. A listing keeps ads whose published flag
      equals the request's, whose author is the requested user unless that is
      -1, and whose creation time equals the requested one unless that is the
      zero time. A search keeps ads whose title contains the pattern. */
  predicate Matches(a: Ad, q: Query) {
    match q
    case ListQuery(published, user, created) =>
      a.Published == published
      && (user == -1 || a.AuthorID == user)
      && (created == 0 || a.CreatedAt == created)
    case SearchQuery(pattern) =>
      Contains(a.Title, pattern)
  }

  /** The ads of `s` that pass `q`, in the order of `s`. */
  function Select(s: seq<Ad>, q: Query): (r: seq<Ad>)
    ensures |r| <= |s|
    decreases |s|
  {
    if s == [] then []
    else Select(s[..|s| - 1], q) + (if Matches(s[|s| - 1], q) then [s[|s| - 1]] else [])
  }

  /** An ad is selected exactly when it occurs in the input and passes the filter. */
  lemma {:induction false} SelectMember(s: seq<Ad>, q: Query, a: Ad)
    ensures a in Select(s, q) <==> a in s && Matches(a, q)
    decreases |s|
  {
    if s != [] {
      var init := s[..|s| - 1];
      SelectMember(init, q, a);
      assert s == init + [s[|s| - 1]];
    }
  }
}
