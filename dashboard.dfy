/**
 * The two pure helpers of the dashboard page (`src/pages/Dashboard.js`):
 * `truncate`, which shortens a target URL for display, and the search
 * expression `filtered` over the loaded links.
 */
module Dashboard {
  import opened Wrappers
  import opened Text
  import opened Seqs
  import opened Links

  /** The horizontal ellipsis, U+2026, that `truncate` appends. */
  const Ellipsis: char := '\U{2026}'

  /**
   * Where `s.slice(0, end)` stops for a string of length `len`: a negative
   * `end` counts back from the end, and the result is clamped to the string.
   */
  function SliceEnd(len: nat, end: int): (k: nat)
    ensures k <= len
  {
    if end < 0 then (if len + end < 0 then 0 else len + end)
    else if end > len then len
    else end
  }

  /** `truncate(s, n)`: `s` when it fits in `n`, otherwise a prefix of it followed by an ellipsis. */
  function Truncate(s: string, n: int): (r: string)
    ensures s == "" ==> r == ""
    ensures |s| <= n ==> r == s
    ensures |s| > n && n >= 1 ==> |r| == n && r == s[..n - 1] + [Ellipsis]
    ensures s != "" && |s| > n && n < 1 ==>
      |r| == (if |s| + n - 1 < 0 then 0 else |s| + n - 1) + 1 && r[|r| - 1] == Ellipsis
    ensures |s| > n && s != "" ==> r[..|r| - 1] == s[..|r| - 1] && r[|r| - 1] == Ellipsis
    ensures |r| <= |s|
    ensures n >= 1 ==> |r| <= n
  {
    if s == "" then ""
    else if |s| > n then s[..SliceEnd(|s|, n - 1)] + [Ellipsis]
    else s
  }

  /** The search predicate: the query, lower-cased, occurs in the lower-cased code or target. */
  function MatchesQuery(query: string): Link -> bool {
    (l: Link) => Contains(Lower(l.code), Lower(query)) || Contains(Lower(l.target), Lower(query))
  }

  /** `(links || []).filter(...)`: the links the search box lets through. */
  function Filtered(links: Option<seq<Link>>, query: string): (r: seq<Link>)
    ensures links.None? ==> r == []
    ensures forall l :: l in r ==> links.Some? && l in links.value && MatchesQuery(query)(l)
  {
    Filter(links.GetOr([]), MatchesQuery(query))
  }

  /**
   * The search keeps the loaded order, keeps every copy of a link whose code
   * or target contains the query ignoring case, and drops every other link.
   */
  lemma FilteredSpec(links: seq<Link>, query: string)
    ensures IsSubsequence(Filtered(Some(links), query), links)
    ensures forall l: Link ::
      multiset(Filtered(Some(links), query))[l] ==
        (if Contains(Lower(l.code), Lower(query)) || Contains(Lower(l.target), Lower(query))
         then multiset(links)[l] else 0)
  {
    FilterIsSubsequence(links, MatchesQuery(query));
    forall l: Link
      ensures multiset(Filtered(Some(links), query))[l] ==
        (if Contains(Lower(l.code), Lower(query)) || Contains(Lower(l.target), Lower(query))
         then multiset(links)[l] else 0)
    {
      FilterCount(links, MatchesQuery(query), l);
    }
  }

  /** With an empty search box every loaded link is shown, in order. */
  lemma FilteredEmptyQuery(links: seq<Link>)
    ensures Filtered(Some(links), "") == links
  {
    forall i | 0 <= i < |links| ensures MatchesQuery("")(links[i]) {
      ContainsEmpty(Lower(links[i].code));
    }
    FilterAll(links, MatchesQuery(""));
  }
}
