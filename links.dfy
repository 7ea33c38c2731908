/**
 * The link record of the backend (`index.js`) and the rules its handlers
 * apply: the code format (`validCode`), the target check (`validateUrl`),
 * the case-insensitive and exact lookups, and the effect of a redirect and of
 * a delete on the collection.
 */
module Links {
  import opened Wrappers
  import opened Text
  import opened Seqs

  /** An ISO-8601 timestamp as `new Date().toISOString()` renders it; never inspected. */
  type Timestamp = string

  /** One stored link, in the JSON shape the API returns. */
  datatype Link = Link(
    code: string,
    target: string,
    createdAt: Timestamp,
    clicks: nat,
    lastClickedAt: Option<Timestamp>)

  /** The path segments the redirect route hands on to later routes. */
  const Reserved: seq<string> := ["api", "healthz", ""]

  // ---------------------------------------------------------------------
  // validCode: the anchored pattern ^[A-Za-z0-9]{6,8}$
  // ---------------------------------------------------------------------

  /** The character class `[A-Za-z0-9]`. */
  predicate IsAlnum(c: char) {
    'A' <= c <= 'Z' || 'a' <= c <= 'z' || '0' <= c <= '9'
  }

  /** The whole of `s` matches `[A-Za-z0-9]{lo,hi}`, consumed one character at a time. */
  predicate MatchesAlnumRepeat(s: string, lo: nat, hi: nat)
    decreases |s|
  {
    if s == [] then lo == 0
    else hi > 0 && IsAlnum(s[0]) && MatchesAlnumRepeat(s[1..], if lo > 0 then lo - 1 else 0, hi - 1)
  }

  /** `validCode(code)`: `/^[A-Za-z0-9]{6,8}$/.test(code)`. */
  predicate ValidCode(code: string) {
    MatchesAlnumRepeat(code, 6, 8)
  }

  /** The counted repetition accepts exactly the strings of `lo` to `hi` class characters. */
  lemma {:induction false} AlnumRepeatIff(s: string, lo: nat, hi: nat)
    ensures MatchesAlnumRepeat(s, lo, hi) <==>
      lo <= |s| <= hi && forall i :: 0 <= i < |s| ==> IsAlnum(s[i])
    decreases |s|
  {
    if s != [] && hi > 0 {
      AlnumRepeatIff(s[1..], if lo > 0 then lo - 1 else 0, hi - 1);
      assert forall i :: 0 < i < |s| ==> s[i] == s[1..][i - 1];
    }
  }

  /** A code is valid exactly when it has 6 to 8 characters, all ASCII letters or digits. */
  lemma ValidCodeIff(code: string)
    ensures ValidCode(code) <==>
      6 <= |code| <= 8 && forall i :: 0 <= i < |code| ==> IsAlnum(code[i])
  {
    AlnumRepeatIff(code, 6, 8);
  }

  // ---------------------------------------------------------------------
  // validateUrl
  // ---------------------------------------------------------------------

  /**
   * `validateUrl(str)`. `urlProtocol` stands for `new URL(str).protocol`:
   * `None` where the constructor throws, otherwise the parsed scheme with
   * its colon.
   */
  predicate ValidateUrl(urlProtocol: string -> Option<string>, s: string) {
    urlProtocol(s) == Some("http:") || urlProtocol(s) == Some("https:")
  }

  // ---------------------------------------------------------------------
  // Lookups on the collection
  // ---------------------------------------------------------------------

  /** `l => l.code === code`, and lodash's `find({ code })`. */
  function CodeIs(code: string): Link -> bool {
    (l: Link) => l.code == code
  }

  /** `l => l.code.toLowerCase() === code.toLowerCase()`. */
  function CodeMatches(code: string): Link -> bool {
    (l: Link) => SameIgnoringCase(l.code, code)
  }

  /** The records a delete of `code` keeps. */
  function CodeDiffers(code: string): Link -> bool {
    (l: Link) => !SameIgnoringCase(l.code, code)
  }

  /** Some stored record has exactly this code. */
  predicate CodeTaken(links: seq<Link>, code: string) {
    exists i :: 0 <= i < |links| && links[i].code == code
  }

  function CodeOf(l: Link): string {
    l.code
  }

  function LowerCodeOf(l: Link): string {
    Lower(l.code)
  }

  /** No two records have exactly the same code. */
  predicate CodesDistinct(links: seq<Link>) {
    DistinctBy(links, CodeOf)
  }

  /** No two records have codes that differ only in case. */
  predicate CodesDistinctIgnoringCase(links: seq<Link>) {
    DistinctBy(links, LowerCodeOf)
  }

  /**
   * `links[i]` is the first record of its case class: no earlier record has
   * a code equal to its code ignoring case. A redirect for any code of the
   * class reads its click count.
   */
  predicate FirstOfClass(links: seq<Link>, i: int) {
    0 <= i < |links| && forall m :: 0 <= m < i ==> !SameIgnoringCase(links[m].code, links[i].code)
  }

  /**
   * Every record's click count is at most one above the count of the first
   * record of its case class. A new store has it, and every handler keeps it.
   */
  predicate ClickBound(links: seq<Link>) {
    forall i :: 0 <= i < |links| && FirstOfClass(links, i) ==> ClassWithinOneOf(links, i)
  }

  /** No record of `links[i]`'s case class has more than one click above it. */
  predicate ClassWithinOneOf(links: seq<Link>, i: nat)
    requires i < |links|
  {
    forall k :: 0 <= k < |links| && SameIgnoringCase(links[k].code, links[i].code) ==>
      links[k].clicks <= links[i].clicks + 1
  }

  /** The case-insensitive lookup of a stored record's code lands on the first record of its class. */
  lemma FirstOfClassIsFind(links: seq<Link>, i: nat)
    requires i < |links|
    ensures FirstOfClass(links, i) <==> Find(links, CodeMatches(links[i].code)) == Some(i)
  {
    assert CodeMatches(links[i].code)(links[i]);
  }

  /** Appending a record with no clicks, as create does, keeps the click bound. */
  lemma AppendKeepsClickBound(links: seq<Link>, l: Link)
    requires ClickBound(links)
    requires l.clicks == 0
    ensures ClickBound(links + [l])
  {
    var r := links + [l];
    forall i | 0 <= i < |r| && FirstOfClass(r, i) ensures ClassWithinOneOf(r, i) {
      if i < |links| {
        assert forall m :: 0 <= m < |links| ==> r[m] == links[m];
        assert FirstOfClass(links, i) && ClassWithinOneOf(links, i);
      }
    }
  }

  /** The exact-code lookup finds a record exactly when the code is taken. */
  lemma FindCodeIsIff(links: seq<Link>, code: string)
    ensures Find(links, CodeIs(code)).Some? <==> CodeTaken(links, code)
  {
    if CodeTaken(links, code) {
      var i :| 0 <= i < |links| && links[i].code == code;
      assert CodeIs(code)(links[i]);
    }
  }

  /** Appending a record whose code is not taken keeps the codes distinct. */
  lemma AppendKeepsCodesDistinct(links: seq<Link>, l: Link)
    requires CodesDistinct(links)
    requires !CodeTaken(links, l.code)
    ensures CodesDistinct(links + [l])
  {
    var r := links + [l];
    forall i, j | 0 <= i < |r| && 0 <= j < |r| && i != j
      ensures CodeOf(r[i]) != CodeOf(r[j])
    {
      if i < |links| && j < |links| {
        assert r[i] == links[i] && r[j] == links[j];
      } else if i < |links| {
        assert r[i] == links[i];
      } else {
        assert r[j] == links[j];
      }
    }
  }

  /** Appending a record no stored code matches ignoring case keeps the codes distinct ignoring case. */
  lemma AppendKeepsCodesDistinctIgnoringCase(links: seq<Link>, l: Link)
    requires CodesDistinctIgnoringCase(links)
    requires Find(links, CodeMatches(l.code)).None?
    ensures CodesDistinctIgnoringCase(links + [l])
  {
    var r := links + [l];
    forall i, j | 0 <= i < |r| && 0 <= j < |r| && i != j
      ensures LowerCodeOf(r[i]) != LowerCodeOf(r[j])
    {
      if i < |links| && j < |links| {
        assert r[i] == links[i] && r[j] == links[j];
      } else if i < |links| {
        assert r[i] == links[i] && !CodeMatches(l.code)(links[i]);
      } else {
        assert r[j] == links[j] && !CodeMatches(l.code)(links[j]);
      }
    }
  }

  /**
   * When codes are distinct ignoring case, the case-insensitive lookup and
   * the exact lookup agree on every code that is taken.
   */
  lemma {:induction false} LookupsAgree(links: seq<Link>, code: string, j: nat)
    requires CodesDistinctIgnoringCase(links)
    requires Find(links, CodeIs(code)) == Some(j)
    ensures Find(links, CodeMatches(code)) == Some(j)
  {
    assert CodeMatches(code)(links[j]);
  }

  // ---------------------------------------------------------------------
  // Redirect: the effect on the collection
  // ---------------------------------------------------------------------

  /**
   * The collection after a redirect for `code` at time `now`. The click count
   * is read from the first case-insensitive match and written, with the time,
   * into the first record whose code is exactly `code`; without such a record
   * nothing is written.
   */
  function AfterRedirect(links: seq<Link>, code: string, now: Timestamp): (r: seq<Link>)
    ensures |r| == |links|
    ensures forall k :: 0 <= k < |links| ==>
      r[k].code == links[k].code && r[k].target == links[k].target && r[k].createdAt == links[k].createdAt
    ensures code in Reserved || Find(links, CodeMatches(code)).None? ==> r == links
    ensures Find(links, CodeIs(code)).None? ==> r == links
  {
    if code in Reserved then links
    else match Find(links, CodeMatches(code))
      case None => links
      case Some(i) =>
        match Find(links, CodeIs(code))
        case None => links
        case Some(j) => links[j := links[j].(clicks := links[i].clicks + 1, lastClickedAt := Some(now))]
  }

  /** Where a redirect writes: the exact match gets the first match's count plus one and the time. */
  lemma RedirectWrite(links: seq<Link>, code: string, now: Timestamp, i: nat, j: nat)
    requires code !in Reserved
    requires Find(links, CodeMatches(code)) == Some(i) && Find(links, CodeIs(code)) == Some(j)
    ensures AfterRedirect(links, code, now) == links[j := links[j].(clicks := links[i].clicks + 1, lastClickedAt := Some(now))]
  {
  }

  /** The collection after a sequence of redirects for `code`, at the times `nows`. */
  function AfterRedirects(links: seq<Link>, code: string, nows: seq<Timestamp>): seq<Link>
    decreases |nows|
  {
    if nows == [] then links
    else AfterRedirects(AfterRedirect(links, code, nows[0]), code, nows[1..])
  }

  /** A redirect leaves the exact and the case-insensitive lookups where they were. */
  lemma RedirectKeepsLookups(links: seq<Link>, code: string, now: Timestamp, c: string)
    ensures Find(AfterRedirect(links, code, now), CodeIs(c)) == Find(links, CodeIs(c))
    ensures Find(AfterRedirect(links, code, now), CodeMatches(c)) == Find(links, CodeMatches(c))
  {
    var r := AfterRedirect(links, code, now);
    FindSameVerdicts(r, CodeIs(c), links, CodeIs(c));
    FindSameVerdicts(r, CodeMatches(c), links, CodeMatches(c));
  }

  /** A redirect never changes which codes are stored. */
  lemma RedirectKeepsDistinctness(links: seq<Link>, code: string, now: Timestamp)
    ensures CodesDistinct(links) ==> CodesDistinct(AfterRedirect(links, code, now))
    ensures CodesDistinctIgnoringCase(links) ==> CodesDistinctIgnoringCase(AfterRedirect(links, code, now))
  {
    var r := AfterRedirect(links, code, now);
    assert forall k :: 0 <= k < |r| ==> CodeOf(r[k]) == CodeOf(links[k]) && LowerCodeOf(r[k]) == LowerCodeOf(links[k]);
  }

  /**
   * When the first case-insensitive match is the record with exactly the
   * requested code, a redirect adds one click to it, stamps it with `now` and
   * leaves every other record as it was.
   */
  lemma RedirectCountsClick(links: seq<Link>, code: string, now: Timestamp, j: nat)
    requires code !in Reserved
    requires Find(links, CodeMatches(code)) == Some(j)
    requires Find(links, CodeIs(code)) == Some(j)
    ensures j < |links|
    ensures AfterRedirect(links, code, now)[j].clicks == links[j].clicks + 1
    ensures AfterRedirect(links, code, now)[j].lastClickedAt == Some(now)
    ensures forall k :: 0 <= k < |links| && k != j ==> AfterRedirect(links, code, now)[k] == links[k]
  {
    assert j < |links|;
  }

  /** A redirect whose casing matches no stored code exactly leaves the collection unchanged. */
  lemma RedirectWithOtherCasingRecordsNothing(links: seq<Link>, code: string, now: Timestamp)
    requires !CodeTaken(links, code)
    ensures AfterRedirect(links, code, now) == links
  {
    FindCodeIsIff(links, code);
  }

  /**
   * When codes are distinct ignoring case, a redirect never lowers a click
   * count, and it raises exactly the count of the record with the requested
   * code.
   */
  lemma RedirectMonotone(links: seq<Link>, code: string, now: Timestamp)
    requires CodesDistinctIgnoringCase(links)
    ensures forall k :: 0 <= k < |links| ==>
      AfterRedirect(links, code, now)[k].clicks ==
        links[k].clicks + (if code !in Reserved && links[k].code == code && Find(links, CodeIs(code)) == Some(k) then 1 else 0)
  {
    if code !in Reserved {
      match Find(links, CodeIs(code))
      case None =>
      case Some(j) =>
        LookupsAgree(links, code, j);
    }
  }

  /**
   * Click accounting over several redirects: starting from a record that is
   * the first case-insensitive match and the exact match of `code`, `n`
   * redirects add `n` clicks to it, leave its last-click time at the time of
   * the latest one, and leave every other record unchanged.
   */
  lemma {:induction false} RepeatedRedirects(links: seq<Link>, code: string, nows: seq<Timestamp>, j: nat)
    requires code !in Reserved
    requires Find(links, CodeMatches(code)) == Some(j)
    requires Find(links, CodeIs(code)) == Some(j)
    ensures j < |links| && |AfterRedirects(links, code, nows)| == |links|
    ensures AfterRedirects(links, code, nows)[j].clicks == links[j].clicks + |nows|
    ensures nows != [] ==> AfterRedirects(links, code, nows)[j].lastClickedAt == Some(nows[|nows| - 1])
    ensures nows == [] ==> AfterRedirects(links, code, nows)[j].lastClickedAt == links[j].lastClickedAt
    ensures forall k :: 0 <= k < |links| && k != j ==> AfterRedirects(links, code, nows)[k] == links[k]
    decreases |nows|
  {
    if nows != [] {
      var once := AfterRedirect(links, code, nows[0]);
      RedirectCountsClick(links, code, nows[0], j);
      RedirectKeepsLookups(links, code, nows[0], code);
      RepeatedRedirects(once, code, nows[1..], j);
      if |nows| > 1 {
        assert nows[1..][|nows[1..]| - 1] == nows[|nows| - 1];
      }
    }
  }

  /**
   * Under the click bound a redirect keeps the bound and lowers no click
   * count: the count it writes, the first match's plus one, is at least the
   * count it overwrites.
   */
  lemma RedirectKeepsClickBound(links: seq<Link>, code: string, now: Timestamp)
    ensures ClickBound(links) ==> ClickBound(AfterRedirect(links, code, now))
    ensures ClickBound(links) ==> forall k :: 0 <= k < |links| ==> AfterRedirect(links, code, now)[k].clicks >= links[k].clicks
  {
    if ClickBound(links) && code !in Reserved && Find(links, CodeMatches(code)).Some? && Find(links, CodeIs(code)).Some? {
      var i := Find(links, CodeMatches(code)).value;
      var j := Find(links, CodeIs(code)).value;
      assert FirstOfClass(links, i) && links[j].code == code;
      RedirectWrite(links, code, now, i, j);
      WriteKeepsClickBound(links, i, j, Some(now));
    }
  }

  /**
   * Writing the count of the first record of a class, plus one, into a
   * record of that class keeps the click bound and lowers no count.
   */
  lemma WriteKeepsClickBound(links: seq<Link>, i: nat, j: nat, t: Option<Timestamp>)
    requires ClickBound(links)
    requires FirstOfClass(links, i) && j < |links| && SameIgnoringCase(links[j].code, links[i].code)
    ensures ClickBound(links[j := links[j].(clicks := links[i].clicks + 1, lastClickedAt := t)])
    ensures forall k :: 0 <= k < |links| ==>
      links[j := links[j].(clicks := links[i].clicks + 1, lastClickedAt := t)][k].clicks >= links[k].clicks
  {
    var r := links[j := links[j].(clicks := links[i].clicks + 1, lastClickedAt := t)];
    assert forall k :: 0 <= k < |links| ==> r[k].code == links[k].code;
    assert ClassWithinOneOf(links, i);
    forall a | 0 <= a < |r| && FirstOfClass(r, a) ensures ClassWithinOneOf(r, a) {
      assert FirstOfClass(links, a) && ClassWithinOneOf(links, a);
      if SameIgnoringCase(links[j].code, links[a].code) {
        assert !(a < i) && !(i < a);
      }
    }
  }

  /**
   * The read and the write of a redirect landing on different records loses
   * clicks: for a record `y` stored after a record `x` whose code differs
   * from `y`'s only in case, with `y` one click above `x` as the click bound
   * allows, a redirect for `y`'s code writes `x`'s count plus one into `y`,
   * which is the count `y` already had. The time is stamped, the click is not
   * counted, and `x` is untouched.
   */
  lemma RedirectLosesClick(x: Link, y: Link, now: Timestamp)
    requires y.code !in Reserved
    requires x.code != y.code && SameIgnoringCase(x.code, y.code)
    requires y.clicks == x.clicks + 1
    ensures ClickBound([x, y])
    ensures AfterRedirect([x, y], y.code, now) == [x, y.(lastClickedAt := Some(now))]
  {
    var links := [x, y];
    assert CodeMatches(y.code)(links[0]) && CodeMatches(x.code)(links[0]);
    assert !CodeIs(y.code)(links[0]) && CodeIs(y.code)(links[1]);
  }

  /**
   * However many redirects arrive for the later of two codes that differ only
   * in case, its count ends one above the earlier record's: the redirects
   * after the first record no click.
   */
  lemma {:induction false} RepeatedRedirectsOnVariant(x: Link, y: Link, nows: seq<Timestamp>)
    requires y.code !in Reserved
    requires x.code != y.code && SameIgnoringCase(x.code, y.code)
    requires nows != []
    ensures AfterRedirects([x, y], y.code, nows) ==
      [x, y.(clicks := x.clicks + 1, lastClickedAt := Some(nows[|nows| - 1]))]
    decreases |nows|
  {
    var links := [x, y];
    assert CodeMatches(y.code)(links[0]);
    assert !CodeIs(y.code)(links[0]) && CodeIs(y.code)(links[1]);
    var y1 := y.(clicks := x.clicks + 1, lastClickedAt := Some(nows[0]));
    assert AfterRedirect(links, y.code, nows[0]) == [x, y1];
    if |nows| > 1 {
      RepeatedRedirectsOnVariant(x, y1, nows[1..]);
      assert nows[1..][|nows[1..]| - 1] == nows[|nows| - 1];
    } else {
      assert AfterRedirects([x, y1], y.code, nows[1..]) == [x, y1];
    }
  }

  /**
   * The read and the write of a redirect can land on different records: with
   * a record `x` stored before a record `y` whose code differs from `x`'s
   * only in case, a redirect for `y`'s code reads `x`'s click count and
   * writes that count plus one into `y`, which would lower `y`'s count if it
   * were more than one above `x`'s. Such a pair breaks the click bound, so no
   * sequence of handler calls builds it.
   */
  lemma RedirectCanLowerClicks(x: Link, y: Link, now: Timestamp)
    requires y.code !in Reserved
    requires x.code != y.code && SameIgnoringCase(x.code, y.code)
    requires y.clicks > x.clicks + 1
    ensures Find([x, y], CodeMatches(y.code)) == Some(0)
    ensures AfterRedirect([x, y], y.code, now)[1].clicks == x.clicks + 1 < y.clicks
    ensures !ClickBound([x, y])
  {
    var links := [x, y];
    assert CodeMatches(y.code)(links[0]);
    assert !CodeIs(y.code)(links[0]) && CodeIs(y.code)(links[1]);
    assert FirstOfClass(links, 0) && !ClassWithinOneOf(links, 0);
  }

  /**
   * The exact check that guards generated codes admits a code that differs
   * only in case from a stored one, after which codes are no longer distinct
   * ignoring case.
   */
  lemma GeneratedCodeMayCollideIgnoringCase(x: Link, y: Link)
    requires x.code != y.code && SameIgnoringCase(x.code, y.code)
    ensures !CodeTaken([x], y.code)
    ensures !CodesDistinctIgnoringCase([x] + [y])
  {
    var r := [x] + [y];
    assert LowerCodeOf(r[0]) == LowerCodeOf(r[1]);
  }

  // ---------------------------------------------------------------------
  // Delete: the effect on the collection
  // ---------------------------------------------------------------------

  /**
   * Removing the records that match `code` ignoring case keeps the others in
   * order, every copy of them, and leaves no record that any casing of `code`
   * would find.
   */
  lemma RemoveMatching(links: seq<Link>, code: string)
    ensures IsSubsequence(Filter(links, CodeDiffers(code)), links)
    ensures forall l: Link ::
      multiset(Filter(links, CodeDiffers(code)))[l] == (if SameIgnoringCase(l.code, code) then 0 else multiset(links)[l])
    ensures forall c :: SameIgnoringCase(c, code) ==> Find(Filter(links, CodeDiffers(code)), CodeMatches(c)).None?
  {
    var r := Filter(links, CodeDiffers(code));
    FilterIsSubsequence(links, CodeDiffers(code));
    forall l: Link ensures multiset(r)[l] == if SameIgnoringCase(l.code, code) then 0 else multiset(links)[l] {
      FilterCount(links, CodeDiffers(code), l);
    }
    forall c | SameIgnoringCase(c, code) ensures Find(r, CodeMatches(c)).None? {
      forall k | 0 <= k < |r| ensures !CodeMatches(c)(r[k]) {
        assert r[k] in r;
      }
    }
  }

  /** Removing records keeps codes distinct, exactly and ignoring case. */
  lemma RemoveKeepsDistinctness(links: seq<Link>, code: string)
    ensures CodesDistinct(links) ==> CodesDistinct(Filter(links, CodeDiffers(code)))
    ensures CodesDistinctIgnoringCase(links) ==> CodesDistinctIgnoringCase(Filter(links, CodeDiffers(code)))
  {
    if CodesDistinct(links) {
      FilterDistinctBy(links, CodeDiffers(code), CodeOf);
    }
    if CodesDistinctIgnoringCase(links) {
      FilterDistinctBy(links, CodeDiffers(code), LowerCodeOf);
    }
  }

  /**
   * A delete removes a whole case class at once, so each remaining record's
   * first match is still there and the click bound is kept.
   */
  lemma RemoveKeepsClickBound(links: seq<Link>, code: string)
    requires ClickBound(links)
    ensures ClickBound(Filter(links, CodeDiffers(code)))
  {
    var r := Filter(links, CodeDiffers(code));
    forall i | 0 <= i < |r| && FirstOfClass(r, i) ensures ClassWithinOneOf(r, i) {
      assert r[i] in links;
      var p := CodeMatches(r[i].code);
      FindFilter(links, CodeDiffers(code), p);
      FirstOfClassIsFind(r, i);
      var t := Find(links, p).value;
      assert r[i] == links[t];
      FirstOfClassIsFind(links, t);
      assert ClassWithinOneOf(links, t);
      forall k | 0 <= k < |r| && SameIgnoringCase(r[k].code, r[i].code) ensures r[k].clicks <= r[i].clicks + 1 {
        assert r[k] in links;
      }
    }
  }
}
