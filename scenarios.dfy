/**
 * Client code for the store: request sequences a deployment of the service
 * goes through, checked against the handlers' contracts and the lemmas
 * about their effects on the collection.
 */
module Scenarios {
  import opened Wrappers
  import opened Text
  import opened Seqs
  import opened Links
  import opened Store

  /** A stand-in for `new URL(s).protocol` over the targets the scenarios use; it throws on the rest. */
  function ExampleProtocol(s: string): Option<string> {
    if s == "https://example.com/a" || s == "https://x.com" || s == "https://y.com" then Some("https:")
    else if s == "ftp://x" then Some("ftp:")
    else None
  }

  /** Create with a generated code, three redirects, delete, then 404 on get and on a second delete. */
  method GeneratedLinkLifecycle() {
    var store := new LinkStore();
    var draws := ["K3x9_Qa"];
    assert !CodeTaken(store.links, draws[0]);
    var created := store.Create(Some("https://example.com/a"), None, ExampleProtocol, draws, "t0");
    assert created.Created? && created.Status() == Some(201);
    assert created.link.clicks == 0 && created.link.code == "K3x9_Qa";
    var code := created.link.code;
    assert store.links == [Link(code, "https://example.com/a", "t0", 0, None)];

    RedirectTwice(store, code);
    RedirectOnceMore(store, code);

    assert CodeMatches(code)(store.links[0]);
    var got := store.Get(code);
    assert got.Fetched? && got.link.clicks == 3 && got.link.lastClickedAt == Some("t3");

    DeleteThenGet(store, code);
  }

  /** Two redirects on a record with no clicks. */
  method RedirectTwice(store: LinkStore, code: string)
    requires code !in Reserved
    requires store.links == [Link(code, "https://example.com/a", "t0", 0, None)]
    modifies store
    ensures store.links == [Link(code, "https://example.com/a", "t0", 2, Some("t2"))]
  {
    assert CodeMatches(code)(store.links[0]) && CodeIs(code)(store.links[0]);
    var before := store.links;
    var r := store.Redirect(code, "t1");
    assert r == Outcome.Redirect("https://example.com/a");
    RedirectCountsClick(before, code, "t1", 0);
    assert store.links == [Link(code, "https://example.com/a", "t0", 1, Some("t1"))];
    assert CodeMatches(code)(store.links[0]) && CodeIs(code)(store.links[0]);
    before := store.links;
    r := store.Redirect(code, "t2");
    RedirectCountsClick(before, code, "t2", 0);
  }

  /** A third redirect on the same record. */
  method RedirectOnceMore(store: LinkStore, code: string)
    requires code !in Reserved
    requires store.links == [Link(code, "https://example.com/a", "t0", 2, Some("t2"))]
    modifies store
    ensures store.links == [Link(code, "https://example.com/a", "t0", 3, Some("t3"))]
  {
    assert CodeMatches(code)(store.links[0]) && CodeIs(code)(store.links[0]);
    var before := store.links;
    var r := store.Redirect(code, "t3");
    RedirectCountsClick(before, code, "t3", 0);
  }

  /** Delete answers 204, after which get and a second delete answer 404. */
  method DeleteThenGet(store: LinkStore, code: string)
    requires |store.links| == 1 && store.links[0].code == code
    modifies store
    ensures store.links == []
  {
    var l := store.links[0];
    assert CodeMatches(code)(l) && !CodeDiffers(code)(l);
    var deleted := store.Delete(code);
    assert deleted == NoContent;
    assert store.links == Filter([l], CodeDiffers(code)) == [];
    var got := store.Get(code);
    assert got == NotFoundJson;
    deleted := store.Delete(code);
    assert deleted == NotFoundJson;
  }

  /** Two requested codes that differ only in case: the second create is refused with 409. */
  method CaseConflict() {
    var store := new LinkStore();
    CaseVariantsOfMyCode1();
    var first := store.Create(Some("https://x.com"), Some("MyCode1"), ExampleProtocol, [], "t0");
    assert first.Created? && store.links == [Link("MyCode1", "https://x.com", "t0", 0, None)];
    SecondCasingRefused(store);
  }

  method SecondCasingRefused(store: LinkStore)
    requires store.links == [Link("MyCode1", "https://x.com", "t0", 0, None)]
    modifies store
    ensures store.links == old(store.links)
  {
    CaseVariantsOfMyCode1();
    assert CodeMatches("mycode1")(store.links[0]);
    assert Find(store.links, CodeMatches("mycode1")).Some?;
    assert TargetAccepted(Some("https://y.com"), ExampleProtocol) && Given(Some("mycode1"));
    var second := store.Create(Some("https://y.com"), Some("mycode1"), ExampleProtocol, [], "t1");
    assert second == CodeExists;
  }

  lemma CaseVariantsOfMyCode1()
    ensures ValidCode("MyCode1") && ValidCode("mycode1")
    ensures SameIgnoringCase("MyCode1", "mycode1")
  {
    ValidCodeIff("MyCode1");
    ValidCodeIff("mycode1");
    assert Lower("MyCode1") == "mycode1";
  }

  /** A non-http(s) target, an unparsable one and a short code are refused with 400 and store nothing. */
  method BadRequests() {
    var store := new LinkStore();
    var r := store.Create(Some("ftp://x"), Some("abcdef"), ExampleProtocol, [], "t0");
    assert r == InvalidTarget;
    r := store.Create(Some("not-a-url"), Some("abcdef"), ExampleProtocol, [], "t0");
    assert r == InvalidTarget;
    ValidCodeIff("abc");
    r := store.Create(Some("https://x.com"), Some("abc"), ExampleProtocol, [], "t0");
    assert r == InvalidCodeFormat && r.Status() == Some(400);
    assert store.links == [];
  }

  /** A redirect in a different casing answers 302 and records no click. */
  method OtherCasingRedirect() {
    var store := new LinkStore();
    ValidCodeIff("AbCdEf");
    var created := store.Create(Some("https://x.com"), Some("AbCdEf"), ExampleProtocol, [], "t0");
    assert created.Created? && store.links == [created.link];
    OtherCasingRedirectOn(store);
  }

  method OtherCasingRedirectOn(store: LinkStore)
    requires store.links == [Link("AbCdEf", "https://x.com", "t0", 0, None)]
    modifies store
    ensures store.links == [Link("AbCdEf", "https://x.com", "t0", 0, None)]
  {
    CasingsOfAbCdEf();
    assert CodeMatches("abcdef")(store.links[0]);
    assert Find(store.links, CodeMatches("abcdef")) == Some(0);
    var before := store.links;
    assert !CodeTaken(before, "abcdef") && "abcdef" !in Reserved;
    var r := store.Redirect("abcdef", "t1");
    assert r == Outcome.Redirect("https://x.com");
    RedirectWithOtherCasingRecordsNothing(before, "abcdef", "t1");
  }

  lemma CasingsOfAbCdEf()
    ensures SameIgnoringCase("AbCdEf", "abcdef") && "AbCdEf" != "abcdef"
  {
    assert Lower("AbCdEf") == "abcdef" == Lower("abcdef");
  }

  /**
   * A requested code, then a generated one that differs from it only in case:
   * the exact check at generation lets it through, and the store then holds
   * two codes equal ignoring case.
   */
  method GeneratedCodeCollision() {
    var store := new LinkStore();
    ValidCodeIff("abcdefg");
    var first := store.Create(Some("https://x.com"), Some("abcdefg"), ExampleProtocol, [], "t0");
    assert first.Created? && store.links == [Link("abcdefg", "https://x.com", "t0", 0, None)];
    GeneratedCollisionOn(store);
  }

  method GeneratedCollisionOn(store: LinkStore)
    requires store.links == [Link("abcdefg", "https://x.com", "t0", 0, None)]
    modifies store
    ensures !CodesDistinctIgnoringCase(store.links)
  {
    var draws := ["ABCDEFG"];
    assert !CodeTaken(store.links, draws[0]);
    var second := store.Create(Some("https://y.com"), None, ExampleProtocol, draws, "t1");
    assert second.Created? && second.link.code == "ABCDEFG";
    CaseVariantsCollide(store.links);
  }

  lemma CaseVariantsCollide(links: seq<Link>)
    requires |links| == 2 && links[0].code == "abcdefg" && links[1].code == "ABCDEFG"
    ensures !CodesDistinctIgnoringCase(links)
  {
    assert Lower("ABCDEFG") == "abcdefg" == Lower("abcdefg");
    assert LowerCodeOf(links[0]) == LowerCodeOf(links[1]);
  }

  /** `healthz` passes `validCode` and is stored, but every redirect for it is passed on and counts nothing. */
  method ReservedCodeNeverCounted() {
    var store := new LinkStore();
    ValidCodeIff("healthz");
    var created := store.Create(Some("https://x.com"), Some("healthz"), ExampleProtocol, [], "t0");
    assert created.Created? && store.links == [Link("healthz", "https://x.com", "t0", 0, None)];
    ReservedRedirectOn(store);
  }

  method ReservedRedirectOn(store: LinkStore)
    requires store.links == [Link("healthz", "https://x.com", "t0", 0, None)]
    modifies store
    ensures store.links == [Link("healthz", "https://x.com", "t0", 0, None)]
  {
    var r := store.Redirect("healthz", "t1");
    assert r == Next;
  }
}
