/**
 * The backend's request handlers (`index.js`) over the `links` collection.
 * A handler is a method of `LinkStore`; what Express would send is returned
 * as an `Outcome`, and the collection is updated in place as `push`,
 * `remove` and `assign` update the lowdb array.
 */
module Store {
  import opened Wrappers
  import opened Text
  import opened Seqs
  import opened Links

  /** What a handler sends back. */
  datatype Outcome =
    | Created(link: Link)                   // 201 with the new record
    | Listed(links: seq<Link>)              // 200 with the whole collection
    | Fetched(link: Link)                   // 200 with one record
    | NoContent                             // 204 with an empty body
    | Redirect(target: string)              // 302 to the target
    | Next                                  // `next()`: later routes handle the request
    | JsonError(status: nat, error: string) // `res.status(status).json({ error })`
    | TextError(status: nat, text: string)  // `res.status(status).send(text)`
  {
    /** The HTTP status of the reply; `Next` has none of its own. */
    function Status(): Option<nat> {
      match this
      case Created(_) => Some(201)
      case Listed(_) => Some(200)
      case Fetched(_) => Some(200)
      case NoContent => Some(204)
      case Redirect(_) => Some(302)
      case Next => None
      case JsonError(s, _) => Some(s)
      case TextError(s, _) => Some(s)
    }
  }

  const InvalidTarget: Outcome := JsonError(400, "Invalid target URL. Must be http(s).")
  const InvalidCodeFormat: Outcome := JsonError(400, "Invalid code format [A-Za-z0-9]{6,8}")
  const CodeExists: Outcome := JsonError(409, "Code already exists.")
  const NotFoundJson: Outcome := JsonError(404, "Not found")
  const NotFoundText: Outcome := TextError(404, "Not found")

  /** JavaScript truthiness of an optional string field: present and not empty. */
  predicate Given(s: Option<string>) {
    s.Some? && s.value != ""
  }

  /** The target passes `!target || !validateUrl(target)` unrejected. */
  predicate TargetAccepted(target: Option<string>, urlProtocol: string -> Option<string>) {
    Given(target) && ValidateUrl(urlProtocol, target.value)
  }

  /**
   * The successive results of `nanoid(7)` that the generation loop will see
   * are seven characters long, and one of them is not an existing code, so
   * the loop stops.
   */
  predicate DrawsEndLoop(links: seq<Link>, draws: seq<string>) {
    (forall k :: 0 <= k < |draws| ==> |draws[k]| == 7) &&
    exists k :: 0 <= k < |draws| && !CodeTaken(links, draws[k])
  }

  /**
   * The `do { code = nanoid(7) } while (links.find(l => l.code === code))`
   * loop: draws codes in turn until one is not exactly equal to a stored
   * code, and returns it with the number of draws made.
   */
  method GenerateCode(links: seq<Link>, draws: seq<string>) returns (code: string, attempts: nat)
    requires DrawsEndLoop(links, draws)
    ensures 1 <= attempts <= |draws| && code == draws[attempts - 1]
    ensures |code| == 7 && !CodeTaken(links, code)
    ensures forall k :: 0 <= k < attempts - 1 ==> CodeTaken(links, draws[k])
  {
    code := draws[0];
    attempts := 1;
    FindCodeIsIff(links, code);
    while Find(links, CodeIs(code)).Some?
      invariant 1 <= attempts <= |draws| && code == draws[attempts - 1]
      invariant forall k :: 0 <= k < attempts - 1 ==> CodeTaken(links, draws[k])
      invariant Find(links, CodeIs(code)).Some? <==> CodeTaken(links, code)
      decreases |draws| - attempts
    {
      if attempts == |draws| {
        assert false;
      }
      code := draws[attempts];
      attempts := attempts + 1;
      FindCodeIsIff(links, code);
    }
  }

  /** The backend's store: the `links` array of the lowdb document. */
  class LinkStore {
    var links: seq<Link>

    /** `db.defaults({ links: [] })` on a new data file. */
    constructor ()
      ensures links == []
      ensures ClickBound(links)
    {
      links := [];
    }

    /**
     * `POST /api/links`. `urlProtocol` is the URL parser; `draws` are the
     * values `nanoid(7)` would return, used only when no code is requested;
     * `now` is the creation time.
     */
    method Create(target: Option<string>, requested: Option<string>,
                  urlProtocol: string -> Option<string>, draws: seq<string>, now: Timestamp)
      returns (r: Outcome)
      requires TargetAccepted(target, urlProtocol) && !Given(requested) ==> DrawsEndLoop(links, draws)
      modifies this
      // a missing, empty or non-http(s) target is refused first
      ensures !TargetAccepted(target, urlProtocol) ==> r == InvalidTarget && links == old(links)
      // a requested code must have the format, then be new ignoring case
      ensures TargetAccepted(target, urlProtocol) && Given(requested) && !ValidCode(requested.value) ==>
        r == InvalidCodeFormat && links == old(links)
      ensures TargetAccepted(target, urlProtocol) && Given(requested) && ValidCode(requested.value) ==>
        if Find(old(links), CodeMatches(requested.value)).Some?
        then r == CodeExists && links == old(links)
        else r.Created? && r.link.code == requested.value
      // without a requested code, the code is the first draw not exactly equal to a stored code
      ensures TargetAccepted(target, urlProtocol) && !Given(requested) ==>
        r.Created? && |r.link.code| == 7 && !CodeTaken(old(links), r.link.code) &&
        exists k :: 0 <= k < |draws| && r.link.code == draws[k] &&
          forall m :: 0 <= m < k ==> CodeTaken(old(links), draws[m])
      // a success appends exactly the returned record, fresh, at the end
      ensures r.Created? ==>
        links == old(links) + [r.link] &&
        r.link.target == target.value && r.link.createdAt == now &&
        r.link.clicks == 0 && r.link.lastClickedAt == None
      ensures r.Created? || r == InvalidTarget || r == InvalidCodeFormat || r == CodeExists
      // what the collection keeps
      ensures old(CodesDistinct(links)) ==> CodesDistinct(links)
      ensures old(CodesDistinctIgnoringCase(links)) && Given(requested) ==> CodesDistinctIgnoringCase(links)
      ensures old(ClickBound(links)) ==> ClickBound(links)
    {
      if !Given(target) || !ValidateUrl(urlProtocol, target.value) {
        return InvalidTarget;
      }
      var snapshot := links;
      var code: string;
      if Given(requested) {
        code := requested.value;
        if !ValidCode(code) {
          return InvalidCodeFormat;
        }
        if Find(snapshot, CodeMatches(code)).Some? {
          return CodeExists;
        }
      } else {
        var attempts;
        code, attempts := GenerateCode(snapshot, draws);
      }
      var link := Link(code, target.value, now, 0, None);
      if CodesDistinct(snapshot) {
        AppendKeepsCodesDistinct(snapshot, link);
      }
      if CodesDistinctIgnoringCase(snapshot) && Given(requested) {
        AppendKeepsCodesDistinctIgnoringCase(snapshot, link);
      }
      if ClickBound(snapshot) {
        AppendKeepsClickBound(snapshot, link);
      }
      links := links + [link];
      r := Created(link);
    }

    /** `GET /api/links`: the whole collection, in insertion order. */
    method List() returns (r: Outcome)
      ensures r == Listed(links)
    {
      r := Listed(links);
    }

    /** `GET /api/links/:code`: the first record whose code matches ignoring case. */
    method Get(code: string) returns (r: Outcome)
      ensures r.Fetched? || r == NotFoundJson
      ensures r.Fetched? <==> exists i :: 0 <= i < |links| && SameIgnoringCase(links[i].code, code)
      ensures r.Fetched? ==> r.link in links && SameIgnoringCase(r.link.code, code)
      ensures r.Fetched? ==>
        exists i :: 0 <= i < |links| && r.link == links[i] &&
          forall k :: 0 <= k < i ==> !SameIgnoringCase(links[k].code, code)
    {
      var found := Find(links, CodeMatches(code));
      if found.None? {
        r := NotFoundJson;
        assert forall i :: 0 <= i < |links| ==> !CodeMatches(code)(links[i]);
      } else {
        r := Fetched(links[found.value]);
        assert CodeMatches(code)(links[found.value]);
        assert forall k :: 0 <= k < found.value ==> !CodeMatches(code)(links[k]);
      }
    }

    /** `DELETE /api/links/:code`: removes every record whose code matches ignoring case. */
    method Delete(code: string) returns (r: Outcome)
      modifies this
      ensures r == NoContent || r == NotFoundJson
      ensures r == NotFoundJson <==> forall i :: 0 <= i < |old(links)| ==> !SameIgnoringCase(old(links)[i].code, code)
      ensures r == NotFoundJson ==> links == old(links)
      ensures r == NoContent ==> links == Filter(old(links), CodeDiffers(code))
      // the rest stay in order, and no casing of the code finds a record any more
      ensures IsSubsequence(links, old(links))
      ensures forall l: Link :: multiset(links)[l] == (if SameIgnoringCase(l.code, code) then 0 else multiset(old(links))[l])
      ensures forall c :: SameIgnoringCase(c, code) ==> Find(links, CodeMatches(c)).None?
      ensures old(CodesDistinct(links)) ==> CodesDistinct(links)
      ensures old(CodesDistinctIgnoringCase(links)) ==> CodesDistinctIgnoringCase(links)
      ensures old(ClickBound(links)) ==> ClickBound(links)
    {
      var found := Find(links, CodeMatches(code));
      if found.None? {
        assert forall i :: 0 <= i < |links| ==> !CodeMatches(code)(links[i]);
        r := NotFoundJson;
        RemoveMatching(links, code);
        FilterAll(links, CodeDiffers(code));
        return;
      }
      assert CodeMatches(code)(links[found.value]);
      RemoveMatching(links, code);
      RemoveKeepsDistinctness(links, code);
      if ClickBound(links) {
        RemoveKeepsClickBound(links, code);
      }
      links := Filter(links, CodeDiffers(code));
      r := NoContent;
    }

    /**
     * `GET /:code`: passes the reserved segments on, answers 404 when no code
     * matches ignoring case, and otherwise records the click and redirects to
     * the matched record's target.
     */
    method Redirect(code: string, now: Timestamp) returns (r: Outcome)
      modifies this
      ensures code in Reserved ==> r == Next
      ensures code !in Reserved && Find(old(links), CodeMatches(code)).None? ==> r == NotFoundText
      ensures code !in Reserved && Find(old(links), CodeMatches(code)).Some? ==>
        r == Outcome.Redirect(old(links)[Find(old(links), CodeMatches(code)).value].target)
      ensures code in Reserved || Find(old(links), CodeMatches(code)).None? ==> links == old(links)
      ensures links == AfterRedirect(old(links), code, now)
      ensures old(CodesDistinct(links)) ==> CodesDistinct(links)
      ensures old(CodesDistinctIgnoringCase(links)) ==> CodesDistinctIgnoringCase(links)
      // under the click bound no count goes down
      ensures old(ClickBound(links)) ==> ClickBound(links)
      ensures old(ClickBound(links)) ==> forall k :: 0 <= k < |links| ==> links[k].clicks >= old(links)[k].clicks
    {
      RedirectKeepsDistinctness(links, code, now);
      RedirectKeepsClickBound(links, code, now);
      if code in Reserved {
        return Next;
      }
      var found := Find(links, CodeMatches(code));
      if found.None? {
        return NotFoundText;
      }
      r := Outcome.Redirect(links[found.value].target);
      RecordClick(code, now);
    }

    /**
     * The write of `GET /:code`, for a code that is not reserved and that
     * some stored code matches ignoring case: the count read from the first
     * such match, plus one, and the time go to the first record whose code is
     * exactly `code`, through `find({ code }).assign(...)`.
     */
    method RecordClick(code: string, now: Timestamp)
      requires code !in Reserved && Find(links, CodeMatches(code)).Some?
      modifies this
      ensures links == AfterRedirect(old(links), code, now)
    {
      var current := links;
      var found := Find(current, CodeMatches(code));
      var link := current[found.value];
      var exact := Find(current, CodeIs(code));
      if exact.Some? {
        var j := exact.value;
        RedirectWrite(current, code, now, found.value, j);
        links := current[j := current[j].(clicks := link.clicks + 1, lastClickedAt := Some(now))];
        assert links == AfterRedirect(current, code, now);
      } else {
        assert current == AfterRedirect(current, code, now);
      }
    }
  }
}
