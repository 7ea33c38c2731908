# TinyLink link store, modelled in Dafny

TinyLink is a URL shortener. Its backend (`index.js`) keeps a `links` array of
records `{code, target, createdAt, clicks, lastClickedAt}`. It serves five
handlers over that array: create (`POST /api/links`), list (`GET /api/links`),
get (`GET /api/links/:code`), delete (`DELETE /api/links/:code`) and redirect
(`GET /:code`). The dashboard page (`src/pages/Dashboard.js`) adds two pure
helpers: `truncate`, which shortens a target for display, and the search
filter over the loaded links.

The model has these modules:

- `Wrappers`: an `Option` for JavaScript's absent values.
- `Text`: ASCII `toLowerCase`, and `includes` with a lemma tying it to an occurrence position.
- `Seqs`: lodash `find` (the first matching index) and `filter`/`remove`, with their facts: subsequence, copies counted by multiset, distinct keys preserved.
- `Links`: the `Link` record; `validCode`, written as the anchored counted regex it is; `validateUrl` over an abstract URL parser; the lookups; the effect of a redirect (`AfterRedirect`) and of a delete on the collection, with the lemmas about them; and the click bound (`ClickBound`) that every handler keeps.
- `Store`: the class `LinkStore`, whose `links: seq<Link>` field its five handler methods update in place. The `do … while` code generator is a separate method with a loop. Each handler returns an `Outcome`: the reply Express would send (201/200/204/302/400/404/409, or `Next` for `next()`).
- `Dashboard`: `Truncate`, using JavaScript `slice` semantics, and `Filtered`.
- `Scenarios`: client methods that drive the store through a create/redirect/delete lifecycle, a case conflict, bad requests, a redirect in another casing, a generated code that collides ignoring case, and a stored `healthz` that redirects never count. They use the handlers' contracts and the lemmas about their effects on the collection.

## Quirks of the code

The model keeps these as the code has them.

- Generated codes are checked against stored codes case-sensitively (index.js:79). A generated code can therefore differ only in case from a stored one. `Links.GeneratedCodeMayCollideIgnoringCase` shows this. `Store.LinkStore.Create` keeps case-insensitive distinctness only for requested codes.
- `nanoid(7)` draws from an alphabet that includes `_` and `-`. Generated codes are 7 characters long, but they need not be alphanumeric or pass `validCode`.
- A redirect reads the click count and the target from the first case-insensitive match. It writes the incremented count into the first record whose code matches exactly (index.js:139-151).
  - A redirect in another casing therefore sends the visitor on but records no click (`Links.RedirectWithOtherCasingRecordsNothing`).
  - When two stored codes differ only in case, the count written into the exact match is read from the other record, the first of the pair. Every redirect for the later code sets its count to the first record's count plus one, whatever it was before. The first such redirect can make it jump up by many clicks at once, for example from 0 to 11 next to a record with 10. After that, each further redirect stamps the time but leaves the count where it is, so clicks are lost (`Links.RedirectLosesClick`, `Links.RepeatedRedirectsOnVariant`).
  - Counts still never go down. In every store the handlers build, each record has at most one click more than the first record of its case class (`Links.ClickBound`). A later record can be any number of clicks below it. The bound holds for a new store, and create, delete and redirect keep it. Under it, the count a redirect writes is never below the one it overwrites. On a pair that broke the bound, a redirect would lower the later record's count (`Links.RedirectCanLowerClicks`), but the handlers never build such a pair. While codes are distinct ignoring case, a redirect for a segment that is not reserved adds one click to the record whose code equals it exactly, and no click to any other record (`Links.RedirectMonotone`). A redirect in another casing adds no click at all.
- `healthz` is seven letters, so it passes `validCode` and can be created as a requested code (index.js:66-92). Every redirect for it is then passed on to `next()` (index.js:137), so it never gains a click (`Scenarios.ReservedCodeNeverCounted`).
- A requested code of `""` counts as absent (`if (code)`), so a code is generated for it.
- Delete removes every record that matches ignoring case, not just one.
- A storage write failure has no error path in the code. lowdb's `.write()` throws, and Express answers 500. The model has no storage failure.

## Model

| member | source | states |
|---|---|---|
| Links.AlnumRepeatIff | index.js:37 | the anchored `[A-Za-z0-9]{lo,hi}` match accepts exactly the strings of `lo` to `hi` characters that are all ASCII letters or digits |
| Links.ValidCodeIff | index.js:36-38 | `validCode` holds exactly when the code has 6 to 8 characters, each in A-Z, a-z or 0-9 |
| Links.FindCodeIsIff | index.js:79 | the exact `find` used by the generation loop finds a record exactly when some stored code equals the candidate |
| Links.AppendKeepsCodesDistinct | index.js:92 | appending a record whose code no record has exactly keeps all codes pairwise different |
| Links.AppendKeepsCodesDistinctIgnoringCase | index.js:71-92 | appending a record whose code matches no stored code ignoring case keeps codes pairwise different ignoring case |
| Links.LookupsAgree | index.js:139-146 | when codes are distinct ignoring case, the first case-insensitive match of a taken code is its exact match |
| Links.AfterRedirect | index.js:134-151 | a redirect keeps the length of the collection and every record's code, target and creation time; it changes nothing for a reserved segment, when no code matches ignoring case, or when no code matches exactly |
| Links.RedirectKeepsLookups | index.js:145-151 | after a redirect, the exact and the case-insensitive lookups of any code give the same index as before |
| Links.RedirectKeepsDistinctness | index.js:145-151 | a redirect keeps codes distinct, exactly and ignoring case |
| Links.RedirectCountsClick | index.js:145-151 | when the case-insensitive and the exact match are the same record, the redirect adds one click to it and sets its last-click time to `now`; every other record is unchanged |
| Links.RedirectWithOtherCasingRecordsNothing | index.js:146 | when no stored code equals the requested string exactly, a redirect leaves the collection unchanged |
| Links.RedirectMonotone | index.js:137-151 | when codes are distinct ignoring case, a redirect for a segment that is not reserved adds one click to the first record whose code equals it exactly; every other record, and every record for a reserved segment or a segment no code equals exactly, keeps its count |
| Links.RepeatedRedirects | index.js:145-151 | `n` redirects on a record that is both matches add `n` clicks to it, leave its last-click time at the latest redirect's time, and leave every other record unchanged |
| Links.RedirectCanLowerClicks | index.js:139-153 | with `x` stored before `y` and their codes equal only ignoring case, a redirect for `y`'s code reads `x` (the first match) and sets `y`'s count to `x`'s count plus one, lower than `y`'s old count when that was more than one above `x`'s; such a pair breaks `ClickBound`, so the handlers never build it |
| Links.RedirectLosesClick | index.js:139-148 | with `x` stored before `y`, codes equal only ignoring case, and `y` one click above `x` (which `ClickBound` allows), a redirect for `y`'s code stamps `y` with `now` and leaves every count as it was |
| Links.RepeatedRedirectsOnVariant | index.js:139-148 | any non-empty run of redirects for the later of two codes equal ignoring case leaves the earlier record unchanged and the later one at the earlier's count plus one, stamped with the last time |
| Links.FirstOfClassIsFind | index.js:139-141 | a record is the first of its case class exactly when the case-insensitive lookup of its own code lands on it |
| Links.AppendKeepsClickBound | index.js:84-92 | appending a record with no clicks keeps every record at most one click above the first record of its case class |
| Links.WriteKeepsClickBound | index.js:145-151 | writing the class leader's count plus one into a record of its class keeps the click bound and lowers no count |
| Links.RedirectKeepsClickBound | index.js:139-151 | under the click bound, a redirect keeps the bound and lowers no record's count |
| Links.RemoveKeepsClickBound | index.js:126-128 | removing the records that match ignoring case, a whole case class at once, keeps the click bound |
| Links.GeneratedCodeMayCollideIgnoringCase | index.js:79 | the exact check admits a code equal ignoring case to a stored one, and appending it breaks case-insensitive distinctness |
| Links.RemoveMatching | index.js:126-128 | removing the case-insensitive matches keeps the other records in order and every copy of them, drops every match, and leaves no record that any casing of the code finds |
| Links.RemoveKeepsDistinctness | index.js:126-128 | the removal keeps codes distinct, exactly and ignoring case |
| Store.GenerateCode | index.js:76-79 | the loop returns the first draw that no stored code equals exactly; the code has 7 characters and all earlier draws were taken |
| Store.LinkStore.constructor | index.js:33 | a new data file starts with an empty collection, which satisfies the click bound |
| Store.LinkStore.Create | index.js:55-95 | a missing, empty or non-`http:`/`https:` target gives 400 and no change; a malformed requested code gives 400 and no change; a requested code equal to a stored one ignoring case gives 409 and no change; otherwise the reply is 201 with a record holding the requested or generated code, the target, `createdAt = now`, 0 clicks and no last click, and that record is appended at the end with all earlier records unchanged; distinct codes stay distinct, and the click bound is kept |
| Store.LinkStore.List | index.js:98-101 | list returns the whole collection in insertion order |
| Store.LinkStore.Get | index.js:104-114 | get answers 200 with a record exactly when some code matches ignoring case, and the record is the first such match; otherwise it answers 404 |
| Store.LinkStore.Delete | index.js:117-131 | delete answers 404 and changes nothing when no code matches ignoring case; otherwise it answers 204 and removes every matching record, keeping the rest in order; afterwards no casing of the code finds a record; distinctness and the click bound are kept |
| Store.LinkStore.Redirect | index.js:134-154 | `api`, `healthz` and the empty segment pass on with no change; no case-insensitive match gives a 404 text reply with no change; otherwise the reply is 302 to the first match's target; the new collection is `AfterRedirect` of the old one; distinct codes stay distinct, exactly and ignoring case; under the click bound the bound is kept and no count goes down |
| Store.LinkStore.RecordClick | index.js:145-151 | the `find({ code }).assign(...)` write leaves the collection equal to `AfterRedirect` of the old one |
| Text.Lower | index.js:71 | lower-casing keeps the length and lower-cases each ASCII letter in place |
| Text.ContainsIff | src/pages/Dashboard.js:69-70 | `includes` holds exactly when the needle occurs at some position of the string |
| Dashboard.Truncate | src/pages/Dashboard.js:166-169 | the empty string gives the empty string; a string of at most `n` characters is returned unchanged; a longer one with `n >= 1` gives exactly `n` characters, the first `n - 1` of the string and then `…`; the result is never longer than the input, and never longer than `n` when `n >= 1` |
| Dashboard.Filtered | src/pages/Dashboard.js:68-71 | no loaded links (`null`) gives the empty list; every shown link is a loaded link that matches the query |
| Dashboard.FilteredSpec | src/pages/Dashboard.js:68-71 | the search result is a subsequence of the loaded links; it holds every copy of each link whose lower-cased code or target contains the lower-cased query, and no other link |
| Dashboard.FilteredEmptyQuery | src/pages/Dashboard.js:68-71 | with an empty query every loaded link is shown, in order |

## Left out

- Express wiring is left out: routing, `req`/`res`, cors, JSON body parsing, the health route, static frontend serving and `app.listen` (index.js:1-33, 49-52, 156-168). Each handler is a method that returns its reply.
- lowdb persistence is left out: the data file, `.write()` and its failures. The in-memory sequence is the store. The constructor models a new data file; loading an existing one is not modelled.
- Body fields that are not strings (numbers, objects) are not modelled. `target` and `code` are optional strings.
- WHATWG URL parsing is out of scope. `ValidateUrl` takes the parser as a function parameter that returns the parsed protocol, or `None` when `new URL` throws.
- `nanoid(7)` randomness is replaced by the sequence `draws` of values it would return. The requires says each draw has 7 characters and some draw is not a stored code. Without that, the source loops forever.
- `new Date().toISOString()` is not modelled. `now` is an opaque timestamp string passed in.
- `toLowerCase` is modelled on ASCII letters only. Unicode case mapping, which can also change a string's length, is not modelled.
- Lengths count Dafny characters, not JavaScript's UTF-16 code units, so `truncate` on text outside the Basic Multilingual Plane is not captured.
- Dashboard.Truncate: `!s` for `null` or `undefined` is not modelled, because the dashboard only passes strings (`l.target`).
- Clicks: `Link.clicks` is an unbounded `nat`. In JavaScript, `(link.clicks || 0) + 1` works on a double and stops counting at 2^53; that limit is not modelled.
- `link.clicks || 0` is the stored count, because the model's click counts are never missing.
- Concurrency is not modelled: the read-then-write in create and redirect, and any locking a concurrent server would need. Each request runs alone.
- Left out as UI and network glue: the React component state, effects and the `onCreate`/`onDelete` flows in `src/pages/Dashboard.js`, and `src/api.js`, `src/utils/useClipboard.js`, `src/index.js`, `src/pages/StatsPage.js` and `src/pages/NotFound.js`.
