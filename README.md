# Google consent skipper, modelled in Dafny

This project models the logic of `background.js`. That file is a Chrome
extension script that gets past the Google and YouTube consent pages. It does
two things:

- **It rewrites `CONSENT` cookies.** `setConsentToYes` looks up the `CONSENT`
  cookies of a domain and store. For each cookie, it splits the value on `+`.
  If field 0 is not exactly `"YES"`, it sets field 0 to `"YES"`, joins the
  fields again and writes the cookie back. The write copies every other
  attribute. Its `url` is `https://` followed by the domain without leading
  dots. `onCookieChanged` starts this rewrite whenever a `CONSENT` cookie is
  set, in the store the cookie belongs to.
- **It redirects consent pages.** `skipConsentPage` reads the `continue`
  parameter of the consent page's query string. If that parameter is truthy,
  the handler redirects to its percent-decoded value. It also starts a rewrite
  for the request's "primary domain" (the last two labels of the hostname), in
  the cookie store of the request's tab.

The modules follow the script's pieces, one file each:

- `Text`: JavaScript `split` and `join` on a one-character separator.
- `ConsentCodec`: the `+`-separated consent value.
- `FilterMap`: the calls a `map` callback issues, in element order, where
  the callback issues nothing for the elements it skips. Here, the
  `setCookie` arguments issued for the looked-up cookies, in cookie order.
- `Cookies`: the cookie records, the per-cookie rewrite, the list of writes,
  and a `CookieJar` class. `CookieJar.SetConsentToYes` runs the rewrite loop
  and applies each write to a map-based jar.
- `StoreLocator`: `findCookieStore`.
- `ChangeObserver`: `onCookieChanged`.
- `QueryParams`: `getParamsToObject`.
- `PercentDecoding`: `decodeURIComponent`, restricted to ASCII escapes, plus
  an encoder as its partner.
- `RequestInterceptor`: `skipConsentPage`.
- `ExampleRequests`: the handler on concrete requests.

The Chrome APIs become inputs and outputs:

- The cookie list returned by `chrome.cookies.getAll` is a parameter.
- The store list returned by `chrome.cookies.getAllCookieStores` is a parameter.
- The rewrite a handler starts without awaiting it is part of the handler's
  result, as a `RewriteCall(domain, storeId)` value.

Details of the code the model keeps:

- **A pair with several `=`.** The value is the text between the first and the
  second `=`, not the text after the last one. The rest of the pair is dropped
  (`Object.fromEntries` reads only index 1).
- **Duplicate keys.** The last pair with a key wins, as `Object.fromEntries`
  does.
- **A pair without `=`.** The key gets the value `undefined`, written `None`.
- **Failures.** In the code, a malformed escape in `continue` makes
  `decodeURIComponent` throw out of the handler. The model
  reports this as `Interception.Threw`. An escape is malformed when its `%` is
  not followed by two hex digits, or when it encodes an octet at or above 0x80
  (`PercentDecoding.DecodeDefined`).

## Model

| member | source | states |
|---|---|---|
| Text.Split | background.js:30 | `split` on one character gives at least one piece, and no piece holds the separator |
| Text.Join | background.js:37 | `join` with one separator; JoinSplit and SplitJoin state that it undoes `split` and that `split` undoes it |
| Text.JoinSplit | background.js:30-37 | joining the pieces of a split with the same separator gives back the original string, the empty string included |
| Text.SplitJoin | background.js:36-37 | splitting a join of separator-free pieces gives back the pieces |
| Text.SplitWithoutSeparator | background.js:30 | a string without the separator splits to itself alone |
| Text.SplitAfterPiece | background.js:11 | a separator-free prefix followed by the separator splits off as the first piece |
| Text.SplitConcat | background.js:11 | splitting at one separator occurrence splits each side independently |
| Text.JoinAt | background.js:72 | a join can be cut at any inner piece boundary into the join of the head, the separator and the join of the tail |
| ConsentCodec.WithAffirmative | background.js:36 | overwriting field 0 keeps the number of fields, sets field 0 to "YES" and keeps every other field |
| ConsentCodec.Fields | background.js:30 | `cookie.value.split("+")`; FieldsRoundTrip states that the fields serialise back to the value |
| ConsentCodec.IsAffirmative | background.js:31 | `consentData[0] === "YES"`; RewriteDecision states that it decides whether a write is issued |
| ConsentCodec.Affirmed | background.js:36-37 | the value with field 0 set to "YES"; AffirmedFields and AffirmedIdempotent state its fields and that it is a fixed point on affirmative values |
| ConsentCodec.FieldsRoundTrip | background.js:30-37 | a consent value parses to at least one field and serialises back to itself |
| ConsentCodec.AffirmedFields | background.js:36-37 | the rewritten value parses to the same number of fields, flag "YES", other fields unchanged, so it is affirmative |
| ConsentCodec.AffirmedIdempotent | background.js:31-37 | an affirmative value is a fixed point of the rewrite, and the rewrite is idempotent |
| Cookies.StripLeadingDots | background.js:48 | the result is a suffix of the domain, everything removed is a dot, and the result does not start with a dot |
| Cookies.WriteUrl | background.js:48 | the write url; WriteUrlHost states it is "https://" plus the dot-stripped domain |
| Cookies.RewriteFor | background.js:29-50 | the write for one cookie; RewriteDecision, RewritePreservesAttributes and RewriteThenNothing state when it is issued and what it holds |
| Cookies.Writes | background.js:29-51 | the writes for a lookup, in cookie order; WritesNone, WritesExactly, WritesStep, WritesAffirmative and SecondPassWritesNothing state which cookies are written, in what order, and that a second pass writes nothing |
| Cookies.WriteUrlHost | background.js:48 | the write url is "https://" plus a suffix of the domain that does not start with a dot, preceded only by dots; a domain without a leading dot is kept whole |
| Cookies.RewriteDecision | background.js:30-36 | a cookie gets no write iff field 0 of its value is exactly "YES"; a write carries the affirmed value |
| Cookies.RewritePreservesAttributes | background.js:39-50 | the write copies domain, expirationDate, httpOnly, name, path, sameSite, secure and storeId; its value has the same fields with the flag set |
| Cookies.RewriteThenNothing | background.js:31-49 | the cookie a write stores is affirmative, so rewriting it again issues no write |
| FilterMap.DefinedSingle | background.js:29-35 | one element contributes its result if it has one, and nothing otherwise |
| FilterMap.DefinedAppend | background.js:29-51 | the results of a concatenation are the results of each part, in order |
| FilterMap.DefinedSnoc | background.js:29-51 | one more element at the end adds its result, if any, at the end |
| FilterMap.DefinedExactly | background.js:29-51 | at most one result per element; a value is a result iff some element maps to it; no results iff no element has one |
| Cookies.WritesNone | background.js:29-35 | no writes iff every looked-up cookie is affirmative, and never more writes than cookies |
| Cookies.WritesExactly | background.js:29-51 | every non-affirmative cookie's rewrite is written, and every write is the rewrite of a looked-up cookie |
| Cookies.WritesAffirmative | background.js:36-49 | every write sets an affirmative value |
| Cookies.SecondPassWritesNothing | background.js:29-57 | a rewrite pass over the cookies the writes stored issues no write |
| Cookies.WritesStep | background.js:29-39 | one more cookie adds its rewrite, if it has one, at the end of the writes |
| Cookies.WrittenKeysStep | background.js:39-47 | one more write adds its key to the written keys |
| Cookies.AppliedSettles | background.js:39-51 | after affirmative writes, the jar holds its old keys plus the written keys, each written key is affirmative, and the other keys are untouched |
| Cookies.WritesSettle | background.js:22-52 | after the writes for a lookup, every written key is affirmative and every other key is untouched |
| Cookies.CookieJar.Set | background.js:39-50 | a successful `chrome.cookies.set` stores the cookie under its store, domain, name and path, and changes no other key |
| Cookies.CookieJar.SetConsentToYes | background.js:22-52 | the issued writes are exactly the write list for the lookup, in order, and the jar is the old jar with them applied: written keys affirmative, other keys unchanged |
| StoreLocator.FindCookieStore | background.js:20 | nothing is found iff no store satisfies the filter; otherwise the result is the first store that does |
| StoreLocator.FindById | background.js:56 | a lookup by id finds a store iff the list has one with that id, and the store found has that id |
| ChangeObserver.ChangeFilter | background.js:54-59 | a notification starts a rewrite iff the cookie is named "CONSENT", was not removed and its store is listed; the rewrite is for the cookie's domain and store |
| ChangeObserver.OnCookieChanged | background.js:54-59 | the rewrite a change notification starts; ChangeFilter and FeedbackLoopEnds state when it starts one and for what |
| ChangeObserver.FeedbackLoopEnds | background.js:54-57 | a write's own change notification starts at most one rewrite for the same domain and store, and that rewrite issues no write for the stored cookie |
| QueryParams.FromEntriesKeys | background.js:11 | `Object.fromEntries` has exactly the keys that start some entry |
| QueryParams.FromEntries | background.js:11 | `Object.fromEntries`; FromEntriesKeys and FromEntriesLastWins state its keys and that the last entry with a key wins |
| QueryParams.FromEntriesLastWins | background.js:11 | a key holds the value of the last entry that starts with it |
| QueryParams.ParamsLastWins | background.js:11 | a key is present iff some pair starts with it, and it holds element 1 of the last such pair, or undefined |
| QueryParams.GetParamsToObject | background.js:11 | `getParamsToObject`; ParamsLastWins states that a key is present iff some pair starts with it and holds element 1 of the last such pair, or undefined |
| QueryParams.EntryValueOfPair | background.js:11 | the pair "key=value" followed by nothing or by '=' gives that key and that value |
| QueryParams.FirstPairValue | background.js:11 | a query opening with "key=value&" gives the key that value unless a later pair repeats the key |
| PercentDecoding.HexValue | background.js:64 | a hex digit's value is below 16; HexDigit fixes the value of each upper-case digit and HexValueIgnoresCase gives a lower-case digit the value of its upper-case form |
| PercentDecoding.HexDigit | background.js:64 | the digit for a value below 16 is a hex digit with that value |
| PercentDecoding.PercentDecode | background.js:64 | `decodeURIComponent` on ASCII escapes; DecodeDefined states exactly which inputs fail, and DecodeEncode, DecodeWithoutPercent, DecodeLength, DecodeEscape and DecodePlain state that it undoes encoding, keeps plain text, never lengthens, and decodes each escape |
| PercentDecoding.DecodeDefined | background.js:64 | decoding succeeds iff every '%' is followed by two hex digits that encode an octet below 0x80; otherwise `decodeURIComponent` throws |
| PercentDecoding.HexValueIgnoresCase | background.js:64 | a lower-case hex digit is a hex digit with the same value as its upper-case form |
| PercentDecoding.DecodeEncode | background.js:64 | decoding an encoded ASCII string gives back the string |
| PercentDecoding.DecodeWithoutPercent | background.js:64 | text without '%' decodes to itself |
| PercentDecoding.DecodeLength | background.js:64-65 | decoding never lengthens, and only the empty string decodes to the empty string, so a truthy parameter never decodes to a falsy URL |
| PercentDecoding.DecodeEscape | background.js:64 | an escape of an ASCII octet decodes to the character with that code |
| PercentDecoding.DecodePlain | background.js:64 | a character other than '%' decodes to itself |
| PercentDecoding.DecodePlainPrefix | background.js:64 | '%'-free text decodes to itself in front of the decoding of what follows |
| RequestInterceptor.TwoLabels | background.js:72 | two dot-free labels joined by a dot hold exactly one dot |
| RequestInterceptor.QueryOf | background.js:63 | `search.slice(1)`: the search string without its first character, and empty for an empty search |
| RequestInterceptor.ContinueParam | background.js:64 | `getParams.continue` when truthy: a returned value is non-empty and is what the key holds; None means the key is missing, undefined or empty |
| RequestInterceptor.LastTwo | background.js:72 | `slice(-2)`: the last two elements, or all of them when there are fewer |
| RequestInterceptor.PrimaryDomain | background.js:72 | the primary domain; PrimaryDomainIsLastTwoLabels and PrimaryDomainOfLabels state that it is the hostname's last two labels |
| RequestInterceptor.LastTwoJoined | background.js:72 | the join of the last two labels is those labels around one dot, and it ends the join of all labels right after a dot |
| RequestInterceptor.PrimaryDomainIsLastTwoLabels | background.js:72 | the primary domain is a suffix of the hostname that starts at a label boundary, holds at most one dot and holds one whenever the hostname does; a dot-free hostname is its own primary domain |
| RequestInterceptor.PrimaryDomainOfLabels | background.js:72 | whatever precedes them, the last two labels b and c give the primary domain "b.c" |
| RequestInterceptor.SkipDecision | background.js:61-79 | without a truthy `continue` the handler returns `{}` and starts nothing; with one that does not decode it throws; otherwise it redirects to the decoded, non-empty URL and starts a rewrite of the primary domain iff a store holds the tab, in the first such store |
| RequestInterceptor.SkipConsentPage | background.js:61-79 | the handler; SkipDecision and RedirectWhenContinueDecodes state its three outcomes |
| RequestInterceptor.RedirectWhenContinueDecodes | background.js:63-78 | a `continue` that decodes, with the tab's store found, gives a redirect to the decoded URL and a rewrite of the primary domain in that store |
| ExampleRequests.YoutubePrimaryDomain | background.js:72 | consent.youtube.com has the primary domain youtube.com |
| ExampleRequests.GooglePrimaryDomain | background.js:72 | consent.google.com has the primary domain google.com |
| ExampleRequests.TwoPartSuffix | background.js:72 | consent.google.co.uk has the primary domain co.uk, so only the last two labels count |
| ExampleRequests.EscapeDecodes | background.js:64 | a "%XY" escape of an ASCII character decodes to it in front of anything |
| ExampleRequests.LowerCaseEscapeDecodes | background.js:64 | "%2f" decodes to "/", as "%2F" does |
| ExampleRequests.SearchUrlDecodes | background.js:64 | the escaped pieces of "https://www.google.com/search" decode to the URL |
| ExampleRequests.GoogleContinueDecodes | background.js:64 | "https%3A%2F%2Fwww.google.com%2Fsearch" decodes to "https://www.google.com/search" |
| ExampleRequests.OtherPair | background.js:11 | "pc=p" is one pair and not a `continue` pair |
| ExampleRequests.GoogleQuery | background.js:63-64 | the query "continue=https%3A%2F%2Fwww.google.com%2Fsearch&pc=p" has that encoded URL as its truthy `continue` |
| ExampleRequests.GoogleRedirectExample | background.js:61-79 | that request on consent.google.com, in a tab of store "0", redirects to https://www.google.com/search and rewrites google.com in store "0" |
| ExampleRequests.NoContinueExample | background.js:63-68 | "?pc=m" on consent.youtube.com is let through, with no rewrite |

## Left out

- The Chrome API wrappers and listener registration (background.js:16-18, 81-82) and the `makeAsync` adapter (background.js:12-14) are not modelled. They are host plumbing: cookie and store lists are parameters, and results are values.
- The `Promise.all` fan-out and the race between the redirect and the un-awaited rewrite (background.js:29, 56-57, 73-74) are not modelled. The writes form an ordered list that `CookieJar.SetConsentToYes` applies one after the other.
- `CookieJar.Set` always succeeds. A rejected write, and the browser's own normalisation of a cookie's domain on write, are not modelled.
- ChangeObserver.FeedbackLoopEnds: assumes each write lands on the key (store, domain, name, path) of the cookie it rewrites. Chrome stores a write that passes `domain` as a domain cookie, so a host-only `CONSENT` cookie would be shadowed rather than overwritten, and later passes could rewrite it again. Host-only cookies are not modelled.
- The lookup `chrome.cookies.getAll({name, domain, storeId})` is not modelled. Its result is the `found` parameter.
- `debugLog` and console output (background.js:4, 27, 32, 37, 66, 70) are not modelled. They are diagnostics only.
- The WHATWG URL parser behind `new URL(details.url)` (background.js:62) is not modelled. The request carries its `hostname` and `search` already parsed.
- The consent-URL match patterns (background.js:5-10) are not modelled. The browser applies them, not this code.
- A failed store lookup is modelled as "no rewrite". In the code it throws on `store.id` inside `.then` (background.js:57, 74), which is an unhandled rejection that changes nothing.
- Cookie attributes beyond the eight the script copies (background.js:40-47), plus `value`, are not modelled; `hostOnly` and `session` are examples.
- PercentDecoding.PercentDecode: an escape of an octet at or above 0x80 is treated as malformed. `decodeURIComponent` accepts such escapes when they form valid UTF-8, and this model does not decode UTF-8.
- PercentDecoding.PercentEncode: defined on ASCII text only. It is a partner for the decoder, not a function the script uses.
