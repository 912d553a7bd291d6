/** The cookie records the extension reads and writes, the rewrite of one
    `CONSENT` cookie (`setConsentToYes`, background.js:22-52), and the cookie
    jar those writes land in. */
module Cookies {
  import opened Wrappers
  import opened Text
  import opened ConsentCodec
  import opened FilterMap

  /** `chrome.cookies.SameSiteStatus`. */
  datatype SameSite = NoRestriction | Lax | Strict | Unspecified

  /** A cookie as `chrome.cookies.getAll` reports it, restricted to the nine
      attributes the extension touches. A session cookie has no expiration date. */
  datatype Cookie = Cookie(
    domain: string,
    expirationDate: Option<real>,
    httpOnly: bool,
    name: string,
    path: string,
    sameSite: SameSite,
    secure: bool,
    storeId: string,
    value: string)

  /** The record passed to `chrome.cookies.set`: the cookie's attributes plus the
      `url` the cookie is set for. */
  datatype SetDetails = SetDetails(
    domain: string,
    expirationDate: Option<real>,
    httpOnly: bool,
    name: string,
    path: string,
    sameSite: SameSite,
    secure: bool,
    storeId: string,
    url: string,
    value: string)

  /** The arguments of one `setConsentToYes(domain, storeId)` call. */
  datatype RewriteCall = RewriteCall(domain: string, storeId: string)

  const Scheme := "https://"

  /** `domain.replace(/^\.*\/, "")`: the domain without its leading dots. */
  function StripLeadingDots(domain: string): (host: string)
    ensures |host| <= |domain| && host == domain[|domain| - |host|..]
    ensures forall i :: 0 <= i < |domain| - |host| ==> domain[i] == '.'
    ensures host == [] || host[0] != '.'
    decreases |domain|
  {
    if domain != [] && domain[0] == '.' then StripLeadingDots(domain[1..]) else domain
  }

  /** The `url` of the write: the https origin of the cookie's domain. */
  function WriteUrl(domain: string): string
  {
    Scheme + StripLeadingDots(domain)
  }

  /** The write `setConsentToYes` issues for one cookie returned by the lookup,
      or None when its flag already reads "YES". */
  function RewriteFor(c: Cookie): Option<SetDetails>
  {
    if IsAffirmative(c.value) then None
    else Some(SetDetails(
      c.domain, c.expirationDate, c.httpOnly, c.name, c.path,
      c.sameSite, c.secure, c.storeId, WriteUrl(c.domain), Affirmed(c.value)))
  }

  /** The writes issued for the cookies the lookup returned, in their order. */
  function Writes(found: seq<Cookie>): seq<SetDetails>
  {
    Defined(found, RewriteFor)
  }

  /** The cookie that a successful `chrome.cookies.set` stores for a write. */
  function StoredCookie(w: SetDetails): Cookie
  {
    Cookie(w.domain, w.expirationDate, w.httpOnly, w.name, w.path,
           w.sameSite, w.secure, w.storeId, w.value)
  }

  /** The cookies that the writes `ws` store, in order. */
  function StoredCookies(ws: seq<SetDetails>): seq<Cookie>
  {
    seq(|ws|, i requires 0 <= i < |ws| => StoredCookie(ws[i]))
  }

  /** The write url is the scheme followed by a host that never starts with a
      dot, that the domain ends with, preceded in the domain only by dots; a
      domain without a leading dot is kept as it is. */
  lemma WriteUrlHost(domain: string)
    ensures WriteUrl(domain)[..|Scheme|] == Scheme
    ensures var host := WriteUrl(domain)[|Scheme|..];
      (host == [] || host[0] != '.') &&
      host == domain[|domain| - |host|..] &&
      (forall i :: 0 <= i < |domain| - |host| ==> domain[i] == '.') &&
      (domain == [] || domain[0] != '.' ==> host == domain)
  {
    assert WriteUrl(domain)[|Scheme|..] == StripLeadingDots(domain);
  }

  /** A cookie whose flag is exactly "YES" yields no write; every other cookie
      yields one write whose value is the affirmed value. */
  lemma RewriteDecision(c: Cookie)
    ensures RewriteFor(c).None? <==> Fields(c.value)[0] == "YES"
    ensures RewriteFor(c).Some? ==> RewriteFor(c).value.value == Affirmed(c.value)
  {
  }

  /** The write copies every attribute but `value` and `url`: it never widens or
      narrows the cookie's scope or security flags; its value keeps every field
      but the flag, which it sets. */
  lemma RewritePreservesAttributes(c: Cookie)
    requires RewriteFor(c).Some?
    ensures var w := RewriteFor(c).value;
      w.domain == c.domain && w.expirationDate == c.expirationDate &&
      w.httpOnly == c.httpOnly && w.name == c.name && w.path == c.path &&
      w.sameSite == c.sameSite && w.secure == c.secure && w.storeId == c.storeId &&
      w.url == WriteUrl(c.domain) &&
      |Fields(w.value)| == |Fields(c.value)| &&
      Fields(w.value)[0] == Affirmative &&
      Fields(w.value)[1..] == Fields(c.value)[1..]
  {
    AffirmedFields(c.value);
  }

  /** The cookie a write stores is affirmative, so the rewrite, run again on it,
      issues no write. */
  lemma RewriteThenNothing(c: Cookie)
    requires RewriteFor(c).Some?
    ensures IsAffirmative(StoredCookie(RewriteFor(c).value).value)
    ensures RewriteFor(StoredCookie(RewriteFor(c).value)).None?
  {
    AffirmedFields(c.value);
  }

  /** Nothing is written iff every cookie of the lookup is affirmative, and
      never more writes than cookies. */
  lemma WritesNone(found: seq<Cookie>)
    ensures |Writes(found)| <= |found|
    ensures Writes(found) == [] <==> forall i :: 0 <= i < |found| ==> IsAffirmative(found[i].value)
  {
    DefinedExactly(found, RewriteFor);
  }

  /** Exactly the non-affirmative cookies are written: each non-affirmative
      cookie's rewrite is in the list, and each write is the rewrite of a cookie
      of the lookup. */
  lemma WritesExactly(found: seq<Cookie>)
    ensures forall i :: 0 <= i < |found| && !IsAffirmative(found[i].value) ==>
      RewriteFor(found[i]).value in Writes(found)
    ensures forall w :: w in Writes(found) ==>
      exists i :: 0 <= i < |found| && RewriteFor(found[i]) == Some(w)
  {
    DefinedExactly(found, RewriteFor);
  }

  /** Every write sets an affirmative value. */
  lemma WritesAffirmative(found: seq<Cookie>)
    ensures forall w :: w in Writes(found) ==> IsAffirmative(w.value)
  {
    forall w | w in Writes(found) ensures IsAffirmative(w.value) {
      DefinedExactly(found, RewriteFor);
      var i :| 0 <= i < |found| && RewriteFor(found[i]) == Some(w);
      RewriteThenNothing(found[i]);
    }
  }

  /** Feeding back what was written: the rewrite of the cookies the writes store
      issues nothing. */
  lemma SecondPassWritesNothing(found: seq<Cookie>)
    ensures Writes(StoredCookies(Writes(found))) == []
  {
    var stored := StoredCookies(Writes(found));
    WritesAffirmative(found);
    forall i | 0 <= i < |stored| ensures RewriteFor(stored[i]).None? {
      assert Writes(found)[i] in Writes(found);
    }
    DefinedExactly(stored, RewriteFor);
  }

  /** Cookies are identified within the jar by store, domain, name and path. */
  datatype CookieKey = CookieKey(storeId: string, domain: string, name: string, path: string)

  function KeyOf(w: SetDetails): CookieKey
  {
    CookieKey(w.storeId, w.domain, w.name, w.path)
  }

  /** The jar after the writes `ws` have succeeded one after the other. */
  function Applied(jar: map<CookieKey, Cookie>, ws: seq<SetDetails>): map<CookieKey, Cookie>
  {
    if ws == [] then jar
    else
      var last := ws[|ws| - 1];
      Applied(jar, ws[..|ws| - 1])[KeyOf(last) := StoredCookie(last)]
  }

  /** The keys the writes `ws` address. */
  function WrittenKeys(ws: seq<SetDetails>): set<CookieKey>
  {
    set i | 0 <= i < |ws| :: KeyOf(ws[i])
  }

  /** One more write adds its key to the written keys. */
  lemma WrittenKeysStep(ws: seq<SetDetails>, w: SetDetails)
    ensures WrittenKeys(ws + [w]) == WrittenKeys(ws) + {KeyOf(w)}
  {
    var all := ws + [w];
    forall k | k in WrittenKeys(all) ensures k in WrittenKeys(ws) + {KeyOf(w)} {
      var i :| 0 <= i < |all| && k == KeyOf(all[i]);
      if i < |ws| {
        assert all[i] == ws[i];
      }
    }
    forall k | k in WrittenKeys(ws) ensures k in WrittenKeys(all) {
      var i :| 0 <= i < |ws| && k == KeyOf(ws[i]);
      assert all[i] == ws[i];
    }
    assert all[|ws|] == w;
  }

  /** After affirmative writes the jar holds every key it held and every key
      written; each written key holds an affirmative cookie, and every other key
      is untouched. */
  lemma {:induction false} AppliedSettles(jar: map<CookieKey, Cookie>, ws: seq<SetDetails>)
    requires forall i :: 0 <= i < |ws| ==> IsAffirmative(ws[i].value)
    ensures Applied(jar, ws).Keys == jar.Keys + WrittenKeys(ws)
    ensures forall k :: k in WrittenKeys(ws) ==> IsAffirmative(Applied(jar, ws)[k].value)
    ensures forall k :: k in jar.Keys - WrittenKeys(ws) ==> Applied(jar, ws)[k] == jar[k]
    decreases |ws|
  {
    if ws != [] {
      var init := ws[..|ws| - 1];
      var last := ws[|ws| - 1];
      forall i | 0 <= i < |init| ensures IsAffirmative(init[i].value) {
        assert init[i] == ws[i];
      }
      AppliedSettles(jar, init);
      WrittenKeysStep(init, last);
      assert ws == init + [last];
      assert IsAffirmative(StoredCookie(last).value);
    }
  }

  /** After the writes for a lookup the jar holds every key it held and every
      key written, each written key holds an affirmative cookie, and every other
      key is untouched. */
  lemma WritesSettle(jar: map<CookieKey, Cookie>, found: seq<Cookie>)
    ensures var after := Applied(jar, Writes(found));
      after.Keys == jar.Keys + WrittenKeys(Writes(found)) &&
      (forall k :: k in WrittenKeys(Writes(found)) ==> IsAffirmative(after[k].value)) &&
      (forall k :: k in jar.Keys - WrittenKeys(Writes(found)) ==> after[k] == jar[k])
  {
    var ws := Writes(found);
    WritesAffirmative(found);
    forall i | 0 <= i < |ws| ensures IsAffirmative(ws[i].value) {
      assert ws[i] in ws;
    }
    AppliedSettles(jar, ws);
  }

  /** One more cookie of the lookup adds its rewrite, if any, at the end of the
      writes. */
  lemma WritesStep(found: seq<Cookie>, n: nat)
    requires n < |found|
    ensures RewriteFor(found[n]).None? ==> Writes(found[..n + 1]) == Writes(found[..n])
    ensures RewriteFor(found[n]).Some? ==>
      Writes(found[..n + 1]) == Writes(found[..n]) + [RewriteFor(found[n]).value]
  {
    assert found[..n + 1] == found[..n] + [found[n]];
    DefinedSnoc(found[..n], found[n], RewriteFor);
  }

  /** One more write lands on top of the jar the earlier ones left. */
  lemma AppliedStep(jar: map<CookieKey, Cookie>, ws: seq<SetDetails>, w: SetDetails)
    ensures Applied(jar, ws + [w]) == Applied(jar, ws)[KeyOf(w) := StoredCookie(w)]
  {
    assert (ws + [w])[..|ws|] == ws;
  }

  /** The cookie service's store: one jar of cookies shared by every store id. */
  class CookieJar {
    var cookies: map<CookieKey, Cookie>

    constructor (initial: map<CookieKey, Cookie>)
      ensures cookies == initial
    {
      cookies := initial;
    }

    /** `chrome.cookies.set`, taken to succeed: the cookie is stored under its key. */
    method Set(w: SetDetails)
      modifies this
      ensures cookies == old(cookies)[KeyOf(w) := StoredCookie(w)]
    {
      cookies := cookies[KeyOf(w) := StoredCookie(w)];
    }

    /** `setConsentToYes` over the cookies the `CONSENT` lookup returned: each one
        whose flag is not "YES" gets its flag overwritten and is written back.
        Returns the writes issued, in order. */
    method SetConsentToYes(found: seq<Cookie>) returns (issued: seq<SetDetails>)
      modifies this
      ensures issued == Writes(found)
      ensures cookies == Applied(old(cookies), issued)
      ensures forall k :: k in WrittenKeys(issued) ==> k in cookies && IsAffirmative(cookies[k].value)
      ensures forall k :: k in old(cookies) && k !in WrittenKeys(issued) ==>
        k in cookies && cookies[k] == old(cookies)[k]
    {
      issued := [];
      for n := 0 to |found|
        invariant issued == Writes(found[..n])
        invariant cookies == Applied(old(cookies), issued)
      {
        var cookie := found[n];
        var consentData := Split(cookie.value, FieldSeparator);
        WritesStep(found, n);
        if consentData[0] != Affirmative {
          consentData := consentData[0 := Affirmative];
          var w := SetDetails(
            cookie.domain, cookie.expirationDate, cookie.httpOnly, cookie.name,
            cookie.path, cookie.sameSite, cookie.secure, cookie.storeId,
            WriteUrl(cookie.domain), Join(consentData, FieldSeparator));
          AppliedStep(old(cookies), issued, w);
          Set(w);
          issued := issued + [w];
        }
      }
      assert found[..|found|] == found;
      WritesSettle(old(cookies), found);
    }
  }
}
