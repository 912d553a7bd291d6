/** `onCookieChanged` (background.js:54-59): which cookie-change notifications
    start a rewrite, and why the rewrite's own writes do not start another. */
module ChangeObserver {
  import opened Wrappers
  import opened ConsentCodec
  import opened Cookies
  import opened StoreLocator

  /** `chrome.cookies.OnChangedCause`. */
  datatype Cause = Evicted | Expired | Explicit | ExpiredOverwrite | Overwrite

  /** The `{cause, cookie, removed}` record of a change notification. */
  datatype ChangeEvent = ChangeEvent(cause: Cause, cookie: Cookie, removed: bool)

  /** The rewrite the handler starts, if any: a `CONSENT` cookie that was set
      (not removed) leads to `setConsentToYes(cookie.domain, store.id)` for the
      first store whose id is the cookie's store id. With no such store the
      `.then` callback fails on `store.id` and nothing is rewritten. */
  function OnCookieChanged(e: ChangeEvent, stores: seq<CookieStore>): Option<RewriteCall>
  {
    if e.cookie.name == ConsentCookieName && !e.removed then
      match FindCookieStore(stores, ById(e.cookie.storeId))
      case None => None
      case Some(store) => Some(RewriteCall(e.cookie.domain, store.id))
    else None
  }

  /** A notification starts a rewrite exactly when it reports a `CONSENT`
      cookie that was not removed and whose store is listed; the rewrite is
      for the cookie's own domain and store. Removals and other cookies start
      nothing. */
  lemma ChangeFilter(e: ChangeEvent, stores: seq<CookieStore>)
    ensures OnCookieChanged(e, stores).Some? <==>
      e.cookie.name == "CONSENT" && !e.removed &&
      exists i :: 0 <= i < |stores| && stores[i].id == e.cookie.storeId
    ensures OnCookieChanged(e, stores).Some? ==>
      OnCookieChanged(e, stores).value == RewriteCall(e.cookie.domain, e.cookie.storeId)
  {
    FindById(stores, e.cookie.storeId);
  }

  /** The feedback loop ends. A rewrite's write stores a cookie of the same
      name, domain and store whose flag is "YES"; its change notification may
      start one more rewrite for that domain and store, but that rewrite issues
      no write for the stored cookie, so it causes no further notification.
      This rests on the write landing on the original cookie's key (store,
      domain, name, path), as `CookieJar.Set` models it. That is Chrome's
      `cookies.set`, not background.js: because the write passes `domain`, Chrome
      stores a domain cookie, so a host-only `CONSENT` cookie would be shadowed
      rather than overwritten, and a later pass could rewrite it again. */
  lemma FeedbackLoopEnds(c: Cookie, cause: Cause, stores: seq<CookieStore>)
    requires RewriteFor(c).Some?
    ensures var stored := StoredCookie(RewriteFor(c).value);
      stored.name == c.name && stored.domain == c.domain && stored.storeId == c.storeId &&
      (OnCookieChanged(ChangeEvent(cause, stored, false), stores).Some? ==>
         OnCookieChanged(ChangeEvent(cause, stored, false), stores).value == RewriteCall(c.domain, c.storeId)) &&
      RewriteFor(stored).None?
  {
    var stored := StoredCookie(RewriteFor(c).value);
    RewritePreservesAttributes(c);
    ChangeFilter(ChangeEvent(cause, stored, false), stores);
    RewriteThenNothing(c);
  }
}
