/** `skipConsentPage` (background.js:61-79): the answer to a consent-page
    response, and the cookie rewrite it starts without waiting for it. */
module RequestInterceptor {
  import opened Wrappers
  import opened Text
  import opened Cookies
  import opened StoreLocator
  import opened QueryParams
  import opened PercentDecoding

  /** What the handler reads of `details`: the parsed URL's `hostname` and
      `search` (with its leading '?', or empty), and the tab of the request. */
  datatype RequestDetails = RequestDetails(hostname: string, search: string, tabId: int)

  /** The blocking response: `{}` lets the response through, `{redirectUrl}`
      redirects the request. */
  datatype Directive = PassThrough | Redirect(redirectUrl: string)

  /** The handler's outcome: it throws (a malformed escape in `continue` makes
      `decodeURIComponent` throw, and nothing catches it), or it returns a
      directive, having started at most one `setConsentToYes` call. */
  datatype Interception = Threw | Handled(directive: Directive, rewrite: Option<RewriteCall>)

  const ContinueKey := "continue"

  /** `requestUrl.search.slice(1)`. */
  function QueryOf(search: string): (query: string)
    ensures search == [] ==> query == []
    ensures search != [] ==> [search[0]] + query == search
  {
    if |search| >= 1 then search[1..] else search
  }

  /** `getParams.continue` when it is truthy: present, defined and non-empty. */
  function ContinueParam(params: Params): (r: Option<string>)
    ensures r.Some? ==> r.value != "" && ContinueKey in params && params[ContinueKey] == Some(r.value)
    ensures r.None? ==> ContinueKey !in params || params[ContinueKey] == None || params[ContinueKey] == Some("")
  {
    if ContinueKey in params && params[ContinueKey].Some? && params[ContinueKey].value != "" then
      Some(params[ContinueKey].value)
    else None
  }

  /** `labels.slice(-2)`: the last two elements, or all of them when fewer. */
  function LastTwo(labels: seq<string>): (r: seq<string>)
    ensures |r| == if |labels| < 2 then |labels| else 2
    ensures r == labels[|labels| - |r|..]
  {
    if |labels| <= 2 then labels else labels[|labels| - 2..]
  }

  /** `hostname.split(".").slice(-2).join(".")`. */
  function PrimaryDomain(hostname: string): string
  {
    Join(LastTwo(Split(hostname, '.')), '.')
  }

  function SkipConsentPage(details: RequestDetails, stores: seq<CookieStore>): Interception
  {
    var params := GetParamsToObject(QueryOf(details.search));
    match ContinueParam(params)
    case None => Handled(PassThrough, None)
    case Some(raw) =>
      match PercentDecode(raw)
      case None => Threw
      case Some(continueUrl) =>
        if continueUrl == "" then Handled(PassThrough, None)
        else
          var rewrite :=
            match FindCookieStore(stores, HoldingTab(details.tabId))
            case None => None
            case Some(store) => Some(RewriteCall(PrimaryDomain(details.hostname), store.id));
          Handled(Redirect(continueUrl), rewrite)
  }

  /** At most one dot. */
  predicate AtMostOneDot(s: string)
  {
    forall i, j :: 0 <= i < j < |s| && s[i] == '.' ==> s[j] != '.'
  }

  lemma TwoLabels(a: string, b: string)
    requires '.' !in a && '.' !in b
    ensures AtMostOneDot(a + "." + b) && '.' in a + "." + b
  {
    var r := a + "." + b;
    assert r[|a|] == '.';
    forall i | 0 <= i < |r| && i != |a| ensures r[i] != '.' {
      if i < |a| {
        assert r[i] == a[i];
      } else if i > |a| {
        assert r[i] == b[i - |a| - 1];
      }
    }
  }

  /** The primary domain is the suffix of the hostname made of its last two
      labels: it starts at the hostname's start or right after a dot, it holds
      at most one dot, and it holds one whenever the hostname does; a hostname
      without dots is its own primary domain. */
  lemma PrimaryDomainIsLastTwoLabels(hostname: string)
    ensures var r := PrimaryDomain(hostname);
      |r| <= |hostname| && r == hostname[|hostname| - |r|..] &&
      (|r| == |hostname| || hostname[|hostname| - |r| - 1] == '.') &&
      AtMostOneDot(r) &&
      ('.' in hostname ==> '.' in r) &&
      ('.' !in hostname ==> r == hostname)
  {
    var labels := Split(hostname, '.');
    JoinSplit(hostname, '.');
    var r := PrimaryDomain(hostname);
    if |labels| == 1 {
      assert r == labels[0] == hostname;
    } else {
      LastTwoJoined(labels);
      var k := |labels| - 2;
      TwoLabels(labels[k], labels[k + 1]);
    }
    if '.' !in hostname {
      SplitWithoutSeparator(hostname, '.');
    }
  }

  /** The join of the last two of at least two pieces is those two pieces
      around one separator, and it ends the join of all of them, right after a
      separator when there are more. */
  lemma LastTwoJoined(labels: seq<string>)
    requires |labels| >= 2
    ensures var k := |labels| - 2;
      var r := Join(LastTwo(labels), '.');
      r == labels[k] + "." + labels[k + 1] &&
      (k == 0 ==> Join(labels, '.') == r) &&
      (k > 0 ==> Join(labels, '.') == Join(labels[..k], '.') + "." + r)
  {
    var k := |labels| - 2;
    var last := LastTwo(labels);
    assert last == labels[k..];
    assert last[1..] == [labels[k + 1]];
    if k > 0 {
      JoinAt(labels, '.', k);
    }
  }

  /** The handler's decision. Without a truthy `continue` it returns `{}` and
      starts nothing; with one that fails to decode it throws; otherwise it
      redirects to the decoded value, never empty, and starts a rewrite of the
      primary domain in the first store that holds the tab, if there is one. */
  lemma SkipDecision(details: RequestDetails, stores: seq<CookieStore>)
    ensures var params := GetParamsToObject(QueryOf(details.search));
      var r := SkipConsentPage(details, stores);
      (ContinueParam(params).None? <==> r == Handled(PassThrough, None)) &&
      (r == Threw <==> ContinueParam(params).Some? && PercentDecode(ContinueParam(params).value).None?) &&
      (r.Handled? && r.directive.Redirect? <==>
         ContinueParam(params).Some? && PercentDecode(ContinueParam(params).value).Some?) &&
      (r.Handled? && r.directive.Redirect? ==>
         r.directive.redirectUrl == PercentDecode(ContinueParam(params).value).value &&
         r.directive.redirectUrl != "" &&
         (r.rewrite.Some? <==> exists i :: 0 <= i < |stores| && details.tabId in stores[i].tabIds) &&
         (r.rewrite.Some? ==>
            r.rewrite.value.domain == PrimaryDomain(details.hostname) &&
            r.rewrite.value.storeId == FindCookieStore(stores, HoldingTab(details.tabId)).value.id))
  {
    var params := GetParamsToObject(QueryOf(details.search));
    if ContinueParam(params).Some? && PercentDecode(ContinueParam(params).value).Some? {
      DecodeLength(ContinueParam(params).value);
      var found := FindCookieStore(stores, HoldingTab(details.tabId));
      if found.None? {
        forall i | 0 <= i < |stores| ensures details.tabId !in stores[i].tabIds {
          assert !HoldingTab(details.tabId)(stores[i]);
        }
      } else {
        var i :| 0 <= i < |stores| && stores[i] == found.value && HoldingTab(details.tabId)(stores[i]);
      }
    }
  }

  /** Only the last two labels count: whatever precedes them, `prefix.b.c` has
      the primary domain `b.c`. So `x.google.co.uk` gives `co.uk`: the
      two-label rule does not recognise two-part public suffixes. */
  lemma PrimaryDomainOfLabels(prefix: string, b: string, c: string)
    requires '.' !in b && '.' !in c
    ensures PrimaryDomain(prefix + "." + b + "." + c) == b + "." + c
  {
    SplitConcat(prefix, b + "." + c, '.');
    assert prefix + "." + b + "." + c == prefix + ['.'] + (b + "." + c);
    SplitAfterPiece(b, c, '.');
    assert b + "." + c == b + ['.'] + c;
    SplitWithoutSeparator(c, '.');
    var labels := Split(prefix + "." + b + "." + c, '.');
    assert labels == Split(prefix, '.') + [b, c];
    assert LastTwo(labels) == [b, c];
    assert [b, c][1..] == [c];
    assert Join([b, c], '.') == b + ['.'] + c;
  }

  /** When the `continue` parameter decodes and the tab's store is found, the
      handler redirects to the decoded value and rewrites the primary domain in
      that store. */
  lemma RedirectWhenContinueDecodes(details: RequestDetails, stores: seq<CookieStore>, raw: string,
                                    target: string, store: CookieStore)
    requires ContinueParam(GetParamsToObject(QueryOf(details.search))) == Some(raw)
    requires PercentDecode(raw) == Some(target)
    requires FindCookieStore(stores, HoldingTab(details.tabId)) == Some(store)
    ensures SkipConsentPage(details, stores) ==
      Handled(Redirect(target), Some(RewriteCall(PrimaryDomain(details.hostname), store.id)))
  {
    DecodeLength(raw);
  }
}
