/** The request handler on concrete consent-page requests.
    The primary-domain examples state their literals directly. The decoding and
    query examples take each literal as an argument pinned by a precondition:
    stated on the literals themselves, Dafny unfolds `PercentDecode` and `Split`
    character by character over the encoded URL, which is too costly, so these
    proofs go through the general lemmas instead. */
module ExampleRequests {
  import opened Wrappers
  import opened Text
  import opened Cookies
  import opened StoreLocator
  import opened QueryParams
  import opened PercentDecoding
  import opened RequestInterceptor

  /** The consent page of youtube.com rewrites cookies of youtube.com. */
  lemma YoutubePrimaryDomain()
    ensures PrimaryDomain("consent.youtube.com") == "youtube.com"
  {
    var hostname := "consent.youtube.com";
    var sub, name, tld := "consent", "youtube", "com";
    assert hostname == sub + "." + name + "." + tld;
    assert name + "." + tld == "youtube.com";
    PrimaryDomainOfLabels(sub, name, tld);
  }

  /** The consent page of google.com rewrites cookies of google.com. */
  lemma GooglePrimaryDomain()
    ensures PrimaryDomain("consent.google.com") == "google.com"
  {
    var hostname := "consent.google.com";
    var sub, name, tld := "consent", "google", "com";
    assert hostname == sub + "." + name + "." + tld;
    assert name + "." + tld == "google.com";
    PrimaryDomainOfLabels(sub, name, tld);
  }

  /** Only the last two labels are kept, also under a two-part public suffix. */
  lemma TwoPartSuffix()
    ensures PrimaryDomain("consent.google.co.uk") == "co.uk"
  {
    var hostname := "consent.google.co.uk";
    var sub, name, tld := "consent.google", "co", "uk";
    assert hostname == sub + "." + name + "." + tld;
    assert name + "." + tld == "co.uk";
    PrimaryDomainOfLabels(sub, name, tld);
  }

  /** A "%XY" escape of an ASCII character decodes to it, in front of anything. */
  lemma EscapeDecodes(escape: string, x: char, y: char, c: char, rest: string)
    requires escape == ['%', x, y]
    requires IsHexDigit(x) && IsHexDigit(y) && HexValue(x) * 16 + HexValue(y) == c as int < 0x80
    ensures PercentDecode(escape + rest) == Prepend(c, PercentDecode(rest))
  {
    DecodeEscape(x, y, rest);
  }

  /** Escapes may use lower-case hex digits: "%2f" decodes to '/' as "%2F" does. */
  lemma LowerCaseEscapeDecodes()
    ensures PercentDecode("%2f") == Some("/")
  {
    HexValueIgnoresCase('f');
    assert HexValue('2') * 16 + HexValue('f') == '/' as int;
    DecodeEscape('2', 'f', []);
    assert ['%', '2', 'f'] + [] == "%2f";
    assert PercentDecode([]) == Some([]);
    assert ['/'] + [] == "/";
  }

  /** "https" ":" "//" "www.google.com" "/" "search", with ':' and '/' escaped. */
  lemma SearchUrlDecodes(https: string, colon: string, slash: string, www: string, search: string)
    requires https == "https" && www == "www.google.com" && search == "search"
    requires colon == "%3A" && slash == "%2F"
    ensures PercentDecode(https + (colon + (slash + (slash + (www + (slash + search)))))) ==
      Some(https + (":" + ("/" + ("/" + (www + ("/" + search))))))
  {
    assert HexValue('3') == 3 && HexValue('A') == 10 && HexValue('2') == 2 && HexValue('F') == 15;
    DecodeWithoutPercent(search);
    EscapeDecodes(slash, '2', 'F', '/', search);
    DecodePlainPrefix(www, slash + search);
    EscapeDecodes(slash, '2', 'F', '/', www + (slash + search));
    EscapeDecodes(slash, '2', 'F', '/', slash + (www + (slash + search)));
    EscapeDecodes(colon, '3', 'A', ':', slash + (slash + (www + (slash + search))));
    DecodePlainPrefix(https, colon + (slash + (slash + (www + (slash + search)))));
  }

  /** The encoded search URL, cut at its escapes. This lemma and the three
      other facts about literals below (SearchUrlPieces, GoogleQueryText,
      EncodedSearchUrlHasNoSeparators) only keep each literal comparison in a
      proof of its own, so that the examples that use them stay cheap. */
  lemma EncodedSearchUrlPieces(raw: string, https: string, colon: string, slash: string,
                               www: string, search: string)
    requires raw == "https%3A%2F%2Fwww.google.com%2Fsearch"
    requires https == "https" && www == "www.google.com" && search == "search"
    requires colon == "%3A" && slash == "%2F"
    ensures raw == https + (colon + (slash + (slash + (www + (slash + search)))))
  {
  }

  /** The decoded search URL, cut where the escapes were (a literal fact, kept
      apart for cost). */
  lemma SearchUrlPieces(target: string, https: string, www: string, search: string)
    requires target == "https://www.google.com/search"
    requires https == "https" && www == "www.google.com" && search == "search"
    ensures target == https + (":" + ("/" + ("/" + (www + ("/" + search)))))
  {
  }

  /** decodeURIComponent("https%3A%2F%2Fwww.google.com%2Fsearch"). */
  lemma GoogleContinueDecodes(raw: string, target: string)
    requires raw == "https%3A%2F%2Fwww.google.com%2Fsearch"
    requires target == "https://www.google.com/search"
    ensures PercentDecode(raw) == Some(target)
  {
    var https := "https";
    var colon := "%3A";
    var slash := "%2F";
    var www := "www.google.com";
    var search := "search";
    EncodedSearchUrlPieces(raw, https, colon, slash, www, search);
    SearchUrlPieces(target, https, www, search);
    SearchUrlDecodes(https, colon, slash, www, search);
  }

  /** `pc=p` is not a `continue` pair. */
  lemma OtherPair(rest: string)
    requires rest == "pc=p"
    ensures '&' !in rest && !HasPairWithKey(Split(rest, '&'), ContinueKey)
  {
    SplitWithoutSeparator(rest, '&');
    SplitAfterPiece("pc", "p", '=');
    assert rest == "pc" + ['='] + "p";
  }

  /** `?continue=https%3A%2F%2Fwww.google.com%2Fsearch&pc=p` on
      consent.google.com, in a tab of store "0", redirects to
      https://www.google.com/search and rewrites the cookies of google.com in
      store "0". The query is given as its parts. */
  lemma GoogleRedirectExample(details: RequestDetails, stores: seq<CookieStore>, raw: string, rest: string,
                              target: string)
    requires raw == "https%3A%2F%2Fwww.google.com%2Fsearch" && rest == "pc=p"
    requires details == RequestDetails("consent.google.com", "?" + ContinueKey + "=" + raw + "&" + rest, 1)
    requires stores == [CookieStore("0", [1])]
    requires target == "https://www.google.com/search"
    ensures SkipConsentPage(details, stores) ==
      Handled(Redirect(target), Some(RewriteCall("google.com", "0")))
  {
    GoogleQuery(details.search, raw, rest);
    GoogleContinueDecodes(raw, target);
    assert HoldingTab(details.tabId)(stores[0]);
    assert FindCookieStore(stores, HoldingTab(details.tabId)) == Some(stores[0]);
    GooglePrimaryDomain();
    RedirectWhenContinueDecodes(details, stores, raw, target, stores[0]);
  }

  /** `search.slice(1)` drops the leading '?' (a literal fact, kept apart for cost). */
  lemma GoogleQueryText(search: string, raw: string, rest: string)
    requires raw == "https%3A%2F%2Fwww.google.com%2Fsearch" && rest == "pc=p"
    requires search == "?" + ContinueKey + "=" + raw + "&" + rest
    ensures QueryOf(search) == ContinueKey + "=" + raw + "&" + rest
  {
    assert search == "?" + (ContinueKey + "=" + raw + "&" + rest);
  }

  /** The encoded URL is a single non-empty query value (a literal fact, kept
      apart for cost). */
  lemma EncodedSearchUrlHasNoSeparators(raw: string)
    requires raw == "https%3A%2F%2Fwww.google.com%2Fsearch"
    ensures raw != [] && '&' !in raw && '=' !in raw
  {
  }

  /** The query's `continue` parameter is the encoded search URL. */
  lemma GoogleQuery(search: string, raw: string, rest: string)
    requires raw == "https%3A%2F%2Fwww.google.com%2Fsearch" && rest == "pc=p"
    requires search == "?" + ContinueKey + "=" + raw + "&" + rest
    ensures ContinueParam(GetParamsToObject(QueryOf(search))) == Some(raw)
  {
    GoogleQueryText(search, raw, rest);
    EncodedSearchUrlHasNoSeparators(raw);
    OtherPair(rest);
    FirstPairValue(ContinueKey, raw, rest);
    var params := GetParamsToObject(QueryOf(search));
    assert ContinueKey in params && params[ContinueKey] == Some(raw);
    assert ContinueParam(params) == Some(raw);
  }

  /** A consent page reached without `continue` is let through and nothing is
      rewritten: `?pc=m` on consent.youtube.com. */
  lemma NoContinueExample(details: RequestDetails, stores: seq<CookieStore>)
    requires details == RequestDetails("consent.youtube.com", "?pc=m", 1)
    ensures SkipConsentPage(details, stores) == Handled(PassThrough, None)
  {
    var query := QueryOf(details.search);
    assert query == "pc" + ['='] + "m";
    SplitWithoutSeparator(query, '&');
    SplitAfterPiece("pc", "m", '=');
    ParamsLastWins(query, ContinueKey);
    assert !HasPairWithKey(Split(query, '&'), ContinueKey);
  }
}
