/**
 * Locale negotiation of `lib/locale.ts`, as a pure function of the `locale`
 * cookie and the `Accept-Language` request header (both possibly absent).
 *
 * It is a much simplified reading of the Accept-Language field of section
 * 12.5.4 of RFC 9110: only the first list element counts, only its primary
 * subtag (section 2.2.1 of RFC 5646) is kept, quality values are not removed,
 * and tags are compared case-sensitively.
 */
module Locale {
  import opened Common

  /** The locales the negotiation accepts, in the order the source lists them. */
  const Supported: seq<string> := ["en", "fr", "bn"]

  const Fallback: string := "en"

  /** The locales the i18n configuration declares (`next-i18next.config.ts`). */
  const Configured: seq<string> := ["en", "bn"]

  /**
   * `accept?.split(",")[0]?.split("-")[0]`: the header up to its first `,`
   * or `-`, whichever comes first.
   */
  function BrowserLang(accept: Option<string>): (r: Option<string>)
    ensures accept.None? <==> r.None?
    ensures r.Some? ==>
      && r.value <= accept.value
      && ',' !in r.value && '-' !in r.value
      && (r.value == accept.value || accept.value[|r.value|] == ',' || accept.value[|r.value|] == '-')
  {
    match accept
    case None => None
    case Some(h) => Some(PrefixBefore(PrefixBefore(h, ','), '-'))
  }

  /** `getLocale()`. */
  function GetLocale(cookie: Option<string>, accept: Option<string>): (r: string)
    ensures r in Supported
    // A supported cookie wins whatever the header says.
    ensures cookie.Some? && cookie.value in Supported ==> r == cookie.value
    // Otherwise a supported header prefix is taken.
    ensures !(cookie.Some? && cookie.value in Supported) && BrowserLang(accept).Some? && BrowserLang(accept).value in Supported ==>
      r == BrowserLang(accept).value
    // With neither, the answer is "en".
    ensures !(cookie.Some? && cookie.value in Supported) && !(BrowserLang(accept).Some? && BrowserLang(accept).value in Supported) ==>
      r == Fallback
  {
    if Truthy(cookie) && cookie.value in Supported then
      cookie.value
    else
      var lang := BrowserLang(accept);
      if Truthy(lang) && lang.value in Supported then lang.value
      else Fallback
  }

  lemma {:induction false} PrefixBeforeStopsAtSeparator(a: string, c: char, rest: string)
    requires c !in a
    ensures PrefixBefore(a + [c] + rest, c) == a
    decreases |a|
  {
    if |a| > 0 {
      assert (a + [c] + rest)[1..] == a[1..] + [c] + rest;
      PrefixBeforeStopsAtSeparator(a[1..], c, rest);
    }
  }

  lemma {:induction false} PrefixBeforeWhole(a: string, c: char)
    requires c !in a
    ensures PrefixBefore(a, c) == a
    decreases |a|
  {
    if |a| > 0 {
      PrefixBeforeWhole(a[1..], c);
    }
  }

  /**
   * Storing the negotiated locale in the cookie is stable: the next request
   * negotiates the same locale, whatever its header says.
   */
  lemma StoredLocaleIsKept(cookie: Option<string>, accept: Option<string>, nextAccept: Option<string>)
    ensures GetLocale(Some(GetLocale(cookie, accept)), nextAccept) == GetLocale(cookie, accept)
  {
  }

  /** Only the first element of the header list is looked at. */
  lemma OnlyFirstListElement(cookie: Option<string>, first: string, rest: string)
    requires ',' !in first
    ensures GetLocale(cookie, Some(first + "," + rest)) == GetLocale(cookie, Some(first))
  {
    PrefixBeforeStopsAtSeparator(first, ',', rest);
    PrefixBeforeWhole(first, ',');
  }

  /** Region subtags are dropped: `xx-YY` negotiates like `xx`. */
  lemma RegionSubtagIgnored(cookie: Option<string>, lang: string, region: string)
    requires ',' !in lang && '-' !in lang && ',' !in region
    ensures GetLocale(cookie, Some(lang + "-" + region)) == GetLocale(cookie, Some(lang))
  {
    PrefixBeforeWhole(lang + "-" + region, ',');
    PrefixBeforeStopsAtSeparator(lang, '-', region);
    PrefixBeforeWhole(lang, ',');
    PrefixBeforeWhole(lang, '-');
  }

  /** A supported primary subtag with a region is taken from the first element. */
  lemma ExampleRegionAndList()
    ensures GetLocale(None, Some("fr-CA,en;q=0.8")) == "fr"
  {
    assert "fr-CA,en;q=0.8" == "fr-CA" + "," + "en;q=0.8";
    OnlyFirstListElement(None, "fr-CA", "en;q=0.8");
    assert "fr-CA" == "fr" + "-" + "CA";
    RegionSubtagIgnored(None, "fr", "CA");
    PrefixBeforeWhole("fr", ',');
    PrefixBeforeWhole("fr", '-');
  }

  /** A supported locale in a later list element is not seen. */
  lemma ExampleLaterElementIgnored()
    ensures GetLocale(None, Some("de,fr")) == "en"
  {
    assert "de,fr" == "de" + "," + "fr";
    OnlyFirstListElement(None, "de", "fr");
    PrefixBeforeWhole("de", ',');
    PrefixBeforeWhole("de", '-');
  }

  /** A quality value stays attached to the tag, which then matches nothing. */
  lemma ExampleQualityValueKept()
    ensures GetLocale(None, Some("fr;q=0.9")) == "en"
  {
    PrefixBeforeWhole("fr;q=0.9", ',');
    PrefixBeforeWhole("fr;q=0.9", '-');
  }

  /** Tags are compared case-sensitively, in the header and in the cookie. */
  lemma ExampleCaseSensitive()
    ensures GetLocale(None, Some("FR-CA")) == "en"
    ensures GetLocale(Some("FR"), Some("bn")) == "bn"
  {
    assert "FR-CA" == "FR" + "-" + "CA";
    RegionSubtagIgnored(None, "FR", "CA");
    PrefixBeforeWhole("FR", ',');
    PrefixBeforeWhole("FR", '-');
    PrefixBeforeWhole("bn", ',');
    PrefixBeforeWhole("bn", '-');
  }

  /** The negotiation can settle on "fr", which the i18n configuration does not declare. */
  lemma NegotiatesUnconfiguredLocale()
    ensures GetLocale(Some("fr"), None) == "fr"
    ensures "fr" !in Configured
  {
  }
}
