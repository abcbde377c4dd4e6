/** The three pure predicates of the scanner: the sender's domain
    (`get_domain_from_email`), the embedded-image test (`is_embedded_image`)
    and the cross-domain test (`is_different_domain`). The URL parser's
    `netloc` is a parameter: host extraction is not modelled. */
module Domains {
  import opened Wrappers
  import opened Text

  /** The text after the first '@' up to the next '@' (or the end),
      lower-cased; `None` for an absent address or one without '@'. */
  function DomainOf(email: Option<string>): (r: Option<string>)
    ensures r.Some? <==> email.Some? && '@' in email.value
    ensures r.Some? ==> '@' !in r.value
  {
    match email
    case None => None
    case Some(e) =>
      var pieces := SplitOn(e, '@');
      SplitOnHasSecond(e, '@');
      SplitOnJoin(e, '@');
      if |pieces| > 1 then LowerKeepsAt(pieces[1]); Some(Lower(pieces[1])) else None
  }

  /** The domain is the segment between the FIRST '@' and the next one: any
      later '@' and what follows it are dropped. */
  lemma DomainOfFirstSegment(e: string, i: nat, j: nat)
    requires i < j <= |e|
    requires e[i] == '@' && '@' !in e[..i]
    requires '@' !in e[i + 1..j] && (j == |e| || e[j] == '@')
    ensures DomainOf(Some(e)) == Some(Lower(e[i + 1..j]))
  {
    IndexOfIsFirst(e, '@', i);
    var rest := e[i + 1..];
    SplitOnJoin(rest, '@');
    assert SplitOn(e, '@') == [e[..i]] + SplitOn(rest, '@');
    assert SplitOn(e, '@')[1] == SplitOn(rest, '@')[0];
    if '@' in rest {
      assert j < |e|;
      assert rest[..j - i - 1] == e[i + 1..j];
      IndexOfIsFirst(rest, '@', j - i - 1);
    } else {
      assert rest == e[i + 1..j];
    }
    assert SplitOn(rest, '@')[0] == e[i + 1..j];
  }

  /** A `cid:` reference to a part of the same message, in any letter case:
      its first four characters spell `cid:` once lower-cased. */
  predicate IsEmbedded(url: string)
    ensures IsEmbedded(url) <==> |url| >= 4 && Lower(url[..4]) == "cid:"
  {
    assert |url| >= 4 ==> Lower(url)[..4] == Lower(url[..4]);
    StartsWith(Lower(url), "cid:")
  }

  /** Two URLs that agree once lower-cased are both embedded or neither. */
  lemma EmbeddedIgnoresCase(a: string, b: string)
    requires Lower(a) == Lower(b)
    ensures IsEmbedded(a) <==> IsEmbedded(b)
  {
  }

  /** Only the scheme decides: appending to an embedded reference keeps it
      embedded, and letter case never matters. */
  lemma EmbeddedIsCaseInsensitivePrefix(url: string, rest: string)
    ensures IsEmbedded(url) ==> IsEmbedded(url + rest)
    ensures IsEmbedded(url) <==> IsEmbedded(Lower(url))
    ensures IsEmbedded(url) ==> url != ""
  {
    if IsEmbedded(url) {
      assert Lower(url + rest)[..4] == Lower(url)[..4];
    }
  }

  /** The `image_domain` argument. The command line passes a boolean
      (`--image-domain` is a flag), while the function compares it with a
      host: both readings are kept. */
  datatype ImageDomain = NoImageDomain | FlagValue(on: bool) | DomainValue(name: string) {

    /** Python truthiness of the value. */
    predicate Truthy() {
      match this
      case NoImageDomain => false
      case FlagValue(b) => b
      case DomainValue(n) => n != ""
    }

    /** Python `==` between the value and a host string. */
    predicate EqualsHost(host: string) {
      DomainValue? && name == host
    }
  }

  /** The lower-cased host of an image URL. */
  function Host(netloc: string -> string, url: string): string {
    Lower(netloc(url))
  }

  /** Whether an image URL counts as a tracking candidate: its host is not
      the sender's domain, or a truthy image domain names some other host. */
  predicate IsDifferentDomain(netloc: string -> string, url: string, senderDomain: Option<string>, imageDomain: ImageDomain)
    ensures senderDomain.None? ==> IsDifferentDomain(netloc, url, senderDomain, imageDomain)
    ensures imageDomain == FlagValue(true) ==> IsDifferentDomain(netloc, url, senderDomain, imageDomain)
    ensures !IsDifferentDomain(netloc, url, senderDomain, imageDomain) ==> senderDomain == Some(Lower(netloc(url)))
  {
    var host := Host(netloc, url);
    senderDomain != Some(host) || (imageDomain.Truthy() && !imageDomain.EqualsHost(host))
  }

  /** A host differing from the sender domain always passes; a host equal
      to the sender domain passes only against a truthy image domain it
      differs from; against a falsy image domain the sender domain alone
      decides. */
  lemma IsDifferentDomainCases(netloc: string -> string, url: string, senderDomain: Option<string>, imageDomain: ImageDomain)
    ensures senderDomain != Some(Host(netloc, url)) ==> IsDifferentDomain(netloc, url, senderDomain, imageDomain)
    ensures senderDomain == Some(Host(netloc, url)) ==>
              (IsDifferentDomain(netloc, url, senderDomain, imageDomain) <==>
               imageDomain.Truthy() && !imageDomain.EqualsHost(Host(netloc, url)))
    ensures !imageDomain.Truthy() ==>
              (IsDifferentDomain(netloc, url, senderDomain, imageDomain) <==> senderDomain != Some(Host(netloc, url)))
  {
  }
}
