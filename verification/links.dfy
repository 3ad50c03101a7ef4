/** The per-offer link: a fixed search URL of choisirleservicepublic.gouv.fr
    followed by the offer's reference and a closing slash. */
module Links {
  import opened Wrappers
  import opened Text

  const LinkPrefix := "https://choisirleservicepublic.gouv.fr/nos-offres/filtres/mot-cles/"

  /** `astype(str)` of a reference cell: a missing reference prints as "nan". */
  function ReferenceText(reference: Option<string>): string {
    reference.GetOr("nan")
  }

  /** The link of an offer. */
  function Link(reference: Option<string>): (url: string)
    ensures IsPrefix(LinkPrefix, url)
    ensures |url| > |LinkPrefix| && url[|url| - 1] == '/'
    ensures url[|LinkPrefix|..|url| - 1] == ReferenceText(reference)
  {
    LinkPrefix + ReferenceText(reference) + "/"
  }

  /** Strips the prefix and the closing slash from a link; None for text that
      is not shaped like a link. */
  function ReferenceOf(url: string): (r: Option<string>)
    ensures r.Some? ==> url == LinkPrefix + r.value + "/"
  {
    if IsPrefix(LinkPrefix, url) && |url| > |LinkPrefix| && url[|url| - 1] == '/' then
      assert url == url[..|LinkPrefix|] + url[|LinkPrefix|..|url| - 1] + [url[|url| - 1]];
      Some(url[|LinkPrefix|..|url| - 1])
    else None
  }

  /** Stripping the prefix and the final slash recovers the reference text exactly. */
  lemma ReferenceRoundTrip(reference: Option<string>)
    ensures ReferenceOf(Link(reference)) == Some(ReferenceText(reference))
  {
  }

  /** Different reference texts give different links. */
  lemma LinkInjective(a: Option<string>, b: Option<string>)
    requires Link(a) == Link(b)
    ensures ReferenceText(a) == ReferenceText(b)
  {
    ReferenceRoundTrip(a);
    ReferenceRoundTrip(b);
  }
}
