/** The parts of the parsed document the inliner touches, and the libraries it
    calls (BeautifulSoup, cssutils, soupselect, urllib2, urlparse, re), taken
    as given functions. */
module Html {
  import opened Wrappers
  import opened Css

  /** An element selectors can reach; only its `style` attribute matters here
      (`None` where the element has no `style`). */
  datatype Element = Element(style: Option<string>)

  /** A `<link>` tag, with its `href` attribute if it has one; `attached` is
      false once the tag has been extracted. */
  datatype LinkTag = LinkTag(rel: string, href: Option<string>, attached: bool)

  /** A child of a `<style>` tag: a string or comment, or a nested tag. */
  datatype Content = Text(text: string) | Child

  /** A `<style>` tag in document order. */
  datatype StyleTag = StyleTag(attrs: seq<(string, string)>, contents: seq<Content>, attached: bool)

  /** The parsed document: the element arena (identity is the index, so two
      elements with the same markup stay apart), its link and style tags. */
  datatype Soup = Soup(elements: seq<Element>, links: seq<LinkTag>, styleTags: seq<StyleTag>)

  /** The exceptions `run` lets through: soupselect's `SelectorNotSupportedException`;
      the `KeyError` of `tag['href']` on a stylesheet link without `href`; the
      `AttributeError` of reading `source_string` before any page was given. */
  datatype Error = UnsupportedSelector(selector: string) | MissingHref | MissingSource

  /** `select(soup, selector)`: the matching elements in order, or the exception. */
  type Matcher = (Soup, string) -> Result<seq<nat>, Error>

  datatype Env = Env(
    parseHtml: string -> Soup,                       // BeautifulSoup(source)
    serializeHtml: Soup -> string,                   // unicode(soup)
    parseCss: string -> seq<Rule>,                   // CSSParser().parseString(text).cssRules
    sheetText: seq<Rule> -> string,                  // cssText of a sheet holding these rules
    fetch: string -> string,                         // urllib2.urlopen(url).read()
    urljoin: (string, string) -> string,             // urlparse.urljoin(base, url), base non-empty
    select: Matcher,                                 // soupselect.select
    findConditional: string -> Option<(nat, nat)>)  // where the conditional-comment pattern matches

  /** soupselect only ever returns elements of the soup it searched. */
  ghost predicate SelectsWithin(select: Matcher)
  {
    forall soup, sel :: select(soup, sel).Success? ==>
      forall e <- select(soup, sel).value :: e < |soup.elements|
  }

  /** A regular-expression match lies inside the searched text. */
  ghost predicate FindsWithin(find: string -> Option<(nat, nat)>)
  {
    forall s :: find(s).Some? ==> find(s).value.0 <= find(s).value.1 <= |s|
  }
}
