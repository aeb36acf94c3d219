/** The `Pynliner` object: its settings, the state its steps fill in one after
    another, and `run`, which chains them. */
module Inliner {
  import opened Wrappers
  import opened Seqs
  import opened Strings
  import opened Css
  import opened Html
  import opened Cascade
  import opened Stylesheets
  import opened Urls
  import opened Sanitizer

  /** cssutils' process-wide serializer preferences (`cssutils.ser.prefs`). */
  class SerializerPrefs {
    var propertyNameSpacer: string

    constructor(spacer: string)
      ensures propertyNameSpacer == spacer
    {
      propertyNameSpacer := spacer;
    }
  }

  class Pynliner {
    // Settings given to `__init__`, never changed afterwards.
    const allowConditionalComments: bool
    const preserveMediaQueries: bool
    const preserveUnknownRules: bool
    const ignoreUnsupportedSelectors: bool

    var extraStyleStrings: seq<string>
    var rootUrl: Option<string>
    var relativeUrl: Option<string>
    var url: Option<string>
    /** `None` until `from_url` or `from_string` sets `source_string`. */
    var sourceString: Option<string>
    /** `None` while the class attribute `soup = False` is still in force. */
    var soup: Option<Soup>
    /** `''` for the class attribute `style_string = False`: both are falsy and
        the code only ever tests or extends it. */
    var styleString: string
    var stylesheet: Option<seq<Rule>>
    var output: Option<string>

    constructor(allowConditionalComments: bool, preserveMediaQueries: bool,
                preserveUnknownRules: bool, ignoreUnsupportedSelectors: bool)
      ensures this.allowConditionalComments == allowConditionalComments
      ensures this.preserveMediaQueries == preserveMediaQueries
      ensures this.preserveUnknownRules == preserveUnknownRules
      ensures this.ignoreUnsupportedSelectors == ignoreUnsupportedSelectors
      ensures extraStyleStrings == [] && rootUrl.None? && relativeUrl.None? && url.None?
      ensures sourceString.None? && soup.None? && styleString == "" && stylesheet.None? && output.None?
    {
      this.allowConditionalComments := allowConditionalComments;
      this.preserveMediaQueries := preserveMediaQueries;
      this.preserveUnknownRules := preserveUnknownRules;
      this.ignoreUnsupportedSelectors := ignoreUnsupportedSelectors;
      extraStyleStrings := [];
      rootUrl, relativeUrl, url := None, None, None;
      sourceString := None;
      soup, styleString, stylesheet, output := None, "", None, None;
    }

    /** `from_url`: remembers the page's directory and root for the links, and
        fetches the page. */
    method FromUrl(env: Env, url: string)
      modifies this`url, this`relativeUrl, this`rootUrl, this`sourceString
      ensures this.url == Some(url)
      ensures relativeUrl == Some(RelativeUrl(url)) && rootUrl == Some(RootUrl(url))
      ensures sourceString == Some(env.fetch(url))
    {
      this.url := Some(url);
      relativeUrl := Some(RelativeUrl(url));
      rootUrl := Some(RootUrl(url));
      sourceString := Some(env.fetch(url));
    }

    /** `from_string` */
    method FromString(s: string)
      modifies this`sourceString
      ensures sourceString == Some(s)
    {
      sourceString := Some(s);
    }

    /** `with_cssString`: one more string for the end of the buffer. */
    method WithCssString(css: string)
      modifies this`extraStyleStrings
      ensures extraStyleStrings == old(extraStyleStrings) + [css]
    {
      extraStyleStrings := extraStyleStrings + [css];
    }

    /** `_get_soup`: the parsed page, or the `AttributeError` of a page never given. */
    method GetSoup(env: Env) returns (err: Option<Error>)
      modifies this`soup
      ensures sourceString.None? ==> err == Some(MissingSource) && soup == old(soup)
      ensures sourceString.Some? ==> err.None? && soup == Some(env.parseHtml(sourceString.value))
    {
      if sourceString.None? {
        return Some(MissingSource);
      }
      soup := Some(env.parseHtml(sourceString.value));
      return None;
    }

    /** The base the links' addresses are resolved against. */
    function Base(): string
      reads this`relativeUrl, this`rootUrl
    {
      BaseUrl(relativeUrl, rootUrl)
    }

    /** The body of the loop over the `<link>` tags, for a link whose `href`
        can be read: the fetched text when it parses to some rule. */
    method ReadLink(env: Env, base: string, tag: LinkTag) returns (sheet: Option<string>)
      requires !LacksHref(tag)
      ensures sheet == LinkedSheet(env, base, tag)
    {
      if !IsStylesheetLink(tag) {
        return None;
      }
      var content := env.fetch(ResolveHref(env, base, tag.href.value));
      if env.parseCss(content) == [] {
        return None;
      }
      return Some(content);
    }

    /** The loop of `_get_external_styles` over the `<link>` tags: the text it
        adds to the buffer, and the tags once the taken ones are extracted. It
        stops with `KeyError` at the first stylesheet link without `href`,
        keeping what the links before it did. */
    method ReadLinks(env: Env, base: string, links: seq<LinkTag>)
      returns (text: string, after: seq<LinkTag>, err: Option<Error>)
      ensures var g := HrefGap(links);
        && text == LinkedText(env, base, links[..g])
        && after == LinksAfter(env, base, links[..g]) + links[g..]
      ensures err == LinkError(links)
    {
      text, after, err := "", links, None;
      var k := 0;
      assert LinksAfter(env, base, links[..0]) + links[0..] == links;
      while k < |links|
        invariant 0 <= k <= HrefGap(links)
        invariant text == LinkedText(env, base, links[..k])
        invariant after == LinksAfter(env, base, links[..k]) + links[k..]
      {
        var tag := links[k];
        if IsStylesheetLink(tag) && tag.href.None? {
          assert LacksHref(links[k]) && k == HrefGap(links);
          return text, after, Some(MissingHref);
        }
        assert !LacksHref(links[k]) && k < HrefGap(links);
        LinkedTextStep(env, base, links, k);
        LinksAfterStep(env, base, links, k);
        AppendEmpty(text);
        var sheet := ReadLink(env, base, tag);
        if sheet.Some? {
          text := text + sheet.value;
          after := after[k := tag.(attached := false)];
        }
        k := k + 1;
      }
      assert k == HrefGap(links) == |links| && links[k..] == [];
      AppendEmpty(LinksAfter(env, base, links[..k]));
    }

    /** `_get_external_styles`: the text of every linked stylesheet that parses
        to some rule goes into the buffer, and its `<link>` is extracted. */
    method GetExternalStyles(env: Env) returns (err: Option<Error>)
      requires soup.Some?
      modifies this`styleString, this`soup
      ensures err == LinkError(old(soup.value.links))
      ensures styleString == LinkedBuffer(env, old(styleString), old(soup.value.links))
      ensures soup == Some(LinkedSoup(env, old(soup.value)))
    {
      styleString := Continue(styleString);
      var text, after;
      text, after, err := ReadLinks(env, Base(), soup.value.links);
      styleString := styleString + text;
      soup := Some(soup.value.(links := after));
    }

    /** The body of the loop over `soup.findAll('style')`: the text for the
        buffer, and the tag left in the document (extracted, or the new tag
        holding the preserved rules). */
    method ReadStyleTag(env: Env, tag: StyleTag) returns (text: string, newTag: StyleTag)
      requires tag.attached
      ensures TagOutcome(text, newTag) == InternalStep(env, preserveMediaQueries, preserveUnknownRules, tag)
    {
      var own := TagText(tag);
      if !preserveMediaQueries {
        return own + "\n", tag.(attached := false);
      }
      var sheet := env.parseCss(own);
      var kept, other := PartitionRules(sheet, preserveUnknownRules);
      if kept != [] {
        newTag := StyleTag(tag.attrs, [Text("\n" + env.sheetText(kept) + "\n")], true);
        text := env.sheetText(other) + "\n";
      } else {
        text, newTag := own + "\n", tag.(attached := false);
      }
    }

    /** The loop of `_get_internal_styles` over the `<style>` tags: the text it
        adds to the buffer, and the tags once each is extracted or replaced. */
    method ReadStyleTags(env: Env, tags: seq<StyleTag>) returns (text: string, after: seq<StyleTag>)
      ensures text == InternalText(env, preserveMediaQueries, preserveUnknownRules, tags)
      ensures after == TagsAfter(env, preserveMediaQueries, preserveUnknownRules, tags)
    {
      text, after := "", tags;
      var k := 0;
      assert TagsAfter(env, preserveMediaQueries, preserveUnknownRules, tags[..0]) + tags[0..] == tags;
      while k < |tags|
        invariant 0 <= k <= |tags|
        invariant text == InternalText(env, preserveMediaQueries, preserveUnknownRules, tags[..k])
        invariant after == TagsAfter(env, preserveMediaQueries, preserveUnknownRules, tags[..k]) + tags[k..]
      {
        var tag := tags[k];
        InternalTextStep(env, preserveMediaQueries, preserveUnknownRules, tags, k);
        TagsAfterStep(env, preserveMediaQueries, preserveUnknownRules, tags, k);
        AppendEmpty(text);
        if tag.attached {
          var own, newTag := ReadStyleTag(env, tag);
          text := text + own;
          after := after[k := newTag];
        }
        k := k + 1;
      }
      assert tags[..k] == tags && tags[k..] == [];
      AppendEmpty(TagsAfter(env, preserveMediaQueries, preserveUnknownRules, tags));
    }

    /** `_get_internal_styles`: every `<style>` tag's text goes into the buffer
        and the tag is extracted; in preserve mode a tag whose sheet holds
        at-rules to keep is replaced by a tag holding just those, and only the
        other rules go into the buffer. */
    method GetInternalStyles(env: Env)
      requires soup.Some?
      modifies this`styleString, this`soup
      ensures styleString == Continue(old(styleString))
                             + InternalText(env, preserveMediaQueries, preserveUnknownRules, old(soup.value.styleTags))
      ensures soup == Some(old(soup.value).(styleTags := TagsAfter(env, preserveMediaQueries, preserveUnknownRules,
                                                                   old(soup.value.styleTags))))
    {
      styleString := Continue(styleString);
      var text, after := ReadStyleTags(env, soup.value.styleTags);
      styleString := styleString + text;
      soup := Some(soup.value.(styleTags := after));
    }

    /** `_get_styles`: links, then `<style>` tags, then the extra strings, and
        the buffer parsed into the sheet. A stylesheet link without `href`
        stops it inside `_get_external_styles`, with the buffer and the links
        as far as that loop got and no sheet. */
    method GetStyles(env: Env) returns (err: Option<Error>)
      requires soup.Some?
      modifies this`styleString, this`soup, this`stylesheet
      ensures err == LinkError(old(soup.value.links))
      ensures err.Some? ==> && styleString == LinkedBuffer(env, old(styleString), old(soup.value.links))
                            && soup == Some(LinkedSoup(env, old(soup.value)))
                            && stylesheet == old(stylesheet)
      ensures err.None? ==> && styleString == Buffer(env, Base(), preserveMediaQueries, preserveUnknownRules,
                                                     old(styleString), old(soup.value), extraStyleStrings)
                            && soup == Some(StyledSoup(env, old(soup.value)))
                            && stylesheet == Some(env.parseCss(styleString))
    {
      ghost var before := soup.value;
      err := GetExternalStyles(env);
      if err.Some? {
        return;
      }
      assert before.links[..|before.links|] == before.links;
      AppendEmpty(LinksAfter(env, Base(), before.links));
      ghost var linked := soup.value;
      GetInternalStyles(env);
      assert soup.value == linked.(styleTags := TagsAfter(env, preserveMediaQueries, preserveUnknownRules, linked.styleTags));
      assert soup.value == StyledSoup(env, before);
      ghost var start := styleString;
      var i := 0;
      while i < |extraStyleStrings|
        invariant 0 <= i <= |extraStyleStrings|
        invariant styleString == start + Concat(extraStyleStrings[..i])
        modifies this`styleString
      {
        assert extraStyleStrings[..i + 1][..i] == extraStyleStrings[..i];
        AppendAssoc(start, Concat(extraStyleStrings[..i]), extraStyleStrings[i]);
        styleString := styleString + extraStyleStrings[i];
        i := i + 1;
      }
      assert extraStyleStrings[..i] == extraStyleStrings;
      stylesheet := Some(env.parseCss(styleString));
    }

    /** The buffer once `_get_external_styles` has read the links before the
        first stylesheet link without `href` (all of them when there is none). */
    function LinkedBuffer(env: Env, start: string, links: seq<LinkTag>): string
      reads this`relativeUrl, this`rootUrl
    {
      Continue(start) + LinkedText(env, Base(), links[..HrefGap(links)])
    }

    /** The document once `_get_external_styles` has read the same links. */
    function LinkedSoup(env: Env, s: Soup): Soup
      reads this`relativeUrl, this`rootUrl
    {
      var g := HrefGap(s.links);
      s.(links := LinksAfter(env, Base(), s.links[..g]) + s.links[g..])
    }

    /** The document once `_get_styles` has taken its links and `<style>` tags. */
    function StyledSoup(env: Env, s: Soup): Soup
      reads this`relativeUrl, this`rootUrl
    {
      s.(links := LinksAfter(env, Base(), s.links),
         styleTags := TagsAfter(env, preserveMediaQueries, preserveUnknownRules, s.styleTags))
    }

    /** `_apply_styles` with the spacer cssutils serializes with: on success the
        document is the cascade's; on an unsupported selector (without the flag)
        the exception comes back and nothing has been written. */
    method ApplyStyles(env: Env, prefs: SerializerPrefs) returns (err: Option<Error>)
      requires soup.Some? && stylesheet.Some?
      requires SelectsWithin(env.select)
      modifies this`soup
      ensures var c := Cascaded(env.select, old(soup.value), stylesheet.value, ignoreUnsupportedSelectors,
                                prefs.propertyNameSpacer);
        && (err.None? <==> c.Success?)
        && (c.Success? ==> soup == Some(c.value))
        && (c.Failure? ==> err == Some(c.error) && soup == old(soup))
    {
      var doc := soup.value;
      var style := StyleRules(stylesheet.value);
      var collected := CollectEntries(env.select, doc, style, ignoreUnsupportedSelectors);
      if collected.Failure? {
        return Some(collected.error);
      }
      var propMap := collected.value;
      ghost var matched := MatchAll(env.select, doc, style, ignoreUnsupportedSelectors).value;
      forall e <- propMap ensures e < |doc.elements| {
        CollectedWithin(env.select, doc, style, ignoreUnsupportedSelectors, e);
      }
      var styleMap := ResolveDeclarations(propMap);
      var written := WriteStyles(doc.elements, styleMap, prefs.propertyNameSpacer);
      WrittenIsCascaded(env.select, doc, stylesheet.value, ignoreUnsupportedSelectors, prefs.propertyNameSpacer,
                        propMap, styleMap, written);
      soup := Some(doc.(elements := written));
      return None;
    }

    /** `_get_output` */
    method GetOutput(env: Env)
      requires soup.Some?
      modifies this`output
      ensures output == Some(env.serializeHtml(soup.value))
    {
      output := Some(env.serializeHtml(soup.value));
    }

    /** The output after `_clean_output`, for one conditional comment. */
    function Cleaned(env: Env, out: string): string
      requires FindsWithin(env.findConditional)
    {
      if allowConditionalComments && env.findConditional(out).Some? then
        var (start, end) := env.findConditional(out).value;
        CleanRegion(out, start, end)
      else out
    }

    /** `_clean_output` */
    method CleanOutput(env: Env)
      requires output.Some? && FindsWithin(env.findConditional)
      modifies this`output
      ensures output == Some(Cleaned(env, old(output.value)))
    {
      if allowConditionalComments {
        var found := env.findConditional(output.value);
        if found.Some? {
          var (start, end) := found.value;
          output := Some(CleanRegion(output.value, start, end));
        }
      }
    }

    /** Whether `run` has a document to work on: one parsed before, or a source
        to parse. */
    predicate HasSource()
      reads this`soup, this`sourceString
    {
      soup.Some? || sourceString.Some?
    }

    /** The document `run` styles: the one parsed before, or the source parsed now. */
    function SoupToStyle(env: Env): Soup
      requires HasSource()
      reads this`soup, this`sourceString
    {
      if soup.Some? then soup.value else env.parseHtml(sourceString.value)
    }

    /** The exception `run` raises before the cascade: `AttributeError` for a
        page never given, `KeyError` for a stylesheet link without `href`. */
    function PrepareError(env: Env): Option<Error>
      reads this
    {
      if !HasSource() then Some(MissingSource)
      else if stylesheet.Some? then None
      else LinkError(SoupToStyle(env).links)
    }

    /** The document once `run` has read the stylesheets it still needed. */
    function PreparedSoup(env: Env): Soup
      requires HasSource()
      reads this
    {
      if stylesheet.Some? then SoupToStyle(env) else StyledSoup(env, SoupToStyle(env))
    }

    /** The buffer once `run` has read the stylesheets it still needed. */
    function PreparedBuffer(env: Env): string
      requires HasSource()
      reads this
    {
      if stylesheet.Some? then styleString
      else Buffer(env, Base(), preserveMediaQueries, preserveUnknownRules,
                  styleString, SoupToStyle(env), extraStyleStrings)
    }

    /** The sheet `run` applies: the one parsed before, or the buffer parsed now. */
    function SheetToApply(env: Env): seq<Rule>
      requires HasSource()
      reads this
    {
      if stylesheet.Some? then stylesheet.value else env.parseCss(PreparedBuffer(env))
    }

    /** The first two steps of `run`: `_get_soup` if there is no document yet,
        `_get_styles` if there is no sheet yet. */
    method Prepare(env: Env) returns (err: Option<Error>)
      modifies this`soup, this`styleString, this`stylesheet
      ensures err == old(PrepareError(env))
      ensures err == Some(MissingSource) ==>
                soup == old(soup) && styleString == old(styleString) && stylesheet == old(stylesheet)
      ensures err == Some(MissingHref) ==>
                && soup == Some(old(LinkedSoup(env, SoupToStyle(env))))
                && styleString == old(LinkedBuffer(env, styleString, SoupToStyle(env).links))
                && stylesheet == old(stylesheet)
      ensures err.None? ==>
                && soup == Some(old(PreparedSoup(env)))
                && styleString == old(PreparedBuffer(env))
                && stylesheet == Some(old(SheetToApply(env)))
    {
      if soup.None? {
        err := GetSoup(env);
        if err.Some? {
          return;
        }
      }
      if stylesheet.None? {
        err := GetStyles(env);
        return;
      }
      return None;
    }

    /** `run`: parse and read the styles if not done yet, apply them with the
        spacer set to `''`, then serialize and clean. The spacer is put back
        after a successful pass; the code has no `finally`, so after the
        exception of an unsupported selector it stays `''`. An exception
        before the cascade leaves the spacer and the output alone. */
    method Run(env: Env, prefs: SerializerPrefs) returns (r: Result<string, Error>)
      requires SelectsWithin(env.select) && FindsWithin(env.findConditional)
      modifies this`soup, this`styleString, this`stylesheet, this`output, prefs
      ensures var e := old(PrepareError(env));
        e.Some? ==> && r == Failure(e.value)
                    && output == old(output)
                    && prefs.propertyNameSpacer == old(prefs.propertyNameSpacer)
                    && stylesheet == old(stylesheet)
      ensures old(PrepareError(env)) == Some(MissingSource) ==>
                soup == old(soup) && styleString == old(styleString)
      ensures old(PrepareError(env)) == Some(MissingHref) ==>
                && soup == Some(old(LinkedSoup(env, SoupToStyle(env))))
                && styleString == old(LinkedBuffer(env, styleString, SoupToStyle(env).links))
      ensures old(PrepareError(env)).None? ==>
                && stylesheet == Some(old(SheetToApply(env)))
                && styleString == old(PreparedBuffer(env))
      ensures old(PrepareError(env)).None? ==>
                var c := Cascaded(env.select, old(PreparedSoup(env)), old(SheetToApply(env)),
                                  ignoreUnsupportedSelectors, "");
                && (r.Failure? <==> c.Failure?)
                && (r.Failure? ==> && r.error == c.error
                                   && soup == Some(old(PreparedSoup(env)))
                                   && output == old(output)
                                   && prefs.propertyNameSpacer == "")
                && (r.Success? ==> && soup == Some(c.value)
                                   && r.value == Cleaned(env, env.serializeHtml(c.value))
                                   && output == Some(r.value)
                                   && prefs.propertyNameSpacer == old(prefs.propertyNameSpacer))
    {
      var err := Prepare(env);
      if err.Some? {
        return Failure(err.value);
      }
      var previous := prefs.propertyNameSpacer;
      prefs.propertyNameSpacer := "";
      err := ApplyStyles(env, prefs);
      if err.Some? {
        return Failure(err.value);
      }
      prefs.propertyNameSpacer := previous;
      GetOutput(env);
      CleanOutput(env);
      r := Success(output.value);
    }
  }
}
