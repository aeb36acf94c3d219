/** How `_get_styles` assembles the one stylesheet buffer it parses: the texts of
    the linked sheets, then the `<style>` tags' texts, then the strings added with
    `with_cssString`; and what happens to the tags it reads. */
module Stylesheets {
  import opened Wrappers
  import opened Seqs
  import opened Strings
  import opened Css
  import opened Html

  /** The opening of `_get_external_styles` and `_get_internal_styles`: a buffer
      that already holds text gets a newline before more is added. */
  function Continue(buf: string): string
  {
    if buf == "" then "" else buf + "\n"
  }

  /** `self.relative_url or self.root_url`, with `None` and `''` both falsy. */
  function BaseUrl(relative: Option<string>, root: Option<string>): string
  {
    if relative.Some? && relative.value != "" then relative.value
    else if root.Some? then root.value
    else ""
  }

  /** `urlparse.urljoin(base_url, url)`; `urljoin` returns the reference itself
      when the base is falsy. */
  function ResolveHref(env: Env, base: string, href: string): string
  {
    if base == "" then href else env.urljoin(base, href)
  }

  // ---------------------------------------------------------------------------
  // External sheets (`_get_external_styles`)

  /** `soup.findAll('link', {'rel': 'stylesheet'})` finds this tag. */
  predicate IsStylesheetLink(link: LinkTag)
  {
    link.attached && link.rel == "stylesheet"
  }

  /** A stylesheet link without `href`: reading `tag['href']` raises `KeyError`. */
  predicate LacksHref(link: LinkTag)
  {
    IsStylesheetLink(link) && link.href.None?
  }

  /** How many links the loop gets through: the position of the first
      stylesheet link without `href`, or all of them. */
  function HrefGap(links: seq<LinkTag>): (g: nat)
    ensures g <= |links|
    ensures forall j :: 0 <= j < g ==> !LacksHref(links[j])
    ensures g < |links| ==> LacksHref(links[g])
  {
    if links == [] || LacksHref(links[0]) then 0 else 1 + HrefGap(links[1..])
  }

  /** The exception `_get_external_styles` ends with, if any. */
  function LinkError(links: seq<LinkTag>): Option<Error>
  {
    if HrefGap(links) < |links| then Some(MissingHref) else None
  }

  /** The loop raises exactly when some stylesheet link lacks `href`. */
  lemma LinkErrorIffMissingHref(links: seq<LinkTag>)
    ensures LinkError(links).Some? <==> exists i :: 0 <= i < |links| && LacksHref(links[i])
  {
    var g := HrefGap(links);
    if g == |links| {
      assert links[..g] == links;
    }
  }

  /** What a `<link>` contributes to the buffer: the fetched text, unless it
      parses to no rule at all (`if not ....cssRules: continue`). */
  function LinkedSheet(env: Env, base: string, link: LinkTag): Option<string>
  {
    if !IsStylesheetLink(link) || link.href.None? then None
    else
      var content := env.fetch(ResolveHref(env, base, link.href.value));
      if env.parseCss(content) == [] then None else Some(content)
  }

  function SheetOrEmpty(sheet: Option<string>): string
  {
    match sheet
    case None => ""
    case Some(text) => text
  }

  /** The text the links add to the buffer, in document order. */
  function LinkedText(env: Env, base: string, links: seq<LinkTag>): string
  {
    if links == [] then ""
    else LinkedText(env, base, links[..|links| - 1]) + SheetOrEmpty(LinkedSheet(env, base, links[|links| - 1]))
  }

  /** A link whose sheet went into the buffer is extracted; any other stays. */
  function LinkAfter(env: Env, base: string, link: LinkTag): LinkTag
  {
    if LinkedSheet(env, base, link).Some? then link.(attached := false) else link
  }

  function LinksAfter(env: Env, base: string, links: seq<LinkTag>): (r: seq<LinkTag>)
    ensures |r| == |links|
  {
    seq(|links|, i requires 0 <= i < |links| => LinkAfter(env, base, links[i]))
  }

  /** The links' texts follow document order: those of a later part of the
      document come after those of an earlier one. */
  lemma {:induction false} LinkedTextConcat(env: Env, base: string, a: seq<LinkTag>, b: seq<LinkTag>)
    ensures LinkedText(env, base, a + b) == LinkedText(env, base, a) + LinkedText(env, base, b)
  {
    if b == [] {
      assert a + b == a;
    } else {
      var init := b[..|b| - 1];
      LinkedTextConcat(env, base, a, init);
      assert (a + b)[..|a + b| - 1] == a + init;
      assert (a + b)[|a + b| - 1] == b[|b| - 1];
    }
  }

  /** Around the `i`-th link: the text before it, its own contribution, the text after. */
  lemma LinkedTextAround(env: Env, base: string, links: seq<LinkTag>, i: nat)
    requires i < |links|
    ensures LinkedText(env, base, links)
            == LinkedText(env, base, links[..i]) + SheetOrEmpty(LinkedSheet(env, base, links[i]))
               + LinkedText(env, base, links[i + 1..])
  {
    assert links == links[..i] + [links[i]] + links[i + 1..];
    LinkedTextConcat(env, base, links[..i] + [links[i]], links[i + 1..]);
    LinkedTextConcat(env, base, links[..i], [links[i]]);
    assert [links[i]][..0] == [];
  }

  /** A stylesheet link whose text parses to at least one rule puts that text
      into the buffer at its place in document order, and is extracted. */
  lemma TakenLinkIsExtracted(env: Env, base: string, links: seq<LinkTag>, i: nat)
    requires i < |links| && IsStylesheetLink(links[i]) && links[i].href.Some?
    requires env.parseCss(env.fetch(ResolveHref(env, base, links[i].href.value))) != []
    ensures var content := env.fetch(ResolveHref(env, base, links[i].href.value));
      LinkedText(env, base, links)
      == LinkedText(env, base, links[..i]) + content + LinkedText(env, base, links[i + 1..])
    ensures LinksAfter(env, base, links)[i] == links[i].(attached := false)
  {
    LinkedTextAround(env, base, links, i);
  }

  /** A link whose text parses to no rule adds nothing and stays in place, and
      so does any tag that is not an attached stylesheet link. */
  lemma SkippedLinkStays(env: Env, base: string, links: seq<LinkTag>, i: nat)
    requires i < |links|
    requires !IsStylesheetLink(links[i])
             || (links[i].href.Some? && env.parseCss(env.fetch(ResolveHref(env, base, links[i].href.value))) == [])
    ensures LinkedText(env, base, links) == LinkedText(env, base, links[..i]) + LinkedText(env, base, links[i + 1..])
    ensures LinksAfter(env, base, links)[i] == links[i]
  {
    LinkedTextAround(env, base, links, i);
  }

  /** One more link read: its contribution follows those before it. */
  lemma LinkedTextStep(env: Env, base: string, links: seq<LinkTag>, k: nat)
    requires k < |links|
    ensures LinkedText(env, base, links[..k + 1])
            == LinkedText(env, base, links[..k]) + SheetOrEmpty(LinkedSheet(env, base, links[k]))
  {
    assert links[..k + 1][..k] == links[..k];
  }

  /** One more link read: only its own place changes. */
  lemma LinksAfterStep(env: Env, base: string, links: seq<LinkTag>, k: nat)
    requires k < |links|
    ensures LinksAfter(env, base, links[..k + 1]) + links[k + 1..]
            == (LinksAfter(env, base, links[..k]) + links[k..])[k := LinkAfter(env, base, links[k])]
    ensures LinkedSheet(env, base, links[k]).None? ==>
            LinksAfter(env, base, links[..k + 1]) + links[k + 1..] == LinksAfter(env, base, links[..k]) + links[k..]
  {
    var lhs := LinksAfter(env, base, links[..k + 1]) + links[k + 1..];
    var rhs := (LinksAfter(env, base, links[..k]) + links[k..])[k := LinkAfter(env, base, links[k])];
    assert |lhs| == |rhs|;
    forall i | 0 <= i < |lhs| ensures lhs[i] == rhs[i] {
      if i < k {
        assert lhs[i] == LinkAfter(env, base, links[i]);
      } else if i > k {
        assert lhs[i] == links[i];
      }
    }
  }

  // ---------------------------------------------------------------------------
  // Internal sheets (`_get_internal_styles`)

  /** `filter(lambda c: isinstance(c, basestring), tag.contents)`: the strings
      and comments among the children, in order. */
  function Texts(contents: seq<Content>): seq<string>
  {
    if contents == [] then []
    else
      var last := contents[|contents| - 1];
      Texts(contents[..|contents| - 1]) + (if last.Text? then [last.text] else [])
  }

  /** `'\n'.join(strings_and_comments)` */
  function TagText(tag: StyleTag): string
  {
    Join(Texts(tag.contents), "\n")
  }

  /** `_CSS_RULE_TYPES_TO_PRESERVE`, and unknown rules when `preserve_unknown_rules` is set. */
  predicate IsPreservedKind(kind: nat, preserveUnknown: bool)
  {
    kind == MEDIA_RULE || kind == IMPORT_RULE || kind == FONT_FACE_RULE
    || (preserveUnknown && kind == UNKNOWN_RULE)
  }

  /** `media_stylesheet`: the rules that stay in the `<style>` tag, in order. */
  function Preserved(rules: seq<Rule>, preserveUnknown: bool): seq<Rule>
  {
    if rules == [] then []
    else
      var last := rules[|rules| - 1];
      Preserved(rules[..|rules| - 1], preserveUnknown) + (if IsPreservedKind(last.kind, preserveUnknown) then [last] else [])
  }

  /** `other_stylesheet`: the rules that go to the cascade, in order. */
  function Cascading(rules: seq<Rule>, preserveUnknown: bool): seq<Rule>
  {
    if rules == [] then []
    else
      var last := rules[|rules| - 1];
      Cascading(rules[..|rules| - 1], preserveUnknown) + (if IsPreservedKind(last.kind, preserveUnknown) then [] else [last])
  }

  /** Every rule goes to exactly one of the two sheets: together they hold the
      rules of the tag, each as often as it occurs there. */
  lemma {:induction false} PartitionIsPermutation(rules: seq<Rule>, preserveUnknown: bool)
    ensures multiset(Preserved(rules, preserveUnknown)) + multiset(Cascading(rules, preserveUnknown)) == multiset(rules)
  {
    if rules != [] {
      var init := rules[..|rules| - 1];
      PartitionIsPermutation(init, preserveUnknown);
      assert rules == init + [rules[|rules| - 1]];
    }
  }

  /** The preserved sheet holds exactly the preserved kinds, the other sheet exactly the rest. */
  lemma {:induction false} PartitionByKind(rules: seq<Rule>, preserveUnknown: bool)
    ensures forall r :: r in Preserved(rules, preserveUnknown) <==> r in rules && IsPreservedKind(r.kind, preserveUnknown)
    ensures forall r :: r in Cascading(rules, preserveUnknown) <==> r in rules && !IsPreservedKind(r.kind, preserveUnknown)
  {
    if rules != [] {
      var init := rules[..|rules| - 1];
      PartitionByKind(init, preserveUnknown);
      assert rules == init + [rules[|rules| - 1]];
    }
  }

  /** Both sheets keep the order of the tag: splitting the rules at any point
      splits each sheet at the same point. */
  lemma {:induction false} PreservedKeepsOrder(a: seq<Rule>, b: seq<Rule>, preserveUnknown: bool)
    ensures Preserved(a + b, preserveUnknown) == Preserved(a, preserveUnknown) + Preserved(b, preserveUnknown)
  {
    if b == [] {
      assert a + b == a;
    } else {
      var init, last := b[..|b| - 1], b[|b| - 1];
      PreservedKeepsOrder(a, init, preserveUnknown);
      assert (a + b)[..|a + b| - 1] == a + init;
      var tail := if IsPreservedKind(last.kind, preserveUnknown) then [last] else [];
      AppendAssoc(Preserved(a, preserveUnknown), Preserved(init, preserveUnknown), tail);
    }
  }

  lemma {:induction false} CascadingKeepsOrder(a: seq<Rule>, b: seq<Rule>, preserveUnknown: bool)
    ensures Cascading(a + b, preserveUnknown) == Cascading(a, preserveUnknown) + Cascading(b, preserveUnknown)
  {
    if b == [] {
      assert a + b == a;
    } else {
      var init, last := b[..|b| - 1], b[|b| - 1];
      CascadingKeepsOrder(a, init, preserveUnknown);
      assert (a + b)[..|a + b| - 1] == a + init;
      var tail := if IsPreservedKind(last.kind, preserveUnknown) then [] else [last];
      AppendAssoc(Cascading(a, preserveUnknown), Cascading(init, preserveUnknown), tail);
    }
  }

  /** The loop over `stylesheet.cssRules` that adds each rule to
      `media_stylesheet` or to `other_stylesheet`. */
  method PartitionRules(rules: seq<Rule>, preserveUnknown: bool) returns (kept: seq<Rule>, other: seq<Rule>)
    ensures kept == Preserved(rules, preserveUnknown)
    ensures other == Cascading(rules, preserveUnknown)
  {
    kept, other := [], [];
    var i := 0;
    while i < |rules|
      invariant 0 <= i <= |rules|
      invariant kept == Preserved(rules[..i], preserveUnknown)
      invariant other == Cascading(rules[..i], preserveUnknown)
    {
      var rule := rules[i];
      assert rules[..i + 1][..i] == rules[..i];
      if IsPreservedKind(rule.kind, preserveUnknown) {
        kept := kept + [rule];
      } else {
        other := other + [rule];
      }
      i := i + 1;
    }
    assert rules[..i] == rules;
  }

  /** What one `<style>` tag adds to the buffer, and the tag that takes its place. */
  datatype TagOutcome = TagOutcome(text: string, tag: StyleTag)

  /** One turn of the loop over `soup.findAll('style')`. */
  function InternalStep(env: Env, preserve: bool, preserveUnknown: bool, tag: StyleTag): TagOutcome
  {
    if !tag.attached then TagOutcome("", tag)
    else
      var text := TagText(tag);
      if !preserve then TagOutcome(text + "\n", tag.(attached := false))
      else
        var sheet := env.parseCss(text);
        var kept := Preserved(sheet, preserveUnknown);
        if kept != [] then
          TagOutcome(env.sheetText(Cascading(sheet, preserveUnknown)) + "\n",
                     StyleTag(tag.attrs, [Text("\n" + env.sheetText(kept) + "\n")], true))
        else TagOutcome(text + "\n", tag.(attached := false))
  }

  /** The text the `<style>` tags add to the buffer, in document order. */
  function InternalText(env: Env, preserve: bool, preserveUnknown: bool, tags: seq<StyleTag>): string
  {
    if tags == [] then ""
    else InternalText(env, preserve, preserveUnknown, tags[..|tags| - 1])
         + InternalStep(env, preserve, preserveUnknown, tags[|tags| - 1]).text
  }

  function TagsAfter(env: Env, preserve: bool, preserveUnknown: bool, tags: seq<StyleTag>): (r: seq<StyleTag>)
    ensures |r| == |tags|
  {
    seq(|tags|, i requires 0 <= i < |tags| => InternalStep(env, preserve, preserveUnknown, tags[i]).tag)
  }

  /** One more `<style>` tag read: its contribution follows those before it. */
  lemma InternalTextStep(env: Env, preserve: bool, preserveUnknown: bool, tags: seq<StyleTag>, k: nat)
    requires k < |tags|
    ensures InternalText(env, preserve, preserveUnknown, tags[..k + 1])
            == InternalText(env, preserve, preserveUnknown, tags[..k]) + InternalStep(env, preserve, preserveUnknown, tags[k]).text
  {
    assert tags[..k + 1][..k] == tags[..k];
  }

  /** One more `<style>` tag read: only its own place changes. */
  lemma TagsAfterStep(env: Env, preserve: bool, preserveUnknown: bool, tags: seq<StyleTag>, k: nat)
    requires k < |tags|
    ensures TagsAfter(env, preserve, preserveUnknown, tags[..k + 1]) + tags[k + 1..]
            == (TagsAfter(env, preserve, preserveUnknown, tags[..k]) + tags[k..])
                 [k := InternalStep(env, preserve, preserveUnknown, tags[k]).tag]
    ensures !tags[k].attached ==>
            TagsAfter(env, preserve, preserveUnknown, tags[..k + 1]) + tags[k + 1..]
            == TagsAfter(env, preserve, preserveUnknown, tags[..k]) + tags[k..]
  {
    var lhs := TagsAfter(env, preserve, preserveUnknown, tags[..k + 1]) + tags[k + 1..];
    var rhs := (TagsAfter(env, preserve, preserveUnknown, tags[..k]) + tags[k..])
                 [k := InternalStep(env, preserve, preserveUnknown, tags[k]).tag];
    assert |lhs| == |rhs|;
    forall i | 0 <= i < |lhs| ensures lhs[i] == rhs[i] {
      if i < k {
        assert lhs[i] == InternalStep(env, preserve, preserveUnknown, tags[i]).tag;
      } else if i > k {
        assert lhs[i] == tags[i];
      }
    }
  }

  /** A `<style>` tag stays in the document (as a new tag with the same
      attributes) exactly when preserve mode is on and its preserved sheet is not
      empty; otherwise it is extracted and its own text goes to the buffer. */
  lemma StyleTagKeptIffPreserved(env: Env, preserve: bool, preserveUnknown: bool, tag: StyleTag)
    requires tag.attached
    ensures var out := InternalStep(env, preserve, preserveUnknown, tag);
      && (out.tag.attached <==> preserve && Preserved(env.parseCss(TagText(tag)), preserveUnknown) != [])
      && (out.tag.attached ==> out.tag.attrs == tag.attrs
                               && TagText(out.tag) == "\n" + env.sheetText(Preserved(env.parseCss(TagText(tag)), preserveUnknown)) + "\n"
                               && out.text == env.sheetText(Cascading(env.parseCss(TagText(tag)), preserveUnknown)) + "\n")
      && (!out.tag.attached ==> out.text == TagText(tag) + "\n")
  {
    var out := InternalStep(env, preserve, preserveUnknown, tag);
    if out.tag.attached {
      var body := "\n" + env.sheetText(Preserved(env.parseCss(TagText(tag)), preserveUnknown)) + "\n";
      assert out.tag.contents == [Text(body)];
      assert [Text(body)][..0] == [];
      assert Texts(out.tag.contents) == [body];
    }
  }

  /** Every `<style>` tag's contribution ends the buffer with a newline. */
  lemma StyleTagTextEndsInNewline(env: Env, preserve: bool, preserveUnknown: bool, tag: StyleTag)
    requires tag.attached
    ensures var text := InternalStep(env, preserve, preserveUnknown, tag).text;
      |text| >= 1 && text[|text| - 1] == '\n'
  {
  }

  /** Without preserve mode the `<style>` tags add their own texts, each followed
      by a newline, in document order, and every one of them is extracted. */
  lemma {:induction false} PlainInternalText(env: Env, preserveUnknown: bool, tags: seq<StyleTag>)
    requires forall t <- tags :: t.attached
    ensures InternalText(env, false, preserveUnknown, tags)
            == Concat(seq(|tags|, i requires 0 <= i < |tags| => TagText(tags[i]) + "\n"))
    ensures forall t <- TagsAfter(env, false, preserveUnknown, tags) :: !t.attached
  {
    if tags != [] {
      var init := tags[..|tags| - 1];
      PlainInternalText(env, preserveUnknown, init);
      var texts := seq(|tags|, i requires 0 <= i < |tags| => TagText(tags[i]) + "\n");
      assert texts[..|tags| - 1] == seq(|init|, i requires 0 <= i < |init| => TagText(init[i]) + "\n");
    }
  }

  // ---------------------------------------------------------------------------
  // The whole buffer (`_get_styles`)

  /** The buffer `_get_styles` hands to the parser, from the buffer `start` it
      finds, the document's links and `<style>` tags and the extra strings. */
  function Buffer(env: Env, base: string, preserve: bool, preserveUnknown: bool, start: string,
                  soup: Soup, extras: seq<string>): string
  {
    var external := Continue(start) + LinkedText(env, base, soup.links);
    Continue(external) + InternalText(env, preserve, preserveUnknown, soup.styleTags) + Concat(extras)
  }

  /** `Concat` keeps the strings in call order. */
  lemma {:induction false} ConcatAppend(a: seq<string>, b: seq<string>)
    ensures Concat(a + b) == Concat(a) + Concat(b)
  {
    if b != [] {
      ConcatAppend(a, b[..|b| - 1]);
      assert (a + b)[..|a + b| - 1] == a + b[..|b| - 1];
    } else {
      assert a + b == a;
    }
  }

  /** The order of the buffer for a fresh inliner: the linked sheets, a newline
      only where they left text, the `<style>` texts, then the extra strings;
      each part is the text its sources contribute in order. */
  lemma BufferOrder(env: Env, base: string, preserve: bool, preserveUnknown: bool, soup: Soup, extras: seq<string>)
    ensures var linked := LinkedText(env, base, soup.links);
      Buffer(env, base, preserve, preserveUnknown, "", soup, extras)
      == linked + (if linked == "" then "" else "\n")
         + InternalText(env, preserve, preserveUnknown, soup.styleTags) + Concat(extras)
  {
    var linked := LinkedText(env, base, soup.links);
    AppendEmpty(linked);
    assert Continue("") + linked == linked;
    if linked == "" {
      assert Continue(linked) == linked + "";
    } else {
      assert Continue(linked) == linked + "\n";
    }
  }

  /** A buffer that already held text (a second `_get_styles`) keeps it in front,
      followed by a newline. */
  lemma BufferKeepsEarlierText(env: Env, base: string, preserve: bool, preserveUnknown: bool, start: string,
                               soup: Soup, extras: seq<string>)
    requires start != ""
    ensures start + "\n" <= Buffer(env, base, preserve, preserveUnknown, start, soup, extras)
  {
    var head := start + "\n";
    var external := head + LinkedText(env, base, soup.links);
    assert Continue(start) == head;
    assert Continue(external) == external + "\n";
    PrefixExtends(head, head, LinkedText(env, base, soup.links));
    PrefixExtends(head, external, "\n");
    PrefixExtends(head, external + "\n", InternalText(env, preserve, preserveUnknown, soup.styleTags));
    PrefixExtends(head, external + "\n" + InternalText(env, preserve, preserveUnknown, soup.styleTags), Concat(extras));
  }
}
