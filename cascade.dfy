/** `_apply_styles`: which style rules reach which elements, the list of
    `{specificity, props}` entries each element collects, the declaration those
    entries resolve to, and the `style` attribute written back. */
module Cascade {
  import opened Wrappers
  import opened Seqs
  import opened Strings
  import opened Css
  import opened Declarations
  import opened Ordering
  import opened Html

  /** `stylesheet.cssRules.rulesOfType(1)`: the style rules, in sheet order. */
  function StyleRules(rules: seq<Rule>): (r: seq<Rule>)
    ensures |r| <= |rules|
  {
    if rules == [] then []
    else
      var last := rules[|rules| - 1];
      StyleRules(rules[..|rules| - 1]) + (if last.kind == STYLE_RULE then [last] else [])
  }

  /** The style rules are exactly the rules of type 1. */
  lemma {:induction false} StyleRulesMembers(rules: seq<Rule>)
    ensures forall x :: x in StyleRules(rules) <==> x in rules && x.kind == STYLE_RULE
  {
    if rules != [] {
      var init, last := rules[..|rules| - 1], rules[|rules| - 1];
      StyleRulesMembers(init);
      assert rules == init + [last];
    }
  }

  lemma {:induction false} StyleRulesConcat(a: seq<Rule>, b: seq<Rule>)
    ensures StyleRules(a + b) == StyleRules(a) + StyleRules(b)
  {
    if b == [] {
      assert a + b == a;
    } else {
      StyleRulesConcat(a, b[..|b| - 1]);
      assert (a + b)[..|a + b| - 1] == a + b[..|b| - 1];
    }
  }

  /** `map(lambda s: s.strip(), rule.selectorText.split(','))` */
  function Selectors(rule: Rule): (sels: seq<string>)
    ensures |sels| == |Split(rule.selectorText, ',')| >= 1
  {
    var parts := Split(rule.selectorText, ',');
    seq(|parts|, i requires 0 <= i < |parts| => Strip(parts[i]))
  }

  /** Each selector handed to the matcher is one member of the comma group,
      with no comma inside and no white space around it. */
  lemma SelectorsAreTrimmedMembers(rule: Rule)
    ensures forall s <- Selectors(rule) ::
      ',' !in s && (s == [] || (!IsSpace(s[0]) && !IsSpace(s[|s| - 1])))
  {
    var parts := Split(rule.selectorText, ',');
    var sels := Selectors(rule);
    SplitPiecesLackSeparator(rule.selectorText, ',');
    forall k | 0 <= k < |sels|
      ensures ',' !in sels[k] && (sels[k] == [] || (!IsSpace(sels[k][0]) && !IsSpace(sels[k][|sels[k]| - 1])))
    {
      assert parts[k] in parts;
      StripKeepsOut(parts[k], ',');
      StripIsTrimmedSlice(parts[k]);
    }
  }

  /** `elements += select(soup, selector)` over the selectors of one rule. An
      unsupported selector either contributes nothing (`ingore_unsupported_selectors`)
      or stops the run with its exception. */
  function SelectAll(select: Matcher, soup: Soup, sels: seq<string>, ignore: bool): (r: Result<seq<nat>, Error>)
    ensures ignore ==> r.Success?
  {
    if sels == [] then Success([])
    else
      var init, last := sels[..|sels| - 1], sels[|sels| - 1];
      match SelectAll(select, soup, init, ignore)
      case Failure(err) => Failure(err)
      case Success(found) =>
        match select(soup, last)
        case Success(more) => Success(found + more)
        case Failure(err) => if ignore then Success(found) else Failure(err)
  }

  /** The selection fails exactly when the flag is off and some selector is
      unsupported, and then with the exception of the first such selector; when
      it succeeds it holds exactly the elements the supported selectors select. */
  lemma {:induction false} SelectAllOutcome(select: Matcher, soup: Soup, sels: seq<string>, ignore: bool)
    ensures var r := SelectAll(select, soup, sels, ignore);
      && (r.Failure? <==> !ignore && exists s <- sels :: select(soup, s).Failure?)
      && (r.Failure? ==> exists i :: 0 <= i < |sels| && select(soup, sels[i]) == Failure(r.error)
                                     && forall j :: 0 <= j < i ==> select(soup, sels[j]).Success?)
      && (r.Success? ==> forall e :: e in r.value <==>
            exists s <- sels :: select(soup, s).Success? && e in select(soup, s).value)
  {
    if sels != [] {
      var init, last := sels[..|sels| - 1], sels[|sels| - 1];
      assert sels == init + [last];
      SelectAllOutcome(select, soup, init, ignore);
    }
  }

  lemma {:induction false} SelectAllPrefixFails(select: Matcher, soup: Soup, sels: seq<string>, k: nat, ignore: bool)
    requires k <= |sels|
    requires SelectAll(select, soup, sels[..k], ignore).Failure?
    ensures SelectAll(select, soup, sels, ignore) == SelectAll(select, soup, sels[..k], ignore)
  {
    if k < |sels| {
      var init := sels[..|sels| - 1];
      assert init[..k] == sels[..k];
      SelectAllPrefixFails(select, soup, init, k, ignore);
    } else {
      assert sels[..k] == sels;
    }
  }

  /** The elements each style rule selects, in rule order; the first
      exception raised stops the whole pass. */
  function MatchAll(select: Matcher, soup: Soup, rules: seq<Rule>, ignore: bool): (r: Result<seq<seq<nat>>, Error>)
    ensures ignore ==> r.Success?
    ensures r.Success? ==> |r.value| == |rules|
  {
    if rules == [] then Success([])
    else
      var init, last := rules[..|rules| - 1], rules[|rules| - 1];
      match MatchAll(select, soup, init, ignore)
      case Failure(err) => Failure(err)
      case Success(matched) =>
        match SelectAll(select, soup, Selectors(last), ignore)
        case Failure(err) => Failure(err)
        case Success(found) => Success(matched + [found])
  }

  /** On success, the selection of each rule; on failure, the exception of one. */
  lemma {:induction false} MatchAllOutcome(select: Matcher, soup: Soup, rules: seq<Rule>, ignore: bool)
    ensures var r := MatchAll(select, soup, rules, ignore);
      && (r.Success? ==> forall i :: 0 <= i < |rules| ==>
            SelectAll(select, soup, Selectors(rules[i]), ignore) == Success(r.value[i]))
      && (r.Failure? ==>
            exists i :: 0 <= i < |rules| && SelectAll(select, soup, Selectors(rules[i]), ignore) == Failure(r.error))
  {
    if rules != [] {
      var init, last := rules[..|rules| - 1], rules[|rules| - 1];
      MatchAllOutcome(select, soup, init, ignore);
      match MatchAll(select, soup, init, ignore)
      case Failure(err) =>
        var i :| 0 <= i < |init| && SelectAll(select, soup, Selectors(init[i]), ignore) == Failure(err);
        assert rules[i] == init[i];
      case Success(m) =>
        var n := |rules| - 1;
        assert rules[n] == last;
        match SelectAll(select, soup, Selectors(last), ignore)
        case Failure(err) =>
          assert MatchAll(select, soup, rules, ignore) == Failure(err);
          assert SelectAll(select, soup, Selectors(rules[n]), ignore) == Failure(err);
        case Success(found) =>
          var all := m + [found];
          assert MatchAll(select, soup, rules, ignore) == Success(all);
          forall i | 0 <= i < |rules|
            ensures SelectAll(select, soup, Selectors(rules[i]), ignore) == Success(all[i])
          {
            if i < n {
              assert rules[i] == init[i] && all[i] == m[i];
            }
          }
    }
  }

  lemma {:induction false} MatchAllPrefixFails(select: Matcher, soup: Soup, rules: seq<Rule>, k: nat, ignore: bool)
    requires k <= |rules|
    requires MatchAll(select, soup, rules[..k], ignore).Failure?
    ensures MatchAll(select, soup, rules, ignore) == MatchAll(select, soup, rules[..k], ignore)
  {
    if k < |rules| {
      var init := rules[..|rules| - 1];
      assert init[..k] == rules[..k];
      MatchAllPrefixFails(select, soup, init, k, ignore);
    } else {
      assert rules[..k] == rules;
    }
  }

  /** The pass fails exactly when the flag is off and some selector of some
      style rule is unsupported. */
  lemma MatchAllFailsOnUnsupported(select: Matcher, soup: Soup, rules: seq<Rule>, ignore: bool)
    ensures MatchAll(select, soup, rules, ignore).Failure? <==>
      !ignore && exists i, s :: 0 <= i < |rules| && s in Selectors(rules[i]) && select(soup, s).Failure?
  {
    var r := MatchAll(select, soup, rules, ignore);
    MatchAllOutcome(select, soup, rules, ignore);
    if r.Failure? {
      var i :| 0 <= i < |rules| && SelectAll(select, soup, Selectors(rules[i]), ignore) == Failure(r.error);
      SelectAllOutcome(select, soup, Selectors(rules[i]), ignore);
    } else if !ignore && exists i, s :: 0 <= i < |rules| && s in Selectors(rules[i]) && select(soup, s).Failure? {
      var i, s :| 0 <= i < |rules| && s in Selectors(rules[i]) && select(soup, s).Failure?;
      SelectAllOutcome(select, soup, Selectors(rules[i]), ignore);
      assert false;
    }
  }

  /** `{'specificity': self._get_rule_specificity(rule), 'props': rule.style.getProperties()}` */
  function EntryOf(rule: Rule): Entry
  {
    Entry(RuleSpecificity(rule), rule.decls)
  }

  function Repeat(x: Entry, n: nat): (r: seq<Entry>)
    ensures |r| == n
  {
    if n == 0 then [] else Repeat(x, n - 1) + [x]
  }

  /** `[x] * n` holds `x` and nothing else. */
  lemma {:induction false} RepeatHoldsOnly(x: Entry, n: nat)
    ensures forall i :: 0 <= i < n ==> Repeat(x, n)[i] == x
  {
    if n > 0 {
      RepeatHoldsOnly(x, n - 1);
    }
  }

  /** The list `elem_prop_map[e]` ends with: for each rule in order, one entry per
      time the rule's selection lists `e`. */
  function EntriesOf(e: nat, rules: seq<Rule>, matched: seq<seq<nat>>): (es: seq<Entry>)
    requires |rules| == |matched|
  {
    if rules == [] then []
    else
      var n := |rules| - 1;
      EntriesOf(e, rules[..n], matched[..n]) + Repeat(EntryOf(rules[n]), multiset(matched[n])[e])
  }

  /** An element collects entries exactly when some rule selects it. */
  lemma {:induction false} EntriesOfEmpty(e: nat, rules: seq<Rule>, matched: seq<seq<nat>>)
    requires |rules| == |matched|
    ensures EntriesOf(e, rules, matched) == [] <==> forall i :: 0 <= i < |rules| ==> e !in matched[i]
  {
    if rules != [] {
      var n := |rules| - 1;
      EntriesOfEmpty(e, rules[..n], matched[..n]);
      assert forall i :: 0 <= i < n ==> matched[..n][i] == matched[i];
    }
  }

  /** Each entry an element collects is the entry of a rule that selects it. */
  lemma {:induction false} EntriesOfOrigin(e: nat, rules: seq<Rule>, matched: seq<seq<nat>>)
    requires |rules| == |matched|
    ensures forall x <- EntriesOf(e, rules, matched) ::
      exists i :: 0 <= i < |rules| && e in matched[i] && x == EntryOf(rules[i])
  {
    if rules != [] {
      var n := |rules| - 1;
      EntriesOfOrigin(e, rules[..n], matched[..n]);
      forall x <- EntriesOf(e, rules, matched)
        ensures exists i :: 0 <= i < |rules| && e in matched[i] && x == EntryOf(rules[i])
      {
        if x in EntriesOf(e, rules[..n], matched[..n]) {
          var i :| 0 <= i < n && e in matched[..n][i] && x == EntryOf(rules[..n][i]);
          assert matched[..n][i] == matched[i] && rules[..n][i] == rules[i];
        } else {
          RepeatHoldsOnly(EntryOf(rules[n]), multiset(matched[n])[e]);
          assert x in Repeat(EntryOf(rules[n]), multiset(matched[n])[e]);
          assert e in multiset(matched[n]);
        }
      }
    }
  }

  /** `elem_style_map[e]` after its assignments: the entries sorted stably by
      specificity, every property assigned in that order. */
  function ComputedDecls(es: seq<Entry>): seq<Decl>
  {
    Merge(Flatten(StableSortBySpecificity(es)))
  }

  /** `'%s;%s' % (computed, original)` where the element had a `style`, else `computed`. */
  function NewStyle(original: Option<string>, computed: string): string
  {
    match original
    case None => computed
    case Some(o) => computed + ";" + o
  }

  function StyledElement(el: Element, es: seq<Entry>, spacer: string): Element
  {
    if es == [] then el else Element(Some(NewStyle(el.style, StyleText(ComputedDecls(es), spacer))))
  }

  /** The soup after `_apply_styles` over the sheet `rules`, or the exception it raises. */
  function Cascaded(select: Matcher, soup: Soup, rules: seq<Rule>, ignore: bool, spacer: string): (r: Result<Soup, Error>)
    ensures ignore ==> r.Success?
    ensures r.Success? ==> r.value.links == soup.links && r.value.styleTags == soup.styleTags
                           && |r.value.elements| == |soup.elements|
  {
    var style := StyleRules(rules);
    match MatchAll(select, soup, style, ignore)
    case Failure(err) => Failure(err)
    case Success(matched) =>
      Success(soup.(elements := seq(|soup.elements|, i requires 0 <= i < |soup.elements| =>
        StyledElement(soup.elements[i], EntriesOf(i, style, matched), spacer))))
  }

  /** An unsupported selector in a style rule aborts the pass unless the flag is set. */
  lemma UnsupportedSelectorPolicy(select: Matcher, soup: Soup, rules: seq<Rule>, ignore: bool, spacer: string)
    ensures Cascaded(select, soup, rules, ignore, spacer).Failure? <==>
      !ignore && exists rule, s :: rule in rules && rule.kind == STYLE_RULE && s in Selectors(rule)
                                   && select(soup, s).Failure?
  {
    var style := StyleRules(rules);
    assert Cascaded(select, soup, rules, ignore, spacer).Failure? <==> MatchAll(select, soup, style, ignore).Failure?;
    MatchAllFailsOnUnsupported(select, soup, style, ignore);
    StyleRulesMembers(rules);
    if !ignore && exists rule, s :: rule in rules && rule.kind == STYLE_RULE && s in Selectors(rule) && select(soup, s).Failure? {
      var rule, s :| rule in rules && rule.kind == STYLE_RULE && s in Selectors(rule) && select(soup, s).Failure?;
      var i :| 0 <= i < |style| && style[i] == rule;
    }
    if MatchAll(select, soup, style, ignore).Failure? {
      var i, s :| 0 <= i < |style| && s in Selectors(style[i]) && select(soup, s).Failure?;
      assert style[i] in style;
    }
  }

  /** Element `i` after the pass: restyled from the entries it collected. */
  lemma CascadedElement(select: Matcher, soup: Soup, rules: seq<Rule>, ignore: bool, spacer: string, i: nat)
    requires i < |soup.elements|
    requires Cascaded(select, soup, rules, ignore, spacer).Success?
    ensures MatchAll(select, soup, StyleRules(rules), ignore).Success?
    ensures Cascaded(select, soup, rules, ignore, spacer).value.elements[i]
            == StyledElement(soup.elements[i],
                             EntriesOf(i, StyleRules(rules), MatchAll(select, soup, StyleRules(rules), ignore).value), spacer)
  {
  }

  /** An element that no selector of any style rule selects is left as it was. */
  lemma UnselectedElementUnchanged(select: Matcher, soup: Soup, rules: seq<Rule>, ignore: bool, spacer: string, i: nat)
    requires i < |soup.elements|
    requires Cascaded(select, soup, rules, ignore, spacer).Success?
    requires forall rule, s ::
               (rule in rules && rule.kind == STYLE_RULE && s in Selectors(rule) && select(soup, s).Success?)
               ==> i !in select(soup, s).value
    ensures Cascaded(select, soup, rules, ignore, spacer).value.elements[i] == soup.elements[i]
  {
    var style := StyleRules(rules);
    var matched := MatchAll(select, soup, style, ignore).value;
    StyleRulesMembers(rules);
    MatchAllOutcome(select, soup, style, ignore);
    forall k | 0 <= k < |style| ensures i !in matched[k] {
      assert style[k] in style;
      SelectAllOutcome(select, soup, Selectors(style[k]), ignore);
    }
    EntriesOfEmpty(i, style, matched);
    CascadedElement(select, soup, rules, ignore, spacer, i);
  }

  /** An element some supported selector of a style rule selects collects at least one entry. */
  lemma SelectedCollects(select: Matcher, soup: Soup, rules: seq<Rule>, ignore: bool, i: nat, rule: Rule, s: string)
    requires MatchAll(select, soup, StyleRules(rules), ignore).Success?
    requires rule in rules && rule.kind == STYLE_RULE && s in Selectors(rule)
    requires select(soup, s).Success? && i in select(soup, s).value
    ensures EntriesOf(i, StyleRules(rules), MatchAll(select, soup, StyleRules(rules), ignore).value) != []
  {
    var style := StyleRules(rules);
    var matched := MatchAll(select, soup, style, ignore).value;
    StyleRulesMembers(rules);
    assert rule in style;
    var k :| 0 <= k < |style| && style[k] == rule;
    MatchAllOutcome(select, soup, style, ignore);
    assert SelectAll(select, soup, Selectors(rule), ignore) == Success(matched[k]);
    SelectAllOutcome(select, soup, Selectors(rule), ignore);
    assert i in matched[k];
    EntriesOfEmpty(i, style, matched);
  }

  /** An element some supported selector of a style rule selects gets a `style`,
      and where it had one before, the former text stays at the end after a `;`. */
  lemma SelectedElementRestyled(select: Matcher, soup: Soup, rules: seq<Rule>, ignore: bool, spacer: string,
                                i: nat, rule: Rule, s: string)
    requires i < |soup.elements|
    requires Cascaded(select, soup, rules, ignore, spacer).Success?
    requires rule in rules && rule.kind == STYLE_RULE && s in Selectors(rule)
    requires select(soup, s).Success? && i in select(soup, s).value
    ensures var after := Cascaded(select, soup, rules, ignore, spacer).value.elements[i];
      && after.style.Some?
      && (soup.elements[i].style.Some? ==>
            exists computed :: after.style.value == computed + ";" + soup.elements[i].style.value)
  {
    CascadedElement(select, soup, rules, ignore, spacer, i);
    SelectedCollects(select, soup, rules, ignore, i, rule, s);
    var es := EntriesOf(i, StyleRules(rules), MatchAll(select, soup, StyleRules(rules), ignore).value);
    var computed := StyleText(ComputedDecls(es), spacer);
    assert Cascaded(select, soup, rules, ignore, spacer).value.elements[i]
           == Element(Some(NewStyle(soup.elements[i].style, computed)));
  }

  /** The former inline style stays at the end of the new one, so it comes after
      (and in a browser overrides) every inlined property: splitting the new
      text at semicolons gives the computed properties, then the former ones. */
  lemma OriginalStyleHasLastWord(original: string, computed: string)
    ensures Split(NewStyle(Some(original), computed), ';') == Split(computed, ';') + Split(original, ';')
  {
    SplitConcat(computed, original, ';');
  }

  /** A rule that is not a style rule (an `@media` block, an `@import`, ...)
      inlines nothing, wherever it stands in the sheet. */
  lemma NonStyleRuleInlinesNothing(select: Matcher, soup: Soup, a: seq<Rule>, r: Rule, b: seq<Rule>, ignore: bool, spacer: string)
    requires r.kind != STYLE_RULE
    ensures Cascaded(select, soup, a + [r] + b, ignore, spacer) == Cascaded(select, soup, a + b, ignore, spacer)
  {
    StyleRulesConcat(a + [r], b);
    StyleRulesConcat(a, [r]);
    StyleRulesConcat(a, b);
    assert [r][..0] == [];
    assert StyleRules([r]) == [];
    assert StyleRules(a + [r]) == StyleRules(a);
    assert StyleRules(a + [r] + b) == StyleRules(a + b);
  }

  /** Where no rule writes a name the element gets no value for it; otherwise it
      gets the value written by the cascade winner (highest specificity, the
      later entry among equals). */
  lemma ComputedValue(es: seq<Entry>, name: string)
    ensures Lookup(ComputedDecls(es), name).None? <==> forall j :: 0 <= j < |es| ==> !Declares(es[j], name)
    ensures Lookup(ComputedDecls(es), name).Some? ==>
      exists k :: Wins(es, k, name) && Lookup(ComputedDecls(es), name) == LastValue(es[k].props, name)
  {
    MergeLastWins(Flatten(StableSortBySpecificity(es)), name);
    CascadeWinner(es, name);
  }

  /** The winner's value is the one the element gets. */
  lemma WinnerValue(es: seq<Entry>, k: int, name: string)
    requires Wins(es, k, name)
    ensures Lookup(ComputedDecls(es), name) == LastValue(es[k].props, name)
  {
    ComputedValue(es, name);
    var k' :| Wins(es, k', name) && Lookup(ComputedDecls(es), name) == LastValue(es[k'].props, name);
    WinnerUnique(es, k, k', name);
  }

  /** A more specific entry wins whichever comes first. */
  lemma HigherSpecificityWins(es: seq<Entry>, k: int, name: string)
    requires 0 <= k < |es| && Declares(es[k], name)
    requires forall j :: 0 <= j < |es| && j != k && Declares(es[j], name) ==> es[j].specificity < es[k].specificity
    ensures Lookup(ComputedDecls(es), name) == LastValue(es[k].props, name)
  {
    WinnerValue(es, k, name);
  }

  /** Among equally specific entries the later one wins. */
  lemma LaterWinsAtEqualSpecificity(es: seq<Entry>, k: int, name: string)
    requires 0 <= k < |es| && Declares(es[k], name)
    requires forall j :: 0 <= j < |es| && Declares(es[j], name) ==> es[j].specificity == es[k].specificity
    requires forall j :: k < j < |es| ==> !Declares(es[j], name)
    ensures Lookup(ComputedDecls(es), name) == LastValue(es[k].props, name)
  {
    WinnerValue(es, k, name);
  }

  /** `#test { color: blue }` (100) beats `h1 { color: red }` (1) in either order. */
  lemma IdBeatsType()
    ensures var red := Entry(SelectorSpecificity((0, 0, 0, 1)), [Decl("color", "red")]);
            var blue := Entry(SelectorSpecificity((0, 1, 0, 0)), [Decl("color", "blue")]);
            && Lookup(ComputedDecls([red, blue]), "color") == Some("blue")
            && Lookup(ComputedDecls([blue, red]), "color") == Some("blue")
  {
    SpecificityOfSmallComponents(0, 0, 0, 1);
    SpecificityOfSmallComponents(0, 1, 0, 0);
    var red := Entry(1, [Decl("color", "red")]);
    var blue := Entry(100, [Decl("color", "blue")]);
    assert Declares(blue, "color") && Declares(red, "color");
    HigherSpecificityWins([red, blue], 1, "color");
    HigherSpecificityWins([blue, red], 0, "color");
  }

  /** `es` with entry `i` repeated right after itself. */
  function Doubled(es: seq<Entry>, i: nat): (es': seq<Entry>)
    requires i < |es|
    ensures |es'| == |es| + 1
    ensures forall j :: 0 <= j <= i ==> es'[j] == es[j]
    ensures forall j :: i < j <= |es| ==> es'[j] == es[j - 1]
  {
    es[..i + 1] + [es[i]] + es[i + 1..]
  }

  /** Repeating an entry keeps the set of writers of each name... */
  lemma DoubledDeclares(es: seq<Entry>, i: nat, name: string)
    requires i < |es|
    ensures (forall j :: 0 <= j < |es| ==> !Declares(es[j], name))
            <==> (forall j :: 0 <= j < |Doubled(es, i)| ==> !Declares(Doubled(es, i)[j], name))
  {
    var es' := Doubled(es, i);
    if exists j :: 0 <= j < |es'| && Declares(es'[j], name) {
      var j :| 0 <= j < |es'| && Declares(es'[j], name);
      var p := if j <= i then j else j - 1;
      assert es[p] == es'[j];
    }
    if exists j :: 0 <= j < |es| && Declares(es[j], name) {
      var j :| 0 <= j < |es| && Declares(es[j], name);
      var g := if j <= i then j else j + 1;
      assert es'[g] == es[j];
    }
  }

  /** ... and the winner's entry. */
  lemma DoubledWinner(es: seq<Entry>, i: nat, k': int, name: string)
    requires i < |es| && Wins(Doubled(es, i), k', name)
    ensures var k := if k' <= i then k' else k' - 1;
      Wins(es, k, name) && es[k] == Doubled(es, i)[k']
  {
    var es' := Doubled(es, i);
    var k := if k' <= i then k' else k' - 1;
    forall j | 0 <= j < |es| && Declares(es[j], name)
      ensures es[j].specificity < es[k].specificity || (es[j].specificity == es[k].specificity && j <= k)
    {
      var g := if j <= i then j else j + 1;
      assert es'[g] == es[j];
    }
  }

  /** An entry repeated right after itself (an element two selectors of one rule
      both select) changes no value. */
  lemma DuplicateEntryHarmless(es: seq<Entry>, i: nat, name: string)
    requires i < |es|
    ensures Lookup(ComputedDecls(Doubled(es, i)), name) == Lookup(ComputedDecls(es), name)
  {
    var es' := Doubled(es, i);
    ComputedValue(es, name);
    ComputedValue(es', name);
    DoubledDeclares(es, i, name);
    if Lookup(ComputedDecls(es'), name).Some? {
      var k' :| Wins(es', k', name) && Lookup(ComputedDecls(es'), name) == LastValue(es'[k'].props, name);
      DoubledWinner(es, i, k', name);
      WinnerValue(es, if k' <= i then k' else k' - 1, name);
    }
  }

  /** Two entries, the first scoring higher: the sort puts the second first. */
  lemma SortSwapsTwo(hi: Entry, lo: Entry)
    requires lo.specificity < hi.specificity
    ensures StableSortBySpecificity([hi, lo]) == [lo, hi]
  {
    var tags := Tags([hi, lo]);
    assert tags == [Tagged(hi, 0), Tagged(lo, 1)];
    assert tags[..1] == [Tagged(hi, 0)] && tags[..1][..0] == [];
    assert SortTags(tags[..1]) == [Tagged(hi, 0)];
    assert Insert([Tagged(hi, 0)], Tagged(lo, 1)) == [Tagged(lo, 1), Tagged(hi, 0)];
    assert SortTags(tags) == [Tagged(lo, 1), Tagged(hi, 0)];
  }

  /** The two sorted entries resolve to the class rule's property, then the group rule's. */
  lemma ClassThenGroupDecls(red: Entry, bold: Entry)
    requires red.props == [Decl("color", "red")] && bold.props == [Decl("font-weight", "bold")]
    ensures Merge(Flatten([red, bold])) == [Decl("color", "red"), Decl("font-weight", "bold")]
  {
    assert [red, bold][..1] == [red] && [red][..0] == [];
    var ds := [Decl("color", "red"), Decl("font-weight", "bold")];
    assert Flatten([red]) == red.props;
    assert Flatten([red, bold]) == ds;
    assert ds[..1] == [Decl("color", "red")] && ds[..1][..0] == [];
    assert Merge(ds[..1]) == [Decl("color", "red")];
  }

  /** `.b1,.b2 { font-weight:bold }` then `.c { color: red }`, on an element both
      select: the group rule scores 20 and the class rule 10, so the class rule
      sorts first and the element's declaration is `color` then `font-weight`,
      which reads `color: red;font-weight: bold` with cssutils' default spacer
      (`TwoPropertiesText`). */
  lemma CommaGroupExample()
    ensures var group := Rule(STYLE_RULE, ".b1,.b2", [(0, 0, 1, 0), (0, 0, 1, 0)], [Decl("font-weight", "bold")]);
            var single := Rule(STYLE_RULE, ".c", [(0, 0, 1, 0)], [Decl("color", "red")]);
            ComputedDecls([EntryOf(group), EntryOf(single)]) == [Decl("color", "red"), Decl("font-weight", "bold")]
  {
    var group := Rule(STYLE_RULE, ".b1,.b2", [(0, 0, 1, 0), (0, 0, 1, 0)], [Decl("font-weight", "bold")]);
    var single := Rule(STYLE_RULE, ".c", [(0, 0, 1, 0)], [Decl("color", "red")]);
    CommaGroupOutranksSingleClass(group.decls, single.decls);
    SortSwapsTwo(EntryOf(group), EntryOf(single));
    ClassThenGroupDecls(EntryOf(single), EntryOf(group));
  }

  /** One more rule: its entry, repeated as often as its selection lists `e`. */
  lemma EntriesOfSnoc(e: nat, rules: seq<Rule>, matched: seq<seq<nat>>, rule: Rule, found: seq<nat>)
    requires |rules| == |matched|
    ensures EntriesOf(e, rules + [rule], matched + [found])
            == EntriesOf(e, rules, matched) + Repeat(EntryOf(rule), multiset(found)[e])
  {
    assert (rules + [rule])[..|rules|] == rules;
    assert (matched + [found])[..|matched|] == matched;
  }

  /** How many times the selections `matched` list `e`, all rules together. */
  function Listings(e: nat, matched: seq<seq<nat>>): nat
  {
    if matched == [] then 0
    else Listings(e, matched[..|matched| - 1]) + multiset(matched[|matched| - 1])[e]
  }

  /** An element collects one entry for every time a rule's selection lists it. */
  lemma {:induction false} EntriesOfCount(e: nat, rules: seq<Rule>, matched: seq<seq<nat>>)
    requires |rules| == |matched|
    ensures |EntriesOf(e, rules, matched)| == Listings(e, matched)
  {
    if rules != [] {
      var n := |rules| - 1;
      EntriesOfCount(e, rules[..n], matched[..n]);
    }
  }

  /** The selection loop for one rule: `elements += select(soup, selector)` for
      every selector, re-raising an unsupported selector's exception unless
      the flag is set. */
  method SelectElements(select: Matcher, soup: Soup, sels: seq<string>, ignore: bool)
    returns (r: Result<seq<nat>, Error>)
    ensures r == SelectAll(select, soup, sels, ignore)
  {
    var elements: seq<nat> := [];
    var j := 0;
    while j < |sels|
      invariant 0 <= j <= |sels|
      invariant SelectAll(select, soup, sels[..j], ignore) == Success(elements)
    {
      assert sels[..j + 1][..j] == sels[..j];
      match select(soup, sels[j]) {
        case Success(found) =>
          elements := elements + found;
        case Failure(err) =>
          if !ignore {
            SelectAllPrefixFails(select, soup, sels, j + 1, ignore);
            return Failure(err);
          }
      }
      j := j + 1;
    }
    assert sels[..j] == sels;
    r := Success(elements);
  }

  /** `elem_prop_map.get(e, [])` */
  function Prior(propMap: map<nat, seq<Entry>>, e: nat): seq<Entry>
  {
    if e in propMap then propMap[e] else []
  }

  /** The keys of `elem_prop_map` after the elements `front` were added to those of `propMap`. */
  ghost predicate KeysJoin(r: map<nat, seq<Entry>>, propMap: map<nat, seq<Entry>>, front: seq<nat>)
  {
    forall e: nat :: e in r <==> e in propMap || e in front
  }

  /** Every list of `elem_prop_map` after `entry` was appended once per listing in `front`. */
  ghost predicate ValuesAppended(r: map<nat, seq<Entry>>, propMap: map<nat, seq<Entry>>, front: seq<nat>, entry: Entry)
  {
    forall e: nat :: e in r ==> r[e] == Prior(propMap, e) + Repeat(entry, multiset(front)[e])
  }

  lemma KeysJoinStep(r: map<nat, seq<Entry>>, propMap: map<nat, seq<Entry>>, front: seq<nat>, x: nat, entry: Entry)
    requires KeysJoin(r, propMap, front)
    ensures KeysJoin(r[x := Prior(r, x) + [entry]], propMap, front + [x])
  {
  }

  /** One more listing of `x` counts once more for `x` and for nothing else. */
  lemma CountSnoc(front: seq<nat>, x: nat, e: nat)
    ensures multiset(front + [x])[e] == multiset(front)[e] + (if e == x then 1 else 0)
  {
    assert multiset(front + [x]) == multiset(front) + multiset{x};
  }

  /** The list of the element just listed again grows by one entry. */
  lemma AppendedAt(r: map<nat, seq<Entry>>, propMap: map<nat, seq<Entry>>, front: seq<nat>, x: nat, entry: Entry)
    requires KeysJoin(r, propMap, front)
    requires ValuesAppended(r, propMap, front, entry)
    ensures Prior(r, x) + [entry] == Prior(propMap, x) + Repeat(entry, multiset(front)[x] + 1)
  {
    var n := multiset(front)[x];
    if x !in r {
      assert x !in front;
      AppendEmpty(Prior(propMap, x));
    }
    assert Repeat(entry, n + 1) == Repeat(entry, n) + [entry];
    AppendAssoc(Prior(propMap, x), Repeat(entry, n), [entry]);
  }

  lemma ValuesAppendedStep(r: map<nat, seq<Entry>>, propMap: map<nat, seq<Entry>>, front: seq<nat>, x: nat, entry: Entry)
    requires KeysJoin(r, propMap, front)
    requires ValuesAppended(r, propMap, front, entry)
    ensures ValuesAppended(r[x := Prior(r, x) + [entry]], propMap, front + [x], entry)
  {
    var r' := r[x := Prior(r, x) + [entry]];
    AppendedAt(r, propMap, front, x, entry);
    forall e: nat | e in r'
      ensures r'[e] == Prior(propMap, e) + Repeat(entry, multiset(front + [x])[e])
    {
      CountSnoc(front, x, e);
      if e == x {
        assert r'[e] == Prior(r, x) + [entry];
      } else {
        assert e in r && r'[e] == r[e];
      }
    }
  }

  /** `elem_prop_map[elem].append(...)` for every selected element, after
      `elem_prop_map[elem] = []` for one not seen before. */
  method AppendEntries(propMap: map<nat, seq<Entry>>, elements: seq<nat>, entry: Entry)
    returns (r: map<nat, seq<Entry>>)
    ensures KeysJoin(r, propMap, elements)
    ensures ValuesAppended(r, propMap, elements, entry)
  {
    r := propMap;
    var k := 0;
    while k < |elements|
      invariant 0 <= k <= |elements|
      invariant KeysJoin(r, propMap, elements[..k])
      invariant ValuesAppended(r, propMap, elements[..k], entry)
    {
      var e := elements[k];
      assert elements[..k + 1] == elements[..k] + [e];
      KeysJoinStep(r, propMap, elements[..k], e, entry);
      ValuesAppendedStep(r, propMap, elements[..k], e, entry);
      // `if elem not in elem_prop_map: elem_prop_map[elem] = []`, then the append
      r := r[e := Prior(r, e) + [entry]];
      k := k + 1;
    }
    assert elements[..k] == elements;
  }

  /** `elem_prop_map` agrees with `EntriesOf` for every element. */
  ghost predicate Tracks(propMap: map<nat, seq<Entry>>, rules: seq<Rule>, matched: seq<seq<nat>>)
    requires |rules| == |matched|
  {
    forall e: nat ::
      && (e in propMap <==> EntriesOf(e, rules, matched) != [])
      && (e in propMap ==> propMap[e] == EntriesOf(e, rules, matched))
  }

  /** One more rule on top of a pass that has succeeded so far. */
  lemma MatchAllStep(select: Matcher, soup: Soup, rules: seq<Rule>, i: nat, ignore: bool, matched: seq<seq<nat>>)
    requires i < |rules|
    requires MatchAll(select, soup, rules[..i], ignore) == Success(matched)
    ensures MatchAll(select, soup, rules[..i + 1], ignore)
            == match SelectAll(select, soup, Selectors(rules[i]), ignore)
               case Failure(err) => Failure(err)
               case Success(found) => Success(matched + [found])
  {
    assert rules[..i + 1][..i] == rules[..i];
  }

  /** A pass that has succeeded so far and then meets a failing rule fails with its error. */
  lemma MatchAllFailsAt(select: Matcher, soup: Soup, rules: seq<Rule>, i: nat, ignore: bool, matched: seq<seq<nat>>)
    requires i < |rules|
    requires MatchAll(select, soup, rules[..i], ignore) == Success(matched)
    requires SelectAll(select, soup, Selectors(rules[i]), ignore).Failure?
    ensures MatchAll(select, soup, rules, ignore) == Failure(SelectAll(select, soup, Selectors(rules[i]), ignore).error)
  {
    MatchAllStep(select, soup, rules, i, ignore, matched);
    MatchAllPrefixFails(select, soup, rules, i + 1, ignore);
  }

  /** Appending a rule's entries for its selection extends the tracking by that rule. */
  lemma TracksStep(propMap: map<nat, seq<Entry>>, next: map<nat, seq<Entry>>, rules: seq<Rule>, i: nat,
                   matched: seq<seq<nat>>, elements: seq<nat>)
    requires i < |rules| && i == |matched|
    requires Tracks(propMap, rules[..i], matched)
    requires KeysJoin(next, propMap, elements)
    requires ValuesAppended(next, propMap, elements, EntryOf(rules[i]))
    ensures Tracks(next, rules[..i + 1], matched + [elements])
  {
    assert rules[..i + 1] == rules[..i] + [rules[i]];
    forall e: nat
      ensures && (e in next <==> EntriesOf(e, rules[..i + 1], matched + [elements]) != [])
              && (e in next ==> next[e] == EntriesOf(e, rules[..i + 1], matched + [elements]))
    {
      EntriesOfSnoc(e, rules[..i], matched, rules[i], elements);
    }
  }

  /** The first loop of `_apply_styles`: select the elements of every style rule
      and append one entry per selected element to `elem_prop_map`. */
  method CollectEntries(select: Matcher, soup: Soup, rules: seq<Rule>, ignore: bool)
    returns (r: Result<map<nat, seq<Entry>>, Error>)
    ensures r.Failure? <==> MatchAll(select, soup, rules, ignore).Failure?
    ensures r.Failure? ==> r.error == MatchAll(select, soup, rules, ignore).error
    ensures r.Success? ==> Tracks(r.value, rules, MatchAll(select, soup, rules, ignore).value)
  {
    var propMap: map<nat, seq<Entry>> := map[];
    ghost var matched: seq<seq<nat>> := [];
    var i := 0;
    while i < |rules|
      invariant 0 <= i <= |rules|
      invariant MatchAll(select, soup, rules[..i], ignore) == Success(matched)
      invariant |matched| == i
      invariant Tracks(propMap, rules[..i], matched)
    {
      var rule := rules[i];
      var selected := SelectElements(select, soup, Selectors(rule), ignore);
      if selected.Failure? {
        MatchAllFailsAt(select, soup, rules, i, ignore, matched);
        return Failure(selected.error);
      }
      MatchAllStep(select, soup, rules, i, ignore, matched);
      var elements := selected.value;
      var next := AppendEntries(propMap, elements, EntryOf(rule));
      TracksStep(propMap, next, rules, i, matched, elements);
      propMap := next;
      matched := matched + [elements];
      i := i + 1;
    }
    assert rules[..i] == rules;
    r := Success(propMap);
  }

  /** `decl[name] = value` once more on top of the assignments already made. */
  lemma MergeSnoc(ds: seq<Decl>, d: Decl)
    ensures Merge(ds + [d]) == SetProperty(Merge(ds), d)
  {
    assert (ds + [d])[..|ds|] == ds;
  }

  lemma FlattenSnoc(es: seq<Entry>, a: nat)
    requires a < |es|
    ensures Flatten(es[..a + 1]) == Flatten(es[..a]) + es[a].props
  {
    assert es[..a + 1][..a] == es[..a];
  }

  /** `for prop in prop_list: decl[prop.name] = prop.value`, on a declaration
      that so far holds the writes `written`. */
  method AssignProperties(decl: seq<Decl>, props: seq<Decl>, ghost written: seq<Decl>) returns (r: seq<Decl>)
    requires decl == Merge(written)
    ensures r == Merge(written + props)
  {
    r := decl;
    ghost var ws := written;
    var b := 0;
    while b < |props|
      invariant 0 <= b <= |props|
      invariant ws == written + props[..b]
      invariant r == Merge(ws)
    {
      assert props[..b + 1] == props[..b] + [props[b]];
      MergeSnoc(ws, props[b]);
      ws := ws + [props[b]];
      r := SetProperty(r, props[b]);
      b := b + 1;
    }
    assert props[..b] == props;
  }

  /** For one element: sort its entries and assign their properties, in order,
      to a fresh `CSSStyleDeclaration`. */
  method Resolve(entries: seq<Entry>) returns (decl: seq<Decl>)
    ensures decl == ComputedDecls(entries)
  {
    var sorted := StableSortBySpecificity(entries);
    decl := [];
    var a := 0;
    while a < |sorted|
      invariant 0 <= a <= |sorted|
      invariant decl == Merge(Flatten(sorted[..a]))
    {
      FlattenSnoc(sorted, a);
      decl := AssignProperties(decl, sorted[a].props, Flatten(sorted[..a]));
      a := a + 1;
    }
    assert sorted[..a] == sorted;
  }

  /** The second loop of `_apply_styles`: resolve every collected element. */
  method ResolveDeclarations(propMap: map<nat, seq<Entry>>) returns (styleMap: map<nat, seq<Decl>>)
    ensures styleMap.Keys == propMap.Keys
    ensures forall e <- propMap :: styleMap[e] == ComputedDecls(propMap[e])
  {
    styleMap := map[];
    var todo := propMap.Keys;
    while todo != {}
      invariant todo <= propMap.Keys
      invariant styleMap.Keys == propMap.Keys - todo
      invariant forall e <- styleMap :: styleMap[e] == ComputedDecls(propMap[e])
      decreases todo
    {
      var e :| e in todo;
      var decl := Resolve(propMap[e]);
      styleMap := styleMap[e := decl];
      todo := todo - {e};
    }
  }

  /** The last loop of `_apply_styles`: every element of `elem_style_map` gets
      its `style` written from its declaration; every other element keeps its own. */
  method WriteStyles(elements: seq<Element>, styleMap: map<nat, seq<Decl>>, spacer: string)
    returns (r: seq<Element>)
    requires forall e <- styleMap :: e < |elements|
    ensures |r| == |elements|
    ensures forall i :: 0 <= i < |r| ==>
      r[i] == if i in styleMap then Element(Some(NewStyle(elements[i].style, StyleText(styleMap[i], spacer))))
              else elements[i]
  {
    r := elements;
    var todo := styleMap.Keys;
    while todo != {}
      invariant todo <= styleMap.Keys
      invariant |r| == |elements|
      invariant forall i :: 0 <= i < |r| ==>
        r[i] == if i in styleMap && i !in todo then Element(Some(NewStyle(elements[i].style, StyleText(styleMap[i], spacer))))
                else elements[i]
      decreases todo
    {
      var e :| e in todo;
      r := r[e := Element(Some(NewStyle(r[e].style, StyleText(styleMap[e], spacer))))];
      todo := todo - {e};
    }
  }

  /** soupselect returns elements of the soup, so every element that collects an
      entry is one of the soup's. */
  lemma CollectedWithin(select: Matcher, soup: Soup, rules: seq<Rule>, ignore: bool, e: nat)
    requires SelectsWithin(select)
    requires MatchAll(select, soup, rules, ignore).Success?
    requires EntriesOf(e, rules, MatchAll(select, soup, rules, ignore).value) != []
    ensures e < |soup.elements|
  {
    var matched := MatchAll(select, soup, rules, ignore).value;
    EntriesOfEmpty(e, rules, matched);
    var i :| 0 <= i < |rules| && e in matched[i];
    MatchAllOutcome(select, soup, rules, ignore);
    SelectAllOutcome(select, soup, Selectors(rules[i]), ignore);
    var s :| s in Selectors(rules[i]) && select(soup, s).Success? && e in select(soup, s).value;
  }

  /** The three loops of `_apply_styles` together compute the cascade: collecting
      entries, resolving them and writing the styles gives `Cascaded`. */
  lemma WrittenIsCascaded(select: Matcher, soup: Soup, rules: seq<Rule>, ignore: bool, spacer: string,
                          propMap: map<nat, seq<Entry>>, styleMap: map<nat, seq<Decl>>, written: seq<Element>)
    requires MatchAll(select, soup, StyleRules(rules), ignore).Success?
    requires Tracks(propMap, StyleRules(rules), MatchAll(select, soup, StyleRules(rules), ignore).value)
    requires styleMap.Keys == propMap.Keys
    requires forall e <- propMap :: styleMap[e] == ComputedDecls(propMap[e])
    requires |written| == |soup.elements|
    requires forall i :: 0 <= i < |written| ==>
      written[i] == if i in styleMap then Element(Some(NewStyle(soup.elements[i].style, StyleText(styleMap[i], spacer))))
                    else soup.elements[i]
    ensures Cascaded(select, soup, rules, ignore, spacer) == Success(soup.(elements := written))
  {
    var style := StyleRules(rules);
    var matched := MatchAll(select, soup, style, ignore).value;
    var after := Cascaded(select, soup, rules, ignore, spacer).value;
    forall i | 0 <= i < |written| ensures after.elements[i] == written[i] {
      CascadedElement(select, soup, rules, ignore, spacer, i);
      var es := EntriesOf(i, style, matched);
      assert i in propMap <==> es != [];
      if i in propMap {
        assert styleMap[i] == ComputedDecls(es);
      }
    }
    assert after.elements == written;
  }
}
