/** Parsed CSS as the inliner sees it through cssutils, and the specificity
    score it gives a rule (`_get_specificity_from_list`, `_get_rule_specificity`). */
module Css {
  import opened Strings

  /** cssutils' `CSSRule` type codes used by the inliner. */
  const UNKNOWN_RULE: nat := 0
  const STYLE_RULE: nat := 1
  const IMPORT_RULE: nat := 3
  const MEDIA_RULE: nat := 4
  const FONT_FACE_RULE: nat := 5

  /** One property of a rule's `style.getProperties()`. */
  datatype Decl = Decl(name: string, value: string)

  /** A selector's specificity as cssutils reports it: (inline, ids, classes, types). */
  type SpecificityTuple = (nat, nat, nat, nat)

  /** A top-level rule of a parsed sheet. For a style rule, `selectorText` is the
      comma group as written, `specificities` holds one tuple per selector of
      `selectorList`, and `decls` are its effective properties in order. */
  datatype Rule = Rule(kind: nat, selectorText: string,
                       specificities: seq<SpecificityTuple>, decls: seq<Decl>)

  /** `''.join(map(str, lst))` */
  function JoinedDigits(lst: seq<nat>): (s: string)
    ensures forall c <- s :: IsDigit(c)
  {
    if lst == [] then "" else JoinedDigits(lst[..|lst| - 1]) + DecimalText(lst[|lst| - 1])
  }

  /** `int(''.join(map(str, lst)))`; `int('')` raises, so the list is never empty. */
  function SpecificityFromList(lst: seq<nat>): nat
    requires |lst| > 0
  {
    DecimalValue(JoinedDigits(lst))
  }

  /** Arithmetic reading of the joined text: each component shifts what came
      before it left by as many decimal places as the component has digits. */
  function ShiftedSum(lst: seq<nat>): nat
  {
    if lst == [] then 0
    else ShiftedSum(lst[..|lst| - 1]) * Pow10(|DecimalText(lst[|lst| - 1])|) + lst[|lst| - 1]
  }

  lemma {:induction false} JoinedDigitsValue(lst: seq<nat>)
    ensures DecimalValue(JoinedDigits(lst)) == ShiftedSum(lst)
  {
    if lst != [] {
      var init, x := lst[..|lst| - 1], lst[|lst| - 1];
      JoinedDigitsValue(init);
      DecimalValueAppend(JoinedDigits(init), DecimalText(x));
      DecimalRoundTrip(x);
    }
  }

  /** The joined-text score equals the digit-shifted sum of the components. */
  lemma SpecificityIsShiftedSum(lst: seq<nat>)
    requires |lst| > 0
    ensures SpecificityFromList(lst) == ShiftedSum(lst)
  {
    JoinedDigitsValue(lst);
  }

  /** With every component below ten the score is the positional number
      a·1000 + b·100 + c·10 + d, e.g. (1, 0, 0, 1) gives 1001. */
  lemma SpecificityOfSmallComponents(a: nat, b: nat, c: nat, d: nat)
    requires a < 10 && b < 10 && c < 10 && d < 10
    ensures SpecificityFromList([a, b, c, d]) == a * 1000 + b * 100 + c * 10 + d
  {
    var lst := [a, b, c, d];
    JoinedDigitsValue(lst);
    assert lst[..3] == [a, b, c] && [a, b, c][..2] == [a, b] && [a, b][..1] == [a];
    assert [a][..0] == [];
    assert Pow10(1) == 10;
    assert ShiftedSum([a]) == a;
    assert ShiftedSum([a, b]) == a * 10 + b;
    assert ShiftedSum([a, b, c]) == (a * 10 + b) * 10 + c;
  }

  /** A component of ten or more spills into its neighbour's digit: (0, 0, 1, 10)
      scores 110, not the 1·10 + 10 = 20 a per-place weighting would give. */
  lemma LargeComponentShiftsNeighbours()
    ensures SpecificityFromList([0, 0, 1, 10]) == 110
  {
    var lst: seq<nat> := [0, 0, 1, 10];
    JoinedDigitsValue(lst);
    assert lst[..3] == [0, 0, 1] && [0, 0, 1][..2] == [0, 0] && [0, 0][..1] == [0];
    var z: seq<nat> := [0];
    assert z[..0] == [];
    assert DecimalText(10) == DecimalText(1) + [DigitChar(0)];
  }

  function SelectorSpecificity(t: SpecificityTuple): nat
  {
    SpecificityFromList([t.0, t.1, t.2, t.3])
  }

  function SumSpecificities(ts: seq<SpecificityTuple>): nat
  {
    if ts == [] then 0 else SumSpecificities(ts[..|ts| - 1]) + SelectorSpecificity(ts[|ts| - 1])
  }

  /** `_get_rule_specificity`: summed over every selector of the comma group. */
  function RuleSpecificity(rule: Rule): nat
  {
    SumSpecificities(rule.specificities)
  }

  /** Specificity of a comma group is additive over the group. */
  lemma {:induction false} SumSpecificitiesAppend(a: seq<SpecificityTuple>, b: seq<SpecificityTuple>)
    ensures SumSpecificities(a + b) == SumSpecificities(a) + SumSpecificities(b)
  {
    if b != [] {
      SumSpecificitiesAppend(a, b[..|b| - 1]);
      assert (a + b)[..|a + b| - 1] == a + b[..|b| - 1];
    } else {
      assert a + b == a;
    }
  }

  /** Every selector of the group contributes, matched or not: the rule's score is
      at least the score of each of its selectors. */
  lemma {:induction false} EverySelectorCounts(ts: seq<SpecificityTuple>, i: nat)
    requires i < |ts|
    ensures SelectorSpecificity(ts[i]) <= SumSpecificities(ts)
  {
    if i < |ts| - 1 {
      EverySelectorCounts(ts[..|ts| - 1], i);
    }
  }

  /** `.b1,.b2` scores 10 + 10 = 20 and so outranks `.c` at 10. */
  lemma CommaGroupOutranksSingleClass(decls1: seq<Decl>, decls2: seq<Decl>)
    ensures RuleSpecificity(Rule(STYLE_RULE, ".b1,.b2", [(0, 0, 1, 0), (0, 0, 1, 0)], decls1)) == 20
    ensures RuleSpecificity(Rule(STYLE_RULE, ".c", [(0, 0, 1, 0)], decls2)) == 10
  {
    SpecificityOfSmallComponents(0, 0, 1, 0);
    var two: seq<SpecificityTuple> := [(0, 0, 1, 0), (0, 0, 1, 0)];
    assert two[..1][..0] == [] && two[..1] == [(0, 0, 1, 0)];
    var one: seq<SpecificityTuple> := [(0, 0, 1, 0)];
    assert one[..0] == [];
  }
}
