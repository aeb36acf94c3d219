/** The per-element `CSSStyleDeclaration` the cascade fills in: assigning
    `decl[name] = value` keeps one property per name, overwriting the value of
    an existing name where it stands and appending a new name at the end; and
    its `cssText` with the serializer's spacer after each colon. */
module Declarations {
  import opened Wrappers
  import opened Strings
  import opened Css

  function Names(decls: seq<Decl>): (ns: seq<string>)
    ensures |ns| == |decls|
  {
    seq(|decls|, i requires 0 <= i < |decls| => decls[i].name)
  }

  predicate DistinctNames(decls: seq<Decl>)
  {
    forall i, j :: 0 <= i < j < |decls| ==> decls[i].name != decls[j].name
  }

  /** The value a left-to-right reader of the writes `ds` ends up with for `name`:
      the last one written. */
  function LastValue(ds: seq<Decl>, name: string): Option<string>
  {
    if ds == [] then None
    else if ds[|ds| - 1].name == name then Some(ds[|ds| - 1].value)
    else LastValue(ds[..|ds| - 1], name)
  }

  /** A later write of a name hides every earlier one. */
  lemma {:induction false} LastValueConcat(a: seq<Decl>, b: seq<Decl>, name: string)
    ensures LastValue(a + b, name) == if LastValue(b, name).Some? then LastValue(b, name) else LastValue(a, name)
  {
    if b != [] {
      LastValueConcat(a, b[..|b| - 1], name);
      assert (a + b)[..|a + b| - 1] == a + b[..|b| - 1];
    } else {
      assert a + b == a;
    }
  }

  /** Where `name` first stands in `ns`. */
  function Position(ns: seq<string>, name: string): (r: Option<nat>)
    ensures r.Some? ==> r.value < |ns| && ns[r.value] == name
                        && forall j :: 0 <= j < r.value ==> ns[j] != name
    ensures r.None? <==> name !in ns
  {
    if ns == [] then None
    else if ns[0] == name then Some(0)
    else match Position(ns[1..], name)
      case Some(i) => Some(i + 1)
      case None => None
  }

  lemma PositionAppend(ns: seq<string>, x: string, name: string)
    requires x !in ns
    ensures Position(ns + [x], name) == if name == x then Some(|ns|) else Position(ns, name)
  {
    var r := Position(ns + [x], name);
    if name == x {
      assert (ns + [x])[|ns|] == x;
      assert forall j :: 0 <= j < |ns| ==> (ns + [x])[j] != x;
    } else if name in ns {
      var i := Position(ns, name).value;
      assert (ns + [x])[i] == name;
      assert forall j :: 0 <= j < |ns| ==> (ns + [x])[j] == ns[j];
    } else {
      assert name !in ns + [x];
    }
  }

  /** `decl.getPropertyValue(name)`, or None where the name is absent. */
  function Lookup(decls: seq<Decl>, name: string): Option<string>
  {
    match Position(Names(decls), name)
    case Some(i) => Some(decls[i].value)
    case None => None
  }

  /** `decl[d.name] = d.value`: overwrite where the name stands, else append. */
  function SetProperty(decls: seq<Decl>, d: Decl): seq<Decl>
  {
    match Position(Names(decls), d.name)
    case Some(i) => decls[i := d]
    case None => decls + [d]
  }

  /** An assignment keeps every name in its place and appends a new name at the
      end, so the names stay distinct. */
  lemma SetPropertyNames(decls: seq<Decl>, d: Decl)
    ensures Names(SetProperty(decls, d))
            == if d.name in Names(decls) then Names(decls) else Names(decls) + [d.name]
    ensures DistinctNames(decls) ==> DistinctNames(SetProperty(decls, d))
  {
    match Position(Names(decls), d.name)
    case Some(i) =>
      assert Names(decls[i := d]) == Names(decls);
    case None =>
      assert Names(decls + [d]) == Names(decls) + [d.name];
      assert forall j :: 0 <= j < |decls| ==> Names(decls)[j] == decls[j].name;
  }

  /** After the assignment `d.name` reads `d.value`, and every other name reads as before. */
  lemma SetPropertyValues(decls: seq<Decl>, d: Decl, name: string)
    ensures Lookup(SetProperty(decls, d), name) == if name == d.name then Some(d.value) else Lookup(decls, name)
  {
    var r := SetProperty(decls, d);
    SetPropertyNames(decls, d);
    if d.name in Names(decls) {
      var i := Position(Names(decls), d.name).value;
      assert r == decls[i := d];
    } else {
      PositionAppend(Names(decls), d.name, name);
      assert r == decls + [d];
    }
  }

  /** The declaration built by assigning `ds` in order, starting empty. */
  function Merge(ds: seq<Decl>): seq<Decl>
  {
    if ds == [] then [] else SetProperty(Merge(ds[..|ds| - 1]), ds[|ds| - 1])
  }

  /** A declaration holds each name at most once. */
  lemma {:induction false} MergeDistinct(ds: seq<Decl>)
    ensures DistinctNames(Merge(ds))
  {
    if ds != [] {
      MergeDistinct(ds[..|ds| - 1]);
      SetPropertyNames(Merge(ds[..|ds| - 1]), ds[|ds| - 1]);
    }
  }

  /** Last write wins: every name reads in the merge what was last written to it. */
  lemma {:induction false} MergeLastWins(ds: seq<Decl>, name: string)
    ensures Lookup(Merge(ds), name) == LastValue(ds, name)
  {
    if ds != [] {
      var init := ds[..|ds| - 1];
      MergeLastWins(init, name);
      SetPropertyValues(Merge(init), ds[|ds| - 1], name);
    }
  }

  /** The names of `ns` in order of first appearance. */
  function FirstAppearances(ns: seq<string>): seq<string>
  {
    if ns == [] then []
    else
      var seen := FirstAppearances(ns[..|ns| - 1]);
      if ns[|ns| - 1] in seen then seen else seen + [ns[|ns| - 1]]
  }

  /** Properties stand in the order their names were first written; an overwrite
      keeps its place. */
  lemma {:induction false} MergeOrder(ds: seq<Decl>)
    ensures Names(Merge(ds)) == FirstAppearances(Names(ds))
  {
    if ds != [] {
      var init := ds[..|ds| - 1];
      MergeOrder(init);
      SetPropertyNames(Merge(init), ds[|ds| - 1]);
      assert Names(ds)[..|ds| - 1] == Names(init);
    }
  }

  /** `name:<spacer>value`, as cssutils writes one property. */
  function DeclText(d: Decl, spacer: string): string
  {
    d.name + ":" + spacer + d.value
  }

  function DeclTexts(decls: seq<Decl>, spacer: string): (ts: seq<string>)
    ensures |ts| == |decls|
  {
    seq(|decls|, i requires 0 <= i < |decls| => DeclText(decls[i], spacer))
  }

  /** `CSSStyleDeclaration.cssText`: one property per line, no final semicolon. */
  function CssText(decls: seq<Decl>, spacer: string): string
  {
    Join(DeclTexts(decls, spacer), ";\n")
  }

  /** `cssText.replace('\n', '')`, the text written into a `style` attribute. */
  function StyleText(decls: seq<Decl>, spacer: string): string
  {
    RemoveChar(CssText(decls, spacer), '\n')
  }

  predicate NoNewline(decls: seq<Decl>, spacer: string)
  {
    '\n' !in spacer && forall d <- decls :: '\n' !in d.name && '\n' !in d.value
  }

  /** Dropping the newlines leaves the properties joined by bare semicolons. */
  lemma {:induction false} StyleTextIsSemicolonJoin(decls: seq<Decl>, spacer: string)
    requires NoNewline(decls, spacer)
    ensures StyleText(decls, spacer) == Join(DeclTexts(decls, spacer), ";")
  {
    var ts := DeclTexts(decls, spacer);
    if |decls| == 1 {
      RemoveCharAbsent(ts[0], '\n');
    } else if |decls| > 1 {
      StyleTextIsSemicolonJoin(decls[1..], spacer);
      assert DeclTexts(decls[1..], spacer) == ts[1..];
      RemoveCharAbsent(ts[0], '\n');
      RemoveCharConcat(ts[0], ";\n", '\n');
      RemoveCharConcat(ts[0] + ";\n", Join(ts[1..], ";\n"), '\n');
      assert RemoveChar(";\n", '\n') == ";" by {
        assert ";\n"[1..] == "\n";
        assert "\n"[1..] == [];
      }
    }
  }

  /** The text of a two-property declaration. */
  lemma TwoPropertiesText(d1: Decl, d2: Decl, spacer: string)
    requires NoNewline([d1, d2], spacer)
    ensures StyleText([d1, d2], spacer) == DeclText(d1, spacer) + ";" + DeclText(d2, spacer)
  {
    var texts := DeclTexts([d1, d2], spacer);
    StyleTextIsSemicolonJoin([d1, d2], spacer);
    assert texts[1..] == [DeclText(d2, spacer)];
  }

  /** A `style` text splits at its semicolons back into the properties it was made of. */
  lemma StyleTextSplitsIntoProperties(decls: seq<Decl>, spacer: string)
    requires |decls| >= 1
    requires NoNewline(decls, spacer)
    requires ';' !in spacer && forall d <- decls :: ';' !in d.name && ';' !in d.value
    ensures Split(StyleText(decls, spacer), ';') == DeclTexts(decls, spacer)
  {
    StyleTextIsSemicolonJoin(decls, spacer);
    var ts := DeclTexts(decls, spacer);
    forall t <- ts
      ensures ';' !in t
    {
      var i :| 0 <= i < |ts| && ts[i] == t;
      assert t == decls[i].name + ":" + spacer + decls[i].value;
    }
    SplitJoin(ts, ';');
  }
}
