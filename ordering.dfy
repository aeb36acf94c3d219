/** The per-element list of candidate declarations, the stable ascending sort
    by specificity, and which entry's value the merge lets win. */
module Ordering {
  import opened Wrappers
  import opened Css
  import opened Declarations

  /** `{'specificity': ..., 'props': rule.style.getProperties()}` */
  datatype Entry = Entry(specificity: nat, props: seq<Decl>)

  /** An entry together with its place in the unsorted list. */
  datatype Tagged = Tagged(entry: Entry, position: nat)

  /** The order a stable sort by specificity produces: by specificity, and by
      original place where specificities are equal. */
  predicate Precedes(a: Tagged, b: Tagged)
  {
    a.entry.specificity < b.entry.specificity
    || (a.entry.specificity == b.entry.specificity && a.position < b.position)
  }

  predicate Increasing(ts: seq<Tagged>)
  {
    forall i, j :: 0 <= i < j < |ts| ==> Precedes(ts[i], ts[j])
  }

  predicate DistinctPositions(ts: seq<Tagged>)
  {
    forall i, j :: 0 <= i < j < |ts| ==> ts[i].position != ts[j].position
  }

  function Tags(es: seq<Entry>): (ts: seq<Tagged>)
    ensures |ts| == |es|
  {
    seq(|es|, i requires 0 <= i < |es| => Tagged(es[i], i))
  }

  function Insert(ts: seq<Tagged>, t: Tagged): (r: seq<Tagged>)
    ensures multiset(r) == multiset(ts) + multiset{t}
  {
    if ts == [] then [t]
    else if Precedes(t, ts[0]) then [t] + ts
    else
      assert ts == [ts[0]] + ts[1..];
      [ts[0]] + Insert(ts[1..], t)
  }

  lemma {:induction false} InsertIncreasing(ts: seq<Tagged>, t: Tagged)
    requires Increasing(ts)
    requires forall u <- ts :: u.position != t.position
    ensures Increasing(Insert(ts, t))
  {
    if ts != [] {
      if Precedes(t, ts[0]) {
        var r := [t] + ts;
        forall i, j | 0 <= i < j < |r| ensures Precedes(r[i], r[j]) {
          if i == 0 && j > 1 {
            assert Precedes(ts[0], ts[j - 1]);
          }
        }
      } else {
        assert ts[0] in ts;
        assert Precedes(ts[0], t);
        InsertIncreasing(ts[1..], t);
        var rest := Insert(ts[1..], t);
        forall u | u in rest ensures Precedes(ts[0], u) {
          assert u in multiset(rest);
          if u != t {
            assert u in ts[1..];
          }
        }
        var r := [ts[0]] + rest;
        forall i, j | 0 <= i < j < |r| ensures Precedes(r[i], r[j]) {
          if i == 0 {
            assert r[j] == rest[j - 1] && rest[j - 1] in rest;
          } else {
            assert r[i] == rest[i - 1] && r[j] == rest[j - 1];
          }
        }
      }
    }
  }

  /** Insertion sort on tagged entries. */
  function SortTags(ts: seq<Tagged>): (r: seq<Tagged>)
    ensures multiset(r) == multiset(ts)
  {
    if ts == [] then []
    else
      assert ts == ts[..|ts| - 1] + [ts[|ts| - 1]];
      Insert(SortTags(ts[..|ts| - 1]), ts[|ts| - 1])
  }

  lemma {:induction false} SortTagsIncreasing(ts: seq<Tagged>)
    requires DistinctPositions(ts)
    ensures Increasing(SortTags(ts))
  {
    if ts != [] {
      var init, last := ts[..|ts| - 1], ts[|ts| - 1];
      SortTagsIncreasing(init);
      forall u <- SortTags(init) ensures u.position != last.position {
        assert u in multiset(SortTags(init));
        var i :| 0 <= i < |init| && init[i] == u;
      }
      InsertIncreasing(SortTags(init), last);
    }
  }

  /** `sorted(props, key=lambda p: p['specificity'])`: Python's sort is stable,
      so this is the arrangement by specificity that keeps equal ones in place. */
  function StableSortBySpecificity(es: seq<Entry>): seq<Entry>
  {
    var ts := SortTags(Tags(es));
    seq(|ts|, i requires 0 <= i < |ts| => ts[i].entry)
  }

  /** Where each sorted entry stood before the sort. */
  function SortedPositions(es: seq<Entry>): seq<nat>
  {
    var ts := SortTags(Tags(es));
    seq(|ts|, i requires 0 <= i < |ts| => ts[i].position)
  }

  /** The sort is a permutation that orders by specificity and, among equal
      specificities, keeps the original order. */
  lemma StableSortIsStable(es: seq<Entry>)
    ensures |StableSortBySpecificity(es)| == |SortedPositions(es)| == |es|
    ensures forall i :: 0 <= i < |es| ==>
      SortedPositions(es)[i] < |es| && StableSortBySpecificity(es)[i] == es[SortedPositions(es)[i]]
    ensures forall j :: 0 <= j < |es| ==> j in SortedPositions(es)
    ensures forall i, j :: 0 <= i < j < |es| ==>
      var r, perm := StableSortBySpecificity(es), SortedPositions(es);
      r[i].specificity < r[j].specificity
      || (r[i].specificity == r[j].specificity && perm[i] < perm[j])
  {
    var tags := Tags(es);
    var ts := SortTags(tags);
    var r, perm := StableSortBySpecificity(es), SortedPositions(es);
    assert |ts| == |multiset(ts)| == |multiset(tags)| == |es|;
    assert DistinctPositions(tags);
    SortTagsIncreasing(tags);
    forall i | 0 <= i < |es| ensures perm[i] < |es| && r[i] == es[perm[i]] {
      assert ts[i] in multiset(tags);
      var k :| 0 <= k < |tags| && tags[k] == ts[i];
    }
    forall j | 0 <= j < |es| ensures j in perm {
      assert tags[j] in multiset(ts);
      var i :| 0 <= i < |ts| && ts[i] == tags[j];
      assert perm[i] == j;
    }
  }

  /** The writes of the entries, in order. */
  function Flatten(es: seq<Entry>): seq<Decl>
  {
    if es == [] then [] else Flatten(es[..|es| - 1]) + es[|es| - 1].props
  }

  predicate Declares(entry: Entry, name: string)
  {
    LastValue(entry.props, name).Some?
  }

  /** The last entry that writes `name`, if any. */
  function LastDeclaring(es: seq<Entry>, name: string): (m: Option<nat>)
    ensures m.None? <==> forall p :: 0 <= p < |es| ==> !Declares(es[p], name)
    ensures m.Some? ==> m.value < |es| && Declares(es[m.value], name)
                        && forall p :: m.value < p < |es| ==> !Declares(es[p], name)
  {
    if es == [] then None
    else if Declares(es[|es| - 1], name) then Some(|es| - 1)
    else
      var m := LastDeclaring(es[..|es| - 1], name);
      assert forall p :: 0 <= p < |es| - 1 ==> es[p] == es[..|es| - 1][p];
      m
  }

  /** Reading the writes of several entries, the last entry that writes a name decides it. */
  lemma {:induction false} LastValueFlatten(es: seq<Entry>, name: string)
    ensures LastValue(Flatten(es), name)
            == match LastDeclaring(es, name)
               case None => None
               case Some(m) => LastValue(es[m].props, name)
  {
    if es != [] {
      var init, last := es[..|es| - 1], es[|es| - 1];
      LastValueFlatten(init, name);
      LastValueConcat(Flatten(init), last.props, name);
      if !Declares(last, name) {
        match LastDeclaring(init, name)
        case None =>
        case Some(m) => assert es[m] == init[m];
      }
    }
  }

  /** Cascade order among the entries that write `name` (CSS 2.1, section 6.4.1,
      with source order standing for the entries' order): the highest specificity
      wins, and among equals the latest. */
  ghost predicate Wins(es: seq<Entry>, k: int, name: string)
  {
    0 <= k < |es| && Declares(es[k], name)
    && forall j :: 0 <= j < |es| && Declares(es[j], name) ==>
         es[j].specificity < es[k].specificity
         || (es[j].specificity == es[k].specificity && j <= k)
  }

  /** Sorting stably by specificity and letting the last write win gives each name
      the value of its cascade winner, and no value where no entry writes it. */
  lemma CascadeWinner(es: seq<Entry>, name: string)
    ensures var v := LastValue(Flatten(StableSortBySpecificity(es)), name);
      && (v.None? <==> forall j :: 0 <= j < |es| ==> !Declares(es[j], name))
      && (v.Some? ==> exists k :: Wins(es, k, name) && v == LastValue(es[k].props, name))
  {
    var r, perm := StableSortBySpecificity(es), SortedPositions(es);
    StableSortIsStable(es);
    LastValueFlatten(r, name);
    var v := LastValue(Flatten(r), name);
    match LastDeclaring(r, name)
    case None =>
      forall j | 0 <= j < |es| ensures !Declares(es[j], name) {
        assert j in perm;
        var i :| 0 <= i < |perm| && perm[i] == j;
        assert r[i] == es[j];
      }
    case Some(m) =>
      var k := perm[m];
      assert r[m] == es[k];
      forall j | 0 <= j < |es| && Declares(es[j], name)
        ensures es[j].specificity < es[k].specificity || (es[j].specificity == es[k].specificity && j <= k)
      {
        assert j in perm;
        var i :| 0 <= i < |perm| && perm[i] == j;
        assert r[i] == es[j];
        if i != m {
          assert i < m;
        }
      }
      assert Wins(es, k, name);
  }

  /** There is at most one winner. */
  lemma WinnerUnique(es: seq<Entry>, k1: int, k2: int, name: string)
    requires Wins(es, k1, name) && Wins(es, k2, name)
    ensures k1 == k2
  {
  }
}
