// What the editor's table shows (AppModel.swift: `Filter`, `reloadData`,
// `sort(using:)`): the roots of the current language that the hide toggles,
// the filter criteria and the search text let through, ordered by a list of
// comparators over the key and state columns. The list is kept as positions
// into the one forest the model owns, so an edit to a root shows through.

module Projection {
  import opened Wrappers
  import opened Text
  import opened Languages
  import opened Items

  /** The criteria bar; `isNew` is the source's `new`. */
  datatype Filter = Filter(isNew: bool, translated: int, translationQuality: int, modified: bool,
                           needsReview: bool, needsWork: bool, translateLater: bool,
                           sourceEqualTranslation: bool)

  /** The declared defaults, and what `reset()` restores. */
  const Cleared: Filter := Filter(false, 0, 0, false, false, false, false, false)

  /** `hasOn`: some criterion is switched on. */
  predicate HasOn(f: Filter)
  {
    f.isNew || f.translated > 0 || f.translationQuality > 0 || f.modified || f.needsReview ||
    f.translateLater || f.needsWork || f.sourceEqualTranslation
  }

  /** The three hide toggles. */
  datatype Hidden = Hidden(translateLater: bool, stale: bool, dontTranslate: bool)

  /** Everything `reloadData` reads besides the forest. */
  datatype View = View(language: Language, hidden: Hidden, filter: Filter, searchText: string)

  // The predicates the criteria test on every leaf of a root.
  function HasTranslation(item: Item): bool { item.translation.Some? }
  function IsModifiedMark(item: Item): bool { item.isModified }
  function NeedsReviewMark(item: Item): bool { item.needsReview }
  function NeedsWorkMark(item: Item): bool { item.needsWork }
  function TranslateLaterMark(item: Item): bool { item.translateLater }
  /** `sourceString == translation`, an optional comparison: false without a translation. */
  function SourceIsTranslation(item: Item): bool { item.translation == Some(item.sourceString) }

  /** The verdict of a non-zero translation-quality criterion. */
  function QualityVerdict(item: Item, quality: int): (r: bool)
    requires 1 <= quality <= 4
    ensures quality == 1 ==> (r <==> item.reverseTranslation.None?)
    ensures quality > 1 && r ==> item.translation.Some? && item.reverseTranslation.Some?
    ensures quality == 2 ==> (r <==> item.reverseTranslation.Some? && Status(item) == Different)
    ensures quality == 3 ==> (r <==> item.reverseTranslation.Some? && Status(item) == Similar)
    ensures quality == 4 ==> (r <==> item.translation.Some? && item.reverseTranslation == Some(item.sourceString))
  {
    match quality
    case 1 => item.reverseTranslation.None?
    case 2 => item.reverseTranslation.Some? && Status(item) == Different
    case 3 => item.reverseTranslation.Some? && Status(item) == Similar
    case 4 => item.reverseTranslation.Some? && Status(item) == Exact
  }

  /**
   * The search: the lower-cased text occurs in the lower-cased translation
   * or source of the root, or else in the translation of one of its direct
   * children.
   */
  predicate SearchHit(item: Item, text: string)
    requires |text| > 0
  {
    (item.translation.Some? && Contains(Lower(item.translation.value), text)) ||
    Contains(Lower(item.sourceString), text) ||
    (item.children.HasChildren? &&
     exists i :: 0 <= i < |item.children.list| && item.children.list[i].translation.Some? &&
                 Contains(Lower(item.children.list[i].translation.value), text))
  }

  /** The criteria checked after the quality verdict, and the search. */
  predicate PassesLater(item: Item, v: View)
  {
    var f := v.filter;
    (!f.modified || ItemContains(item, IsModifiedMark)) &&
    (!f.needsReview || ItemContains(item, NeedsReviewMark)) &&
    (!f.needsWork || ItemContains(item, NeedsWorkMark)) &&
    (!f.translateLater || ItemContains(item, TranslateLaterMark)) &&
    (!f.sourceEqualTranslation || ItemContains(item, SourceIsTranslation)) &&
    (|v.searchText| == 0 || SearchHit(item, Lower(v.searchText)))
  }

  /**
   * The closure `reloadData` filters with, in its order: the language, the
   * hide toggles, the new and translated criteria, then a translation
   * quality that decides on its own, then the other criteria and the search.
   */
  predicate Keep(item: Item, v: View)
  {
    var f := v.filter;
    if item.language != v.language then false
    else if v.hidden.dontTranslate && !item.shouldTranslate then false
    else if v.hidden.translateLater && item.translateLater then false
    else if v.hidden.stale && item.isStale then false
    else if f.isNew && !ItemContains(item, Untranslated) then false
    else if f.translated == 1 && ItemContains(item, Untranslated) then false
    else if f.translated == 2 && ItemContains(item, HasTranslation) then false
    else if 1 <= f.translationQuality <= 4 then QualityVerdict(item, f.translationQuality)
    else PassesLater(item, v)
  }

  /**
   * A kept root is in the current language, not hidden by a toggle, and
   * meets the new and translated criteria on its leaves: some leaf lacks a
   * translation for `new`, every leaf has one for `translated == 1`, none
   * has one for `translated == 2`.
   */
  lemma KeptRoot(item: Item, v: View)
    requires Keep(item, v)
    ensures item.language == v.language
    ensures !(v.hidden.dontTranslate && !item.shouldTranslate)
    ensures !(v.hidden.translateLater && item.translateLater) && !(v.hidden.stale && item.isStale)
    ensures v.filter.isNew ==> exists l :: l in Leaves(item) && l.translation.None?
    ensures v.filter.translated == 1 ==> forall l :: l in Leaves(item) ==> l.translation.Some?
    ensures v.filter.translated == 2 ==> forall l :: l in Leaves(item) ==> l.translation.None?
  {
    ContainsLeaves(item, Untranslated);
    ContainsLeaves(item, HasTranslation);
  }

  /**
   * The later criteria hold on some leaf each: a kept root under the
   * modified criterion, with no quality verdict, has a modified leaf, and
   * likewise for review, work, translate-later and source-equals-translation.
   */
  lemma KeptRootLater(item: Item, v: View)
    requires Keep(item, v) && !(1 <= v.filter.translationQuality <= 4)
    ensures v.filter.modified ==> exists l :: l in Leaves(item) && l.isModified
    ensures v.filter.needsReview ==> exists l :: l in Leaves(item) && l.needsReview
    ensures v.filter.needsWork ==> exists l :: l in Leaves(item) && l.needsWork
    ensures v.filter.translateLater ==> exists l :: l in Leaves(item) && l.translateLater
    ensures v.filter.sourceEqualTranslation ==> exists l :: l in Leaves(item) && l.translation == Some(l.sourceString)
    ensures |v.searchText| > 0 ==> SearchHit(item, Lower(v.searchText))
  {
    ContainsLeaves(item, IsModifiedMark);
    ContainsLeaves(item, NeedsReviewMark);
    ContainsLeaves(item, NeedsWorkMark);
    ContainsLeaves(item, TranslateLaterMark);
    ContainsLeaves(item, SourceIsTranslation);
  }

  /**
   * A translation-quality criterion returns its verdict at once: the later
   * criteria and the search text make no difference.
   */
  lemma QualityDecides(item: Item, v: View, search: string, modified: bool, needsReview: bool,
                       needsWork: bool, translateLater: bool, sourceEqualTranslation: bool)
    requires 1 <= v.filter.translationQuality <= 4
    ensures Keep(item, v) ==
            Keep(item, v.(searchText := search,
                          filter := v.filter.(modified := modified, needsReview := needsReview, needsWork := needsWork,
                                              translateLater := translateLater,
                                              sourceEqualTranslation := sourceEqualTranslation)))
  {
  }

  /** With no criterion on, a root is kept by its language, the toggles and the search alone. */
  lemma NothingOn(item: Item, v: View)
    requires !HasOn(v.filter)
    ensures Keep(item, v) <==>
              item.language == v.language &&
              !(v.hidden.dontTranslate && !item.shouldTranslate) &&
              !(v.hidden.translateLater && item.translateLater) && !(v.hidden.stale && item.isStale) &&
              (|v.searchText| == 0 || SearchHit(item, Lower(v.searchText)))
  {
  }

  /** The search ignores the case of the search text. */
  lemma SearchIgnoresCase(item: Item, v: View)
    ensures Keep(item, v.(searchText := Upper(v.searchText))) == Keep(item, v)
    ensures Keep(item, v.(searchText := Lower(v.searchText))) == Keep(item, v)
  {
    LowerIgnoresCase(v.searchText);
  }

  // ---------------------------------------------------------------------
  // Comparators and the sort
  // ---------------------------------------------------------------------

  datatype Ordering = Ascending | Same | Descending

  function Flip(o: Ordering): Ordering
  {
    match o
    case Ascending => Descending
    case Same => Same
    case Descending => Ascending
  }

  /** The sortable columns of the table. */
  datatype Column = KeyColumn | StateColumn

  /** A `KeyPathComparator` over a column, forward or reverse. */
  datatype Comparator = Comparator(column: Column, forward: bool)

  /** Code-point comparison of two strings, character by character. */
  function CompareStrings(a: string, b: string): (o: Ordering)
    decreases |a|
    ensures o == Same <==> a == b
  {
    if |a| == 0 && |b| == 0 then Same
    else if |a| == 0 then Ascending
    else if |b| == 0 then Descending
    else if a[0] < b[0] then Ascending
    else if a[0] > b[0] then Descending
    else
      var o := CompareStrings(a[1..], b[1..]);
      assert o == Same ==> a == [a[0]] + a[1..] == [b[0]] + b[1..] == b;
      o
  }

  lemma {:induction false} CompareStringsFlip(a: string, b: string)
    decreases |a|
    ensures CompareStrings(b, a) == Flip(CompareStrings(a, b))
  {
    if |a| > 0 && |b| > 0 && a[0] == b[0] {
      CompareStringsFlip(a[1..], b[1..]);
    }
  }

  /**
   * The key column's comparison: the keys compared without regard to case
   * first, so that "b" comes before "C", and by code point only between
   * keys that differ in case alone.
   */
  function CompareKeys(a: string, b: string): (o: Ordering)
    ensures o == Same <==> a == b
    ensures Lower(a) != Lower(b) ==> o == CompareStrings(Lower(a), Lower(b))
  {
    var o := CompareStrings(Lower(a), Lower(b));
    if o != Same then o else CompareStrings(a, b)
  }

  lemma CompareKeysFlip(a: string, b: string)
    ensures CompareKeys(b, a) == Flip(CompareKeys(a, b))
  {
    CompareStringsFlip(Lower(a), Lower(b));
    CompareStringsFlip(a, b);
  }

  /** Keys that differ in more than case keep their order whatever case either is written in. */
  lemma CompareKeysIgnoresCase(a: string, b: string)
    requires Lower(a) != Lower(b)
    ensures CompareKeys(Upper(a), b) == CompareKeys(a, b) == CompareKeys(Lower(a), Lower(b))
  {
    LowerIgnoresCase(a);
    LowerIgnoresCase(b);
  }

  /** "b" comes before "C" among keys, though not by code point. */
  lemma CompareKeysExample()
    ensures CompareStrings("b", "C") == Descending && CompareKeys("b", "C") == Ascending
  {
    assert Lower("C") == "c";
    assert Lower("b") == "b";
  }

  /** `State` is `Comparable` by raw value. */
  function CompareStates(a: State, b: State): (o: Ordering)
    ensures o == Ascending <==> Below(a, b)
    ensures o == Descending <==> Below(b, a)
  {
    if Rank(a) < Rank(b) then Ascending else if Rank(a) > Rank(b) then Descending else Same
  }

  function CompareBy(c: Comparator, a: Item, b: Item): Ordering
  {
    var o := match c.column
             case KeyColumn => CompareKeys(a.key, b.key)
             case StateColumn => CompareStates(StateOf(a), StateOf(b));
    if c.forward then o else Flip(o)
  }

  /** A list of comparators: the first that tells the two apart decides. */
  function CompareAll(cs: seq<Comparator>, a: Item, b: Item): Ordering
  {
    if |cs| == 0 then Same
    else
      var o := CompareBy(cs[0], a, b);
      if o != Same then o else CompareAll(cs[1..], a, b)
  }

  /** Swapping the items flips the verdict, so the comparison is a total preorder's. */
  lemma {:induction false} CompareAllFlip(cs: seq<Comparator>, a: Item, b: Item)
    ensures CompareAll(cs, b, a) == Flip(CompareAll(cs, a, b))
  {
    if |cs| > 0 {
      CompareKeysFlip(a.key, b.key);
      CompareAllFlip(cs[1..], a, b);
    }
  }

  /** Every position of `ps` is a position of `forest`. */
  predicate Positions(forest: seq<Item>, ps: seq<nat>)
  {
    forall i :: 0 <= i < |ps| ==> ps[i] < |forest|
  }

  /** Neighbouring rows are never in descending order. */
  predicate Ordered(cs: seq<Comparator>, forest: seq<Item>, ps: seq<nat>)
    requires Positions(forest, ps)
  {
    forall i :: 0 <= i < |ps| - 1 ==> CompareAll(cs, forest[ps[i]], forest[ps[i + 1]]) != Descending
  }

  /** `p` goes before the first row it does not come after, so in front of the rows equal to it. */
  function Insert(cs: seq<Comparator>, forest: seq<Item>, p: nat, ps: seq<nat>): (r: seq<nat>)
    requires p < |forest| && Positions(forest, ps)
    ensures Positions(forest, r) && multiset(r) == multiset(ps) + multiset{p}
    ensures |r| > 0 && (r[0] == p || (|ps| > 0 && r[0] == ps[0]))
  {
    if |ps| == 0 || CompareAll(cs, forest[p], forest[ps[0]]) != Descending then [p] + ps
    else
      assert ps == [ps[0]] + ps[1..];
      [ps[0]] + Insert(cs, forest, p, ps[1..])
  }

  lemma {:induction false} InsertOrdered(cs: seq<Comparator>, forest: seq<Item>, p: nat, ps: seq<nat>)
    requires p < |forest| && Positions(forest, ps) && Ordered(cs, forest, ps)
    ensures Ordered(cs, forest, Insert(cs, forest, p, ps))
  {
    if |ps| > 0 && CompareAll(cs, forest[p], forest[ps[0]]) == Descending {
      InsertOrdered(cs, forest, p, ps[1..]);
      CompareAllFlip(cs, forest[p], forest[ps[0]]);
    }
  }

  /** The rows sorted by the comparators; rows that compare the same keep their order. */
  function Sort(cs: seq<Comparator>, forest: seq<Item>, ps: seq<nat>): (r: seq<nat>)
    requires Positions(forest, ps)
    ensures Positions(forest, r) && multiset(r) == multiset(ps)
  {
    if |ps| == 0 then []
    else
      assert ps == [ps[0]] + ps[1..];
      Insert(cs, forest, ps[0], Sort(cs, forest, ps[1..]))
  }

  /** Rows that all compare the same come out in the order they went in. */
  lemma {:induction false} SortKeepsTies(cs: seq<Comparator>, forest: seq<Item>, ps: seq<nat>)
    requires Positions(forest, ps)
    requires forall i, j :: 0 <= i < |ps| && 0 <= j < |ps| ==> CompareAll(cs, forest[ps[i]], forest[ps[j]]) == Same
    ensures Sort(cs, forest, ps) == ps
  {
    if |ps| > 0 {
      SortKeepsTies(cs, forest, ps[1..]);
      assert ps == [ps[0]] + ps[1..];
      if |ps| > 1 {
        assert CompareAll(cs, forest[ps[0]], forest[ps[1..][0]]) == Same;
      }
    }
  }

  /** The sort returns the same rows, in order. */
  lemma {:induction false} SortOrdered(cs: seq<Comparator>, forest: seq<Item>, ps: seq<nat>)
    requires Positions(forest, ps)
    ensures Ordered(cs, forest, Sort(cs, forest, ps))
  {
    if |ps| > 0 {
      SortOrdered(cs, forest, ps[1..]);
      InsertOrdered(cs, forest, ps[0], Sort(cs, forest, ps[1..]));
    }
  }

  /** The declared `sortOrder`: state, then key, both forward. */
  const DefaultOrder: seq<Comparator> := [Comparator(StateColumn, true), Comparator(KeyColumn, true)]

  /** `sort(using:)`: a lone state comparator gets a forward key comparator behind it. */
  function SortUsing(cs: seq<Comparator>): (r: seq<Comparator>)
    ensures cs <= r && |r| <= |cs| + 1
  {
    if |cs| == 1 && cs[0].column == StateColumn then cs + [Comparator(KeyColumn, true)] else cs
  }

  /**
   * Sorting by a lone state comparator, as `sort(using:)` does it, orders
   * the rows by state in the comparator's direction and rows of one state by
   * key; the declared default order does the same forward.
   */
  lemma StateThenKey(c: Comparator, forest: seq<Item>, ps: seq<nat>)
    requires c.column == StateColumn && Positions(forest, ps)
    ensures var r := Sort(SortUsing([c]), forest, ps);
            forall i :: 0 <= i < |r| - 1 ==> StateThenKeyPair(c, forest[r[i]], forest[r[i + 1]])
    ensures Sort(DefaultOrder, forest, ps) == Sort(SortUsing([Comparator(StateColumn, true)]), forest, ps)
  {
    var r := Sort(SortUsing([c]), forest, ps);
    SortOrdered(SortUsing([c]), forest, ps);
    forall i | 0 <= i < |r| - 1
      ensures StateThenKeyPair(c, forest[r[i]], forest[r[i + 1]])
    {
      StateThenKeyOrdered(c, forest[r[i]], forest[r[i + 1]]);
    }
    assert SortUsing([Comparator(StateColumn, true)]) == DefaultOrder;
  }

  /** `a` may precede `b`: by state in the comparator's direction, by key within a state. */
  predicate StateThenKeyPair(c: Comparator, a: Item, b: Item)
  {
    (if c.forward then !Below(StateOf(b), StateOf(a)) else !Below(StateOf(a), StateOf(b))) &&
    (StateOf(a) == StateOf(b) ==> CompareKeys(a.key, b.key) != Descending)
  }

  lemma StateThenKeyOrdered(c: Comparator, a: Item, b: Item)
    requires c.column == StateColumn && CompareAll(SortUsing([c]), a, b) != Descending
    ensures StateThenKeyPair(c, a, b)
  {
    var cs := SortUsing([c]);
    assert cs[1..][1..] == [];
  }

  // ---------------------------------------------------------------------
  // The visible rows
  // ---------------------------------------------------------------------

  /** The positions of the roots kept, in forest order. */
  function Kept(forest: seq<Item>, v: View): (ps: seq<nat>)
    ensures Positions(forest, ps)
    ensures forall i, j :: 0 <= i < j < |ps| ==> ps[i] < ps[j]
    ensures forall p: nat :: p in ps <==> p < |forest| && Keep(forest[p], v)
  {
    if |forest| == 0 then []
    else
      var front := Kept(forest[..|forest| - 1], v);
      assert forall p: nat :: p < |forest| - 1 ==> forest[..|forest| - 1][p] == forest[p];
      if Keep(forest[|forest| - 1], v) then front + [|forest| - 1] else front
  }

  /** `localizeItems` after `reloadData`: the kept roots sorted by the sort order. */
  function Visible(forest: seq<Item>, v: View, order: seq<Comparator>): seq<nat>
  {
    Sort(order, forest, Kept(forest, v))
  }

  /**
   * The visible rows are exactly the kept roots, each once, in the order
   * the comparators give.
   */
  lemma VisibleRows(forest: seq<Item>, v: View, order: seq<Comparator>)
    ensures var r := Visible(forest, v, order);
            Positions(forest, r) && Ordered(order, forest, r) &&
            (forall p: nat :: p in r <==> p < |forest| && Keep(forest[p], v)) &&
            forall p :: multiset(r)[p] <= 1
  {
    var ks := Kept(forest, v);
    var r := Sort(order, forest, ks);
    SortOrdered(order, forest, ks);
    forall p ensures multiset(r)[p] <= 1 && (p in r <==> p in ks) {
      DistinctOnce(ks, p);
      assert p in r <==> multiset(r)[p] > 0;
      assert p in ks <==> multiset(ks)[p] > 0;
    }
  }

  /** In a strictly increasing list a value occurs at most once. */
  lemma {:induction false} DistinctOnce(ps: seq<nat>, p: nat)
    requires forall i, j :: 0 <= i < j < |ps| ==> ps[i] < ps[j]
    ensures multiset(ps)[p] <= 1
  {
    if |ps| > 0 {
      var last := ps[|ps| - 1];
      var front := ps[..|ps| - 1];
      assert ps == front + [last];
      DistinctOnce(front, p);
      if p == last {
        assert p !in front by {
          forall i | 0 <= i < |front| ensures front[i] != p {
            assert front[i] == ps[i];
          }
        }
      }
    }
  }
}
