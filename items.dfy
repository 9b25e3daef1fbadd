// The editable item tree (LocalizeItem.swift): one node per translatable
// string or variant slot, its derived state and status, the subtree query,
// id arithmetic and lookup by id.

module Items {
  import opened Wrappers
  import opened Text
  import opened Languages
  import Catalog

  /** Separates an entry key from the language code in an item id. */
  const Divider: string := "|XCSTRINGEDITORDIVIDER|"

  /** The derived state of an item; declaration order is the raw value. */
  datatype State = New | NeedsWork | NeedsReview | TranslateLater | DontTranslate | Stale | Translated

  function Rank(s: State): nat
  {
    match s
    case New => 0
    case NeedsWork => 1
    case NeedsReview => 2
    case TranslateLater => 3
    case DontTranslate => 4
    case Stale => 5
    case Translated => 6
  }

  /** `<` on states compares raw values. */
  predicate Below(a: State, b: State)
  {
    Rank(a) < Rank(b)
  }

  /** Raw values are distinct, so `Below` is a strict total order. */
  lemma StateTotalOrder(a: State, b: State, c: State)
    ensures Below(a, b) || a == b || Below(b, a)
    ensures !(Below(a, b) && Below(b, a)) && !Below(a, a)
    ensures Below(a, b) && Below(b, c) ==> Below(a, c)
  {
  }

  datatype TranslationStatus = MissingTranslation | MissingReverse | Different | Similar | Exact

  datatype Item = Item(
    id: string,
    parentID: Option<string>,
    key: string,
    sourceString: string,
    comment: Option<string>,
    language: Language,
    translation: Option<string>,
    reverseTranslation: Option<string>,
    pluralType: Option<Catalog.PluralType>,
    deviceType: Option<Catalog.DeviceType>,
    isStale: bool,
    translateLater: bool,
    needsWork: bool,
    needsReview: bool,
    shouldTranslate: bool,
    isModified: bool,
    children: Children)

  /** `children`: nil for a leaf, otherwise the (possibly empty) child list. */
  datatype Children = NoChildren | HasChildren(list: seq<Item>)

  /**
   * The initialiser: the parameters the builder passes, with the declared
   * defaults for the rest (no parent, no reverse translation, no variant
   * type, flags off, unmodified, a leaf).
   */
  function Init(id: string, key: string, sourceString: string, comment: Option<string>,
                language: Language, translation: Option<string>, isStale: bool,
                needsReview: bool, shouldTranslate: bool): Item
  {
    Item(id, None, key, sourceString, comment, language, translation, None, None, None,
         isStale, false, false, needsReview, shouldTranslate, false, NoChildren)
  }

  /**
   * `itemContains`: a leaf answers `matching` itself; a node with children
   * answers whether some child subtree does, and is never matched itself.
   */
  predicate ItemContains(item: Item, matching: Item -> bool)
    decreases item
  {
    if item.children.NoChildren? then matching(item)
    else exists i :: 0 <= i < |item.children.list| && ItemContains(item.children.list[i], matching)
  }

  /** The leaves of a tree: the nodes `itemContains` actually tests. */
  ghost function Leaves(item: Item): set<Item>
    decreases item
  {
    if item.children.NoChildren? then {item}
    else
      var cs := item.children.list;
      set i, l | 0 <= i < |cs| && l in Leaves(cs[i]) :: l
  }

  lemma {:induction false} ContainsLeaves(item: Item, matching: Item -> bool)
    decreases item
    ensures ItemContains(item, matching) <==> exists l :: l in Leaves(item) && matching(l)
  {
    if item.children.HasChildren? {
      var cs := item.children.list;
      forall i | 0 <= i < |cs| {
        ContainsLeaves(cs[i], matching);
      }
      if ItemContains(item, matching) {
        var i :| 0 <= i < |cs| && ItemContains(cs[i], matching);
        var l :| l in Leaves(cs[i]) && matching(l);
        assert l in Leaves(item);
      }
    }
  }

  /** A childless node with an empty children list has no leaves at all. */
  lemma EmptyChildrenContainNothing(item: Item, matching: Item -> bool)
    requires item.children == HasChildren([])
    ensures !ItemContains(item, matching)
  {
  }

  function Untranslated(item: Item): bool
  {
    item.translation.None?
  }

  /**
   * `state`, checked in priority order: don't-translate, translate-later,
   * needs-work, stale, needs-review, and then new when some leaf still lacks
   * a translation and translated otherwise.
   */
  function StateOf(item: Item): (s: State)
    ensures s == DontTranslate <==> !item.shouldTranslate
    ensures s == TranslateLater <==> item.shouldTranslate && item.translateLater
    ensures s == NeedsWork <==> item.shouldTranslate && !item.translateLater && item.needsWork
    ensures s == Stale <==> item.shouldTranslate && !item.translateLater && !item.needsWork && item.isStale
    ensures s == NeedsReview <==>
              item.shouldTranslate && !item.translateLater && !item.needsWork && !item.isStale && item.needsReview
    ensures s == New <==>
              item.shouldTranslate && !item.translateLater && !item.needsWork && !item.isStale && !item.needsReview &&
              exists l :: l in Leaves(item) && l.translation.None?
    ensures s == Translated <==>
              item.shouldTranslate && !item.translateLater && !item.needsWork && !item.isStale && !item.needsReview &&
              forall l :: l in Leaves(item) ==> l.translation.Some?
  {
    ContainsLeaves(item, Untranslated);
    if !item.shouldTranslate then DontTranslate
    else if item.translateLater then TranslateLater
    else if item.needsWork then NeedsWork
    else if item.isStale then Stale
    else if item.needsReview then NeedsReview
    else if ItemContains(item, Untranslated) then New
    else Translated
  }

  /** A freshly initialised item's state follows from the initialiser's arguments. */
  lemma InitState(id: string, key: string, sourceString: string, comment: Option<string>,
                  language: Language, translation: Option<string>, isStale: bool,
                  needsReview: bool, shouldTranslate: bool)
    ensures StateOf(Init(id, key, sourceString, comment, language, translation, isStale, needsReview, shouldTranslate))
            == if !shouldTranslate then DontTranslate
               else if isStale then Stale
               else if needsReview then NeedsReview
               else if translation.None? then New
               else Translated
  {
    var item := Init(id, key, sourceString, comment, language, translation, isStale, needsReview, shouldTranslate);
    assert Leaves(item) == {item};
  }

  /**
   * `translationStatus`: missing translation, then missing reverse
   * translation, then an exact match of the reverse with the source, then a
   * match after upper-casing, and otherwise different.
   */
  function Status(item: Item): (r: TranslationStatus)
    ensures r == MissingTranslation <==> item.translation.None?
    ensures r == MissingReverse <==> item.translation.Some? && item.reverseTranslation.None?
    ensures r == Exact <==> item.translation.Some? && item.reverseTranslation == Some(item.sourceString)
    ensures r == Similar <==>
              item.translation.Some? && item.reverseTranslation.Some? &&
              item.reverseTranslation.value != item.sourceString &&
              Upper(item.sourceString) == Upper(item.reverseTranslation.value)
  {
    if item.translation.None? then MissingTranslation
    else if item.reverseTranslation.None? then MissingReverse
    else if item.sourceString == item.reverseTranslation.value then Exact
    else if Upper(item.sourceString) == Upper(item.reverseTranslation.value) then Similar
    else Different
  }

  /**
   * Exact and similar never hold together, and together they are exactly
   * the items whose reverse translation matches the source up to case.
   */
  lemma ExactOrSimilar(item: Item)
    ensures !(Status(item) == Exact && Status(item) == Similar)
    ensures Status(item) in {Exact, Similar} <==>
              item.translation.Some? && item.reverseTranslation.Some? &&
              Upper(item.sourceString) == Upper(item.reverseTranslation.value)
  {
  }

  /** `==`: id, translation, reverse translation, state and modified mark. */
  predicate SameItem(a: Item, b: Item)
  {
    a.id == b.id && a.translation == b.translation && a.reverseTranslation == b.reverseTranslation &&
    StateOf(a) == StateOf(b) && a.isModified == b.isModified
  }

  /** `hash(into:)` feeds the id alone. */
  function HashKey(item: Item): string
  {
    item.id
  }

  /** Equal items hash equally, as `Hashable` demands. */
  lemma EqualItemsHashEqually(a: Item, b: Item)
    ensures SameItem(a, b) ==> HashKey(a) == HashKey(b)
  {
  }

  // ---------------------------------------------------------------- ids

  /** The root id of an entry key in a language. */
  function RootID(key: string, l: Language): string
  {
    key + Divider + Code(l)
  }

  /** The id of a variant child: the parent id, `/`, the variant's raw value. */
  function ChildID(parentID: string, raw: string): string
  {
    parentID + "/" + raw
  }

  /**
   * `baseID`: the text before the first divider, the divider, and the part
   * after it up to the first `/`. Without a divider the source indexes past
   * the end of `components`, so a divider is required.
   */
  function BaseID(id: string): (b: string)
    requires Find(id, Divider).Some?
  {
    var parts := Split(id, Divider);
    parts[0] + Divider + Split(parts[1], "/")[0]
  }

  /**
   * The decomposition `baseID` works on: the key part, and the language
   * part that runs from the divider to the first `/` or the next divider.
   */
  lemma BaseIDParts(id: string) returns (i: nat, lang: string)
    requires Find(id, Divider).Some?
    ensures i == Find(id, Divider).value
    ensures BaseID(id) == id[..i] + Divider + lang
    ensures Free(lang, Divider) && Free(lang, "/")
  {
    i := Find(id, Divider).value;
    var parts := Split(id, Divider);
    SplitHead(id, Divider);
    lang := Split(parts[1], "/")[0];
    SplitHead(parts[1], "/");
    SplitPartsFree(id, Divider);
    SplitPartsFree(parts[1], "/");
    FreePrefix(parts[1], lang, Divider);
  }

  /** `baseID` of a base id is that id again. */
  lemma BaseIDIdempotent(id: string)
    requires Find(id, Divider).Some?
    ensures Find(BaseID(id), Divider).Some?
    ensures BaseID(BaseID(id)) == BaseID(id)
  {
    var i, lang := BaseIDParts(id);
    var key := id[..i];
    assert Find(key + Divider, Divider) == Some(|key|) by {
      assert id[..i + |Divider|] == key + Divider;
      FindPrefix(id, Divider, []);
      assert id[..i + |Divider|] + [] == key + Divider;
    }
    SplitAfter(key, Divider, lang);
    SplitFree(lang, Divider);
    SplitFree(lang, "/");
  }

  /** The keys whose divider, once appended, is the first one in the id. */
  predicate Separable(key: string)
  {
    Find(key + Divider, Divider) == Some(|key|)
  }

  /**
   * With a separable key, `baseID` maps a root id and the ids of its variant
   * descendants back to the root id.
   */
  lemma BaseIDOfRoot(key: string, l: Language, suffix: string)
    requires Separable(key)
    requires suffix == "" || suffix[0] == '/'
    ensures Find(RootID(key, l) + suffix, Divider).Some?
    ensures BaseID(RootID(key, l) + suffix) == RootID(key, l)
  {
    var c := Code(l);
    assert RootID(key, l) + suffix == key + Divider + (c + suffix);
    SplitAfter(key, Divider, c + suffix);
    CodeAlphabet(l);
    SplitKeepsPrefix(c, suffix, Divider);
    var comp := Split(c + suffix, Divider)[0];
    SplitHead(c + suffix, Divider);
    assert comp <= c + suffix;
    if |comp| > |c| {
      assert comp[|c|] == (c + suffix)[|c|] == suffix[0];
    }
    SplitAtMark(c, comp, '/');
  }

  // ---------------------------------------------------------------- lookup

  /** The nodes of a tree in pre-order. */
  function Nodes(item: Item): (ns: seq<Item>)
    decreases item, 1
    ensures |ns| >= 1 && ns[0] == item
  {
    [item] + (if item.children.HasChildren? then NodesFrom(item, 0) else [])
  }

  /** The pre-order nodes of the children of `parent` from index `k` on. */
  function NodesFrom(parent: Item, k: nat): seq<Item>
    requires parent.children.HasChildren? && k <= |parent.children.list|
    decreases parent, 0, |parent.children.list| - k
  {
    var cs := parent.children.list;
    if k == |cs| then [] else Nodes(cs[k]) + NodesFrom(parent, k + 1)
  }

  /** The first node of `ns` with the given id. */
  function FirstWithID(ns: seq<Item>, id: string): (r: Option<Item>)
    ensures r.Some? ==> r.value in ns && r.value.id == id
    ensures r.None? ==> forall n :: n in ns ==> n.id != id
  {
    if |ns| == 0 then None
    else if ns[0].id == id then Some(ns[0])
    else FirstWithID(ns[1..], id)
  }

  lemma {:induction false} FirstWithIDAppend(a: seq<Item>, b: seq<Item>, id: string)
    ensures FirstWithID(a + b, id) == if FirstWithID(a, id).Some? then FirstWithID(a, id) else FirstWithID(b, id)
  {
    if |a| > 0 {
      assert (a + b)[1..] == a[1..] + b;
      FirstWithIDAppend(a[1..], b, id);
    } else {
      assert a + b == b;
    }
  }

  /**
   * `item(with:)`: the node itself when its id matches, else the first
   * match among its children searched in order, else nil.
   */
  function ItemWith(item: Item, id: string): (r: Option<Item>)
    decreases item, 1
  {
    if id == item.id then Some(item)
    else if item.children.HasChildren? then ItemWithFrom(item, 0, id)
    else None
  }

  function ItemWithFrom(parent: Item, k: nat, id: string): Option<Item>
    requires parent.children.HasChildren? && k <= |parent.children.list|
    decreases parent, 0, |parent.children.list| - k
  {
    var cs := parent.children.list;
    if k == |cs| then None
    else
      var r := ItemWith(cs[k], id);
      if r.Some? then r else ItemWithFrom(parent, k + 1, id)
  }

  /** The lookup returns the first node in pre-order that has the id. */
  lemma {:induction false} ItemWithIsFirstInPreOrder(item: Item, id: string)
    decreases item, 1
    ensures ItemWith(item, id) == FirstWithID(Nodes(item), id)
  {
    if item.children.HasChildren? {
      ItemWithFromIsFirst(item, 0, id);
      FirstWithIDAppend([item], NodesFrom(item, 0), id);
    }
  }

  lemma {:induction false} ItemWithFromIsFirst(parent: Item, k: nat, id: string)
    requires parent.children.HasChildren? && k <= |parent.children.list|
    decreases parent, 0, |parent.children.list| - k
    ensures ItemWithFrom(parent, k, id) == FirstWithID(NodesFrom(parent, k), id)
  {
    var cs := parent.children.list;
    if k < |cs| {
      ItemWithIsFirstInPreOrder(cs[k], id);
      ItemWithFromIsFirst(parent, k + 1, id);
      FirstWithIDAppend(Nodes(cs[k]), NodesFrom(parent, k + 1), id);
    }
  }
}
