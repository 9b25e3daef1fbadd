// The item edits of AppModel.swift: the handlers the editor passes to
// `updateItem(with:)`, the scan that hands them the node with a given id,
// `updateItem(_:)`, `clearModifiedMark`, `clearNeedsWork` and the lookup
// `item(with:)`. Items are values here; each edit yields the new forest.

module Edits {
  import opened Wrappers
  import opened Text
  import opened Languages
  import opened Items
  import Settings
  import Catalog
  import Writer
  import Projection

  // ---------------------------------------------------------------------
  // The handlers
  // ---------------------------------------------------------------------

  /** The flags a root passes on to its direct children. */
  datatype Flag = LaterFlag | WorkFlag | ShouldFlag

  function WithFlag(n: Item, f: Flag, v: bool): Item
  {
    n.(translateLater := if f == LaterFlag then v else n.translateLater,
       needsWork := if f == WorkFlag then v else n.needsWork,
       shouldTranslate := if f == ShouldFlag then v else n.shouldTranslate)
  }

  /** The value of a flag. */
  function FlagOf(n: Item, f: Flag): bool
  {
    match f
    case LaterFlag => n.translateLater
    case WorkFlag => n.needsWork
    case ShouldFlag => n.shouldTranslate
  }

  /** Each of `kids` with the flag set. */
  function FlagAll(kids: seq<Item>, f: Flag, v: bool): (r: seq<Item>)
    ensures |r| == |kids|
    ensures forall i :: 0 <= i < |kids| ==> r[i] == WithFlag(kids[i], f, v)
  {
    seq(|kids|, i requires 0 <= i < |kids| => WithFlag(kids[i], f, v))
  }

  /** The `for i in 0 ..< children!.count` loop of the mark handlers. */
  method FlagChildren(kids: seq<Item>, f: Flag, v: bool) returns (r: seq<Item>)
    ensures r == FlagAll(kids, f, v)
  {
    r := kids;
    for i := 0 to |kids|
      invariant |r| == |kids|
      invariant forall j :: 0 <= j < i ==> r[j] == WithFlag(kids[j], f, v)
      invariant forall j :: i <= j < |kids| ==> r[j] == kids[j]
    {
      r := r[i := WithFlag(r[i], f, v)];
    }
  }

  /** The flag set on a node and on each of its direct children; deeper nodes keep theirs. */
  function FlagNode(n: Item, f: Flag, v: bool): Item
  {
    var c := if n.children.HasChildren? then HasChildren(FlagAll(n.children.list, f, v)) else NoChildren;
    WithFlag(n.(children := c), f, v)
  }

  /** The node takes the value, and so does each direct child; nothing else changes. */
  lemma FlagNodeEffect(n: Item, f: Flag, v: bool)
    ensures var r := FlagNode(n, f, v);
            Own(r) == Own(WithFlag(n, f, v)) && FlagOf(r, f) == v &&
            (r.children.HasChildren? <==> n.children.HasChildren?) &&
            (r.children.HasChildren? ==> r.children.list == FlagAll(n.children.list, f, v))
  {
  }

  /**
   * The private `markTranslateLater(for:value:)`: ignored below the root,
   * refused when a translated root would be marked, otherwise the root and
   * its direct children take the value.
   */
  function MarkLater(n: Item, v: bool): Item
  {
    if n.parentID.Some? || (n.translation.Some? && v) then n else FlagNode(n, LaterFlag, v)
  }

  /** The handler of `updateTranslation` changes its node: the text differs and is not an empty text for an untranslated keyed item. */
  predicate TextChanges(n: Item, text: string)
  {
    n.translation != Some(text) && !(text == "" && n.key != "" && n.translation.None?)
  }

  /** What a handler passed to `updateItem` does to the node it is given. */
  datatype Edit =
    | SetText(text: string, reverse: Option<string>)   // updateTranslation
    | ClearText                                         // clearTranslation
    | MarkReview                                        // markNeedsReview
    | Unreview                                          // reviewed
    | SetShould(value: bool)                            // setShouldTranslate
    | SetLater(value: bool)                             // markTranslateLater
    | SetWork(value: bool)                              // markNeedsWork
    | Replace(item: Item)                               // updateItem(_:)

  function Apply(e: Edit, n: Item): Item
  {
    match e
    case SetText(t, rev) =>
      if !TextChanges(n, t) then n
      else
        var n1 := n.(translation := if t == "" && n.key != "" then None else Some(t),
                     isModified := true, needsReview := false);
        if t == "" then n1 else MarkLater(if rev.Some? then n1.(reverseTranslation := rev) else n1, false)
    case ClearText => n.(translation := None, reverseTranslation := None, isModified := false)
    case MarkReview => n.(needsReview := true)
    case Unreview => n.(needsReview := false)
    case SetShould(v) => if n.parentID.Some? then n else FlagNode(n, ShouldFlag, v)
    case SetLater(v) => MarkLater(n, v)
    case SetWork(v) => if n.parentID.Some? then n else FlagNode(n, WorkFlag, v)
    case Replace(x) => x
  }

  /** The node with its children left out: the fields of the node itself. */
  function Own(n: Item): Item
  {
    n.(children := NoChildren)
  }

  /** `updateTranslation`'s handler leaves the node alone for the same text, or an empty text for an untranslated keyed item. */
  lemma SetTextUnchanged(n: Item, text: string, reverse: Option<string>)
    requires !TextChanges(n, text)
    ensures Apply(SetText(text, reverse), n) == n
  {
  }

  /**
   * Otherwise an empty text for a keyed item clears the translation and any
   * other text becomes it; the node is marked modified and no longer needs
   * review, and keeps its identity.
   */
  lemma SetTextSets(n: Item, text: string, reverse: Option<string>)
    requires TextChanges(n, text)
    ensures var r := Apply(SetText(text, reverse), n);
            r.isModified && !r.needsReview && r.id == n.id && r.key == n.key && r.parentID == n.parentID &&
            r.translation == if text == "" && n.key != "" then None else Some(text)
  {
    if text != "" {
      var n1 := n.(translation := Some(text), isModified := true, needsReview := false);
      var n2 := if reverse.Some? then n1.(reverseTranslation := reverse) else n1;
      assert Apply(SetText(text, reverse), n) == MarkLater(n2, false);
      FlagNodeEffect(n2, LaterFlag, false);
    }
  }

  /** A non-empty text stores the reverse translation when one is given; an empty one keeps it. */
  lemma SetTextReverse(n: Item, text: string, reverse: Option<string>)
    requires TextChanges(n, text)
    ensures var r := Apply(SetText(text, reverse), n);
            r.reverseTranslation == if text != "" && reverse.Some? then reverse else n.reverseTranslation
  {
  }

  /**
   * A non-empty text takes a root and its direct children off
   * translate-later; a node below the root keeps its mark and children.
   */
  lemma SetTextUnmarksLater(n: Item, text: string, reverse: Option<string>)
    requires TextChanges(n, text) && text != ""
    ensures var r := Apply(SetText(text, reverse), n);
            (n.parentID.None? ==>
               !r.translateLater && (r.children.HasChildren? <==> n.children.HasChildren?) &&
               (r.children.HasChildren? ==> forall i :: 0 <= i < |r.children.list| ==> !r.children.list[i].translateLater)) &&
            (n.parentID.Some? ==> r.translateLater == n.translateLater && r.children == n.children)
  {
    var n1 := n.(translation := Some(text), isModified := true, needsReview := false);
    var n2 := if reverse.Some? then n1.(reverseTranslation := reverse) else n1;
    if n.parentID.None? {
      FlagNodeEffect(n2, LaterFlag, false);
    }
  }

  /** `markTranslateLater` does nothing below the root, nor to a translated root asked to mark. */
  lemma SetLaterSkips(n: Item, v: bool)
    requires n.parentID.Some? || (n.translation.Some? && v)
    ensures Apply(SetLater(v), n) == n
  {
  }

  /** Any other root and its direct children take the value; nothing else changes. */
  lemma SetLaterMarks(n: Item, v: bool)
    requires n.parentID.None? && !(n.translation.Some? && v)
    ensures var r := Apply(SetLater(v), n);
            Own(r) == Own(n).(translateLater := v) &&
            (r.children.HasChildren? <==> n.children.HasChildren?) &&
            (r.children.HasChildren? ==>
               |r.children.list| == |n.children.list| &&
               forall i :: 0 <= i < |n.children.list| ==> r.children.list[i] == n.children.list[i].(translateLater := v))
  {
    FlagNodeEffect(n, LaterFlag, v);
  }

  /** `markNeedsWork`'s handler does nothing below the root; a root and its direct children take the value. */
  lemma SetWorkEffect(n: Item, v: bool)
    ensures n.parentID.Some? ==> Apply(SetWork(v), n) == n
    ensures n.parentID.None? ==>
              var r := Apply(SetWork(v), n);
              Own(r) == Own(n).(needsWork := v) &&
              (r.children.HasChildren? <==> n.children.HasChildren?) &&
              (r.children.HasChildren? ==>
                 |r.children.list| == |n.children.list| &&
                 forall i :: 0 <= i < |n.children.list| ==> r.children.list[i] == n.children.list[i].(needsWork := v))
  {
    FlagNodeEffect(n, WorkFlag, v);
  }

  /** `setShouldTranslate`'s handler: the same for `shouldTranslate`. */
  lemma SetShouldEffect(n: Item, v: bool)
    ensures n.parentID.Some? ==> Apply(SetShould(v), n) == n
    ensures n.parentID.None? ==>
              var r := Apply(SetShould(v), n);
              Own(r) == Own(n).(shouldTranslate := v) &&
              (r.children.HasChildren? <==> n.children.HasChildren?) &&
              (r.children.HasChildren? ==>
                 |r.children.list| == |n.children.list| &&
                 forall i :: 0 <= i < |n.children.list| ==> r.children.list[i] == n.children.list[i].(shouldTranslate := v))
  {
    FlagNodeEffect(n, ShouldFlag, v);
  }

  lemma FlagNodeTwice(n: Item, f: Flag, v: bool)
    ensures FlagNode(FlagNode(n, f, v), f, v) == FlagNode(n, f, v)
  {
    var m := FlagNode(n, f, v);
    if n.children.HasChildren? {
      var ks := n.children.list;
      FlagAllTwice(ks, f, v);
      assert m.children == HasChildren(FlagAll(ks, f, v));
    }
    WithFlagTwice(n.(children := m.children), f, v);
    assert m.(children := m.children) == m;
  }

  lemma WithFlagTwice(n: Item, f: Flag, v: bool)
    ensures WithFlag(WithFlag(n, f, v), f, v) == WithFlag(n, f, v)
  {
  }

  lemma FlagAllTwice(ks: seq<Item>, f: Flag, v: bool)
    ensures FlagAll(FlagAll(ks, f, v), f, v) == FlagAll(ks, f, v)
  {
    forall i | 0 <= i < |ks|
      ensures WithFlag(WithFlag(ks[i], f, v), f, v) == WithFlag(ks[i], f, v)
    {
      WithFlagTwice(ks[i], f, v);
    }
  }

  lemma SetTextTwice(n: Item, text: string, reverse: Option<string>)
    ensures Apply(SetText(text, reverse), Apply(SetText(text, reverse), n)) == Apply(SetText(text, reverse), n)
  {
    var r := Apply(SetText(text, reverse), n);
    if TextChanges(n, text) {
      SetTextSets(n, text, reverse);
      assert !TextChanges(r, text);
    }
  }

  lemma MarkLaterTwice(n: Item, v: bool)
    ensures MarkLater(MarkLater(n, v), v) == MarkLater(n, v)
  {
    if !(n.parentID.Some? || (n.translation.Some? && v)) {
      FlagNodeEffect(n, LaterFlag, v);
      FlagNodeTwice(n, LaterFlag, v);
    }
  }

  /**
   * Every handler gives the same node when applied a second time, so the
   * second pass `updateItem` makes over the full list, after the visible
   * one, changes nothing more.
   */
  lemma ApplyIdempotent(e: Edit, n: Item)
    ensures Apply(e, Apply(e, n)) == Apply(e, n)
  {
    match e
    case SetText(t, rev) => SetTextTwice(n, t, rev);
    case SetShould(v) => FlagNodeTwice(n, ShouldFlag, v);
    case SetLater(v) => MarkLaterTwice(n, v);
    case SetWork(v) => FlagNodeTwice(n, WorkFlag, v);
    case _ =>
  }

  lemma FlagNodeKeepsIdentity(n: Item, f: Flag, v: bool)
    ensures var r := FlagNode(n, f, v);
            r.id == n.id && r.parentID == n.parentID && r.key == n.key && r.language == n.language &&
            (r.children.HasChildren? <==> n.children.HasChildren?)
  {
  }

  lemma SetTextKeepsIdentity(n: Item, text: string, reverse: Option<string>)
    ensures var r := Apply(SetText(text, reverse), n);
            r.id == n.id && r.parentID == n.parentID && r.key == n.key && r.language == n.language &&
            (r.children.HasChildren? <==> n.children.HasChildren?)
  {
    if TextChanges(n, text) && text != "" {
      var n1 := n.(translation := Some(text), isModified := true, needsReview := false);
      var n2 := if reverse.Some? then n1.(reverseTranslation := reverse) else n1;
      assert Apply(SetText(text, reverse), n) == MarkLater(n2, false);
      FlagNodeKeepsIdentity(n2, LaterFlag, false);
    }
  }

  /** A handler other than a replacement keeps the node's id, place, key, language and whether it has children. */
  lemma ApplyKeepsIdentity(e: Edit, n: Item)
    requires !e.Replace?
    ensures var r := Apply(e, n);
            r.id == n.id && r.parentID == n.parentID && r.key == n.key && r.language == n.language &&
            (r.children.HasChildren? <==> n.children.HasChildren?)
  {
    match e
    case SetText(t, rev) => SetTextKeepsIdentity(n, t, rev);
    case SetShould(v) => FlagNodeKeepsIdentity(n, ShouldFlag, v);
    case SetLater(v) => FlagNodeKeepsIdentity(n, LaterFlag, v);
    case SetWork(v) => FlagNodeKeepsIdentity(n, WorkFlag, v);
    case _ =>
  }

  // ---------------------------------------------------------------------
  // The scan of `updateItem`
  // ---------------------------------------------------------------------

  /**
   * The nested `update(items:)` of `updateItem(with:updateHandler:)`, from
   * index `k` on: the first node at this level with the id is handed to
   * the handler and the scan of this level stops; each node before it has
   * its children scanned the same way.
   */
  function UpdateFrom(items: seq<Item>, k: nat, id: string, e: Edit): (r: seq<Item>)
    requires k <= |items|
    decreases HasChildren(items), |items| - k
    ensures |r| == |items| - k
  {
    if k == |items| then []
    else if items[k].id == id then [Apply(e, items[k])] + items[k + 1..]
    else
      var n := items[k];
      var n' := if n.children.HasChildren? then n.(children := HasChildren(UpdateFrom(n.children.list, 0, id, e))) else n;
      [n'] + UpdateFrom(items, k + 1, id, e)
  }

  /** What a count of nodes looks for. */
  datatype Mark = WithID(id: string) | Modified | WorkMarked

  predicate Marked(n: Item, m: Mark)
  {
    match m
    case WithID(id) => n.id == id
    case Modified => n.isModified
    case WorkMarked => n.needsWork
  }

  /** How many nodes of `items[k..]`, at any depth, carry the mark. */
  function CountFrom(items: seq<Item>, k: nat, m: Mark): nat
    requires k <= |items|
    decreases HasChildren(items), |items| - k
  {
    if k == |items| then 0
    else
      var n := items[k];
      (if Marked(n, m) then 1 else 0) +
      (if n.children.HasChildren? then CountFrom(n.children.list, 0, m) else 0) +
      CountFrom(items, k + 1, m)
  }

  /**
   * The reference definition: every node with the id, at any depth, is
   * handed to the handler; every other node keeps its fields.
   */
  function EditEverywhere(items: seq<Item>, k: nat, id: string, e: Edit): (r: seq<Item>)
    requires k <= |items|
    decreases HasChildren(items), |items| - k
    ensures |r| == |items| - k
  {
    if k == |items| then []
    else
      var n := items[k];
      var n' := if n.id == id then Apply(e, n)
                else if n.children.HasChildren? then n.(children := HasChildren(EditEverywhere(n.children.list, 0, id, e)))
                else n;
      [n'] + EditEverywhere(items, k + 1, id, e)
  }

  /** An id no node carries leaves the forest as it is. */
  lemma {:induction false} UpdateAbsent(items: seq<Item>, k: nat, id: string, e: Edit)
    requires k <= |items| && CountFrom(items, k, WithID(id)) == 0
    decreases HasChildren(items), |items| - k
    ensures UpdateFrom(items, k, id, e) == items[k..]
  {
    if k < |items| {
      var n := items[k];
      if n.children.HasChildren? {
        UpdateAbsent(n.children.list, 0, id, e);
        assert n.(children := HasChildren(n.children.list[0..])) == n;
      }
      UpdateAbsent(items, k + 1, id, e);
      assert items[k..] == [n] + items[k + 1..];
    }
  }

  lemma {:induction false} EditAbsent(items: seq<Item>, k: nat, id: string, e: Edit)
    requires k <= |items| && CountFrom(items, k, WithID(id)) == 0
    decreases HasChildren(items), |items| - k
    ensures EditEverywhere(items, k, id, e) == items[k..]
  {
    if k < |items| {
      var n := items[k];
      if n.children.HasChildren? {
        EditAbsent(n.children.list, 0, id, e);
        assert n.(children := HasChildren(n.children.list[0..])) == n;
      }
      EditAbsent(items, k + 1, id, e);
      assert items[k..] == [n] + items[k + 1..];
    }
  }

  /**
   * When at most one node carries the id, the scan hands exactly that node
   * to the handler and changes nothing else: it agrees with the reference
   * definition.
   */
  lemma {:induction false} UpdateUnique(items: seq<Item>, k: nat, id: string, e: Edit)
    requires k <= |items| && CountFrom(items, k, WithID(id)) <= 1
    decreases HasChildren(items), |items| - k
    ensures UpdateFrom(items, k, id, e) == EditEverywhere(items, k, id, e)
  {
    if k < |items| {
      var n := items[k];
      if n.id == id {
        EditAbsent(items, k + 1, id, e);
      } else {
        if n.children.HasChildren? {
          UpdateUnique(n.children.list, 0, id, e);
        }
        UpdateUnique(items, k + 1, id, e);
      }
    }
  }

  /** At a match the scan hands the node over and leaves the rest of the level alone. */
  lemma UpdateFromMatch(items: seq<Item>, k: nat, id: string, e: Edit, r: seq<Item>)
    requires k < |items| && items[k].id == id && |r| == |items| && r[k + 1..] == items[k + 1..]
    ensures r[..k] + UpdateFrom(items, k, id, e) == r[k := Apply(e, items[k])]
  {
    var r' := r[k := Apply(e, items[k])];
    assert r' == r[..k] + [Apply(e, items[k])] + r[k + 1..];
  }

  /** Past a node without the id, the scan goes on with the next index. */
  lemma UpdateFromPass(items: seq<Item>, k: nat, id: string, e: Edit, r: seq<Item>, n': Item)
    requires k < |items| && items[k].id != id && |r| == |items|
    requires n' == if items[k].children.HasChildren? then items[k].(children := HasChildren(UpdateFrom(items[k].children.list, 0, id, e))) else items[k]
    ensures r[..k] + UpdateFrom(items, k, id, e) == r[k := n'][..k + 1] + UpdateFrom(items, k + 1, id, e)
  {
    assert UpdateFrom(items, k, id, e) == [n'] + UpdateFrom(items, k + 1, id, e);
    assert r[k := n'][..k + 1] == r[..k] + [n'];
  }

  /** Scanning from index `j` is scanning the suffix from its start. */
  lemma {:induction false} UpdateSuffix(r: seq<Item>, j: nat, id: string, e: Edit)
    requires j <= |r|
    decreases |r| - j
    ensures UpdateFrom(r, j, id, e) == UpdateFrom(r[j..], 0, id, e)
  {
    if j < |r| {
      var t := r[j..];
      UpdateSuffix(r, j + 1, id, e);
      assert t[1..] == r[j + 1..];
      UpdateSuffix(t, 1, id, e);
      if r[j].id == id {
        assert t[1..] == r[j + 1..];
      }
    }
  }

  /**
   * The scan is idempotent for every handler but a replacement: a second
   * scan with the same id and handler changes nothing more. The source runs
   * the scan over the visible rows and then over all rows, on the same
   * nodes, so the second run is this second scan.
   */
  lemma {:induction false} UpdateTwice(items: seq<Item>, k: nat, id: string, e: Edit)
    requires k <= |items| && !e.Replace?
    decreases HasChildren(items), |items| - k
    ensures UpdateFrom(UpdateFrom(items, k, id, e), 0, id, e) == UpdateFrom(items, k, id, e)
  {
    if k < |items| {
      var n := items[k];
      var r := UpdateFrom(items, k, id, e);
      if n.id == id {
        ApplyKeepsIdentity(e, n);
        ApplyIdempotent(e, n);
        assert r[1..] == items[k + 1..];
      } else {
        if n.children.HasChildren? {
          UpdateTwice(n.children.list, 0, id, e);
        }
        UpdateSuffix(r, 1, id, e);
        assert r[1..] == UpdateFrom(items, k + 1, id, e);
        UpdateTwice(items, k + 1, id, e);
      }
    }
  }

  /** A handler that leaves every node it is handed as it was leaves the forest as it was. */
  lemma {:induction false} UpdateNoop(items: seq<Item>, k: nat, id: string, e: Edit)
    requires k <= |items|
    requires forall h :: h in HandedFrom(items, k, id) ==> Apply(e, h) == h
    decreases HasChildren(items), |items| - k
    ensures UpdateFrom(items, k, id, e) == items[k..]
  {
    if k < |items| {
      var n := items[k];
      assert items[k..] == [n] + items[k + 1..];
      if n.id == id {
        assert HandedFrom(items, k, id) == [n];
        assert n in HandedFrom(items, k, id);
      } else {
        var below := if n.children.HasChildren? then HandedFrom(n.children.list, 0, id) else [];
        var after := HandedFrom(items, k + 1, id);
        assert HandedFrom(items, k, id) == below + after;
        var n' := n;
        if n.children.HasChildren? {
          forall h | h in below ensures Apply(e, h) == h {
            assert h in below + after;
          }
          UpdateNoop(n.children.list, 0, id, e);
          assert n.children.list[0..] == n.children.list;
          n' := n.(children := HasChildren(UpdateFrom(n.children.list, 0, id, e)));
          assert n' == n;
        }
        forall h | h in after ensures Apply(e, h) == h {
          assert h in below + after;
        }
        UpdateNoop(items, k + 1, id, e);
        assert UpdateFrom(items, k, id, e) == [n'] + UpdateFrom(items, k + 1, id, e);
      }
    }
  }

  /**
   * The scan as the source writes it: a loop over the indices that returns
   * at the first match and recurses into the children of every node it
   * passes. `under` is the children value the list came from.
   */
  method UpdateItems(items: seq<Item>, id: string, e: Edit, ghost under: Children) returns (r: seq<Item>)
    requires under == HasChildren(items)
    decreases under
    ensures r == UpdateFrom(items, 0, id, e)
  {
    r := items;
    var i := 0;
    while i < |items|
      invariant 0 <= i <= |items| && |r| == |items|
      invariant UpdateFrom(items, 0, id, e) == r[..i] + UpdateFrom(items, i, id, e)
      invariant r[i..] == items[i..]
    {
      var n := items[i];
      if n.id == id {
        UpdateFromMatch(items, i, id, e, r);
        r := r[i := Apply(e, n)];
        return;
      }
      var n' := n;
      if n.children.HasChildren? {
        var kids := UpdateItems(n.children.list, id, e, n.children);
        n' := n.(children := HasChildren(kids));
      }
      UpdateFromPass(items, i, id, e, r, n');
      assert r[i + 1..] == items[i + 1..] by {
        assert r[i + 1..] == r[i..][1..];
      }
      r := r[i := n'];
      i := i + 1;
    }
  }

  /**
   * The nodes the scan hands to the handler, in order: the match at this
   * level, after whatever matched below the nodes passed before it.
   */
  function HandedFrom(items: seq<Item>, k: nat, id: string): (r: seq<Item>)
    requires k <= |items|
    decreases HasChildren(items), |items| - k
  {
    if k == |items| then []
    else if items[k].id == id then [items[k]]
    else (if items[k].children.HasChildren? then HandedFrom(items[k].children.list, 0, id) else []) + HandedFrom(items, k + 1, id)
  }

  /** Only nodes with the id are handed over. */
  lemma {:induction false} HandedCarryID(items: seq<Item>, k: nat, id: string)
    requires k <= |items|
    decreases HasChildren(items), |items| - k
    ensures forall h :: h in HandedFrom(items, k, id) ==> h.id == id
  {
    if k < |items| && items[k].id != id {
      if items[k].children.HasChildren? {
        HandedCarryID(items[k].children.list, 0, id);
      }
      HandedCarryID(items, k + 1, id);
    }
  }

  /** The handler runs exactly when some node, at any depth, carries the id. */
  lemma {:induction false} HandedIffPresent(items: seq<Item>, k: nat, id: string)
    requires k <= |items|
    decreases HasChildren(items), |items| - k
    ensures |HandedFrom(items, k, id)| > 0 <==> CountFrom(items, k, WithID(id)) > 0
  {
    if k < |items| && items[k].id != id {
      if items[k].children.HasChildren? {
        HandedIffPresent(items[k].children.list, 0, id);
      }
      HandedIffPresent(items, k + 1, id);
    }
  }

  /** With one node carrying the id, that node alone is handed over. */
  lemma {:induction false} HandedUnique(items: seq<Item>, k: nat, id: string)
    requires k <= |items| && CountFrom(items, k, WithID(id)) == 1
    decreases HasChildren(items), |items| - k
    ensures |HandedFrom(items, k, id)| == 1
  {
    if items[k].id != id {
      if items[k].children.HasChildren? {
        HandedIffPresent(items[k].children.list, 0, id);
        if CountFrom(items[k].children.list, 0, WithID(id)) == 1 {
          HandedUnique(items[k].children.list, 0, id);
          HandedIffPresent(items, k + 1, id);
        } else {
          HandedUnique(items, k + 1, id);
        }
      } else {
        HandedUnique(items, k + 1, id);
      }
    }
  }

  // ---------------------------------------------------------------------
  // clearModifiedMark
  // ---------------------------------------------------------------------

  /** `removeModifiedMark(items:)` from index `k` on: every node at every depth loses its modified mark. */
  function ClearModifiedFrom(items: seq<Item>, k: nat): (r: seq<Item>)
    requires k <= |items|
    decreases HasChildren(items), |items| - k
    ensures |r| == |items| - k
  {
    if k == |items| then []
    else
      var n := items[k];
      var c := if n.children.HasChildren? then HasChildren(ClearModifiedFrom(n.children.list, 0)) else NoChildren;
      [n.(isModified := false, children := c)] + ClearModifiedFrom(items, k + 1)
  }

  /** Afterwards no node is marked modified. */
  lemma {:induction false} ClearModifiedClears(items: seq<Item>, k: nat)
    requires k <= |items|
    decreases HasChildren(items), |items| - k
    ensures CountFrom(ClearModifiedFrom(items, k), 0, Modified) == 0
  {
    if k < |items| {
      var n := items[k];
      var r := ClearModifiedFrom(items, k);
      if n.children.HasChildren? {
        ClearModifiedClears(n.children.list, 0);
      }
      ClearModifiedClears(items, k + 1);
      CountShift(r, Modified);
    }
  }

  /** Counting from index 1 is counting the tail. */
  lemma CountShift(r: seq<Item>, m: Mark)
    requires |r| > 0
    ensures CountFrom(r, 0, m) ==
            (if Marked(r[0], m) then 1 else 0) +
            (if r[0].children.HasChildren? then CountFrom(r[0].children.list, 0, m) else 0) +
            CountFrom(r[1..], 0, m)
  {
    CountSuffix(r, 1, m);
  }

  lemma {:induction false} CountSuffix(r: seq<Item>, k: nat, m: Mark)
    requires k <= |r|
    decreases |r| - k
    ensures CountFrom(r, k, m) == CountFrom(r[k..], 0, m)
  {
    if k < |r| {
      CountSuffix(r, k + 1, m);
      var t := r[k..];
      assert t[1..] == r[k + 1..];
      CountSuffix(t, 1, m);
    }
  }

  /** Only the marks change: a forest with no modified node is left as it is. */
  lemma {:induction false} ClearModifiedOnlyMarks(items: seq<Item>, k: nat)
    requires k <= |items| && CountFrom(items, k, Modified) == 0
    decreases HasChildren(items), |items| - k
    ensures ClearModifiedFrom(items, k) == items[k..]
  {
    if k < |items| {
      var n := items[k];
      if n.children.HasChildren? {
        ClearModifiedOnlyMarks(n.children.list, 0);
        assert n.children.list[0..] == n.children.list;
      }
      ClearModifiedOnlyMarks(items, k + 1);
      assert items[k..] == [n] + items[k + 1..];
    }
  }

  /** The recursive loop of `clearModifiedMark`. */
  method ClearModifiedMarks(items: seq<Item>, ghost under: Children) returns (r: seq<Item>)
    requires under == HasChildren(items)
    decreases under
    ensures r == ClearModifiedFrom(items, 0)
  {
    r := items;
    for i := 0 to |items|
      invariant |r| == |items|
      invariant ClearModifiedFrom(items, 0) == r[..i] + ClearModifiedFrom(items, i)
      invariant r[i..] == items[i..]
    {
      var n := items[i];
      var c := n.children;
      if n.children.HasChildren? {
        var kids := ClearModifiedMarks(n.children.list, n.children);
        c := HasChildren(kids);
      }
      ClearModifiedStep(items, i, r, n.(isModified := false, children := c));
      assert r[i + 1..] == items[i + 1..] by {
        assert r[i + 1..] == r[i..][1..];
      }
      r := r[i := n.(isModified := false, children := c)];
    }
  }

  lemma ClearModifiedStep(items: seq<Item>, k: nat, r: seq<Item>, n': Item)
    requires k < |items| && |r| == |items|
    requires n' == items[k].(isModified := false, children := if items[k].children.HasChildren? then HasChildren(ClearModifiedFrom(items[k].children.list, 0)) else NoChildren)
    ensures r[..k] + ClearModifiedFrom(items, k) == r[k := n'][..k + 1] + ClearModifiedFrom(items, k + 1)
  {
    var rest := ClearModifiedFrom(items, k + 1);
    assert ClearModifiedFrom(items, k) == [n'] + rest;
    assert r[k := n'][..k + 1] == r[..k] + [n'];
    assert r[..k] + ([n'] + rest) == (r[..k] + [n']) + rest;
  }

  // ---------------------------------------------------------------------
  // clearNeedsWork
  // ---------------------------------------------------------------------

  /**
   * `unmarkNeedsWork(items:)` from index `k` on: a node that needs work
   * loses the mark and has its children unmarked the same way; a node
   * without the mark is passed over with its whole subtree.
   */
  function UnmarkFrom(items: seq<Item>, k: nat): (r: seq<Item>)
    requires k <= |items|
    decreases HasChildren(items), |items| - k
    ensures |r| == |items| - k
    ensures forall i :: 0 <= i < |r| ==> !r[i].needsWork && r[i].id == items[k + i].id
  {
    if k == |items| then []
    else
      var n := items[k];
      var n' := if !n.needsWork then n
                else if n.children.HasChildren? then n.(needsWork := false, children := HasChildren(UnmarkFrom(n.children.list, 0)))
                else n.(needsWork := false);
      [n'] + UnmarkFrom(items, k + 1)
  }

  /** The ids the same walk removes from the overlay's needs-work set. */
  function UnmarkedIDsFrom(items: seq<Item>, k: nat): set<string>
    requires k <= |items|
    decreases HasChildren(items), |items| - k
  {
    if k == |items| then {}
    else
      var n := items[k];
      (if !n.needsWork then {}
       else {n.id} + if n.children.HasChildren? then UnmarkedIDsFrom(n.children.list, 0) else {}) +
      UnmarkedIDsFrom(items, k + 1)
  }

  /** One node and what lies under it, unmarked. */
  function UnmarkNode(n: Item): (r: Item)
    ensures !r.needsWork && r.id == n.id
  {
    UnmarkFrom([n], 0)[0]
  }

  /** A node without the mark keeps its whole subtree, marks below it included. */
  lemma UnmarkSkipsUnmarked(items: seq<Item>, k: nat)
    requires k < |items| && !items[k].needsWork
    ensures UnmarkFrom(items, k)[0] == items[k]
  {
  }

  /**
   * The mark runs down the tree: a node needs work only if its parent does.
   * The builder does not always keep this: a plural node in a device slot
   * takes its mark from the overlay by its own id, not from its root.
   */
  predicate WorkInheritedFrom(items: seq<Item>, k: nat)
    requires k <= |items|
    decreases HasChildren(items), |items| - k
  {
    k == |items| ||
    (var n := items[k];
     (n.children.HasChildren? ==>
        (forall j :: 0 <= j < |n.children.list| && n.children.list[j].needsWork ==> n.needsWork) &&
        WorkInheritedFrom(n.children.list, 0)) &&
     WorkInheritedFrom(items, k + 1))
  }

  /** Where the mark runs down, a level without it has no mark anywhere below. */
  lemma {:induction false} NoWorkBelow(items: seq<Item>, k: nat)
    requires k <= |items| && WorkInheritedFrom(items, k)
    requires forall j :: k <= j < |items| ==> !items[j].needsWork
    decreases HasChildren(items), |items| - k
    ensures CountFrom(items, k, WorkMarked) == 0
  {
    if k < |items| {
      var n := items[k];
      if n.children.HasChildren? {
        NoWorkBelow(n.children.list, 0);
      }
      NoWorkBelow(items, k + 1);
    }
  }

  /**
   * Where the mark runs down, clearing the level leaves no node that needs
   * work at any depth.
   */
  lemma {:induction false} UnmarkClearsAll(items: seq<Item>, k: nat)
    requires k <= |items| && WorkInheritedFrom(items, k)
    decreases HasChildren(items), |items| - k
    ensures CountFrom(UnmarkFrom(items, k), 0, WorkMarked) == 0
  {
    if k < |items| {
      var n := items[k];
      var r := UnmarkFrom(items, k);
      if n.children.HasChildren? {
        if n.needsWork {
          UnmarkClearsAll(n.children.list, 0);
        } else {
          NoWorkBelow(n.children.list, 0);
        }
      }
      UnmarkClearsAll(items, k + 1);
      CountShift(r, WorkMarked);
    }
  }

  /**
   * The marks the walk never reaches: those lying somewhere below a node
   * that does not need work, where the walk stops descending.
   */
  function StrandedFrom(items: seq<Item>, k: nat): nat
    requires k <= |items|
    decreases HasChildren(items), |items| - k
  {
    if k == |items| then 0
    else
      var n := items[k];
      (if !n.children.HasChildren? then 0
       else if n.needsWork then StrandedFrom(n.children.list, 0)
       else CountFrom(n.children.list, 0, WorkMarked)) +
      StrandedFrom(items, k + 1)
  }

  /** Clearing leaves exactly the marks below an unmarked node, and no others. */
  lemma {:induction false} UnmarkLeavesStranded(items: seq<Item>, k: nat)
    requires k <= |items|
    decreases HasChildren(items), |items| - k
    ensures CountFrom(UnmarkFrom(items, k), 0, WorkMarked) == StrandedFrom(items, k)
  {
    if k < |items| {
      var n := items[k];
      var r := UnmarkFrom(items, k);
      if n.needsWork && n.children.HasChildren? {
        UnmarkLeavesStranded(n.children.list, 0);
      }
      UnmarkLeavesStranded(items, k + 1);
      CountShift(r, WorkMarked);
    }
  }

  /**
   * As written, a root without the mark keeps a marked child marked, and
   * the child's id stays in the overlay: the walk does not look below it.
   */
  lemma UnmarkMissesMarkedChild(root: Item)
    requires !root.needsWork && root.children.HasChildren? && |root.children.list| > 0
    requires root.children.list[0].needsWork
    ensures UnmarkFrom([root], 0) == [root]
    ensures CountFrom(UnmarkFrom([root], 0), 0, WorkMarked) > 0
    ensures root.children.list[0].id !in UnmarkedIDsFrom([root], 0)
  {
    var kids := root.children.list;
    CountShift(kids, WorkMarked);
    CountShift([root], WorkMarked);
  }

  /** A second clear changes nothing more. */
  lemma UnmarkTwice(items: seq<Item>)
    ensures UnmarkFrom(UnmarkFrom(items, 0), 0) == UnmarkFrom(items, 0)
    ensures UnmarkedIDsFrom(UnmarkFrom(items, 0), 0) == {}
  {
    UnmarkedLevel(UnmarkFrom(items, 0), 0);
  }

  /** A level with no mark is passed over, and nothing is removed from the overlay. */
  lemma {:induction false} UnmarkedLevel(items: seq<Item>, k: nat)
    requires k <= |items| && forall i :: k <= i < |items| ==> !items[i].needsWork
    decreases |items| - k
    ensures UnmarkFrom(items, k) == items[k..] && UnmarkedIDsFrom(items, k) == {}
  {
    if k < |items| {
      UnmarkedLevel(items, k + 1);
      assert items[k..] == [items[k]] + items[k + 1..];
    }
  }

  /**
   * The recursive loop of `clearNeedsWork`: unmarks the level and removes
   * each unmarked node's id from the overlay as it goes.
   */
  method UnmarkNeedsWork(items: seq<Item>, settings: Settings.FileSettings, ghost under: Children) returns (r: seq<Item>)
    requires under == HasChildren(items)
    modifies settings
    decreases under
    ensures r == UnmarkFrom(items, 0)
    ensures settings.needsWork == old(settings.needsWork) - UnmarkedIDsFrom(items, 0)
    ensures settings.lastLanguage == old(settings.lastLanguage) && settings.translateLater == old(settings.translateLater)
  {
    r := items;
    for i := 0 to |items|
      invariant |r| == |items|
      invariant UnmarkFrom(items, 0) == r[..i] + UnmarkFrom(items, i)
      invariant old(settings.needsWork) - UnmarkedIDsFrom(items, 0) == settings.needsWork - UnmarkedIDsFrom(items, i)
      invariant r[i..] == items[i..]
      invariant settings.lastLanguage == old(settings.lastLanguage) && settings.translateLater == old(settings.translateLater)
    {
      var n := items[i];
      var n' := n;
      ghost var removed: set<string> := {};
      if n.needsWork {
        n' := n.(needsWork := false);
        if n.children.HasChildren? {
          var kids := UnmarkNeedsWork(n.children.list, settings, n.children);
          n' := n.(needsWork := false, children := HasChildren(kids));
          removed := UnmarkedIDsFrom(n.children.list, 0);
        }
        settings.RemoveNeedsWorkItemID(n.id);
        removed := removed + {n.id};
      }
      UnmarkStep(items, i, r, n');
      assert r[i + 1..] == items[i + 1..] by {
        assert r[i + 1..] == r[i..][1..];
      }
      r := r[i := n'];
    }
  }

  /** Unmarking a node twice is unmarking it once. */
  lemma UnmarkNodeTwice(n: Item)
    ensures UnmarkNode(UnmarkNode(n)) == UnmarkNode(n)
    ensures UnmarkedIDsFrom([UnmarkNode(n)], 0) == {}
  {
    UnmarkedLevel([UnmarkNode(n)], 0);
  }

  /**
   * `clearNeedsWork` over the visible rows: the roots at the listed
   * positions, with what lies under them, unmarked.
   */
  function UnmarkAt(forest: seq<Item>, ps: seq<nat>): (r: seq<Item>)
    ensures |r| == |forest|
    ensures forall p :: 0 <= p < |forest| ==> r[p] == if p in ps then UnmarkNode(forest[p]) else forest[p]
  {
    seq(|forest|, p requires 0 <= p < |forest| => if p in ps then UnmarkNode(forest[p]) else forest[p])
  }

  /** The ids that unmarking those roots removes from the overlay. */
  function UnmarkedIDsAt(forest: seq<Item>, ps: seq<nat>): set<string>
  {
    set p, x | 0 <= p < |forest| && p in ps && x in UnmarkedIDsFrom([forest[p]], 0) :: x
  }

  /** One more row unmarked, with the node as the earlier rows left it. */
  lemma UnmarkAtStep(f: seq<Item>, ps: seq<nat>, p: nat)
    requires p < |f|
    ensures UnmarkAt(f, ps + [p]) == UnmarkAt(f, ps)[p := UnmarkNode(UnmarkAt(f, ps)[p])]
    ensures UnmarkedIDsAt(f, ps + [p]) == UnmarkedIDsAt(f, ps) + UnmarkedIDsFrom([UnmarkAt(f, ps)[p]], 0)
  {
    if p in ps {
      UnmarkNodeTwice(f[p]);
    }
  }

  lemma UnmarkStep(items: seq<Item>, k: nat, r: seq<Item>, n': Item)
    requires k < |items| && |r| == |items|
    requires n' == UnmarkFrom(items, k)[0]
    ensures r[..k] + UnmarkFrom(items, k) == r[k := n'][..k + 1] + UnmarkFrom(items, k + 1)
  {
    var rest := UnmarkFrom(items, k + 1);
    assert UnmarkFrom(items, k) == [n'] + rest;
    assert r[k := n'][..k + 1] == r[..k] + [n'];
    assert r[..k] + ([n'] + rest) == (r[..k] + [n']) + rest;
  }

  // ---------------------------------------------------------------------
  // item(with:) and findSubItem
  // ---------------------------------------------------------------------

  /** `first(where:)` over the roots: the first root with the id. */
  function FirstRoot(roots: seq<Item>, id: string): (r: Option<Item>)
    ensures r.Some? ==> r.value in roots && r.value.id == id
    ensures r.None? ==> forall i :: 0 <= i < |roots| ==> roots[i].id != id
  {
    if |roots| == 0 then None
    else if roots[0].id == id then Some(roots[0])
    else FirstRoot(roots[1..], id)
  }

  /**
   * `findSubItem(id:in:)` from child `k` on: a child with children is
   * searched and never compared itself; a leaf is returned when its id
   * matches. Only leaves are ever found.
   */
  function FindSubItemFrom(parent: Item, k: nat, id: string): (r: Option<Item>)
    requires parent.children.HasChildren? && k <= |parent.children.list|
    decreases parent, |parent.children.list| - k
    ensures r.Some? ==> r.value.id == id && r.value.children.NoChildren?
  {
    var cs := parent.children.list;
    if k == |cs| then None
    else if cs[k].children.HasChildren? then
      var f := FindSubItemFrom(cs[k], 0, id);
      if f.Some? then f else FindSubItemFrom(parent, k + 1, id)
    else if cs[k].id == id then Some(cs[k])
    else FindSubItemFrom(parent, k + 1, id)
  }

  function FindSubItem(item: Item, id: string): (r: Option<Item>)
    ensures r.Some? ==> r.value.id == id && r.value.children.NoChildren?
  {
    if item.children.HasChildren? then FindSubItemFrom(item, 0, id) else None
  }

  /**
   * `AppModel.item(with:in:)` as written: the root named by `baseID`, the
   * root itself when the id is its own, else what `findSubItem` finds under
   * it. Without a divider in the id `baseID` fails, so one is required.
   */
  function LookupAsWritten(roots: seq<Item>, id: string): (r: Option<Item>)
    requires Find(id, Divider).Some?
    ensures r.Some? ==> r.value.id == id
    ensures r.Some? && r.value.children.HasChildren? ==> r.value in roots
  {
    match FirstRoot(roots, BaseID(id))
    case None => None
    case Some(root) => if root.id == id then Some(root) else FindSubItem(root, id)
  }

  /**
   * The lookup as evidently intended: the root named by `baseID`, then the
   * first node of its tree with the id, inner nodes included.
   */
  function Lookup(roots: seq<Item>, id: string): (r: Option<Item>)
    requires Find(id, Divider).Some?
    ensures r.Some? ==> r.value.id == id
  {
    match FirstRoot(roots, BaseID(id))
    case None => None
    case Some(root) =>
      ItemWithIsFirstInPreOrder(root, id);
      ItemWith(root, id)
  }

  /**
   * Every node of an entry's tree in one language is found: for a key in
   * which the divider first occurs where the id puts it, the lookup of the
   * root id or of a variant id under it searches that root's nodes in
   * pre-order.
   */
  lemma LookupSearchesRootTree(roots: seq<Item>, key: string, l: Language, suffix: string)
    requires Separable(key) && (suffix == "" || suffix[0] == '/')
    ensures Find(RootID(key, l) + suffix, Divider).Some?
    ensures var id := RootID(key, l) + suffix;
            var root := FirstRoot(roots, RootID(key, l));
            Lookup(roots, id) == if root.None? then None else FirstWithID(Nodes(root.value), id)
  {
    BaseIDOfRoot(key, l, suffix);
    var root := FirstRoot(roots, RootID(key, l));
    if root.Some? {
      ItemWithIsFirstInPreOrder(root.value, RootID(key, l) + suffix);
    }
  }

  /**
   * A device slot that holds a plural map is built as a node with children.
   * The lookup as written never compares such a node, so it cannot be found
   * by its id, while the intended lookup finds it.
   */
  lemma DeviceNodeNotFound(key: string, l: Language, device: string, plural: string, root: Item, node: Item, leaf: Item)
    requires Separable(key)
    requires root.id == RootID(key, l) && root.children == HasChildren([node])
    requires node.id == ChildID(root.id, device) && node.children == HasChildren([leaf])
    requires leaf.id == ChildID(node.id, plural) && leaf.children.NoChildren?
    ensures Find(node.id, Divider).Some?
    ensures LookupAsWritten([root], node.id) == None
    ensures Lookup([root], node.id) == Some(node)
  {
    assert node.id == RootID(key, l) + ("/" + device);
    BaseIDOfRoot(key, l, "/" + device);
    assert root.id != node.id && leaf.id != node.id by {
      assert |leaf.id| > |node.id| > |root.id|;
    }
    InnerNodeHidden(root, node, leaf);
  }

  /** The tree shape behind it: a root, one inner node, one leaf below it with another id. */
  lemma InnerNodeHidden(root: Item, node: Item, leaf: Item)
    requires root.children == HasChildren([node]) && node.children == HasChildren([leaf]) && leaf.children.NoChildren?
    requires root.id != node.id && leaf.id != node.id
    ensures FindSubItem(root, node.id) == None
    ensures ItemWith(root, node.id) == Some(node)
  {
    assert node.children.list[0] == leaf && root.children.list[0] == node;
    assert FindSubItemFrom(node, 1, node.id) == None;
    assert FindSubItemFrom(node, 0, node.id) == None;
    assert FindSubItemFrom(root, 1, node.id) == None;
    assert FindSubItemFrom(root, 0, node.id) == None;
    assert ItemWith(node, node.id) == Some(node);
    assert ItemWithFrom(root, 0, node.id) == Some(node);
  }

  // ---------------------------------------------------------------------
  // Sibling ids (markNeedsWork and setShouldTranslate with all languages)
  // ---------------------------------------------------------------------

  /**
   * The id built for another language: the text before the first divider,
   * the divider, the other language's code, and what follows the divider
   * with the current language's code trimmed from its front, up to the
   * next divider.
   */
  function SiblingID(id: string, current: Language, other: Language): string
    requires Find(id, Divider).Some?
  {
    SplitFreeOfDivider(id);
    var parts := Split(id, Divider);
    parts[0] + Divider + Code(other) + TrimPrefix(parts[1], Code(current))
  }

  /** An id with a divider splits into at least two parts. */
  lemma SplitFreeOfDivider(id: string)
    requires Find(id, Divider).Some?
    ensures |Split(id, Divider)| >= 2
  {
  }

  /** For a root of the current language, the sibling id is the other language's root id for the same key. */
  lemma SiblingOfRoot(key: string, current: Language, other: Language)
    requires Separable(key)
    ensures Find(RootID(key, current), Divider).Some?
    ensures SiblingID(RootID(key, current), current, other) == RootID(key, other)
  {
    var c := Code(current);
    SplitAfter(key, Divider, c);
    CodeAlphabet(current);
    SplitKeepsPrefix(c, [], Divider);
    assert c + [] == c;
    SplitHead(c, Divider);
  }

  // ---------------------------------------------------------------------
  // setShouldTranslate
  // ---------------------------------------------------------------------

  /**
   * `setShouldTranslate` as written: the handler runs on the node with the
   * id; the sibling ids it then computes are never used.
   */
  function SetShouldAsWritten(forest: seq<Item>, id: string, v: bool): (r: seq<Item>)
    ensures |r| == |forest|
  {
    UpdateFrom(forest, 0, id, SetShould(v))
  }

  /**
   * The catalog value keeps one `shouldTranslate` per entry, and the writer
   * takes it from the last root of the key. Changing it on the root of a
   * language that is not the last one is undone in the written entry. The
   * encoder does not put the field in the file, so this shows only in the
   * catalog value the editor holds.
   */
  lemma ShouldTranslateLost(strings: seq<Catalog.XCString>, a: Item, b: Item, v: bool)
    requires a.parentID.None? && a.key == b.key && a.id != b.id && b.shouldTranslate != v
    requires Writer.FirstIndex(strings, a.key).Some?
    ensures var f := SetShouldAsWritten([a, b], a.id, v);
            f[0].shouldTranslate == v &&
            Writer.WriteAll(strings, f)[Writer.FirstIndex(strings, a.key).value].shouldTranslate != v
  {
    var f := SetShouldAsWritten([a, b], a.id, v);
    SetShouldEffect(a, v);
    assert f == [Apply(SetShould(v), a), b];
    Writer.LastRootWins(strings, f, 1);
  }

  /**
   * What the table shows of it: the root of the other language keeps its
   * old `shouldTranslate`, so it stays out of the "do not translate" state
   * and the hide toggle keeps it in view exactly as before.
   */
  lemma ShouldTranslateNotShared(a: Item, b: Item, view: Projection.View)
    requires a.parentID.None? && a.key == b.key && a.id != b.id && b.shouldTranslate
    ensures var f := SetShouldAsWritten([a, b], a.id, false);
            StateOf(f[0]) == DontTranslate && StateOf(f[1]) != DontTranslate &&
            (view.hidden.dontTranslate ==> !Projection.Keep(f[0], view)) &&
            (Projection.Keep(f[1], view) <==> Projection.Keep(b, view))
  {
    var f := SetShouldAsWritten([a, b], a.id, false);
    SetShouldEffect(a, false);
    assert f == [Apply(SetShould(false), a), b];
  }

  /**
   * The intended effect, which the unused sibling ids point at: the handler
   * runs on every root of the key, one per language.
   */
  function SetShouldForKey(forest: seq<Item>, key: string, v: bool): (r: seq<Item>)
    ensures |r| == |forest|
    ensures forall p :: 0 <= p < |forest| ==>
              r[p] == if forest[p].key == key then Apply(SetShould(v), forest[p]) else forest[p]
  {
    seq(|forest|, p requires 0 <= p < |forest| => if forest[p].key == key then Apply(SetShould(v), forest[p]) else forest[p])
  }

  /** The last position holding a root of the key. */
  lemma {:induction false} LastWithKey(forest: seq<Item>, key: string, p: nat) returns (j: nat)
    requires p < |forest| && forest[p].key == key
    decreases |forest| - p
    ensures p <= j < |forest| && forest[j].key == key
    ensures forall k :: j < k < |forest| ==> forest[k].key != key
  {
    if exists k :: p < k < |forest| && forest[k].key == key {
      var k :| p < k < |forest| && forest[k].key == key;
      j := LastWithKey(forest, key, k);
    } else {
      j := p;
    }
  }

  /**
   * After the corrected command turns translation off for a key, every root
   * of the key is in the "do not translate" state, and the dont-translate
   * toggle hides each of them.
   */
  lemma ShouldTranslateReachesAll(forest: seq<Item>, key: string, view: Projection.View)
    requires forall p :: 0 <= p < |forest| ==> forest[p].parentID.None?
    ensures var r := SetShouldForKey(forest, key, false);
            forall p :: 0 <= p < |r| && forest[p].key == key ==>
              StateOf(r[p]) == DontTranslate && (view.hidden.dontTranslate ==> !Projection.Keep(r[p], view))
  {
    forall p | 0 <= p < |forest| && forest[p].key == key {
      SetShouldEffect(forest[p], false);
    }
  }

  /**
   * With every node of the key a root, the value set for the key is the
   * value the written entry carries.
   */
  lemma ShouldTranslateSaved(strings: seq<Catalog.XCString>, forest: seq<Item>, key: string, p: nat, v: bool)
    requires p < |forest| && forest[p].key == key
    requires forall q :: 0 <= q < |forest| && forest[q].key == key ==> forest[q].parentID.None?
    requires Writer.FirstIndex(strings, key).Some?
    ensures Writer.WriteAll(strings, SetShouldForKey(forest, key, v))[Writer.FirstIndex(strings, key).value].shouldTranslate == v
  {
    var f := SetShouldForKey(forest, key, v);
    var j := LastWithKey(forest, key, p);
    SetShouldEffect(forest[j], v);
    ApplyKeepsIdentity(SetShould(v), forest[j]);
    forall k | j < k < |f|
      ensures f[k].key != key
    {
      ApplyKeepsIdentity(SetShould(v), forest[k]);
    }
    Writer.LastRootWins(strings, f, j);
  }
}
