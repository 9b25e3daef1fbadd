// The editor's state and its commands: the `AppModel` class of
// AppModel.swift. The class holds one forest of items (`allLocalizeItems`);
// the visible rows (`localizeItems`) alias roots of that forest, so they are
// kept as positions into it. The selection, file URLs, UserDefaults and the
// translation service are not part of this model.

module App {
  import opened Wrappers
  import opened Text
  import opened Languages
  import opened Items
  import Json
  import Catalog
  import Settings
  import Builder
  import Writer
  import Projection
  import opened Edits

  // ---------------------------------------------------------------------
  // What a handler call changes besides the forest
  // ---------------------------------------------------------------------

  /** The state the item commands change: the forest, the document's modified flag, the overlay's two sets. */
  datatype Editor = Editor(forest: seq<Item>, isModified: bool, translateLater: set<string>, needsWork: set<string>)

  /**
   * One command on one id: the scan runs the handler, and what the handler
   * saw decides the rest. `updateTranslation` marks the document modified
   * when it changed a node and takes the id off translate-later when it set
   * a non-empty text on a root; `markNeedsReview` and `reviewed` mark the
   * document modified when they flipped a node; `markTranslateLater`
   * records the id when it marked a root; `markNeedsWork` records every
   * requested id, found or not.
   */
  function Handle(s: Editor, id: string, e: Edit): (r: Editor)
    ensures r.forest == UpdateFrom(s.forest, 0, id, e)
  {
    var handed := HandedFrom(s.forest, 0, id);
    var forest := UpdateFrom(s.forest, 0, id, e);
    match e
    case SetText(text, _) =>
      var changed := exists i :: 0 <= i < |handed| && TextChanges(handed[i], text);
      var unmarked := text != "" && exists i :: 0 <= i < |handed| && TextChanges(handed[i], text) && handed[i].parentID.None?;
      Editor(forest, s.isModified || changed,
             if unmarked then s.translateLater - {id} else s.translateLater, s.needsWork)
    case MarkReview =>
      Editor(forest, s.isModified || exists i :: 0 <= i < |handed| && !handed[i].needsReview, s.translateLater, s.needsWork)
    case Unreview =>
      Editor(forest, s.isModified || exists i :: 0 <= i < |handed| && handed[i].needsReview, s.translateLater, s.needsWork)
    case SetLater(v) =>
      var marked := exists i :: 0 <= i < |handed| && handed[i].parentID.None? && !(handed[i].translation.Some? && v);
      Editor(forest, s.isModified,
             if !marked then s.translateLater else if v then s.translateLater + {id} else s.translateLater - {id},
             s.needsWork)
    case SetWork(v) =>
      Editor(forest, s.isModified, s.translateLater, if v then s.needsWork + {id} else s.needsWork - {id})
    case _ => s.(forest := forest)
  }

  /** The command's loop over the requested ids, in the order given. */
  function HandleEach(s: Editor, ids: seq<string>, e: Edit): Editor
    decreases |ids|
  {
    if |ids| == 0 then s else Handle(HandleEach(s, ids[..|ids| - 1], e), ids[|ids| - 1], e)
  }

  /** An id no node carries changes neither the forest nor, but for `markNeedsWork`, anything else. */
  lemma HandleAbsent(s: Editor, id: string, e: Edit)
    requires CountFrom(s.forest, 0, WithID(id)) == 0 && !e.SetWork?
    ensures Handle(s, id, e) == s
  {
    UpdateAbsent(s.forest, 0, id, e);
    HandedIffPresent(s.forest, 0, id);
  }

  /**
   * `markTranslateLater` on an id that names only nodes below a root, or a
   * translated root when marking, changes nothing at all.
   */
  lemma MarkLaterRefused(s: Editor, id: string, v: bool)
    requires forall h :: h in HandedFrom(s.forest, 0, id) ==> h.parentID.Some? || (h.translation.Some? && v)
    ensures Handle(s, id, SetLater(v)) == s
  {
    var handed := HandedFrom(s.forest, 0, id);
    forall h | h in handed
      ensures Apply(SetLater(v), h) == h
    {
      SetLaterSkips(h, v);
    }
    UpdateNoop(s.forest, 0, id, SetLater(v));
  }

  /** `markNeedsWork` puts every requested id into the overlay, or takes it out, found or not. */
  lemma {:induction false} WorkSetEach(s: Editor, ids: seq<string>, v: bool)
    decreases |ids|
    ensures HandleEach(s, ids, SetWork(v)).needsWork ==
            if v then s.needsWork + set x | x in ids else s.needsWork - set x | x in ids
  {
    if |ids| > 0 {
      var front := ids[..|ids| - 1];
      WorkSetEach(s, front, v);
      assert ids == front + [ids[|ids| - 1]];
      assert (set x | x in ids) == (set x | x in front) + {ids[|ids| - 1]};
    }
  }

  // ---------------------------------------------------------------------
  // setShouldTranslate, corrected
  // ---------------------------------------------------------------------

  /**
   * The corrected `setShouldTranslate` on one id: when the id names a root,
   * every root of its key takes the value; any other id goes through the
   * scan as before.
   */
  function ShouldStep(forest: seq<Item>, id: string, v: bool): (r: seq<Item>)
    ensures |r| == |forest|
  {
    var root := FirstRoot(forest, id);
    if root.Some? && root.value.parentID.None? then SetShouldForKey(forest, root.value.key, v)
    else UpdateFrom(forest, 0, id, SetShould(v))
  }

  function ShouldEach(forest: seq<Item>, ids: seq<string>, v: bool): (r: seq<Item>)
    decreases |ids|
    ensures |r| == |forest|
  {
    if |ids| == 0 then forest else ShouldStep(ShouldEach(forest, ids[..|ids| - 1], v), ids[|ids| - 1], v)
  }

  /** After the corrected command on a root, writing the forest back keeps the value for the entry. */
  lemma ShouldStepSaved(strings: seq<Catalog.XCString>, forest: seq<Item>, id: string, v: bool)
    requires FirstRoot(forest, id).Some? && FirstRoot(forest, id).value.parentID.None?
    requires forall q :: 0 <= q < |forest| && forest[q].key == FirstRoot(forest, id).value.key ==> forest[q].parentID.None?
    requires Writer.FirstIndex(strings, FirstRoot(forest, id).value.key).Some?
    ensures var key := FirstRoot(forest, id).value.key;
            Writer.WriteAll(strings, ShouldStep(forest, id, v))[Writer.FirstIndex(strings, key).value].shouldTranslate == v
  {
    var root := FirstRoot(forest, id).value;
    var p :| 0 <= p < |forest| && forest[p] == root;
    ShouldTranslateSaved(strings, forest, root.key, p, v);
  }

  // ---------------------------------------------------------------------
  // markNeedsWork with all languages
  // ---------------------------------------------------------------------

  /** The ids, in request order, whose handler reached a root and set its mark. */
  function UpdatedRoots(s: Editor, ids: seq<string>, v: bool): seq<string>
    decreases |ids|
  {
    if |ids| == 0 then []
    else
      var front := ids[..|ids| - 1];
      var handed := HandedFrom(HandleEach(s, front, SetWork(v)).forest, 0, ids[|ids| - 1]);
      UpdatedRoots(s, front, v) +
      if exists i :: 0 <= i < |handed| && handed[i].parentID.None? then [ids[|ids| - 1]] else []
  }

  /** The sibling ids of one id for the languages other than the current one. */
  function SiblingsOf(id: string, langs: seq<Language>, current: Language): (r: seq<string>)
    requires Find(id, Divider).Some?
    decreases |langs|
  {
    if |langs| == 0 then []
    else
      SiblingsOf(id, langs[..|langs| - 1], current) +
      if langs[|langs| - 1] != current then [SiblingID(id, current, langs[|langs| - 1])] else []
  }

  /** The sibling ids of every updated id that has a divider. */
  function SiblingIDs(updated: seq<string>, langs: seq<Language>, current: Language): seq<string>
    decreases |updated|
  {
    if |updated| == 0 then []
    else
      var u := updated[|updated| - 1];
      SiblingIDs(updated[..|updated| - 1], langs, current) +
      if Find(u, Divider).Some? then SiblingsOf(u, langs, current) else []
  }

  /** The root ids of one key in every language other than the current one, in order. */
  function OtherRootIDs(key: string, langs: seq<Language>, current: Language): seq<string>
    decreases |langs|
  {
    if |langs| == 0 then []
    else
      OtherRootIDs(key, langs[..|langs| - 1], current) +
      if langs[|langs| - 1] != current then [RootID(key, langs[|langs| - 1])] else []
  }

  /**
   * For a root of the current language the siblings are the roots of the
   * same key in each other language.
   */
  lemma {:induction false} SiblingsOfRoot(key: string, langs: seq<Language>, current: Language)
    requires Separable(key)
    decreases |langs|
    ensures Find(RootID(key, current), Divider).Some?
    ensures SiblingsOf(RootID(key, current), langs, current) == OtherRootIDs(key, langs, current)
  {
    SiblingOfRoot(key, current, current);
    if |langs| > 0 {
      SiblingsOfRoot(key, langs[..|langs| - 1], current);
      SiblingOfRoot(key, current, langs[|langs| - 1]);
    }
  }

  // ---------------------------------------------------------------------
  // The model class
  // ---------------------------------------------------------------------

  /** `load`'s choice of the shown language: the remembered one when the catalog has it, else the first. */
  function StartLanguage(lastLanguage: string, languages: seq<Language>): (l: Language)
    requires |languages| > 0
    ensures l in languages
    ensures FromCode(lastLanguage).Some? && FromCode(lastLanguage).value in languages <==> Some(l) == FromCode(lastLanguage)
  {
    var remembered := FromCode(lastLanguage);
    if remembered.Some? && remembered.value in languages then remembered.value else languages[0]
  }

  // ---------------------------------------------------------------------
  // `updateAllLocalizedItems`
  // ---------------------------------------------------------------------

  /** `firstIndex(where: { $0.id == id })`. */
  function IndexOfID(items: seq<Item>, id: string): (r: Option<nat>)
    ensures r.Some? ==> r.value < |items| && items[r.value].id == id
    ensures r.Some? ==> forall j :: 0 <= j < r.value ==> items[j].id != id
    ensures r.None? ==> forall j :: 0 <= j < |items| ==> items[j].id != id
  {
    if |items| == 0 then None
    else if items[0].id == id then Some(0)
    else match IndexOfID(items[1..], id)
         case Some(i) => Some(i + 1)
         case None => None
  }

  /**
   * Each row, in order, put over the first root of `all` with its id; a
   * row whose id `all` lacks is dropped. The search is in `all` as it was.
   */
  function CarryOver(all: seq<Item>, rows: seq<Item>): (r: seq<Item>)
    decreases |rows|
    ensures |r| == |all|
  {
    if |rows| == 0 then all
    else
      var r0 := CarryOver(all, rows[..|rows| - 1]);
      var row := rows[|rows| - 1];
      match IndexOfID(all, row.id)
      case Some(i) => r0[i := row]
      case None => r0
  }

  /** The last row with the id, if any. */
  function LastRowWithID(rows: seq<Item>, id: string): (r: Option<Item>)
    ensures r.Some? ==> r.value in rows && r.value.id == id
    ensures r.None? ==> forall j :: 0 <= j < |rows| ==> rows[j].id != id
  {
    if |rows| == 0 then None
    else if rows[|rows| - 1].id == id then Some(rows[|rows| - 1])
    else LastRowWithID(rows[..|rows| - 1], id)
  }

  /**
   * Position by position: the first root with an id takes the last row with
   * that id; every other root is left as it was.
   */
  lemma {:induction false} CarryOverAt(all: seq<Item>, rows: seq<Item>)
    decreases |rows|
    ensures forall p :: 0 <= p < |all| ==>
              CarryOver(all, rows)[p] ==
                if IndexOfID(all, all[p].id) == Some(p) && LastRowWithID(rows, all[p].id).Some?
                then LastRowWithID(rows, all[p].id).value else all[p]
  {
    if |rows| > 0 {
      CarryOverAt(all, rows[..|rows| - 1]);
    }
  }

  /** No two roots share an id. */
  predicate UniqueIDs(items: seq<Item>)
  {
    forall i, j :: 0 <= i < j < |items| ==> items[i].id != items[j].id
  }

  /** The rows at some positions of the forest itself. */
  function RowsAt(forest: seq<Item>, ps: seq<nat>): (rows: seq<Item>)
    requires Projection.Positions(forest, ps)
    ensures |rows| == |ps| && forall i :: 0 <= i < |ps| ==> rows[i] == forest[ps[i]]
  {
    seq(|ps|, i requires 0 <= i < |ps| => forest[ps[i]])
  }

  /**
   * Within one forest whose ids are unique, putting the visible rows back
   * changes nothing: the rows are the forest's own roots.
   */
  lemma CarryOverOwnRows(forest: seq<Item>, ps: seq<nat>)
    requires Projection.Positions(forest, ps) && UniqueIDs(forest)
    ensures CarryOver(forest, RowsAt(forest, ps)) == forest
  {
    var rows := RowsAt(forest, ps);
    CarryOverAt(forest, rows);
    forall p | 0 <= p < |forest| && LastRowWithID(rows, forest[p].id).Some?
      ensures LastRowWithID(rows, forest[p].id).value == forest[p]
    {
      var row := LastRowWithID(rows, forest[p].id).value;
      var i :| 0 <= i < |rows| && rows[i] == row;
      assert forest[ps[i]].id == forest[p].id;
    }
  }

  /**
   * Across two files, a row of the old file lands on the new file's first
   * root with the same id and replaces it, whatever the new file says.
   */
  lemma CarryOverReplaces(all: seq<Item>, row: Item, i: nat)
    requires IndexOfID(all, row.id) == Some(i)
    ensures CarryOver(all, [row])[i] == row
  {
  }

  class AppModel {
    var doc: Option<Catalog.XCStrings>
    var languages: seq<Language>
    var baseLanguage: Language
    var currentLanguage: Language
    var forest: seq<Item>
    var visible: seq<nat>
    var hidden: Projection.Hidden
    var filter: Projection.Filter
    var searchText: string
    var sortOrder: seq<Projection.Comparator>
    var isModified: bool
    var settings: Settings.FileSettings

    /** Every visible row names a root of the forest. */
    ghost predicate Valid()
      reads this
    {
      Projection.Positions(forest, visible)
    }

    /** What `reloadData` reads besides the forest. */
    function View(): Projection.View
      reads this
    {
      Projection.View(currentLanguage, hidden, filter, searchText)
    }

    function State(): Editor
      reads this, settings
    {
      Editor(forest, isModified, settings.translateLater, settings.needsWork)
    }

    /** `init()`: nothing loaded, the three hide toggles as remembered. */
    constructor (translateLaterHidden: bool, staleHidden: bool, dontTranslateHidden: bool)
      ensures doc.None? && languages == [] && forest == [] && visible == []
      ensures baseLanguage == English && currentLanguage == English
      ensures hidden == Projection.Hidden(translateLaterHidden, staleHidden, dontTranslateHidden)
      ensures filter == Projection.Cleared && searchText == "" && sortOrder == Projection.DefaultOrder && !isModified
      ensures fresh(settings) && settings.Value() == Settings.Default
      ensures Valid()
    {
      doc := None;
      languages := [];
      baseLanguage := English;
      currentLanguage := English;
      forest := [];
      visible := [];
      hidden := Projection.Hidden(translateLaterHidden, staleHidden, dontTranslateHidden);
      filter := Projection.Cleared;
      searchText := "";
      sortOrder := Projection.DefaultOrder;
      isModified := false;
      settings := new Settings.FileSettings();
    }

    /**
     * `reloadData`: the visible rows become the roots the view keeps,
     * sorted by the sort order.
     */
    method ReloadData()
      modifies this`visible
      ensures visible == Projection.Visible(forest, View(), sortOrder)
      ensures Valid()
    {
      Projection.VisibleRows(forest, View(), sortOrder);
      visible := Projection.Visible(forest, View(), sortOrder);
    }

    /** Setting `currentLanguage`: the rows are reloaded and the overlay remembers the language. */
    method SetCurrentLanguage(l: Language)
      modifies this`currentLanguage, this`visible, settings
      ensures currentLanguage == l && visible == Projection.Visible(forest, View(), sortOrder) && Valid()
      ensures settings.Value() == old(settings.Value()).(lastLanguage := Code(l))
    {
      currentLanguage := l;
      ReloadData();
      settings.lastLanguage := Code(l);
    }

    /** Setting `searchText`. */
    method SetSearchText(text: string)
      modifies this`searchText, this`visible
      ensures searchText == text && visible == Projection.Visible(forest, View(), sortOrder) && Valid()
    {
      searchText := text;
      ReloadData();
    }

    /** Setting `filter`. */
    method SetFilter(f: Projection.Filter)
      modifies this`filter, this`visible
      ensures filter == f && visible == Projection.Visible(forest, View(), sortOrder) && Valid()
    {
      filter := f;
      ReloadData();
    }

    /** `filter.reset()`: the criteria cleared, which sets `filter` and reloads. */
    method ResetFilter()
      modifies this`filter, this`visible
      ensures filter == Projection.Cleared && !Projection.HasOn(filter)
      ensures visible == Projection.Visible(forest, View(), sortOrder) && Valid()
    {
      SetFilter(Projection.Cleared);
    }

    /** Setting one of the three hide toggles. */
    method SetHidden(h: Projection.Hidden)
      modifies this`hidden, this`visible
      ensures hidden == h && visible == Projection.Visible(forest, View(), sortOrder) && Valid()
    {
      hidden := h;
      ReloadData();
    }

    /** `sort(using:)`: the visible rows re-sorted; `sortOrder` itself is left as it was. */
    method SortUsing(cs: seq<Projection.Comparator>)
      requires Valid()
      modifies this`visible
      ensures visible == Projection.Sort(Projection.SortUsing(cs), forest, old(visible)) && Valid()
      ensures multiset(visible) == multiset(old(visible))
    {
      visible := Projection.Sort(Projection.SortUsing(cs), forest, visible);
    }

    /** The visible rows themselves, `localizeItems`. */
    function Rows(): seq<Item>
      requires Valid()
      reads this
    {
      RowsAt(forest, visible)
    }

    /**
     * `updateAllLocalizedItems`, the first step of every `reloadData`: each
     * of `rows` is put over the first root of the forest with its id.
     */
    method UpdateAllLocalizedItems(rows: seq<Item>)
      modifies this`forest
      ensures forest == CarryOver(old(forest), rows)
    {
      var all := forest;
      for k := 0 to |rows|
        invariant forest == CarryOver(all, rows[..k])
      {
        assert rows[..k + 1][..k] == rows[..k];
        match IndexOfID(all, rows[k].id)
        case Some(i) => forest := forest[i := rows[k]];
        case None =>
      }
      assert rows[..|rows|] == rows;
    }

    /**
     * `load(file:)` once the file has decoded: the catalog, its languages
     * (`order` lists `languages(in:)` once each, in display order), the
     * overlay read from `settingsData`, the forest built from both, and the
     * remembered language shown. The source unwraps the first language, so
     * the catalog must have one. Setting the language reloads the rows, and
     * the reload first puts the rows still shown from the previous file over
     * the new roots with the same ids.
     */
    method Load(d: Catalog.XCStrings, order: seq<Language>, settingsData: Option<Json.Json>)
      requires Valid()
      requires Catalog.Distinct(order) && forall l :: l in order <==> l in Builder.LanguagesIn(d)
      requires |order| > 0
      modifies this`doc, this`baseLanguage, this`languages, this`settings, this`forest
      modifies this`currentLanguage, this`visible, this`isModified
      ensures doc == Some(d) && baseLanguage == d.sourceLanguage && languages == order
      ensures fresh(settings)
      ensures forest == CarryOver(Builder.Forest(d, d.strings, order, Settings.Loaded(settingsData)), old(Rows()))
      ensures currentLanguage == StartLanguage(Settings.Loaded(settingsData).lastLanguage, order)
      ensures settings.Value() == Settings.Loaded(settingsData).(lastLanguage := Code(currentLanguage))
      ensures visible == Projection.Visible(forest, View(), sortOrder) && Valid()
      ensures !isModified
    {
      var rows := Rows();
      OpenCarrying(d, order, settingsData, rows);
      var start := StartLanguage(settings.lastLanguage, order);
      SetCurrentLanguage(start);
      isModified := false;
    }

    /**
     * `load(file:)` with the previous file's rows dropped before the
     * language is set: the forest is exactly the one built from the file.
     */
    method LoadFresh(d: Catalog.XCStrings, order: seq<Language>, settingsData: Option<Json.Json>)
      requires Catalog.Distinct(order) && forall l :: l in order <==> l in Builder.LanguagesIn(d)
      requires |order| > 0
      modifies this`doc, this`baseLanguage, this`languages, this`settings, this`forest
      modifies this`currentLanguage, this`visible, this`isModified
      ensures doc == Some(d) && baseLanguage == d.sourceLanguage && languages == order
      ensures forest == Builder.Forest(d, d.strings, order, Settings.Loaded(settingsData))
      ensures currentLanguage == StartLanguage(Settings.Loaded(settingsData).lastLanguage, order)
      ensures visible == Projection.Visible(forest, View(), sortOrder) && Valid() && !isModified
    {
      visible := [];
      Load(d, order, settingsData);
    }

    /**
     * `Open` followed by the carry-over that the reload on setting the
     * language begins with.
     */
    method OpenCarrying(d: Catalog.XCStrings, order: seq<Language>, settingsData: Option<Json.Json>, rows: seq<Item>)
      modifies this`doc, this`baseLanguage, this`languages, this`settings, this`forest
      ensures doc == Some(d) && baseLanguage == d.sourceLanguage && languages == order
      ensures fresh(settings) && settings.Value() == Settings.Loaded(settingsData)
      ensures forest == CarryOver(Builder.Forest(d, d.strings, order, Settings.Loaded(settingsData)), rows)
    {
      Open(d, order, settingsData);
      UpdateAllLocalizedItems(rows);
    }

    /** The part of `load(file:)` before the language is chosen: catalog, languages, overlay and forest. */
    method Open(d: Catalog.XCStrings, order: seq<Language>, settingsData: Option<Json.Json>)
      modifies this`doc, this`baseLanguage, this`languages, this`settings, this`forest
      ensures doc == Some(d) && baseLanguage == d.sourceLanguage && languages == order
      ensures fresh(settings) && settings.Value() == Settings.Loaded(settingsData)
      ensures forest == Builder.Forest(d, d.strings, order, Settings.Loaded(settingsData))
    {
      baseLanguage := d.sourceLanguage;
      doc := Some(d);
      languages := order;
      settings := new Settings.FileSettings.Load(settingsData);
      forest := Builder.XCStringsToLocalizeItems(d, order, settings.Value());
    }

    /**
     * `save()`: the forest written into the loaded catalog; the catalog held
     * by the model is not replaced. When the file is written
     * (`writeSucceeds`), the document and every node lose their modified
     * marks and the rows are reloaded; otherwise nothing changes.
     */
    method Save(writeSucceeds: bool) returns (written: Option<Catalog.XCStrings>)
      modifies this`forest, this`visible, this`isModified
      ensures written == Writer.Update(doc, old(forest))
      ensures doc.Some? && writeSucceeds ==>
                !isModified && forest == ClearModifiedFrom(old(forest), 0) &&
                CountFrom(forest, 0, Modified) == 0 &&
                visible == Projection.Visible(forest, View(), sortOrder) && Valid()
      ensures !(doc.Some? && writeSucceeds) ==>
                forest == old(forest) && visible == old(visible) && isModified == old(isModified)
    {
      written := Writer.Update(doc, forest);
      if doc.None? || !writeSucceeds {
        return;
      }
      isModified := false;
      ClearModifiedMark();
      ReloadData();
    }

    /** `clearModifiedMark()`: no node at any depth stays marked modified; the rows are reloaded. */
    method ClearModifiedMark()
      modifies this`forest, this`visible
      ensures forest == ClearModifiedFrom(old(forest), 0) && CountFrom(forest, 0, Modified) == 0
      ensures visible == Projection.Visible(forest, View(), sortOrder) && Valid()
    {
      forest := ClearModifiedMarks(forest, HasChildren(forest));
      ClearModifiedClears(old(forest), 0);
      ReloadData();
    }

    /**
     * `updateItem(with:updateHandler:)` with one of the handlers, together
     * with what the handler does to the document and the overlay.
     */
    method UpdateItemWith(id: string, e: Edit)
      modifies this`forest, this`isModified, settings
      ensures State() == Handle(old(State()), id, e)
      ensures settings.lastLanguage == old(settings.lastLanguage)
    {
      ghost var target := Handle(State(), id, e);
      var handed := HandedFrom(forest, 0, id);
      forest := UpdateItems(forest, id, e, HasChildren(forest));
      assert forest == target.forest;
      match e {
        case SetText(text, _) =>
          if exists i :: 0 <= i < |handed| && TextChanges(handed[i], text) {
            isModified := true;
          }
          if text != "" && exists i :: 0 <= i < |handed| && TextChanges(handed[i], text) && handed[i].parentID.None? {
            settings.RemoveTranslateLaterItemID(id);
          }
        case MarkReview =>
          if exists i :: 0 <= i < |handed| && !handed[i].needsReview {
            isModified := true;
          }
        case Unreview =>
          if exists i :: 0 <= i < |handed| && handed[i].needsReview {
            isModified := true;
          }
        case SetLater(v) =>
          if exists i :: 0 <= i < |handed| && handed[i].parentID.None? && !(handed[i].translation.Some? && v) {
            if v {
              settings.AppendTranslateLaterItemID(id);
            } else {
              settings.RemoveTranslateLaterItemID(id);
            }
          }
        case SetWork(v) =>
          if v {
            settings.AppendNeedsWorkItemID(id);
          } else {
            settings.RemoveNeedsWorkItemID(id);
          }
        case _ =>
      }
    }

    /** The loop over the requested ids. */
    method UpdateEach(ids: seq<string>, e: Edit)
      modifies this`forest, this`isModified, settings
      ensures State() == HandleEach(old(State()), ids, e)
      ensures settings.lastLanguage == old(settings.lastLanguage)
    {
      for i := 0 to |ids|
        invariant State() == HandleEach(old(State()), ids[..i], e)
        invariant settings.lastLanguage == old(settings.lastLanguage)
      {
        UpdateItemWith(ids[i], e);
        assert ids[..i + 1][..i] == ids[..i];
      }
      assert ids[..|ids|] == ids;
    }

    /** `updateItem(_:)`: the node with the item's id replaced by it. */
    method UpdateItem(item: Item)
      modifies this`forest
      ensures forest == UpdateFrom(old(forest), 0, item.id, Replace(item))
    {
      forest := UpdateItems(forest, item.id, Replace(item), HasChildren(forest));
    }

    /** `updateTranslation(for:with:reverseTranslation:)`. */
    method UpdateTranslation(id: string, text: string, reverse: Option<string>)
      modifies this`forest, this`isModified, settings
      ensures State() == Handle(old(State()), id, SetText(text, reverse))
      ensures settings.lastLanguage == old(settings.lastLanguage)
    {
      UpdateItemWith(id, SetText(text, reverse));
    }

    /** `clearTranslation(ids:)`: each node's text and reverse text removed, then the rows reloaded. */
    method ClearTranslation(ids: seq<string>)
      modifies this`forest, this`isModified, this`visible, settings
      ensures State() == HandleEach(old(State()), ids, ClearText)
      ensures visible == Projection.Visible(forest, View(), sortOrder) && Valid()
      ensures settings.lastLanguage == old(settings.lastLanguage)
    {
      UpdateEach(ids, ClearText);
      ReloadData();
    }

    /** `markNeedsReview(ids:)`. */
    method MarkNeedsReview(ids: seq<string>)
      modifies this`forest, this`isModified, settings
      ensures State() == HandleEach(old(State()), ids, MarkReview)
      ensures settings.lastLanguage == old(settings.lastLanguage)
    {
      UpdateEach(ids, MarkReview);
    }

    /** `reviewed(ids:)`. */
    method Reviewed(ids: seq<string>)
      modifies this`forest, this`isModified, settings
      ensures State() == HandleEach(old(State()), ids, Unreview)
      ensures settings.lastLanguage == old(settings.lastLanguage)
    {
      UpdateEach(ids, Unreview);
    }

    /** `markTranslateLater(ids:value:)`. */
    method MarkTranslateLater(ids: seq<string>, v: bool)
      modifies this`forest, this`isModified, settings
      ensures State() == HandleEach(old(State()), ids, SetLater(v))
      ensures settings.lastLanguage == old(settings.lastLanguage)
    {
      UpdateEach(ids, SetLater(v));
    }

    /**
     * `setShouldTranslate(_:for:)`, corrected: the value reaches every root
     * of the key, so the catalog's single value per entry is the one set.
     */
    method SetShouldTranslate(v: bool, ids: seq<string>)
      modifies this`forest
      ensures forest == ShouldEach(old(forest), ids, v)
    {
      for i := 0 to |ids|
        invariant forest == ShouldEach(old(forest), ids[..i], v)
      {
        var id := ids[i];
        var root := FirstRoot(forest, id);
        if root.Some? && root.value.parentID.None? {
          forest := SetShouldForKey(forest, root.value.key, v);
        } else {
          forest := UpdateItems(forest, id, SetShould(v), HasChildren(forest));
        }
        assert ids[..i + 1][..i] == ids[..i];
      }
      assert ids[..|ids|] == ids;
    }

    /**
     * `markNeedsWork(ids:value:allLanguages:)`: each requested id through
     * the scan and into the overlay; with all languages, then each sibling
     * id of every id whose handler reached a root.
     */
    method MarkNeedsWork(ids: seq<string>, v: bool, allLanguages: bool)
      modifies this`forest, this`isModified, settings
      ensures var first := HandleEach(old(State()), ids, SetWork(v));
              State() == if allLanguages
                         then HandleEach(first, SiblingIDs(UpdatedRoots(old(State()), ids, v), languages, currentLanguage), SetWork(v))
                         else first
      ensures settings.lastLanguage == old(settings.lastLanguage)
    {
      var updated: seq<string> := [];
      for i := 0 to |ids|
        invariant State() == HandleEach(old(State()), ids[..i], SetWork(v))
        invariant updated == UpdatedRoots(old(State()), ids[..i], v)
        invariant settings.lastLanguage == old(settings.lastLanguage)
      {
        var handed := HandedFrom(forest, 0, ids[i]);
        assert ids[..i + 1][..i] == ids[..i];
        if exists j :: 0 <= j < |handed| && handed[j].parentID.None? {
          updated := updated + [ids[i]];
        }
        UpdateItemWith(ids[i], SetWork(v));
      }
      assert ids[..|ids|] == ids;
      if allLanguages {
        var siblings := CollectSiblings(updated);
        UpdateEach(siblings, SetWork(v));
      }
    }

    /** The nested loops that build the sibling ids, languages inside. */
    method CollectSiblings(updated: seq<string>) returns (r: seq<string>)
      ensures r == SiblingIDs(updated, languages, currentLanguage)
    {
      r := [];
      for i := 0 to |updated|
        invariant r == SiblingIDs(updated[..i], languages, currentLanguage)
      {
        var u := updated[i];
        assert updated[..i + 1][..i] == updated[..i];
        if Find(u, Divider).Some? {
          ghost var before := r;
          for j := 0 to |languages|
            invariant r == before + SiblingsOf(u, languages[..j], currentLanguage)
          {
            assert languages[..j + 1][..j] == languages[..j];
            if languages[j] != currentLanguage {
              r := r + [SiblingID(u, currentLanguage, languages[j])];
            }
          }
          assert languages[..|languages|] == languages;
        }
      }
      assert updated[..|updated|] == updated;
    }

    /**
     * `clearNeedsWork(allLanguages:)`: with all languages, every root of the
     * forest is unmarked and the rows reloaded; otherwise the visible roots
     * are unmarked and the rows kept. Every unmarked id leaves the overlay.
     */
    method ClearNeedsWork(allLanguages: bool)
      requires Valid()
      modifies this`forest, this`visible, settings
      ensures allLanguages ==>
                forest == UnmarkFrom(old(forest), 0) &&
                settings.needsWork == old(settings.needsWork) - UnmarkedIDsFrom(old(forest), 0) &&
                visible == Projection.Visible(forest, View(), sortOrder)
      ensures !allLanguages ==>
                forest == UnmarkAt(old(forest), visible) && visible == old(visible) &&
                settings.needsWork == old(settings.needsWork) - UnmarkedIDsAt(old(forest), visible)
      ensures settings.lastLanguage == old(settings.lastLanguage) && settings.translateLater == old(settings.translateLater)
      ensures Valid()
    {
      if allLanguages {
        forest := UnmarkNeedsWork(forest, settings, HasChildren(forest));
        ReloadData();
      } else {
        UnmarkVisible();
      }
    }

    /** The visible roots unmarked one by one, each through the same handler. */
    method UnmarkVisible()
      requires Valid()
      modifies this`forest, settings
      ensures forest == UnmarkAt(old(forest), visible)
      ensures settings.needsWork == old(settings.needsWork) - UnmarkedIDsAt(old(forest), visible)
      ensures settings.lastLanguage == old(settings.lastLanguage) && settings.translateLater == old(settings.translateLater)
      ensures Valid()
    {
      for i := 0 to |visible|
        invariant forest == UnmarkAt(old(forest), visible[..i])
        invariant settings.needsWork == old(settings.needsWork) - UnmarkedIDsAt(old(forest), visible[..i])
        invariant settings.lastLanguage == old(settings.lastLanguage) && settings.translateLater == old(settings.translateLater)
      {
        var p := visible[i];
        UnmarkAtStep(old(forest), visible[..i], p);
        assert visible[..i + 1] == visible[..i] + [p];
        var r := UnmarkNeedsWork([forest[p]], settings, HasChildren([forest[p]]));
        forest := forest[p := r[0]];
      }
      assert visible[..|visible|] == visible;
    }
  }
}
