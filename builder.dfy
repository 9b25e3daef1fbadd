// Building the editable forest from a catalog (`xcStringsToLocalizeItems`
// and the three `build…` helpers in AppModel.swift): one root per entry and
// language, with a child per plural or device slot.
//
// The source walks a variation dictionary in its own iteration order and
// then sorts the children by `sortNum`; since the keys are distinct the
// result is the walk in `sortNum` order, which is how the children are built
// here.

module Builder {
  import opened Wrappers
  import opened Languages
  import opened Catalog
  import opened Items
  import Settings

  /**
   * The source text of an entry: the source language's string-unit value
   * when there is one and it is not empty, else the key.
   */
  function SourceText(e: XCString, src: Language): (s: string)
    ensures src in e.localizations && e.localizations[src].Unit? && e.localizations[src].unit.value != "" ==>
              s == e.localizations[src].unit.value
    ensures !(src in e.localizations && e.localizations[src].Unit? && e.localizations[src].unit.value != "") ==>
              s == e.key
  {
    if src in e.localizations && e.localizations[src].Unit? && e.localizations[src].unit.value != "" then
      e.localizations[src].unit.value
    else
      e.key
  }

  /** The source text of a plural slot: that slot of the source language, or `fallback`. */
  function PluralSourceText(e: XCString, src: Language, p: PluralType, fallback: string): (s: string)
    ensures src in e.localizations && e.localizations[src].Plural? && p in e.localizations[src].plural &&
            e.localizations[src].plural[p].Unit? && e.localizations[src].plural[p].unit.value != "" ==>
              s == e.localizations[src].plural[p].unit.value
    ensures s != fallback ==> exists u :: u in PluralUnitsOf(e, src) && s == u.value && u.value != ""
  {
    if src in e.localizations && e.localizations[src].Plural? && p in e.localizations[src].plural &&
       e.localizations[src].plural[p].Unit? && e.localizations[src].plural[p].unit.value != ""
    then e.localizations[src].plural[p].unit.value
    else fallback
  }

  /** The string units in the plural slots of the source language. */
  function PluralUnitsOf(e: XCString, src: Language): set<StringUnit>
  {
    if src in e.localizations && e.localizations[src].Plural? then
      set p | p in e.localizations[src].plural && e.localizations[src].plural[p].Unit? :: e.localizations[src].plural[p].unit
    else {}
  }

  /** The string units in the device slots of the source language. */
  function DeviceUnitsOf(e: XCString, src: Language): set<StringUnit>
  {
    if src in e.localizations && e.localizations[src].Device? then
      set d | d in e.localizations[src].device && e.localizations[src].device[d].Unit? :: e.localizations[src].device[d].unit
    else {}
  }

  /** The source text of a device slot: that slot of the source language, or `fallback`. */
  function DeviceSourceText(e: XCString, src: Language, d: DeviceType, fallback: string): (s: string)
    ensures src in e.localizations && e.localizations[src].Device? && d in e.localizations[src].device &&
            e.localizations[src].device[d].Unit? && e.localizations[src].device[d].unit.value != "" ==>
              s == e.localizations[src].device[d].unit.value
    ensures s != fallback ==> exists u :: u in DeviceUnitsOf(e, src) && s == u.value && u.value != ""
  {
    if src in e.localizations && e.localizations[src].Device? && d in e.localizations[src].device &&
       e.localizations[src].device[d].Unit? && e.localizations[src].device[d].unit.value != ""
    then e.localizations[src].device[d].unit.value
    else fallback
  }

  /**
   * `buildStringUnitItem`: a leaf carrying the unit's value, flagged for
   * review when the unit is. Under a parent it copies the parent's marks;
   * otherwise the overlay decides them by exact id.
   */
  function UnitItem(id: string, u: StringUnit, e: XCString, source: string, l: Language,
                    parent: Option<Item>, device: Option<DeviceType>, overlay: Settings.Stored): Item
  {
    var key := if device.Some? then DeviceName(device.value) else e.key;
    Init(id, key, source, e.comment, l, Some(u.value), e.extractionState == Catalog.Stale,
         u.state == Catalog.NeedsReview, e.shouldTranslate)
      .(translateLater := if parent.Some? then parent.value.translateLater else id in overlay.translateLater,
        needsWork := if parent.Some? then parent.value.needsWork else id in overlay.needsWork,
        deviceType := device,
        parentID := if parent.Some? then Some(parent.value.id) else None)
  }

  /** One child of a plural node, for a slot holding a string unit. */
  function PluralChild(p: PluralType, u: StringUnit, parent: Item, source: string,
                       e: XCString, src: Language, l: Language): (c: Item)
    ensures c.pluralType == Some(p) && c.deviceType.None? && c.id == ChildID(parent.id, PluralRaw(p)) && c.parentID == Some(parent.id)
    ensures c.translation == Some(u.value) && c.needsReview == (u.state == Catalog.NeedsReview)
    ensures c.translateLater == parent.translateLater && c.needsWork == parent.needsWork && c.children.NoChildren?
    ensures c.sourceString == PluralSourceText(e, src, p, source)
  {
    Init(ChildID(parent.id, PluralRaw(p)), PluralName(p), PluralSourceText(e, src, p, source), None, l,
         Some(u.value), false, u.state == Catalog.NeedsReview, e.shouldTranslate)
      .(pluralType := Some(p), parentID := Some(parent.id),
        translateLater := parent.translateLater, needsWork := parent.needsWork)
  }

  /** The plural types of `order` whose slot in `pm` holds a string unit, in that order. */
  function UnitSlots(pm: map<PluralType, Localization>, order: seq<PluralType>): (slots: seq<PluralType>)
    ensures forall i :: 0 <= i < |slots| ==> slots[i] in order && slots[i] in pm && pm[slots[i]].Unit?
    ensures forall p :: p in order && p in pm && pm[p].Unit? ==> p in slots
  {
    if |order| == 0 then []
    else
      var p := order[0];
      var rest := UnitSlots(pm, order[1..]);
      assert forall q :: q in order && q != p ==> q in order[1..];
      if p in pm && pm[p].Unit? then [p] + rest else rest
  }

  /** Keeping some elements of an order sorted by sort number leaves them sorted. */
  lemma {:induction false} UnitSlotsSorted(pm: map<PluralType, Localization>, order: seq<PluralType>)
    requires PluralAscending(order)
    ensures PluralAscending(UnitSlots(pm, order))
  {
    if |order| > 0 {
      UnitSlotsSorted(pm, order[1..]);
      var rest := UnitSlots(pm, order[1..]);
      if order[0] in pm && pm[order[0]].Unit? {
        var slots := [order[0]] + rest;
        forall i, j | 0 <= i < j < |slots|
          ensures PluralSortNum(slots[i]) < PluralSortNum(slots[j])
        {
          assert slots[j] == rest[j - 1];
          if i > 0 {
            assert slots[i] == rest[i - 1];
          } else {
            var k :| 0 <= k < |order[1..]| && order[1..][k] == rest[j - 1];
            assert order[k + 1] == rest[j - 1];
          }
        }
      }
    }
  }

  /**
   * `buildPluralVariationSubItems`: a child per slot holding a string unit,
   * in ascending `sortNum` order.
   */
  function PluralKids(pm: map<PluralType, Localization>, parent: Item,
                      source: string, e: XCString, src: Language, l: Language): (kids: seq<Item>)
  {
    var slots := UnitSlots(pm, PluralOrder);
    seq(|slots|, i requires 0 <= i < |slots| => PluralChild(slots[i], pm[slots[i]].unit, parent, source, e, src, l))
  }

  /**
   * `buildPluralVarationItem`: a node without text of its own whose marks
   * come from the overlay and whose children are the plural slots. Nested
   * under a device slot it is keyed by the device name, and, as in the
   * source, its `parentID` stays nil.
   */
  function PluralItem(pm: map<PluralType, Localization>, id: string, source: string, e: XCString,
                      src: Language, l: Language, device: Option<DeviceType>, overlay: Settings.Stored): Item
  {
    var item := Node(id, NodeKey(e, device), e, l, overlay);
    item.(children := HasChildren(PluralKids(pm, item, source, e, src, l)), deviceType := device)
  }

  /** A node under a device slot is keyed by the device's name, any other by the entry's key. */
  function NodeKey(e: XCString, device: Option<DeviceType>): string
  {
    if device.Some? then DeviceName(device.value) else e.key
  }

  /**
   * A plural or device node before its children are attached: no text of
   * its own, marks from the overlay by its own id.
   */
  function Node(id: string, key: string, e: XCString, l: Language, overlay: Settings.Stored): Item
  {
    Init(id, key, "", e.comment, l, None, e.extractionState == Catalog.Stale, false, e.shouldTranslate)
      .(translateLater := id in overlay.translateLater, needsWork := id in overlay.needsWork)
  }

  /** The device types of `order` whose slot in `dm` holds a unit or a plural map, in that order. */
  function VariantSlots(dm: map<DeviceType, Localization>, order: seq<DeviceType>): (slots: seq<DeviceType>)
    ensures forall i :: 0 <= i < |slots| ==> slots[i] in order && slots[i] in dm && (dm[slots[i]].Unit? || dm[slots[i]].Plural?)
    ensures forall d :: d in order && d in dm && (dm[d].Unit? || dm[d].Plural?) ==> d in slots
  {
    if |order| == 0 then []
    else
      var d := order[0];
      var rest := VariantSlots(dm, order[1..]);
      assert forall q :: q in order && q != d ==> q in order[1..];
      if d in dm && (dm[d].Unit? || dm[d].Plural?) then [d] + rest else rest
  }

  /** Keeping some elements of an order sorted by sort number leaves them sorted. */
  lemma {:induction false} VariantSlotsSorted(dm: map<DeviceType, Localization>, order: seq<DeviceType>)
    requires DeviceAscending(order)
    ensures DeviceAscending(VariantSlots(dm, order))
  {
    if |order| > 0 {
      VariantSlotsSorted(dm, order[1..]);
      var rest := VariantSlots(dm, order[1..]);
      if order[0] in dm && (dm[order[0]].Unit? || dm[order[0]].Plural?) {
        var slots := [order[0]] + rest;
        forall i, j | 0 <= i < j < |slots|
          ensures DeviceSortNum(slots[i]) < DeviceSortNum(slots[j])
        {
          assert slots[j] == rest[j - 1];
          if i > 0 {
            assert slots[i] == rest[i - 1];
          } else {
            var k :| 0 <= k < |order[1..]| && order[1..][k] == rest[j - 1];
            assert order[k + 1] == rest[j - 1];
          }
        }
      }
    }
  }

  /**
   * The children of a device node: a unit slot becomes a leaf under the
   * node, a plural slot a plural node, in ascending `sortNum` order; other
   * slots are skipped.
   */
  function DeviceKids(dm: map<DeviceType, Localization>, parent: Item, source: string, e: XCString,
                      src: Language, l: Language, overlay: Settings.Stored): (kids: seq<Item>)
  {
    var slots := VariantSlots(dm, DeviceOrder);
    seq(|slots|, i requires 0 <= i < |slots| => DeviceChild(slots[i], dm[slots[i]], parent, source, e, src, l, overlay))
  }

  /** One child of a device node, for a slot holding a unit or a plural map. */
  function DeviceChild(d: DeviceType, slot: Localization, parent: Item, source: string,
                       e: XCString, src: Language, l: Language, overlay: Settings.Stored): (c: Item)
    requires slot.Unit? || slot.Plural?
    ensures c.deviceType == Some(d) && c.id == ChildID(parent.id, DeviceRaw(d))
    ensures slot.Unit? ==>
              c.parentID == Some(parent.id) && c.translation == Some(slot.unit.value) &&
              c.needsReview == (slot.unit.state == Catalog.NeedsReview) &&
              c.translateLater == parent.translateLater && c.needsWork == parent.needsWork &&
              c.children.NoChildren? && c.sourceString == DeviceSourceText(e, src, d, source)
    ensures slot.Plural? ==>
              c.parentID.None? && c.translation.None? && c.sourceString == "" &&
              c.children == HasChildren(PluralKids(slot.plural, Node(c.id, DeviceName(d), e, l, overlay), source, e, src, l)) &&
              c.translateLater == (c.id in overlay.translateLater) && c.needsWork == (c.id in overlay.needsWork)
  {
    var id := ChildID(parent.id, DeviceRaw(d));
    if slot.Unit? then UnitItem(id, slot.unit, e, DeviceSourceText(e, src, d, source), l, Some(parent), Some(d), overlay)
    else PluralItem(slot.plural, id, source, e, src, l, Some(d), overlay)
  }

  /** A device root: no text of its own, marks from the overlay, children per device slot. */
  function DeviceItem(dm: map<DeviceType, Localization>, id: string, source: string, e: XCString,
                      src: Language, l: Language, overlay: Settings.Stored): Item
  {
    var item := Node(id, e.key, e, l, overlay);
    item.(children := HasChildren(DeviceKids(dm, item, source, e, src, l, overlay)))
  }

  /** Every plural type and every device type is in its case list. */
  lemma OrdersComplete()
    ensures forall p: PluralType :: p in PluralOrder
    ensures forall d: DeviceType :: d in DeviceOrder
  {
    forall p: PluralType ensures p in PluralOrder {
      assert PluralOrder[PluralSortNum(p)] == p;
    }
    forall d: DeviceType ensures d in DeviceOrder {
      assert DeviceOrder[DeviceSortNum(d)] == d;
    }
  }

  /**
   * Each child of a plural node is a leaf under the node, with id
   * `id/<raw>`, the slot's value and review flag, and the node's marks.
   */
  lemma PluralKidsShape(pm: map<PluralType, Localization>, parent: Item, source: string,
                        e: XCString, src: Language, l: Language)
    ensures var kids := PluralKids(pm, parent, source, e, src, l);
            forall i :: 0 <= i < |kids| ==>
              kids[i].pluralType.Some? && kids[i].deviceType.None? &&
              kids[i].pluralType.value in pm && pm[kids[i].pluralType.value].Unit? &&
              kids[i].id == ChildID(parent.id, PluralRaw(kids[i].pluralType.value)) && kids[i].parentID == Some(parent.id) &&
              kids[i].translation == Some(pm[kids[i].pluralType.value].unit.value) &&
              kids[i].needsReview == (pm[kids[i].pluralType.value].unit.state == Catalog.NeedsReview) &&
              kids[i].translateLater == parent.translateLater && kids[i].needsWork == parent.needsWork &&
              kids[i].children.NoChildren?
  {
    var kids := PluralKids(pm, parent, source, e, src, l);
    var slots := UnitSlots(pm, PluralOrder);
    forall i | 0 <= i < |kids|
      ensures kids[i] == PluralChild(slots[i], pm[slots[i]].unit, parent, source, e, src, l)
    {
    }
  }

  /** The children of a plural node follow the unit slots one for one. */
  lemma PluralKidTypes(pm: map<PluralType, Localization>, parent: Item, source: string,
                       e: XCString, src: Language, l: Language)
    ensures var kids := PluralKids(pm, parent, source, e, src, l);
            var slots := UnitSlots(pm, PluralOrder);
            |kids| == |slots| && forall i :: 0 <= i < |kids| ==> kids[i].pluralType == Some(slots[i])
  {
    var kids := PluralKids(pm, parent, source, e, src, l);
    var slots := UnitSlots(pm, PluralOrder);
    forall i | 0 <= i < |kids|
      ensures kids[i] == PluralChild(slots[i], pm[slots[i]].unit, parent, source, e, src, l)
    {
    }
  }

  /** The children of a plural node are ascending by `sortNum`. */
  lemma PluralKidsSorted(pm: map<PluralType, Localization>, parent: Item, source: string,
                         e: XCString, src: Language, l: Language)
    ensures var kids := PluralKids(pm, parent, source, e, src, l);
            forall i, j :: 0 <= i < j < |kids| ==>
              kids[i].pluralType.Some? && kids[j].pluralType.Some? &&
              PluralSortNum(kids[i].pluralType.value) < PluralSortNum(kids[j].pluralType.value)
  {
    PluralKidTypes(pm, parent, source, e, src, l);
    OrdersAscending();
    UnitSlotsSorted(pm, PluralOrder);
  }

  /** Every slot holding a string unit has a child. */
  lemma PluralKidsCover(pm: map<PluralType, Localization>, parent: Item, source: string,
                        e: XCString, src: Language, l: Language)
    ensures var kids := PluralKids(pm, parent, source, e, src, l);
            forall p :: p in pm && pm[p].Unit? ==> exists i :: 0 <= i < |kids| && kids[i].pluralType == Some(p)
  {
    var kids := PluralKids(pm, parent, source, e, src, l);
    var slots := UnitSlots(pm, PluralOrder);
    PluralKidTypes(pm, parent, source, e, src, l);
    OrdersComplete();
    forall p | p in pm && pm[p].Unit?
      ensures exists i :: 0 <= i < |kids| && kids[i].pluralType == Some(p)
    {
      var i :| 0 <= i < |slots| && slots[i] == p;
      assert kids[i].pluralType == Some(p);
    }
  }

  /** The children of a device node follow the variant slots one for one, each with its id. */
  lemma DeviceKidTypes(dm: map<DeviceType, Localization>, parent: Item, source: string, e: XCString,
                       src: Language, l: Language, overlay: Settings.Stored)
    ensures var kids := DeviceKids(dm, parent, source, e, src, l, overlay);
            var slots := VariantSlots(dm, DeviceOrder);
            |kids| == |slots| &&
            forall i :: 0 <= i < |kids| ==>
              kids[i].deviceType == Some(slots[i])
  {
    var kids := DeviceKids(dm, parent, source, e, src, l, overlay);
    var slots := VariantSlots(dm, DeviceOrder);
    forall i | 0 <= i < |kids|
      ensures kids[i] == DeviceChild(slots[i], dm[slots[i]], parent, source, e, src, l, overlay)
    {
    }
  }

  /** Each child of a device node has id `id/<raw>`. */
  lemma DeviceKidIDs(dm: map<DeviceType, Localization>, parent: Item, source: string, e: XCString,
                     src: Language, l: Language, overlay: Settings.Stored)
    ensures var kids := DeviceKids(dm, parent, source, e, src, l, overlay);
            var slots := VariantSlots(dm, DeviceOrder);
            forall i :: 0 <= i < |kids| ==> kids[i].id == ChildID(parent.id, DeviceRaw(slots[i]))
  {
    var kids := DeviceKids(dm, parent, source, e, src, l, overlay);
    var slots := VariantSlots(dm, DeviceOrder);
    forall i | 0 <= i < |kids|
      ensures kids[i] == DeviceChild(slots[i], dm[slots[i]], parent, source, e, src, l, overlay)
    {
    }
  }

  /**
   * Each child of a device node is for a slot holding a unit or a plural
   * map. A unit child is a leaf under the node with the slot's value and the
   * node's marks; a plural child is a plural node whose parent id is left
   * unset and whose marks come from the overlay by its own id.
   */
  lemma DeviceKidsShape(dm: map<DeviceType, Localization>, parent: Item, source: string, e: XCString,
                        src: Language, l: Language, overlay: Settings.Stored)
    ensures var kids := DeviceKids(dm, parent, source, e, src, l, overlay);
            forall i :: 0 <= i < |kids| ==>
              kids[i].deviceType.Some? && kids[i].deviceType.value in dm &&
              (dm[kids[i].deviceType.value].Unit? ==>
                 kids[i].parentID == Some(parent.id) && kids[i].translation == Some(dm[kids[i].deviceType.value].unit.value) &&
                 kids[i].translateLater == parent.translateLater && kids[i].needsWork == parent.needsWork &&
                 kids[i].children.NoChildren?) &&
              (!dm[kids[i].deviceType.value].Unit? ==>
                 dm[kids[i].deviceType.value].Plural? && kids[i].parentID.None? && kids[i].translation.None? &&
                 kids[i].translateLater == (kids[i].id in overlay.translateLater) &&
                 kids[i].needsWork == (kids[i].id in overlay.needsWork) && kids[i].children.HasChildren?)
  {
    var kids := DeviceKids(dm, parent, source, e, src, l, overlay);
    var slots := VariantSlots(dm, DeviceOrder);
    forall i | 0 <= i < |kids|
      ensures kids[i] == DeviceChild(slots[i], dm[slots[i]], parent, source, e, src, l, overlay)
    {
    }
  }

  /** The children of a device node are ascending by `sortNum`. */
  lemma DeviceKidsSorted(dm: map<DeviceType, Localization>, parent: Item, source: string, e: XCString,
                         src: Language, l: Language, overlay: Settings.Stored)
    ensures var kids := DeviceKids(dm, parent, source, e, src, l, overlay);
            forall i, j :: 0 <= i < j < |kids| ==>
              kids[i].deviceType.Some? && kids[j].deviceType.Some? &&
              DeviceSortNum(kids[i].deviceType.value) < DeviceSortNum(kids[j].deviceType.value)
  {
    DeviceKidTypes(dm, parent, source, e, src, l, overlay);
    OrdersAscending();
    VariantSlotsSorted(dm, DeviceOrder);
  }

  /** Every slot holding a string unit or a plural map has a child. */
  lemma DeviceKidsCover(dm: map<DeviceType, Localization>, parent: Item, source: string, e: XCString,
                        src: Language, l: Language, overlay: Settings.Stored)
    ensures var kids := DeviceKids(dm, parent, source, e, src, l, overlay);
            forall d :: d in dm && (dm[d].Unit? || dm[d].Plural?) ==>
              exists i :: 0 <= i < |kids| && kids[i].deviceType == Some(d)
  {
    var kids := DeviceKids(dm, parent, source, e, src, l, overlay);
    var slots := VariantSlots(dm, DeviceOrder);
    DeviceKidTypes(dm, parent, source, e, src, l, overlay);
    OrdersComplete();
    forall d | d in dm && (dm[d].Unit? || dm[d].Plural?)
      ensures exists i :: 0 <= i < |kids| && kids[i].deviceType == Some(d)
    {
      assert d in DeviceOrder;
      assert d in slots;
      var i :| 0 <= i < |slots| && slots[i] == d;
      assert kids[i].deviceType == Some(d);
    }
  }

  /**
   * The root for an entry and a language: an untranslated leaf when the
   * language has no localization, a leaf for a string unit, a plural or a
   * device node; a localization with nothing in it yields no root.
   */
  function BuildRoot(doc: XCStrings, e: XCString, l: Language, overlay: Settings.Stored): (r: Option<Item>)
    ensures r.Some? <==> !(l in e.localizations && e.localizations[l].NoVariation?)
    ensures r.Some? ==>
              var id := RootID(e.key, l);
              r.value.id == id && r.value.key == e.key && r.value.language == l && r.value.parentID.None? &&
              r.value.comment == e.comment && r.value.shouldTranslate == e.shouldTranslate &&
              r.value.isStale == (e.extractionState == Catalog.Stale) &&
              r.value.translateLater == (id in overlay.translateLater) &&
              r.value.needsWork == (id in overlay.needsWork) &&
              r.value.reverseTranslation.None? && !r.value.isModified && r.value.pluralType.None? && r.value.deviceType.None?
    // no localization: an untranslated leaf
    ensures l !in e.localizations ==>
              r.value.translation.None? && !r.value.needsReview && r.value.children.NoChildren? &&
              r.value.sourceString == SourceText(e, doc.sourceLanguage)
    // a string unit: a leaf with its value
    ensures l in e.localizations && e.localizations[l].Unit? ==>
              r.value.translation == Some(e.localizations[l].unit.value) &&
              r.value.needsReview == (e.localizations[l].unit.state == Catalog.NeedsReview) &&
              r.value.children.NoChildren? && r.value.sourceString == SourceText(e, doc.sourceLanguage)
    // a variation: a node with no text of its own
    ensures l in e.localizations && (e.localizations[l].Plural? || e.localizations[l].Device?) ==>
              r.value.translation.None? && !r.value.needsReview && r.value.children.HasChildren? &&
              r.value.sourceString == ""
  {
    var id := RootID(e.key, l);
    var source := SourceText(e, doc.sourceLanguage);
    if l !in e.localizations then
      Some(Init(id, e.key, source, e.comment, l, None, e.extractionState == Catalog.Stale, false, e.shouldTranslate)
             .(translateLater := id in overlay.translateLater, needsWork := id in overlay.needsWork))
    else
      match e.localizations[l]
      case Unit(u) => Some(UnitItem(id, u, e, source, l, None, None, overlay))
      case Plural(pm) => Some(PluralItem(pm, id, source, e, doc.sourceLanguage, l, None, overlay))
      case Device(dm) => Some(DeviceItem(dm, id, source, e, doc.sourceLanguage, l, overlay))
      case NoVariation => None
  }

  function Listed(r: Option<Item>): seq<Item>
  {
    if r.Some? then [r.value] else []
  }

  /** The roots of one entry, languages in the given order. */
  function EntryRoots(doc: XCStrings, e: XCString, langs: seq<Language>, overlay: Settings.Stored): seq<Item>
  {
    if |langs| == 0 then []
    else EntryRoots(doc, e, langs[..|langs| - 1], overlay) + Listed(BuildRoot(doc, e, langs[|langs| - 1], overlay))
  }

  /** The forest for a list of entries: each entry's roots, entries in order. */
  function Forest(doc: XCStrings, strings: seq<XCString>, langs: seq<Language>, overlay: Settings.Stored): seq<Item>
  {
    if |strings| == 0 then []
    else Forest(doc, strings[..|strings| - 1], langs, overlay) + EntryRoots(doc, strings[|strings| - 1], langs, overlay)
  }

  /** The roots of an entry are the roots built for each of the languages. */
  lemma {:induction false} EntryRootsMembers(doc: XCStrings, e: XCString, langs: seq<Language>, overlay: Settings.Stored)
    ensures forall r :: r in EntryRoots(doc, e, langs, overlay) <==>
              exists j :: 0 <= j < |langs| && BuildRoot(doc, e, langs[j], overlay) == Some(r)
  {
    if |langs| > 0 {
      var front := langs[..|langs| - 1];
      var b := BuildRoot(doc, e, langs[|langs| - 1], overlay);
      EntryRootsMembers(doc, e, front, overlay);
      assert EntryRoots(doc, e, langs, overlay) == EntryRoots(doc, e, front, overlay) + Listed(b);
      forall r
        ensures r in EntryRoots(doc, e, langs, overlay) <==>
                exists j :: 0 <= j < |langs| && BuildRoot(doc, e, langs[j], overlay) == Some(r)
      {
        if r in EntryRoots(doc, e, front, overlay) {
          var j :| 0 <= j < |front| && BuildRoot(doc, e, front[j], overlay) == Some(r);
          assert langs[j] == front[j];
        }
        if exists j :: 0 <= j < |langs| && BuildRoot(doc, e, langs[j], overlay) == Some(r) {
          var j :| 0 <= j < |langs| && BuildRoot(doc, e, langs[j], overlay) == Some(r);
          if j < |front| {
            assert langs[j] == front[j];
          }
        }
      }
    }
  }

  /**
   * The forest holds exactly the roots built for each entry and language:
   * one per pair, except where the localization is empty.
   */
  lemma {:induction false} ForestMembers(doc: XCStrings, strings: seq<XCString>, langs: seq<Language>, overlay: Settings.Stored)
    ensures forall r :: r in Forest(doc, strings, langs, overlay) <==>
              exists i, j :: 0 <= i < |strings| && 0 <= j < |langs| && BuildRoot(doc, strings[i], langs[j], overlay) == Some(r)
  {
    if |strings| > 0 {
      var front := strings[..|strings| - 1];
      ForestMembers(doc, front, langs, overlay);
      EntryRootsMembers(doc, strings[|strings| - 1], langs, overlay);
      forall i | 0 <= i < |front| ensures front[i] == strings[i] { }
    }
  }

  /** `xcStringsToLocalizeItems`: entries outside, languages inside, appending each root. */
  method XCStringsToLocalizeItems(doc: XCStrings, langs: seq<Language>, overlay: Settings.Stored)
    returns (items: seq<Item>)
    ensures items == Forest(doc, doc.strings, langs, overlay)
  {
    items := [];
    for i := 0 to |doc.strings|
      invariant items == Forest(doc, doc.strings[..i], langs, overlay)
    {
      var e := doc.strings[i];
      ghost var before := items;
      for j := 0 to |langs|
        invariant items == before + EntryRoots(doc, e, langs[..j], overlay)
      {
        assert langs[..j + 1][..j] == langs[..j];
        var root := BuildRoot(doc, e, langs[j], overlay);
        if root.Some? {
          items := items + [root.value];
        }
      }
      assert langs[..|langs|] == langs;
      assert doc.strings[..i + 1][..i] == doc.strings[..i];
    }
    assert doc.strings[..|doc.strings|] == doc.strings;
  }

  /** `languages(in:)`: every language some entry has a localization for. */
  function LanguagesIn(doc: XCStrings): (ls: set<Language>)
    ensures forall l :: l in ls <==> exists i :: 0 <= i < |doc.strings| && l in doc.strings[i].localizations
  {
    set i, l | 0 <= i < |doc.strings| && l in doc.strings[i].localizations :: l
  }
}
