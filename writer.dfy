// Writing the forest back into the catalog (`updateXCStrings` in
// AppModel.swift): every root overwrites the entry with its key, its leaf
// text replacing the language's localization and its children's texts
// merged slot by slot into the localization already there.

module Writer {
  import opened Wrappers
  import opened Languages
  import opened Catalog
  import Items

  /**
   * `XCString.Localization` as the Swift struct stores it: three optional
   * fields that a write may fill independently of the others.
   */
  datatype Fields = Fields(stringUnit: Option<StringUnit>,
                           pluralVariation: Option<map<PluralType, Localization>>,
                           deviceVariation: Option<map<DeviceType, Localization>>)

  /**
   * What the catalog sees of a struct: decoding, encoding and the builder
   * all take the first field present in the order unit, plural, device.
   */
  function View(f: Fields): (loc: Localization)
    ensures f.stringUnit.Some? <==> loc.Unit?
    ensures f == Fields(None, None, None) ==> loc.NoVariation?
  {
    if f.stringUnit.Some? then Unit(f.stringUnit.value)
    else if f.pluralVariation.Some? then Plural(f.pluralVariation.value)
    else if f.deviceVariation.Some? then Device(f.deviceVariation.value)
    else NoVariation
  }

  /** `pluralVariation[p] = slot` on the struct, starting from an empty map when there is none. */
  function FieldsSetPlural(f: Fields, p: PluralType, slot: Localization): Fields
  {
    f.(pluralVariation := Some(f.pluralVariation.GetOr(map[])[p := slot]))
  }

  /** `deviceVariation[d] = slot` on the struct, starting from an empty map when there is none. */
  function FieldsSetDevice(f: Fields, d: DeviceType, slot: Localization): Fields
  {
    f.(deviceVariation := Some(f.deviceVariation.GetOr(map[])[d := slot]))
  }

  /** `deviceVariation[d] ?? Localization()` on the struct. */
  function FieldsDeviceSlot(f: Fields, d: DeviceType): Localization
  {
    if f.deviceVariation.Some? && d in f.deviceVariation.value then f.deviceVariation.value[d] else NoVariation
  }

  /** Setting a plural slot, as the catalog sees it. */
  function SetPluralSlot(loc: Localization, p: PluralType, slot: Localization): Localization
  {
    match loc
    case Unit(_) => loc
    case Plural(pm) => Plural(pm[p := slot])
    case Device(_) => Plural(map[p := slot])
    case NoVariation => Plural(map[p := slot])
  }

  /** Setting a device slot, as the catalog sees it. */
  function SetDeviceSlot(loc: Localization, d: DeviceType, slot: Localization): Localization
  {
    match loc
    case Unit(_) => loc
    case Plural(_) => loc
    case Device(dm) => Device(dm[d := slot])
    case NoVariation => Device(map[d := slot])
  }

  /** A device slot, as the catalog sees it; a missing one reads as the empty struct. */
  function DeviceSlot(loc: Localization, d: DeviceType): Localization
  {
    if loc.Device? && d in loc.device then loc.device[d] else NoVariation
  }

  /** Writing a plural slot is the same whether done on the struct or on what the catalog sees. */
  lemma SetPluralSlotExact(f: Fields, p: PluralType, slot: Localization)
    ensures View(FieldsSetPlural(f, p, slot)) == SetPluralSlot(View(f), p, slot)
  {
  }

  /** Writing a device slot is the same whether done on the struct or on what the catalog sees. */
  lemma SetDeviceSlotExact(f: Fields, d: DeviceType, slot: Localization)
    ensures View(FieldsSetDevice(f, d, slot)) == SetDeviceSlot(View(f), d, slot)
  {
  }

  /**
   * Writing a plural slot inside a device slot is the same on the struct and
   * on what the catalog sees, although the struct may read a device map the
   * catalog does not see: the write is then hidden as well.
   */
  lemma SetDevicePluralSlotExact(f: Fields, d: DeviceType, p: PluralType, slot: Localization)
    ensures View(FieldsSetDevice(f, d, SetPluralSlot(FieldsDeviceSlot(f, d), p, slot))) ==
            SetDeviceSlot(View(f), d, SetPluralSlot(DeviceSlot(View(f), d), p, slot))
  {
  }

  /** The unit a node writes: `needs_review` when flagged, `translated` otherwise. */
  function UnitFor(needsReview: bool, value: string): (u: StringUnit)
    ensures u.value == value && (u.state == NeedsReview <==> needsReview)
  {
    StringUnit(if needsReview then NeedsReview else Translated, value)
  }

  /** One plural node under a device child: its text, if any, goes to that device's plural slot. */
  function WriteDevicePlural(loc: Option<Localization>, d: DeviceType, g: Items.Item): (r: Option<Localization>)
    ensures g.translation.None? || g.pluralType.None? ==> r == loc
    ensures loc.Some? ==> r.Some?
  {
    if g.translation.Some? && g.pluralType.Some? then
      var base := loc.GetOr(NoVariation);
      Some(SetDeviceSlot(base, d, SetPluralSlot(DeviceSlot(base, d), g.pluralType.value,
                                                Unit(UnitFor(g.needsReview, g.translation.value)))))
    else loc
  }

  function WriteDevicePlurals(loc: Option<Localization>, d: DeviceType, gs: seq<Items.Item>): (r: Option<Localization>)
    ensures loc.Some? ==> r.Some?
  {
    if |gs| == 0 then loc
    else WriteDevicePlural(WriteDevicePlurals(loc, d, gs[..|gs| - 1]), d, gs[|gs| - 1])
  }

  /**
   * One child of a root: a device child writes its device slot (or, with
   * children, plural slots inside it), a plural child its plural slot. A
   * child without text writes nothing, leaving the slot as it was.
   */
  function WriteChild(loc: Option<Localization>, c: Items.Item): (r: Option<Localization>)
    ensures c.children.NoChildren? && c.translation.None? ==> r == loc
    ensures c.deviceType.None? && c.pluralType.None? ==> r == loc
    ensures loc.Some? ==> r.Some?
  {
    var base := loc.GetOr(NoVariation);
    if c.deviceType.Some? then
      if c.children.HasChildren? then WriteDevicePlurals(loc, c.deviceType.value, c.children.list)
      else if c.translation.Some? then
        Some(SetDeviceSlot(base, c.deviceType.value, Unit(UnitFor(c.needsReview, c.translation.value))))
      else loc
    else if c.pluralType.Some? && c.translation.Some? then
      Some(SetPluralSlot(base, c.pluralType.value, Unit(UnitFor(c.needsReview, c.translation.value))))
    else loc
  }

  /** The children of a root, in order; `None` stays `None` while nothing is written. */
  function WriteKids(loc: Option<Localization>, kids: seq<Items.Item>): (r: Option<Localization>)
    ensures loc.Some? ==> r.Some?
  {
    if |kids| == 0 then loc
    else WriteChild(WriteKids(loc, kids[..|kids| - 1]), kids[|kids| - 1])
  }

  function Lookup(m: map<Language, Localization>, l: Language): Option<Localization>
  {
    if l in m then Some(m[l]) else None
  }

  /**
   * One root written into its entry: `shouldTranslate` is overwritten; a
   * leaf with text replaces the language's localization with a unit, a leaf
   * without removes it; a node merges its children. Other languages and the
   * entry's other fields are untouched.
   */
  function WriteRoot(e: XCString, r: Items.Item): (w: XCString)
    ensures w.key == e.key && w.comment == e.comment && w.extractionState == e.extractionState
    ensures w.shouldTranslate == r.shouldTranslate
    ensures forall l :: l != r.language ==> Lookup(w.localizations, l) == Lookup(e.localizations, l)
    ensures r.children.NoChildren? && r.translation.Some? ==>
              Lookup(w.localizations, r.language) == Some(Unit(UnitFor(r.needsReview, r.translation.value)))
    ensures r.children.NoChildren? && r.translation.None? ==> r.language !in w.localizations
    ensures r.children.HasChildren? ==>
              Lookup(w.localizations, r.language) == WriteKids(Lookup(e.localizations, r.language), r.children.list)
  {
    var l := r.language;
    var e1 := e.(shouldTranslate := r.shouldTranslate);
    if r.children.HasChildren? then
      var merged := WriteKids(Lookup(e.localizations, l), r.children.list);
      if merged.Some? then e1.(localizations := e.localizations[l := merged.value]) else e1
    else if r.translation.Some? then
      e1.(localizations := e.localizations[l := Unit(UnitFor(r.needsReview, r.translation.value))])
    else
      e1.(localizations := e.localizations - {l})
  }

  /** `strings.firstIndex(where: { $0.key == key })`. */
  function FirstIndex(strings: seq<XCString>, key: string): (r: Option<nat>)
    ensures r.Some? ==> r.value < |strings| && strings[r.value].key == key
    ensures r.Some? ==> forall j :: 0 <= j < r.value ==> strings[j].key != key
    ensures r.None? ==> forall j :: 0 <= j < |strings| ==> strings[j].key != key
  {
    if |strings| == 0 then None
    else if strings[0].key == key then Some(0)
    else
      var rest := FirstIndex(strings[1..], key);
      if rest.Some? then Some(rest.value + 1) else None
  }

  /** One root written into the entries: into the first entry with its key, or nowhere. */
  function WriteItem(strings: seq<XCString>, r: Items.Item): (w: seq<XCString>)
    ensures |w| == |strings|
    ensures FirstIndex(strings, r.key).None? ==> w == strings
    ensures FirstIndex(strings, r.key).Some? ==>
              var i := FirstIndex(strings, r.key).value;
              w[i] == WriteRoot(strings[i], r) && forall j :: 0 <= j < |w| && j != i ==> w[j] == strings[j]
  {
    match FirstIndex(strings, r.key)
    case None => strings
    case Some(i) => strings[i := WriteRoot(strings[i], r)]
  }

  /** The whole forest written into the entries, root by root in forest order. */
  function WriteAll(strings: seq<XCString>, forest: seq<Items.Item>): (w: seq<XCString>)
    ensures |w| == |strings|
  {
    if |forest| == 0 then strings
    else WriteItem(WriteAll(strings, forest[..|forest| - 1]), forest[|forest| - 1])
  }

  /** `updateXCStrings`: no document gives nothing; otherwise the document with the forest written in. */
  function Update(doc: Option<XCStrings>, forest: seq<Items.Item>): (r: Option<XCStrings>)
    ensures r.Some? <==> doc.Some?
    ensures r.Some? ==> r.value.version == doc.value.version && r.value.sourceLanguage == doc.value.sourceLanguage
  {
    if doc.None? then None else Some(doc.value.(strings := WriteAll(doc.value.strings, forest)))
  }

  /** Writing never adds, drops or re-keys an entry. */
  lemma {:induction false} WriteAllKeys(strings: seq<XCString>, forest: seq<Items.Item>)
    ensures Keys(WriteAll(strings, forest)) == Keys(strings)
  {
    if |forest| > 0 {
      WriteAllKeys(strings, forest[..|forest| - 1]);
    }
  }

  /** Writing a forest in two parts is writing the first part and then the second. */
  lemma {:induction false} WriteAllAppend(strings: seq<XCString>, a: seq<Items.Item>, b: seq<Items.Item>)
    ensures WriteAll(strings, a + b) == WriteAll(WriteAll(strings, a), b)
  {
    if |b| == 0 {
      assert a + b == a;
    } else {
      WriteAllAppend(strings, a, b[..|b| - 1]);
      assert (a + b)[..|a + b| - 1] == a + b[..|b| - 1];
    }
  }

  /** The first index of a key depends only on the keys. */
  lemma FirstIndexByKeys(s: seq<XCString>, t: seq<XCString>, key: string)
    requires Keys(s) == Keys(t)
    ensures FirstIndex(s, key) == FirstIndex(t, key)
  {
    var ks, kt := Keys(s), Keys(t);
    assert |s| == |t|;
    assert forall i :: 0 <= i < |s| ==> s[i].key == ks[i] == kt[i] == t[i].key;
  }

  /**
   * `shouldTranslate` is overwritten by every root with the entry's key, so
   * the last such root in forest order decides it.
   */
  lemma {:induction false} LastRootWins(strings: seq<XCString>, forest: seq<Items.Item>, j: nat)
    requires j < |forest| && FirstIndex(strings, forest[j].key).Some?
    requires forall k :: j < k < |forest| ==> forest[k].key != forest[j].key
    ensures WriteAll(strings, forest)[FirstIndex(strings, forest[j].key).value].shouldTranslate == forest[j].shouldTranslate
  {
    var i := FirstIndex(strings, forest[j].key).value;
    var front := forest[..|forest| - 1];
    var before := WriteAll(strings, front);
    WriteAllKeys(strings, front);
    FirstIndexByKeys(strings, before, forest[j].key);
    if j < |forest| - 1 {
      LastRootWins(strings, front, j);
      var last := forest[|forest| - 1];
      if FirstIndex(before, last.key).Some? {
        assert before[FirstIndex(before, last.key).value].key == last.key;
        assert FirstIndex(before, last.key).value != i;
      }
    }
  }

  /** `firstIndex(where:)` as the source runs it: a scan from the front. */
  method FindIndex(strings: seq<XCString>, key: string) returns (r: Option<nat>)
    ensures r == FirstIndex(strings, key)
  {
    var i := 0;
    while i < |strings|
      invariant 0 <= i <= |strings|
      invariant forall j :: 0 <= j < i ==> strings[j].key != key
    {
      if strings[i].key == key {
        FirstIndexIs(strings, key, i);
        return Some(i);
      }
      i := i + 1;
    }
    FirstIndexNone(strings, key);
    return None;
  }

  lemma {:induction false} FirstIndexIs(strings: seq<XCString>, key: string, i: nat)
    requires i < |strings| && strings[i].key == key
    requires forall j :: 0 <= j < i ==> strings[j].key != key
    ensures FirstIndex(strings, key) == Some(i)
  {
    if i > 0 {
      FirstIndexIs(strings[1..], key, i - 1);
    }
  }

  lemma {:induction false} FirstIndexNone(strings: seq<XCString>, key: string)
    requires forall j :: 0 <= j < |strings| ==> strings[j].key != key
    ensures FirstIndex(strings, key) == None
  {
    if |strings| > 0 {
      FirstIndexNone(strings[1..], key);
    }
  }

  /**
   * `updateXCStrings`: for each root in order, find its entry, overwrite
   * `shouldTranslate`, then write its text or merge its children's texts
   * into the language's localization.
   */
  method UpdateXCStrings(doc: Option<XCStrings>, forest: seq<Items.Item>) returns (r: Option<XCStrings>)
    ensures r == Update(doc, forest)
  {
    if doc.None? {
      return None;
    }
    var strings := doc.value.strings;
    for n := 0 to |forest|
      invariant strings == WriteAll(doc.value.strings, forest[..n])
    {
      assert forest[..n + 1][..n] == forest[..n];
      var item := forest[n];
      var index := FindIndex(strings, item.key);
      if index.None? {
        continue;
      }
      var i := index.value;
      var e := strings[i].(shouldTranslate := item.shouldTranslate);
      var l := item.language;
      if item.children.HasChildren? {
        var children := item.children.list;
        var loc := Lookup(e.localizations, l);
        ghost var start := loc;
        for k := 0 to |children|
          invariant loc == WriteKids(start, children[..k])
        {
          assert children[..k + 1][..k] == children[..k];
          var sub := children[k];
          if sub.deviceType.Some? {
            var d := sub.deviceType.value;
            if sub.children.HasChildren? {
              var plurals := sub.children.list;
              ghost var before := loc;
              for g := 0 to |plurals|
                invariant loc == WriteDevicePlurals(before, d, plurals[..g])
              {
                assert plurals[..g + 1][..g] == plurals[..g];
                var pluralItem := plurals[g];
                if pluralItem.translation.Some? && pluralItem.pluralType.Some? {
                  var base := loc.GetOr(NoVariation);
                  var unit := UnitFor(pluralItem.needsReview, pluralItem.translation.value);
                  loc := Some(SetDeviceSlot(base, d, SetPluralSlot(DeviceSlot(base, d), pluralItem.pluralType.value, Unit(unit))));
                }
              }
              assert plurals[..|plurals|] == plurals;
            } else if sub.translation.Some? {
              var unit := UnitFor(sub.needsReview, sub.translation.value);
              loc := Some(SetDeviceSlot(loc.GetOr(NoVariation), d, Unit(unit)));
            }
          } else if sub.pluralType.Some? && sub.translation.Some? {
            var unit := UnitFor(sub.needsReview, sub.translation.value);
            loc := Some(SetPluralSlot(loc.GetOr(NoVariation), sub.pluralType.value, Unit(unit)));
          }
        }
        assert children[..|children|] == children;
        if loc.Some? {
          e := e.(localizations := e.localizations[l := loc.value]);
        }
      } else if item.translation.Some? {
        e := e.(localizations := e.localizations[l := Unit(UnitFor(item.needsReview, item.translation.value))]);
      } else {
        e := e.(localizations := e.localizations - {l});
      }
      strings := strings[i := e];
    }
    assert forest[..|forest|] == forest;
    return Some(doc.value.(strings := strings));
  }
}
