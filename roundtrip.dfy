// Building the forest from a catalog and writing it straight back, with no
// edit in between: every localization of a listed language comes back with
// the same shape and the same texts, and only the states of the string units
// the forest shows are normalised (`needs_review` stays, anything else,
// `new` included, becomes `translated`). Slots the forest does not show are
// written back untouched.

module RoundTrip {
  import opened Wrappers
  import opened Languages
  import opened Catalog
  import opened Writer
  import Items
  import Settings
  import Builder

  /** The unit as written back: `needs_review` stays, any other state becomes `translated`. */
  function NormUnit(u: StringUnit): (n: StringUnit)
    ensures n.value == u.value
    ensures n.state == NeedsReview <==> u.state == NeedsReview
    ensures n.state != New
  {
    StringUnit(if u.state == NeedsReview then NeedsReview else Translated, u.value)
  }

  /** A plural map with its unit slots normalised; other slots as they were. */
  function NormPlural(pm: map<PluralType, Localization>): map<PluralType, Localization>
  {
    map p | p in pm :: if pm[p].Unit? then Unit(NormUnit(pm[p].unit)) else pm[p]
  }

  /** A device slot as written back: a unit normalised, a plural map's units normalised. */
  function NormDeviceSlot(x: Localization): Localization
  {
    match x
    case Unit(u) => Unit(NormUnit(u))
    case Plural(pm) => Plural(NormPlural(pm))
    case Device(_) => x
    case NoVariation => x
  }

  /** A localization as written back. */
  function NormalizeLoc(loc: Localization): Localization
  {
    match loc
    case Unit(u) => Unit(NormUnit(u))
    case Plural(pm) => Plural(NormPlural(pm))
    case Device(dm) => Device(map d | d in dm :: NormDeviceSlot(dm[d]))
    case NoVariation => loc
  }

  /** The localizations with those of the listed languages normalised. */
  function NormLangs(m: map<Language, Localization>, langs: seq<Language>): map<Language, Localization>
  {
    map l | l in m :: if l in langs then NormalizeLoc(m[l]) else m[l]
  }

  function NormalizeEntry(e: XCString, langs: seq<Language>): XCString
  {
    e.(localizations := NormLangs(e.localizations, langs))
  }

  /** The document with every entry's listed languages normalised. */
  function NormalizeDoc(doc: XCStrings, langs: seq<Language>): XCStrings
  {
    doc.(strings := seq(|doc.strings|, i requires 0 <= i < |doc.strings| => NormalizeEntry(doc.strings[i], langs)))
  }

  // ---------------------------------------------------------------------
  // Plural children
  // ---------------------------------------------------------------------

  /** `kid` carries the unit slot `p` of `pm`, with its text and review flag. */
  ghost predicate CarriesUnit(pm: map<PluralType, Localization>, p: PluralType, kid: Items.Item)
  {
    p in pm && pm[p].Unit? && kid.pluralType == Some(p) && kid.deviceType.None? &&
    kid.translation == Some(pm[p].unit.value) && kid.needsReview == (pm[p].unit.state == NeedsReview)
  }

  /** `kids` carry, one for one, the unit slots `slots` of `pm`. */
  ghost predicate CarriesUnits(pm: map<PluralType, Localization>, slots: seq<PluralType>, kids: seq<Items.Item>)
  {
    |kids| == |slots| && forall i :: 0 <= i < |kids| ==> CarriesUnit(pm, slots[i], kids[i])
  }

  /** `pm` with the unit slots among `slots` normalised. */
  function NormAt(pm: map<PluralType, Localization>, slots: seq<PluralType>): map<PluralType, Localization>
  {
    map p | p in pm :: if p in slots && pm[p].Unit? then Unit(NormUnit(pm[p].unit)) else pm[p]
  }

  lemma CarriesUnitsPrefix(pm: map<PluralType, Localization>, slots: seq<PluralType>, kids: seq<Items.Item>, n: nat)
    requires CarriesUnits(pm, slots, kids) && n <= |kids|
    ensures CarriesUnits(pm, slots[..n], kids[..n])
  {
    forall i | 0 <= i < n
      ensures kids[..n][i] == kids[i] && slots[..n][i] == slots[i]
    {
    }
  }

  /** Normalising one more slot extends the normalised list by it. */
  lemma NormAtStep(pm: map<PluralType, Localization>, slots: seq<PluralType>)
    requires |slots| > 0 && slots[|slots| - 1] in pm && pm[slots[|slots| - 1]].Unit?
    ensures var p := slots[|slots| - 1];
            NormAt(pm, slots[..|slots| - 1])[p := Unit(NormUnit(pm[p].unit))] == NormAt(pm, slots)
  {
    var n := |slots| - 1;
    assert forall q :: q in slots <==> q in slots[..n] || q == slots[n] by {
      assert slots == slots[..n] + [slots[n]];
    }
  }

  /** A plural child written into a plural map sets its slot to the normalised unit. */
  lemma WritePluralKid(pm: map<PluralType, Localization>, before: map<PluralType, Localization>, p: PluralType, kid: Items.Item)
    requires CarriesUnit(pm, p, kid)
    ensures WriteChild(Some(Plural(before)), kid) == Some(Plural(before[p := Unit(NormUnit(pm[p].unit))]))
  {
  }

  /** Writing plural children into a plural localization normalises their slots. */
  lemma {:induction false} WritePluralKidsAt(pm: map<PluralType, Localization>, slots: seq<PluralType>, kids: seq<Items.Item>)
    requires CarriesUnits(pm, slots, kids)
    ensures WriteKids(Some(Plural(pm)), kids) == Some(Plural(NormAt(pm, slots)))
  {
    if |kids| == 0 {
      assert NormAt(pm, slots) == pm;
    } else {
      var n := |kids| - 1;
      CarriesUnitsPrefix(pm, slots, kids, n);
      WritePluralKidsAt(pm, slots[..n], kids[..n]);
      assert CarriesUnit(pm, slots[n], kids[n]);
      WritePluralKid(pm, NormAt(pm, slots[..n]), slots[n], kids[n]);
      NormAtStep(pm, slots);
    }
  }

  /** Writing plural nodes' texts into a device slot holding a plural map normalises their slots. */
  lemma {:induction false} WriteDevicePluralsAt(x: map<DeviceType, Localization>, d: DeviceType,
                                               pm: map<PluralType, Localization>, slots: seq<PluralType>,
                                               kids: seq<Items.Item>)
    requires d in x && x[d] == Plural(pm)
    requires CarriesUnits(pm, slots, kids)
    ensures WriteDevicePlurals(Some(Device(x)), d, kids) == Some(Device(x[d := Plural(NormAt(pm, slots))]))
  {
    if |kids| == 0 {
      assert NormAt(pm, slots) == pm;
      assert x[d := Plural(pm)] == x;
    } else {
      var n := |kids| - 1;
      CarriesUnitsPrefix(pm, slots, kids, n);
      WriteDevicePluralsAt(x, d, pm, slots[..n], kids[..n]);
      var before := NormAt(pm, slots[..n]);
      assert CarriesUnit(pm, slots[n], kids[n]);
      assert DeviceSlot(Device(x[d := Plural(before)]), d) == Plural(before);
      NormAtStep(pm, slots);
      assert x[d := Plural(before)][d := Plural(NormAt(pm, slots))] == x[d := Plural(NormAt(pm, slots))];
    }
  }

  /** Normalising every unit slot is normalising the whole plural map. */
  lemma NormAtAll(pm: map<PluralType, Localization>, slots: seq<PluralType>)
    requires forall p :: p in pm && pm[p].Unit? ==> p in slots
    ensures NormAt(pm, slots) == NormPlural(pm)
  {
  }

  /** The children the builder makes for a plural map carry its unit slots. */
  lemma PluralKidsCarry(pm: map<PluralType, Localization>, parent: Items.Item, source: string,
                        e: XCString, src: Language, l: Language)
    ensures CarriesUnits(pm, Builder.UnitSlots(pm, PluralOrder), Builder.PluralKids(pm, parent, source, e, src, l))
  {
    var kids := Builder.PluralKids(pm, parent, source, e, src, l);
    var slots := Builder.UnitSlots(pm, PluralOrder);
    forall i | 0 <= i < |kids|
      ensures kids[i] == Builder.PluralChild(slots[i], pm[slots[i]].unit, parent, source, e, src, l)
    {
    }
  }

  lemma UnitSlotsCover(pm: map<PluralType, Localization>)
    ensures forall p :: p in pm && pm[p].Unit? ==> p in Builder.UnitSlots(pm, PluralOrder)
  {
    Builder.OrdersComplete();
  }

  /** A plural localization written back from the children built for it comes back normalised. */
  lemma PluralRoundTrip(pm: map<PluralType, Localization>, parent: Items.Item, source: string,
                        e: XCString, src: Language, l: Language)
    ensures WriteKids(Some(Plural(pm)), Builder.PluralKids(pm, parent, source, e, src, l)) == Some(Plural(NormPlural(pm)))
  {
    var slots := Builder.UnitSlots(pm, PluralOrder);
    PluralKidsCarry(pm, parent, source, e, src, l);
    WritePluralKidsAt(pm, slots, Builder.PluralKids(pm, parent, source, e, src, l));
    UnitSlotsCover(pm);
    NormAtAll(pm, slots);
  }

  /** The same for a plural map inside a device slot. */
  lemma DevicePluralRoundTrip(x: map<DeviceType, Localization>, d: DeviceType, pm: map<PluralType, Localization>,
                              parent: Items.Item, source: string, e: XCString, src: Language, l: Language)
    requires d in x && x[d] == Plural(pm)
    ensures WriteDevicePlurals(Some(Device(x)), d, Builder.PluralKids(pm, parent, source, e, src, l)) ==
            Some(Device(x[d := Plural(NormPlural(pm))]))
  {
    var slots := Builder.UnitSlots(pm, PluralOrder);
    PluralKidsCarry(pm, parent, source, e, src, l);
    WriteDevicePluralsAt(x, d, pm, slots, Builder.PluralKids(pm, parent, source, e, src, l));
    UnitSlotsCover(pm);
    NormAtAll(pm, slots);
  }

  // ---------------------------------------------------------------------
  // Device children
  // ---------------------------------------------------------------------

  /**
   * `kid` carries the slot `d` of `dm`: a unit slot as a
   * leaf with its text and review flag, a plural slot as a node whose
   * children write that plural map back normalised.
   */
  ghost predicate CarriesVariant(dm: map<DeviceType, Localization>, d: DeviceType, kid: Items.Item)
  {
    d in dm && kid.deviceType == Some(d) &&
    (dm[d].Unit? ==>
       kid.children.NoChildren? && kid.translation == Some(dm[d].unit.value) &&
       kid.needsReview == (dm[d].unit.state == NeedsReview)) &&
    (!dm[d].Unit? ==>
       dm[d].Plural? && kid.children.HasChildren? &&
       forall x :: d in x && x[d] == dm[d] ==>
         WriteDevicePlurals(Some(Device(x)), d, kid.children.list) == Some(Device(x[d := Plural(NormPlural(dm[d].plural))])))
  }

  /** `kids` carry, one for one, the slots `slots` of `dm`. */
  ghost predicate CarriesVariants(dm: map<DeviceType, Localization>, slots: seq<DeviceType>, kids: seq<Items.Item>)
  {
    |kids| == |slots| && forall i :: 0 <= i < |kids| ==> CarriesVariant(dm, slots[i], kids[i])
  }

  /** `dm` with the slots among `slots` written back. */
  function DevNormAt(dm: map<DeviceType, Localization>, slots: seq<DeviceType>): map<DeviceType, Localization>
  {
    map d | d in dm :: if d in slots then NormDeviceSlot(dm[d]) else dm[d]
  }

  lemma CarriesVariantsPrefix(dm: map<DeviceType, Localization>, slots: seq<DeviceType>, kids: seq<Items.Item>, n: nat)
    requires CarriesVariants(dm, slots, kids) && n <= |kids|
    ensures CarriesVariants(dm, slots[..n], kids[..n])
  {
    forall i | 0 <= i < n
      ensures kids[..n][i] == kids[i] && slots[..n][i] == slots[i]
    {
    }
  }

  /** Writing back one more slot extends the written-back list by it. */
  lemma DevNormAtStep(dm: map<DeviceType, Localization>, slots: seq<DeviceType>)
    requires |slots| > 0 && slots[|slots| - 1] in dm
    ensures var d := slots[|slots| - 1];
            DevNormAt(dm, slots[..|slots| - 1])[d := NormDeviceSlot(dm[d])] == DevNormAt(dm, slots)
  {
    var n := |slots| - 1;
    assert forall q :: q in slots <==> q in slots[..n] || q == slots[n] by {
      assert slots == slots[..n] + [slots[n]];
    }
  }

  /** A device child written into a device map whose slot is still untouched writes that slot back. */
  lemma WriteDeviceKid(dm: map<DeviceType, Localization>, before: map<DeviceType, Localization>, d: DeviceType, kid: Items.Item)
    requires CarriesVariant(dm, d, kid) && d in before && before[d] == dm[d]
    ensures WriteChild(Some(Device(before)), kid) == Some(Device(before[d := NormDeviceSlot(dm[d])]))
  {
  }

  /** Writing device children into a device localization writes back each of their slots. */
  lemma {:induction false} WriteDeviceKidsAt(dm: map<DeviceType, Localization>, slots: seq<DeviceType>, kids: seq<Items.Item>)
    requires CarriesVariants(dm, slots, kids) && Distinct(slots)
    ensures WriteKids(Some(Device(dm)), kids) == Some(Device(DevNormAt(dm, slots)))
  {
    if |kids| == 0 {
      assert DevNormAt(dm, slots) == dm;
    } else {
      var n := |kids| - 1;
      CarriesVariantsPrefix(dm, slots, kids, n);
      WriteDeviceKidsAt(dm, slots[..n], kids[..n]);
      DistinctSplit(slots);
      assert CarriesVariant(dm, slots[n], kids[n]);
      WriteDeviceKid(dm, DevNormAt(dm, slots[..n]), slots[n], kids[n]);
      DevNormAtStep(dm, slots);
    }
  }

  /** Writing back every unit and plural slot is writing back the whole device map. */
  lemma DevNormAtAll(dm: map<DeviceType, Localization>, slots: seq<DeviceType>)
    requires forall d :: d in dm && (dm[d].Unit? || dm[d].Plural?) ==> d in slots
    ensures DevNormAt(dm, slots) == map d | d in dm :: NormDeviceSlot(dm[d])
  {
  }

  /** The children the builder makes for a device map carry its slots. */
  lemma DeviceKidsCarry(dm: map<DeviceType, Localization>, parent: Items.Item, source: string,
                        e: XCString, src: Language, l: Language, overlay: Settings.Stored)
    ensures CarriesVariants(dm, Builder.VariantSlots(dm, DeviceOrder), Builder.DeviceKids(dm, parent, source, e, src, l, overlay))
  {
    var kids := Builder.DeviceKids(dm, parent, source, e, src, l, overlay);
    var slots := Builder.VariantSlots(dm, DeviceOrder);
    forall i | 0 <= i < |kids|
      ensures CarriesVariant(dm, slots[i], kids[i])
    {
      var d := slots[i];
      assert kids[i] == Builder.DeviceChild(d, dm[d], parent, source, e, src, l, overlay);
      if dm[d].Plural? {
        var pm := dm[d].plural;
        var node := Builder.Node(kids[i].id, DeviceName(d), e, l, overlay);
        assert kids[i].children.list == Builder.PluralKids(pm, node, source, e, src, l);
        forall x | d in x && x[d] == dm[d]
          ensures WriteDevicePlurals(Some(Device(x)), d, kids[i].children.list) == Some(Device(x[d := Plural(NormPlural(pm))]))
        {
          DevicePluralRoundTrip(x, d, pm, node, source, e, src, l);
        }
      }
    }
  }

  lemma VariantSlotsDistinct(dm: map<DeviceType, Localization>)
    ensures Distinct(Builder.VariantSlots(dm, DeviceOrder))
    ensures forall d :: d in dm && (dm[d].Unit? || dm[d].Plural?) ==> d in Builder.VariantSlots(dm, DeviceOrder)
  {
    OrdersAscending();
    Builder.VariantSlotsSorted(dm, DeviceOrder);
    Builder.OrdersComplete();
  }

  /** A device localization written back from the children built for it comes back normalised. */
  lemma DeviceRoundTrip(dm: map<DeviceType, Localization>, parent: Items.Item, source: string,
                        e: XCString, src: Language, l: Language, overlay: Settings.Stored)
    ensures WriteKids(Some(Device(dm)), Builder.DeviceKids(dm, parent, source, e, src, l, overlay)) ==
            Some(NormalizeLoc(Device(dm)))
  {
    var slots := Builder.VariantSlots(dm, DeviceOrder);
    DeviceKidsCarry(dm, parent, source, e, src, l, overlay);
    VariantSlotsDistinct(dm);
    WriteDeviceKidsAt(dm, slots, Builder.DeviceKids(dm, parent, source, e, src, l, overlay));
    DevNormAtAll(dm, slots);
  }

  // ---------------------------------------------------------------------
  // Roots, entries and the document
  // ---------------------------------------------------------------------

  /** The localizations with language `l` normalised, if present. */
  function NormAtLang(m: map<Language, Localization>, l: Language): map<Language, Localization>
  {
    if l in m then m[l := NormalizeLoc(m[l])] else m
  }

  /**
   * A root built from entry `e0` for language `l`, written into an entry
   * whose localization for `l` is still the one it was built from,
   * normalises that localization and sets `shouldTranslate` back to its
   * built value.
   */
  lemma WriteBuiltRoot(doc: XCStrings, e0: XCString, e: XCString, l: Language, overlay: Settings.Stored)
    requires Builder.BuildRoot(doc, e0, l, overlay).Some?
    requires Lookup(e.localizations, l) == Lookup(e0.localizations, l)
    ensures WriteRoot(e, Builder.BuildRoot(doc, e0, l, overlay).value) ==
            e.(shouldTranslate := e0.shouldTranslate, localizations := NormAtLang(e.localizations, l))
  {
    var r := Builder.BuildRoot(doc, e0, l, overlay).value;
    var id := Items.RootID(e0.key, l);
    var source := Builder.SourceText(e0, doc.sourceLanguage);
    var src := doc.sourceLanguage;
    if l in e0.localizations {
      match e0.localizations[l]
      case Unit(u) =>
      case Plural(pm) =>
        var node := Builder.Node(id, Builder.NodeKey(e0, None), e0, l, overlay);
        assert r.children.list == Builder.PluralKids(pm, node, source, e0, src, l);
        PluralRoundTrip(pm, node, source, e0, src, l);
      case Device(dm) =>
        var node := Builder.Node(id, e0.key, e0, l, overlay);
        assert r.children.list == Builder.DeviceKids(dm, node, source, e0, src, l, overlay);
        DeviceRoundTrip(dm, node, source, e0, src, l, overlay);
    } else {
      assert e.localizations - {l} == e.localizations;
    }
  }

  /** Normalising one more language extends the normalised list by it. */
  lemma NormLangsStep(m: map<Language, Localization>, front: seq<Language>, last: Language)
    requires last !in front
    ensures NormAtLang(NormLangs(m, front), last) == NormLangs(m, front + [last])
  {
    var a := NormAtLang(NormLangs(m, front), last);
    var b := NormLangs(m, front + [last]);
    forall l | l in m
      ensures l in a && a[l] == b[l]
    {
      assert l in front + [last] <==> l in front || l == last;
    }
  }

  /**
   * The root built for one more language, written into entries whose entry
   * `k` has the earlier languages normalised, normalises that language too.
   */
  lemma WriteNextRoot(doc: XCStrings, mid: seq<XCString>, k: nat, e0: XCString, front: seq<Language>,
                      last: Language, overlay: Settings.Stored)
    requires k < |mid| && FirstIndex(mid, e0.key) == Some(k) && mid[k] == NormalizeEntry(e0, front)
    requires last !in front
    ensures WriteAll(mid, Builder.Listed(Builder.BuildRoot(doc, e0, last, overlay))) ==
            mid[k := NormalizeEntry(e0, front + [last])]
  {
    NormLangsStep(e0.localizations, front, last);
    var r := Builder.BuildRoot(doc, e0, last, overlay);
    if r.Some? {
      assert Lookup(mid[k].localizations, last) == Lookup(e0.localizations, last);
      WriteBuiltRoot(doc, e0, mid[k], last, overlay);
      assert WriteAll(mid, [r.value]) == WriteItem(mid, r.value);
    } else {
      assert NormAtLang(NormLangs(e0.localizations, front), last) == NormLangs(e0.localizations, front);
      assert mid[k := NormalizeEntry(e0, front + [last])] == mid;
    }
  }

  /** A list whose last element is not among the others. */
  lemma DistinctSplit<T>(s: seq<T>)
    requires |s| > 0 && Distinct(s)
    ensures Distinct(s[..|s| - 1]) && s[|s| - 1] !in s[..|s| - 1]
    ensures s == s[..|s| - 1] + [s[|s| - 1]]
  {
    var front := s[..|s| - 1];
    forall i | 0 <= i < |front|
      ensures front[i] != s[|s| - 1]
    {
      assert front[i] == s[i];
    }
  }

  /**
   * The roots built from entry `k`, written into entries where entry `k` is
   * still as it was built from, normalise that entry's listed languages and
   * leave every other entry alone.
   */
  lemma {:induction false} WriteEntryRoots(doc: XCStrings, strings: seq<XCString>, k: nat, langs: seq<Language>,
                                           overlay: Settings.Stored)
    requires k < |strings| && FirstIndex(strings, strings[k].key) == Some(k)
    requires Distinct(langs)
    ensures WriteAll(strings, Builder.EntryRoots(doc, strings[k], langs, overlay)) ==
            strings[k := NormalizeEntry(strings[k], langs)]
  {
    var e0 := strings[k];
    if |langs| == 0 {
      assert NormLangs(e0.localizations, langs) == e0.localizations;
      assert strings[k := NormalizeEntry(e0, langs)] == strings;
    } else {
      var front, last := langs[..|langs| - 1], langs[|langs| - 1];
      DistinctSplit(langs);
      WriteEntryRoots(doc, strings, k, front, overlay);
      var mid := strings[k := NormalizeEntry(e0, front)];
      WriteAllAppend(strings, Builder.EntryRoots(doc, e0, front, overlay), Builder.Listed(Builder.BuildRoot(doc, e0, last, overlay)));
      assert Keys(mid) == Keys(strings);
      FirstIndexByKeys(strings, mid, e0.key);
      WriteNextRoot(doc, mid, k, e0, front, last, overlay);
      assert mid[k := NormalizeEntry(e0, langs)] == strings[k := NormalizeEntry(e0, langs)];
    }
  }

  /** The entries with the first `n` normalised and the rest as they were. */
  function NormalizedUpTo(strings: seq<XCString>, n: nat, langs: seq<Language>): (r: seq<XCString>)
    ensures |r| == |strings| && Keys(r) == Keys(strings)
  {
    seq(|strings|, i requires 0 <= i < |strings| => if i < n then NormalizeEntry(strings[i], langs) else strings[i])
  }

  /** With distinct keys, each entry is the first with its key. */
  lemma FirstIndexDistinct(strings: seq<XCString>, m: nat)
    requires m < |strings| && Distinct(Keys(strings))
    ensures FirstIndex(strings, strings[m].key) == Some(m)
  {
    forall j | 0 <= j < m
      ensures strings[j].key != strings[m].key
    {
      assert Keys(strings)[j] != Keys(strings)[m];
    }
    FirstIndexIs(strings, strings[m].key, m);
  }

  lemma NormalizedUpToStep(strings: seq<XCString>, m: nat, langs: seq<Language>)
    requires m < |strings|
    ensures NormalizedUpTo(strings, m, langs)[m] == strings[m]
    ensures NormalizedUpTo(strings, m, langs)[m := NormalizeEntry(strings[m], langs)] == NormalizedUpTo(strings, m + 1, langs)
  {
  }

  /** Writing the roots of the first `n` entries normalises exactly those entries. */
  lemma {:induction false} WriteForestPrefix(doc: XCStrings, strings: seq<XCString>, n: nat, langs: seq<Language>,
                                             overlay: Settings.Stored)
    requires n <= |strings| && Distinct(Keys(strings)) && Distinct(langs)
    ensures WriteAll(strings, Builder.Forest(doc, strings[..n], langs, overlay)) == NormalizedUpTo(strings, n, langs)
  {
    if n == 0 {
      assert NormalizedUpTo(strings, 0, langs) == strings;
    } else {
      var m := n - 1;
      WriteForestPrefix(doc, strings, m, langs, overlay);
      assert strings[..n][..m] == strings[..m] && strings[..n][m] == strings[m];
      var before := NormalizedUpTo(strings, m, langs);
      WriteAllAppend(strings, Builder.Forest(doc, strings[..m], langs, overlay),
                     Builder.EntryRoots(doc, strings[m], langs, overlay));
      FirstIndexDistinct(strings, m);
      FirstIndexByKeys(strings, before, strings[m].key);
      NormalizedUpToStep(strings, m, langs);
      WriteEntryRoots(doc, before, m, langs, overlay);
    }
  }

  /**
   * Building the forest of a catalog for a list of languages and writing it
   * straight back changes nothing but the states of the string units the
   * forest shows: entries, keys, comments, `shouldTranslate`, other
   * languages, every text and every slot the forest does not show come back
   * as they were.
   */
  lemma BuildThenWrite(doc: XCStrings, langs: seq<Language>, overlay: Settings.Stored)
    requires Distinct(Keys(doc.strings)) && Distinct(langs)
    ensures Update(Some(doc), Builder.Forest(doc, doc.strings, langs, overlay)) == Some(NormalizeDoc(doc, langs))
  {
    WriteForestPrefix(doc, doc.strings, |doc.strings|, langs, overlay);
    assert doc.strings[..|doc.strings|] == doc.strings;
    assert NormalizedUpTo(doc.strings, |doc.strings|, langs) == NormalizeDoc(doc, langs).strings;
  }
}
