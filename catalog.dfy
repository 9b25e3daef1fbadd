/**
 * The string-catalog document: a version, a source language and a list of
 * entries, each holding per-language localizations that are a plain string
 * unit, a plural variation or a device variation. The JSON coders follow
 * the `Codable` conformances of the Swift structs `XCStrings`, `XCString`,
 * `XCString.Localization` and `XCString.Localization.StringUnit`.
 */
module Catalog {
  import opened Wrappers
  import opened Json
  import opened Languages

  // ---------------------------------------------------------------------
  // Enumerations and their raw values
  // ---------------------------------------------------------------------

  /** `XCString.ExtractionState`; `ExtractionNone` is the raw value "none". */
  datatype ExtractionState = ExtractionNone | Stale | Manual

  /** `StringUnit.State`. */
  datatype UnitState = New | Translated | NeedsReview

  /** `XCString.PluralType`: five of the six plural categories (`two` is not a case). */
  datatype PluralType = Zero | One | Few | Many | Other

  /** `XCString.DeviceType`; `OtherDevice` is the raw value "other". */
  datatype DeviceType = IPhone | IPod | IPad | AppleWatch | AppleTV | AppleVision | Mac | OtherDevice

  function ExtractionRaw(e: ExtractionState): string
  {
    match e
    case ExtractionNone => "none"
    case Stale => "stale"
    case Manual => "manual"
  }

  function ExtractionFromRaw(raw: string): (r: Option<ExtractionState>)
    ensures r.Some? ==> ExtractionRaw(r.value) == raw
    ensures forall e :: ExtractionRaw(e) == raw ==> r == Some(e)
  {
    if raw == "none" then Some(ExtractionNone)
    else if raw == "stale" then Some(Stale)
    else if raw == "manual" then Some(Manual)
    else None
  }

  function StateRaw(s: UnitState): string
  {
    match s
    case New => "new"
    case Translated => "translated"
    case NeedsReview => "needs_review"
  }

  function StateFromRaw(raw: string): (r: Option<UnitState>)
    ensures r.Some? ==> StateRaw(r.value) == raw
    ensures forall s :: StateRaw(s) == raw ==> r == Some(s)
  {
    if raw == "new" then Some(New)
    else if raw == "translated" then Some(Translated)
    else if raw == "needs_review" then Some(NeedsReview)
    else None
  }

  function PluralRaw(p: PluralType): string
  {
    match p
    case Zero => "zero"
    case One => "one"
    case Few => "few"
    case Many => "many"
    case Other => "other"
  }

  function PluralFromRaw(raw: string): (r: Option<PluralType>)
    ensures r.Some? ==> PluralRaw(r.value) == raw
    ensures forall p :: PluralRaw(p) == raw ==> r == Some(p)
  {
    var c :=
      if |raw| == 4 then (if raw[0] == 'z' then Some(Zero) else Some(Many))
      else if |raw| == 3 then (if raw[0] == 'o' then Some(One) else Some(Few))
      else if |raw| == 5 then Some(Other)
      else None;
    if c.Some? && PluralRaw(c.value) == raw then c
    else
      assert forall p :: PluralRaw(p) != raw by {
        forall p ensures PluralRaw(p) != raw {
          assert |raw| == |PluralRaw(p)| ==> raw[0] == PluralRaw(p)[0] ==> c == Some(p);
        }
      }
      None
  }

  function DeviceRaw(d: DeviceType): string
  {
    match d
    case IPhone => "iphone"
    case IPod => "ipod"
    case IPad => "ipad"
    case AppleWatch => "applewatch"
    case AppleTV => "appletv"
    case AppleVision => "applevision"
    case Mac => "mac"
    case OtherDevice => "other"
  }

  function DeviceFromRaw(raw: string): (r: Option<DeviceType>)
    ensures r.Some? ==> DeviceRaw(r.value) == raw
    ensures forall d :: DeviceRaw(d) == raw ==> r == Some(d)
  {
    var c :=
      if |raw| == 6 then Some(IPhone)
      else if |raw| == 4 then (if |raw| == 4 && raw[2] == 'o' then Some(IPod) else Some(IPad))
      else if |raw| == 10 then Some(AppleWatch)
      else if |raw| == 7 then Some(AppleTV)
      else if |raw| == 11 then Some(AppleVision)
      else if |raw| == 3 then Some(Mac)
      else if |raw| == 5 then Some(OtherDevice)
      else None;
    if c.Some? && DeviceRaw(c.value) == raw then c
    else
      assert forall d :: DeviceRaw(d) != raw by {
        forall d ensures DeviceRaw(d) != raw {
          assert |raw| == |DeviceRaw(d)| ==> (|raw| == 4 ==> raw[2] == DeviceRaw(d)[2]) ==> c == Some(d);
        }
      }
      None
  }

  /** Distinct cases have distinct raw values, so each raw value names one case. */
  lemma RawNamesInjective()
    ensures forall p: PluralType, q: PluralType :: PluralRaw(p) == PluralRaw(q) ==> p == q
    ensures forall d: DeviceType, e: DeviceType :: DeviceRaw(d) == DeviceRaw(e) ==> d == e
  {
    forall p: PluralType, q: PluralType | PluralRaw(p) == PluralRaw(q) ensures p == q {
      assert PluralFromRaw(PluralRaw(p)) == Some(p);
    }
    forall d: DeviceType, e: DeviceType | DeviceRaw(d) == DeviceRaw(e) ensures d == e {
      assert DeviceFromRaw(DeviceRaw(d)) == Some(d);
    }
  }

  /** The CLDR category `two` has no case, so a plural key "two" is rejected. */
  lemma PluralTwoIsUnknown()
    ensures PluralFromRaw("two") == None
  {
  }

  // ---------------------------------------------------------------------
  // Sort numbers and display names
  // ---------------------------------------------------------------------

  /** `PluralType.sortNum`. */
  function PluralSortNum(p: PluralType): (n: nat)
    ensures n < |PluralOrder| && PluralOrder[n] == p
  {
    match p
    case Zero => 0
    case One => 1
    case Few => 2
    case Many => 3
    case Other => 4
  }

  /** `DeviceType.sortNum`. */
  function DeviceSortNum(d: DeviceType): (n: nat)
    ensures n < |DeviceOrder| && DeviceOrder[n] == d
  {
    match d
    case IPhone => 0
    case IPod => 1
    case IPad => 2
    case AppleWatch => 3
    case AppleTV => 4
    case AppleVision => 5
    case Mac => 6
    case OtherDevice => 7
  }

  /** Every plural type, in ascending `sortNum` order. */
  const PluralOrder: seq<PluralType> := [Zero, One, Few, Many, Other]

  /** Every device type, in ascending `sortNum` order. */
  const DeviceOrder: seq<DeviceType> := [IPhone, IPod, IPad, AppleWatch, AppleTV, AppleVision, Mac, OtherDevice]

  /** Strictly ascending by `PluralType.sortNum`. */
  predicate PluralAscending(s: seq<PluralType>)
  {
    forall i, j :: 0 <= i < j < |s| ==> PluralSortNum(s[i]) < PluralSortNum(s[j])
  }

  /** Strictly ascending by `DeviceType.sortNum`. */
  predicate DeviceAscending(s: seq<DeviceType>)
  {
    forall i, j :: 0 <= i < j < |s| ==> DeviceSortNum(s[i]) < DeviceSortNum(s[j])
  }

  /** The two case lists are in sort order, so walking them is sorting by `sortNum`. */
  lemma OrdersAscending()
    ensures PluralAscending(PluralOrder) && DeviceAscending(DeviceOrder)
  {
    assert forall i :: 0 <= i < |PluralOrder| ==> PluralSortNum(PluralOrder[i]) == i;
    assert forall i :: 0 <= i < |DeviceOrder| ==> DeviceSortNum(DeviceOrder[i]) == i;
  }

  /** Both sort numbers are injective, so sorting by them is a total order. */
  lemma SortNumsInjective(p: PluralType, q: PluralType, d: DeviceType, e: DeviceType)
    ensures PluralSortNum(p) == PluralSortNum(q) ==> p == q
    ensures DeviceSortNum(d) == DeviceSortNum(e) ==> d == e
  {
  }

  /** `PluralType.localizedName` in the development language. */
  function PluralName(p: PluralType): string
  {
    match p
    case Zero => "Zero"
    case One => "One"
    case Few => "Few"
    case Many => "Many"
    case Other => "Other"
  }

  /** `DeviceType.localizedName` in the development language. */
  function DeviceName(d: DeviceType): string
  {
    match d
    case IPhone => "iPhone"
    case IPod => "iPod"
    case IPad => "iPad"
    case AppleWatch => "Apple Watch"
    case AppleTV => "Apple TV"
    case AppleVision => "Apple Vision"
    case Mac => "Mac"
    case OtherDevice => "Other"
  }

  // ---------------------------------------------------------------------
  // The document
  // ---------------------------------------------------------------------

  datatype StringUnit = StringUnit(state: UnitState, value: string)

  /**
   * `XCString.Localization`. The Swift struct has three optional fields.
   * The encoder and the builder's branch on a localization look at them in
   * the order stringUnit, plural, device; this sum type is that first
   * populated field. Decoding can fill both variation maps, and the
   * builder's lookup of a device slot's source text reads the device map
   * directly; a device map beside a plural map is not kept here.
   * `NoVariation` is the struct with all three absent, which decoding
   * `{"variations": {}}` produces.
   */
  datatype Localization =
    | Unit(unit: StringUnit)
    | Plural(plural: map<PluralType, Localization>)
    | Device(device: map<DeviceType, Localization>)
    | NoVariation

  /**
   * `XCString`, after decoding has stamped `key`. `shouldTranslate` is read
   * and written by the editor but is not among the struct's coding keys.
   */
  datatype XCString = XCString(
    key: string,
    comment: Option<string>,
    localizations: map<Language, Localization>,
    extractionState: ExtractionState,
    shouldTranslate: bool)

  /** `XCStrings`; `strings` keeps the order in which decoding met the entries. */
  datatype XCStrings = XCStrings(version: string, sourceLanguage: Language, strings: seq<XCString>)

  /** The keys of a list of entries, in order. */
  function Keys(strings: seq<XCString>): (ks: seq<string>)
    ensures |ks| == |strings|
    ensures forall i :: 0 <= i < |strings| ==> ks[i] == strings[i].key
  {
    seq(|strings|, i requires 0 <= i < |strings| => strings[i].key)
  }

  predicate Distinct<T(==)>(s: seq<T>)
  {
    forall i, j :: 0 <= i < j < |s| ==> s[i] != s[j]
  }

  /** The coding keys that share a length still differ. */
  lemma CodingKeysDistinct()
    ensures "stringUnit" != "variations" && "plural" != "device"
    ensures "state" != "value" && "version" != "strings"
    ensures "comment" != "extractionState" && "comment" != "localizations" && "extractionState" != "localizations"
  {
    assert "stringUnit"[0] != "variations"[0];
    assert "plural"[0] != "device"[0];
    assert "state"[0] != "value"[0];
    assert "version"[0] != "strings"[0];
  }

  // ---------------------------------------------------------------------
  // StringUnit coding
  // ---------------------------------------------------------------------

  /** `StringUnit.encode(to:)`: `value`, and `state` as its raw value. */
  function EncodeUnit(u: StringUnit): Json
  {
    JObject(map["value" := JString(u.value), "state" := JString(StateRaw(u.state))])
  }

  /**
   * `StringUnit.init(from:)`: both fields are required strings; a state
   * string that is not a raw value becomes `new`.
   */
  function DecodeUnit(j: Json): (r: Option<StringUnit>)
    ensures r.Some? <==> j.JObject? && "state" in j.fields && j.fields["state"].JString?
                         && "value" in j.fields && j.fields["value"].JString?
    ensures r.Some? ==> r.value.value == j.fields["value"].str
    ensures r.Some? ==> (r.value.state == New <==> StateFromRaw(j.fields["state"].str) in {None, Some(New)})
  {
    match j
    case JObject(f) =>
      if "state" in f && f["state"].JString? && "value" in f && f["value"].JString? then
        Some(StringUnit(StateFromRaw(f["state"].str).GetOr(New), f["value"].str))
      else None
    case _ => None
  }

  lemma UnitRoundTrip(u: StringUnit)
    ensures DecodeUnit(EncodeUnit(u)) == Some(u)
  {
  }

  /** `needsReview` is written as "needs_review", and an unknown state reads back as `new`. */
  lemma UnitStateSpelling(value: string, raw: string)
    ensures EncodeUnit(StringUnit(NeedsReview, value)).fields["state"] == JString("needs_review")
    ensures raw !in {"new", "translated", "needs_review"} ==>
              DecodeUnit(JObject(map["state" := JString(raw), "value" := JString(value)])) == Some(StringUnit(New, value))
  {
  }

  // ---------------------------------------------------------------------
  // Localization coding
  // ---------------------------------------------------------------------

  /** The `plural` dictionary of a variation: raw plural names to localizations. */
  function EncodePluralDict(m: map<PluralType, Localization>): (d: map<string, Json>)
    decreases Plural(m), 0
    ensures forall s :: s in d ==> PluralFromRaw(s).Some? && PluralFromRaw(s).value in m
    ensures forall p :: p in m ==> PluralRaw(p) in d && d[PluralRaw(p)] == EncodeLocalization(m[p])
  {
    RawNamesInjective();
    map p | p in m :: PluralRaw(p) := EncodeLocalization(m[p])
  }

  /** The `device` dictionary of a variation: raw device names to localizations. */
  function EncodeDeviceDict(m: map<DeviceType, Localization>): (d: map<string, Json>)
    decreases Device(m), 0
    ensures forall s :: s in d ==> DeviceFromRaw(s).Some? && DeviceFromRaw(s).value in m
    ensures forall x :: x in m ==> DeviceRaw(x) in d && d[DeviceRaw(x)] == EncodeLocalization(m[x])
  {
    RawNamesInjective();
    map x | x in m :: DeviceRaw(x) := EncodeLocalization(m[x])
  }

  /**
   * `Localization.encode(to:)`: exactly one shape, chosen with priority
   * stringUnit, then plural, then device; nothing at all when none is set.
   */
  function EncodeLocalization(loc: Localization): (j: Json)
    decreases loc, 1
    ensures j.JObject?
    ensures loc.Unit? <==> "stringUnit" in j.fields
    ensures (loc.Plural? || loc.Device?) <==> "variations" in j.fields
    ensures loc.NoVariation? <==> j.fields == map[]
  {
    match loc
    case Unit(u) => JObject(map["stringUnit" := EncodeUnit(u)])
    case Plural(m) => JObject(map["variations" := JObject(map["plural" := JObject(EncodePluralDict(m))])])
    case Device(m) => JObject(map["variations" := JObject(map["device" := JObject(EncodeDeviceDict(m))])])
    case NoVariation => JObject(map[])
  }

  /**
   * A `[String: Localization]` dictionary of plural variations, decoded:
   * every value must decode and every key must be a plural raw value
   * (otherwise the force-unwrap traps).
   */
  function DecodePluralDict(j: Json): (r: Option<map<PluralType, Localization>>)
    decreases j, 0
    ensures r.Some? ==> j.JObject?
  {
    if j.JObject? && forall s :: s in j.fields ==> PluralFromRaw(s).Some? && DecodeLocalization(j.fields[s]).Some? then
      Some(map s | s in j.fields :: PluralFromRaw(s).value := DecodeLocalization(j.fields[s]).value)
    else None
  }
  /** Each entry of a decoded plural dictionary comes from the entry under its raw value. */
  lemma DecodedPluralDict(j: Json)
    requires DecodePluralDict(j).Some?
    ensures var r := DecodePluralDict(j).value;
            && (forall s :: s in j.fields ==>
                  PluralFromRaw(s).Some? && PluralFromRaw(s).value in r
                  && DecodeLocalization(j.fields[s]) == Some(r[PluralFromRaw(s).value]))
            && (forall p :: p in r ==> PluralRaw(p) in j.fields)
  {
  }


  /** The device counterpart of `DecodePluralDict`. */
  function DecodeDeviceDict(j: Json): (r: Option<map<DeviceType, Localization>>)
    decreases j, 0
    ensures r.Some? ==> j.JObject?
  {
    if j.JObject? && forall s :: s in j.fields ==> DeviceFromRaw(s).Some? && DecodeLocalization(j.fields[s]).Some? then
      Some(map s | s in j.fields :: DeviceFromRaw(s).value := DecodeLocalization(j.fields[s]).value)
    else None
  }
  /** Each entry of a decoded device dictionary comes from the entry under its raw value. */
  lemma DecodedDeviceDict(j: Json)
    requires DecodeDeviceDict(j).Some?
    ensures var r := DecodeDeviceDict(j).value;
            && (forall s :: s in j.fields ==>
                  DeviceFromRaw(s).Some? && DeviceFromRaw(s).value in r
                  && DecodeLocalization(j.fields[s]) == Some(r[DeviceFromRaw(s).value]))
            && (forall x :: x in r ==> DeviceRaw(x) in j.fields)
  {
  }


  /**
   * The `variations` object: it must be an object; its `plural` and `device`
   * dictionaries are both decoded when present, and `plural` takes
   * precedence. With neither, all three fields stay absent.
   */
  function DecodeVariations(v: Json): (r: Option<Localization>)
    decreases v, 1
    ensures r.Some? ==> !r.value.Unit?
  {
    if !v.JObject? then None
    else
      var plural := if "plural" in v.fields then DecodePluralDict(v.fields["plural"]) else Some(map[]);
      var device := if "device" in v.fields then DecodeDeviceDict(v.fields["device"]) else Some(map[]);
      if plural.None? || device.None? then None
      else if "plural" in v.fields then Some(Plural(plural.value))
      else if "device" in v.fields then Some(Device(device.value))
      else Some(NoVariation)
  }

  /**
   * `Localization.init(from:)`. A present `stringUnit` decides the shape and
   * `variations` is not read; otherwise `variations` is required.
   */
  function DecodeLocalization(j: Json): (r: Option<Localization>)
    decreases j, 2
    ensures r.Some? ==> j.JObject? && (r.value.Unit? <==> "stringUnit" in j.fields)
  {
    if !j.JObject? then None
    else if "stringUnit" in j.fields then
      match DecodeUnit(j.fields["stringUnit"])
      case Some(u) => Some(Unit(u))
      case None => None
    else if "variations" in j.fields then DecodeVariations(j.fields["variations"])
    else None
  }

  /** A localization that contains no `NoVariation` at any depth. */
  predicate Populated(loc: Localization)
  {
    match loc
    case Unit(_) => true
    case Plural(m) => forall p :: p in m ==> Populated(m[p])
    case Device(m) => forall d :: d in m ==> Populated(m[d])
    case NoVariation => false
  }

  /** Decoding inverts encoding for every populated localization. */
  lemma {:induction false} LocalizationRoundTrip(loc: Localization)
    requires Populated(loc)
    ensures DecodeLocalization(EncodeLocalization(loc)) == Some(loc)
    decreases loc
  {
    match loc
    case Unit(u) =>
      UnitRoundTrip(u);
    case Plural(m) =>
      forall p | p in m ensures DecodeLocalization(EncodeLocalization(m[p])) == Some(m[p]) {
        LocalizationRoundTrip(m[p]);
      }
      PluralDictRoundTrip(m);
      VariationsOfPlural(EncodePluralDict(m), m);
    case Device(m) =>
      forall x | x in m ensures DecodeLocalization(EncodeLocalization(m[x])) == Some(m[x]) {
        LocalizationRoundTrip(m[x]);
      }
      DeviceDictRoundTrip(m);
      VariationsOfDevice(EncodeDeviceDict(m), m);
  }

  lemma PluralDictRoundTrip(m: map<PluralType, Localization>)
    requires forall p :: p in m ==> DecodeLocalization(EncodeLocalization(m[p])) == Some(m[p])
    ensures DecodePluralDict(JObject(EncodePluralDict(m))) == Some(m)
  {
    var d := EncodePluralDict(m);
    var r := DecodePluralDict(JObject(d));
    assert r.Some?;
    DecodedPluralDict(JObject(d));
    assert r.value == m;
  }

  lemma DeviceDictRoundTrip(m: map<DeviceType, Localization>)
    requires forall x :: x in m ==> DecodeLocalization(EncodeLocalization(m[x])) == Some(m[x])
    ensures DecodeDeviceDict(JObject(EncodeDeviceDict(m))) == Some(m)
  {
    var d := EncodeDeviceDict(m);
    var r := DecodeDeviceDict(JObject(d));
    assert r.Some?;
    DecodedDeviceDict(JObject(d));
    assert r.value == m;
  }

  lemma VariationsOfPlural(d: map<string, Json>, m: map<PluralType, Localization>)
    requires DecodePluralDict(JObject(d)) == Some(m)
    ensures DecodeLocalization(JObject(map["variations" := JObject(map["plural" := JObject(d)])])) == Some(Plural(m))
  {
    CodingKeysDistinct();
    var v := JObject(map["plural" := JObject(d)]);
    var j := JObject(map["variations" := v]);
    assert "device" !in v.fields && v.fields["plural"] == JObject(d);
    assert DecodeVariations(v) == Some(Plural(m));
    assert "stringUnit" !in j.fields && j.fields["variations"] == v;
  }


  lemma VariationsOfDevice(d: map<string, Json>, m: map<DeviceType, Localization>)
    requires DecodeDeviceDict(JObject(d)) == Some(m)
    ensures DecodeLocalization(JObject(map["variations" := JObject(map["device" := JObject(d)])])) == Some(Device(m))
  {
    CodingKeysDistinct();
    var v := JObject(map["device" := JObject(d)]);
    var j := JObject(map["variations" := v]);
    assert "plural" !in v.fields && v.fields["device"] == JObject(d);
    assert DecodeVariations(v) == Some(Device(m));
    assert "stringUnit" !in j.fields && j.fields["variations"] == v;
  }


  /**
   * The one localization that does not survive a round trip: all three
   * fields absent encodes as `{}`, and `{}` has no `variations` to decode.
   */
  lemma NoVariationDoesNotRoundTrip()
    ensures EncodeLocalization(NoVariation) == JObject(map[])
    ensures DecodeLocalization(JObject(map[])) == None
    ensures DecodeLocalization(JObject(map["variations" := JObject(map[])])) == Some(NoVariation)
  {
    assert DecodeVariations(JObject(map[])) == Some(NoVariation);
  }

  /** When a decodable string unit is present, `variations` is never looked at. */
  lemma DecodePrefersStringUnit(u: StringUnit, variations: Json)
    ensures DecodeLocalization(JObject(map["stringUnit" := EncodeUnit(u), "variations" := variations]))
            == Some(Unit(u))
  {
    UnitRoundTrip(u);
  }

  /** When both dictionaries are present and decode, the plural one wins. */
  lemma DecodePrefersPlural(pd: map<string, Json>, dd: map<string, Json>)
    requires DecodePluralDict(JObject(pd)).Some? && DecodeDeviceDict(JObject(dd)).Some?
    ensures DecodeVariations(JObject(map["plural" := JObject(pd), "device" := JObject(dd)]))
            == Some(Plural(DecodePluralDict(JObject(pd)).value))
  {
  }

  /** A device dictionary that fails to decode fails the whole localization, even beside a plural one. */
  lemma BadDeviceFailsPlural(pd: map<string, Json>, dd: map<string, Json>)
    requires DecodeDeviceDict(JObject(dd)).None?
    ensures DecodeVariations(JObject(map["plural" := JObject(pd), "device" := JObject(dd)])) == None
  {
  }

  // ---------------------------------------------------------------------
  // Entry coding
  // ---------------------------------------------------------------------

  /** Different languages have different codes. */
  lemma AllCodesInjective()
    ensures forall a: Language, b: Language :: Code(a) == Code(b) ==> a == b
  {
    forall a: Language, b: Language ensures Code(a) == Code(b) ==> a == b {
      CodeInjective(a, b);
    }
  }

  /** The `localizations` dictionary, keyed by language code. */
  function EncodeLocalizations(locs: map<Language, Localization>): map<string, Json>
  {
    AllCodesInjective();
    map l | l in locs :: Code(l) := EncodeLocalization(locs[l])
  }

  /** Each language's localization sits under its code, and every key is a known code. */
  lemma EncodedLocalizations(locs: map<Language, Localization>)
    ensures var d := EncodeLocalizations(locs);
            && (forall s :: s in d ==> FromCode(s).Some? && FromCode(s).value in locs)
            && (forall l :: l in locs ==> Code(l) in d && d[Code(l)] == EncodeLocalization(locs[l]))
  {
    AllCodesInjective();
    forall l | l in locs ensures FromCode(Code(l)) == Some(l) {
      CodeRoundTrip(l);
    }
  }

  /** The `comment` field: written only when there is a comment. */
  function CommentField(comment: Option<string>): (f: map<string, Json>)
    ensures comment.None? ==> f == map[]
    ensures comment.Some? ==> f == map["comment" := JString(comment.value)]
  {
    if comment.Some? then map["comment" := JString(comment.value)] else map[]
  }

  /** The `extractionState` field: written only when it is not "none". */
  function ExtractionField(state: ExtractionState): (f: map<string, Json>)
    ensures state == ExtractionNone ==> f == map[]
    ensures state != ExtractionNone ==> f == map["extractionState" := JString(ExtractionRaw(state))]
  {
    if state != ExtractionNone then map["extractionState" := JString(ExtractionRaw(state))] else map[]
  }

  /** The `localizations` field: written only when some language has a localization. */
  function LocalizationsField(locs: map<Language, Localization>): (f: map<string, Json>)
    ensures locs == map[] ==> f == map[]
    ensures locs != map[] ==> f == map["localizations" := JObject(EncodeLocalizations(locs))]
  {
    var d := EncodeLocalizations(locs);
    if locs != map[] then
      map["localizations" := JObject(d)]
    else map[]
  }

  /**
   * `XCString.encode(to:)`: `comment` only when present, `extractionState`
   * only when it is not "none", `localizations` only when non-empty. The key
   * and `shouldTranslate` are not written.
   */
  function EncodeEntry(e: XCString): (j: Json)
    ensures j.JObject?
    ensures "comment" in j.fields <==> e.comment.Some?
    ensures "extractionState" in j.fields <==> e.extractionState != ExtractionNone
    ensures "localizations" in j.fields <==> e.localizations != map[]
    ensures j.fields.Keys <= {"comment", "extractionState", "localizations"}
  {
    JObject(CommentField(e.comment) + ExtractionField(e.extractionState) + LocalizationsField(e.localizations))
  }

  /** `decodeIfPresent(String.self, forKey:)`: `None` is a type mismatch, `Some(None)` an absent key. */
  function DecodeIfPresentString(f: map<string, Json>, name: string): (r: Option<Option<string>>)
    ensures r.Some? <==> (name in f ==> f[name].JString?)
    ensures r.Some? ==> (r.value.Some? <==> name in f)
  {
    if name !in f then Some(None)
    else if f[name].JString? then Some(Some(f[name].str))
    else None
  }

  /**
   * The `extractionState` field: absent or empty is "none"; any other string
   * must be a raw value (the force-unwrap traps otherwise).
   */
  function DecodeExtraction(f: map<string, Json>): (r: Option<ExtractionState>)
    ensures r.Some? <==> ("extractionState" in f ==>
                            f["extractionState"].JString? &&
                            (f["extractionState"].str == "" || ExtractionFromRaw(f["extractionState"].str).Some?))
    ensures r.Some? && "extractionState" in f && f["extractionState"].str != "" ==>
              ExtractionRaw(r.value) == f["extractionState"].str
    ensures r.Some? && ("extractionState" !in f || f["extractionState"].str == "") ==> r.value == ExtractionNone
  {
    match DecodeIfPresentString(f, "extractionState")
    case None => None
    case Some(None) => Some(ExtractionNone)
    case Some(Some(raw)) => if raw == "" then Some(ExtractionNone) else ExtractionFromRaw(raw)
  }

  /**
   * The `localizations` field: absent is empty; otherwise an object whose
   * values all decode and whose keys are all language codes (an unknown
   * code traps).
   */
  function DecodeLocalizations(f: map<string, Json>): (r: Option<map<Language, Localization>>)
    ensures r.Some? && "localizations" !in f ==> r.value == map[]
    ensures r.Some? && "localizations" in f ==> f["localizations"].JObject?
  {
    if "localizations" !in f then Some(map[])
    else
      var j := f["localizations"];
      if j.JObject? && forall s :: s in j.fields ==> FromCode(s).Some? && DecodeLocalization(j.fields[s]).Some? then
        Some(map s | s in j.fields :: FromCode(s).value := DecodeLocalization(j.fields[s]).value)
      else None
  }
  /** Each decoded localization comes from the entry under its language's code. */
  lemma DecodedLocalizations(f: map<string, Json>)
    requires "localizations" in f && DecodeLocalizations(f).Some?
    ensures var r := DecodeLocalizations(f).value;
            var d := f["localizations"].fields;
            && (forall s :: s in d ==>
                  FromCode(s).Some? && FromCode(s).value in r
                  && DecodeLocalization(d[s]) == Some(r[FromCode(s).value]))
            && (forall l :: l in r ==> Code(l) in d)
  {
  }


  /**
   * `XCString.init(from:)`, with the key that `XCStrings` stamps afterwards.
   * `shouldTranslate` keeps its default, true.
   */
  function DecodeEntry(key: string, j: Json): (r: Option<XCString>)
    ensures r.Some? ==> j.JObject? && r.value.key == key && r.value.shouldTranslate
    ensures r.Some? ==> (r.value.comment.Some? <==> "comment" in j.fields)
  {
    if !j.JObject? then None
    else
      var comment := DecodeIfPresentString(j.fields, "comment");
      var state := DecodeExtraction(j.fields);
      var locs := DecodeLocalizations(j.fields);
      if comment.None? || state.None? || locs.None? then None
      else Some(XCString(key, comment.value, locs.value, state.value, true))
  }

  /** An entry that the coders carry through unchanged. */
  predicate EntryRoundTrips(e: XCString)
  {
    e.shouldTranslate && forall l :: l in e.localizations ==> Populated(e.localizations[l])
  }

  /** Every encoded localization decodes back to the one encoded, under its language. */
  lemma EncodedLocalizationsDecode(locs: map<Language, Localization>)
    requires forall l :: l in locs ==> Populated(locs[l])
    ensures var d := EncodeLocalizations(locs);
            forall s :: s in d ==> FromCode(s).Some? && FromCode(s).value in locs
                                   && DecodeLocalization(d[s]) == Some(locs[FromCode(s).value])
  {
    var d := EncodeLocalizations(locs);
    EncodedLocalizations(locs);
    forall s | s in d ensures DecodeLocalization(d[s]) == Some(locs[FromCode(s).value]) {
      var l := FromCode(s).value;
      assert s == Code(l);
      LocalizationRoundTrip(locs[l]);
    }
  }

  lemma EncodedLocalizationsSucceed(locs: map<Language, Localization>, f: map<string, Json>)
    requires "localizations" in f && f["localizations"] == JObject(EncodeLocalizations(locs))
    requires var d := EncodeLocalizations(locs);
             forall s :: s in d ==> FromCode(s).Some? && FromCode(s).value in locs
                                    && DecodeLocalization(d[s]) == Some(locs[FromCode(s).value])
    ensures DecodeLocalizations(f).Some?
  {
  }

  /** Two language maps that agree on every code of a dictionary covering both are equal. */
  lemma SameLanguageMaps<V>(r: map<Language, V>, locs: map<Language, V>, d: map<string, Json>)
    requires forall s :: s in d ==> FromCode(s).Some? && FromCode(s).value in r && FromCode(s).value in locs
                                    && r[FromCode(s).value] == locs[FromCode(s).value]
    requires forall l :: l in r ==> Code(l) in d
    requires forall l :: l in locs ==> Code(l) in d
    ensures r == locs
  {
    forall l | l in locs ensures l in r && r[l] == locs[l] {
      CodeRoundTrip(l);
    }
    forall l | l in r ensures l in locs {
      CodeRoundTrip(l);
    }
  }

  lemma LocalizationsRoundTrip(locs: map<Language, Localization>, f: map<string, Json>)
    requires forall l :: l in locs ==> Populated(locs[l])
    requires "localizations" in f <==> locs != map[]
    requires "localizations" in f ==> f["localizations"] == JObject(EncodeLocalizations(locs))
    ensures DecodeLocalizations(f) == Some(locs)
  {
    if locs != map[] {
      EncodedLocalizationsDecode(locs);
      var r := DecodeLocalizations(f);
      EncodedLocalizationsSucceed(locs, f);
      DecodedLocalizations(f);
      EncodedLocalizations(locs);
      SameLanguageMaps(r.value, locs, EncodeLocalizations(locs));
    }
  }

  /** Where each encoded field of an entry comes from. */
  lemma EncodedEntryFields(e: XCString)
    ensures var f := EncodeEntry(e).fields;
            && ("comment" in f ==> f["comment"] == JString(e.comment.value))
            && ("extractionState" in f ==> f["extractionState"] == JString(ExtractionRaw(e.extractionState)))
            && ("localizations" in f ==> f["localizations"] == JObject(EncodeLocalizations(e.localizations)))
  {
    CodingKeysDistinct();
  }

  /** Every populated entry whose `shouldTranslate` is the default survives encoding and decoding. */
  lemma EntryRoundTrip(e: XCString)
    requires EntryRoundTrips(e)
    ensures DecodeEntry(e.key, EncodeEntry(e)) == Some(e)
  {
    var f := EncodeEntry(e).fields;
    EncodedEntryFields(e);
    LocalizationsRoundTrip(e.localizations, f);
    assert DecodeIfPresentString(f, "comment") == Some(e.comment);
    assert DecodeExtraction(f) == Some(e.extractionState);
  }

  /** An unknown extraction state is a decoding failure (a trap in the source). */
  lemma UnknownExtractionStateFails(key: string, raw: string)
    requires raw !in {"", "none", "stale", "manual"}
    ensures DecodeEntry(key, JObject(map["extractionState" := JString(raw)])) == None
  {
  }

  /** An unknown language code among the localizations is a decoding failure. */
  lemma UnknownLanguageFails(key: string, j: Json, code: string)
    requires j.JObject? && "localizations" in j.fields && j.fields["localizations"].JObject?
    requires code in j.fields["localizations"].fields && FromCode(code).None?
    ensures DecodeEntry(key, j) == None
  {
  }

  // ---------------------------------------------------------------------
  // Document coding
  // ---------------------------------------------------------------------

  /**
   * The `strings` dictionary that `XCStrings.encode(to:)` builds: entries
   * are stored under their own key in list order, so a later entry with the
   * same key replaces an earlier one.
   */
  function EncodeStringsInto(acc: map<string, Json>, strings: seq<XCString>): map<string, Json>
    decreases strings
  {
    if strings == [] then acc
    else EncodeStringsInto(acc[strings[0].key := EncodeEntry(strings[0])], strings[1..])
  }

  /** The loop of `XCStrings.encode(to:)` that re-keys the entries. */
  method RekeyStrings(strings: seq<XCString>) returns (s: map<string, Json>)
    ensures s == EncodeStringsInto(map[], strings)
  {
    s := map[];
    for i := 0 to |strings|
      invariant EncodeStringsInto(s, strings[i..]) == EncodeStringsInto(map[], strings)
    {
      assert strings[i..][1..] == strings[i + 1..];
      s := s[strings[i].key := EncodeEntry(strings[i])];
    }
    assert strings[|strings|..] == [];
  }

  /** Re-keying keeps what was there and adds every entry's key, and nothing else. */
  lemma {:induction false} RekeyedDomain(acc: map<string, Json>, strings: seq<XCString>)
    ensures forall k :: k in acc ==> k in EncodeStringsInto(acc, strings)
    ensures forall i :: 0 <= i < |strings| ==> strings[i].key in EncodeStringsInto(acc, strings)
    ensures forall k :: k in EncodeStringsInto(acc, strings) ==>
              k in acc || exists i :: 0 <= i < |strings| && strings[i].key == k
    decreases strings
  {
    if strings != [] {
      var rest := strings[1..];
      RekeyedDomain(acc[strings[0].key := EncodeEntry(strings[0])], rest);
      forall i | 0 < i < |strings| ensures strings[i].key in EncodeStringsInto(acc, strings) {
        assert strings[i] == rest[i - 1];
      }
      forall k | k in EncodeStringsInto(acc, strings) && k !in acc
        ensures exists i :: 0 <= i < |strings| && strings[i].key == k
      {
        if k != strings[0].key {
          var j :| 0 <= j < |rest| && rest[j].key == k;
          assert strings[j + 1].key == k;
        }
      }
    }
  }

  /** A key that no remaining entry carries keeps its value. */
  lemma {:induction false} RekeyedUntouched(acc: map<string, Json>, strings: seq<XCString>, k: string)
    requires k in acc && k !in Keys(strings)
    ensures k in EncodeStringsInto(acc, strings) && EncodeStringsInto(acc, strings)[k] == acc[k]
    decreases strings
  {
    if strings != [] {
      assert Keys(strings) == [strings[0].key] + Keys(strings[1..]);
      RekeyedUntouched(acc[strings[0].key := EncodeEntry(strings[0])], strings[1..], k);
    }
  }

  /** With distinct keys, every entry is stored under its key and none is lost. */
  lemma {:induction false} RekeyedEntry(acc: map<string, Json>, strings: seq<XCString>, i: nat)
    requires Distinct(Keys(strings)) && i < |strings|
    ensures strings[i].key in EncodeStringsInto(acc, strings)
    ensures EncodeStringsInto(acc, strings)[strings[i].key] == EncodeEntry(strings[i])
    decreases strings
  {
    var rest := strings[1..];
    var acc' := acc[strings[0].key := EncodeEntry(strings[0])];
    assert Keys(strings) == [strings[0].key] + Keys(rest);
    if i == 0 {
      assert strings[0].key !in Keys(rest) by {
        forall k | 0 <= k < |rest| ensures Keys(rest)[k] != strings[0].key {
          assert Keys(strings)[0] != Keys(strings)[k + 1];
        }
      }
      RekeyedUntouched(acc', rest, strings[0].key);
    } else {
      assert Distinct(Keys(rest)) by {
        forall a, b | 0 <= a < b < |rest| ensures Keys(rest)[a] != Keys(rest)[b] {
          assert Keys(strings)[a + 1] != Keys(strings)[b + 1];
        }
      }
      RekeyedEntry(acc', rest, i - 1);
    }
  }

  /** `XCStrings.encode(to:)`. */
  function Encode(doc: XCStrings): (j: Json)
    ensures DocumentShaped(j)
    ensures j.fields["strings"] == JObject(EncodeStringsInto(map[], doc.strings))
  {
    JObject(map[
      "version" := JString(doc.version),
      "sourceLanguage" := JString(Code(doc.sourceLanguage)),
      "strings" := JObject(EncodeStringsInto(map[], doc.strings))])
  }

  /**
   * `order` is the order in which the decoded `strings` dictionary yields
   * its keys: each key exactly once.
   */
  predicate EnumeratesKeys(order: seq<string>, d: map<string, Json>)
  {
    Distinct(order) && (forall k :: k in order ==> k in d) && (forall k :: k in d ==> k in order)
  }

  /** The shape `XCStrings.init(from:)` requires before it looks at entries. */
  predicate DocumentShaped(j: Json)
  {
    && j.JObject?
    && "version" in j.fields && j.fields["version"].JString?
    && "sourceLanguage" in j.fields && j.fields["sourceLanguage"].JString?
    && "strings" in j.fields && j.fields["strings"].JObject?
  }

  /** The entries of a decoded `strings` dictionary, each stamped with its key, in `order`. */
  function StampedEntries(d: map<string, Json>, order: seq<string>): (es: seq<XCString>)
    requires forall k :: k in order ==> k in d && DecodeEntry(k, d[k]).Some?
    ensures |es| == |order|
    ensures forall i :: 0 <= i < |order| ==> es[i] == DecodeEntry(order[i], d[order[i]]).value
  {
    if order == [] then []
    else [DecodeEntry(order[0], d[order[0]]).value] + StampedEntries(d, order[1..])
  }

  /**
   * Whether every entry of a decoded `strings` dictionary decodes, visiting
   * the keys in `order`: decoding `[String: XCString]` throws on the first
   * entry that does not.
   */
  function EntriesDecode(d: map<string, Json>, order: seq<string>): (b: bool)
    requires forall k :: k in order ==> k in d
    ensures b <==> forall i :: 0 <= i < |order| ==> DecodeEntry(order[i], d[order[i]]).Some?
  {
    order == [] || (DecodeEntry(order[0], d[order[0]]).Some? && EntriesDecode(d, order[1..]))
  }

  /** The loop of `XCStrings.init(from:)` that stamps each entry's key. */
  method StampKeys(d: map<string, Json>, order: seq<string>) returns (strings: seq<XCString>)
    requires forall k :: k in order ==> k in d && DecodeEntry(k, d[k]).Some?
    ensures strings == StampedEntries(d, order)
  {
    strings := [];
    for i := 0 to |order|
      invariant |strings| == i
      invariant forall j :: 0 <= j < i ==> strings[j] == DecodeEntry(order[j], d[order[j]]).value
    {
      strings := strings + [DecodeEntry(order[i], d[order[i]]).value];
    }
  }

  /**
   * `XCStrings.init(from:)`. `version` and `sourceLanguage` are required
   * strings and the language must be known (a trap otherwise); every entry of
   * `strings` must decode; each entry is then stamped with its dictionary key.
   */
  function Decode(j: Json, order: seq<string>): (r: Option<XCStrings>)
    requires DocumentShaped(j) ==> EnumeratesKeys(order, j.fields["strings"].fields)
    ensures r.Some? ==> Keys(r.value.strings) == order
    ensures r.Some? ==> DocumentShaped(j) && Code(r.value.sourceLanguage) == j.fields["sourceLanguage"].str
  {
    if !DocumentShaped(j) then None
    else
      var f := j.fields;
      var d := f["strings"].fields;
      var lang := FromCode(f["sourceLanguage"].str);
      if lang.None? then None
      else if !EntriesDecode(d, order) then None
      else Some(XCStrings(f["version"].str, lang.value, StampedEntries(d, order)))
  }

  /** A document that the coders carry through unchanged. */
  predicate DocumentRoundTrips(doc: XCStrings)
  {
    Distinct(Keys(doc.strings)) && forall i :: 0 <= i < |doc.strings| ==> EntryRoundTrips(doc.strings[i])
  }

  /** Every stored entry decodes back, under its own key, to the entry that was stored. */
  lemma RekeyedEntryDecodes(strings: seq<XCString>, i: nat)
    requires Distinct(Keys(strings)) && i < |strings| && EntryRoundTrips(strings[i])
    ensures strings[i].key in EncodeStringsInto(map[], strings)
    ensures DecodeEntry(strings[i].key, EncodeStringsInto(map[], strings)[strings[i].key]) == Some(strings[i])
  {
    RekeyedEntry(map[], strings, i);
    EntryRoundTrip(strings[i]);
  }

  /** With distinct keys, the entry keys enumerate the re-keyed dictionary. */
  lemma RekeyedEnumerates(strings: seq<XCString>)
    requires Distinct(Keys(strings))
    ensures EnumeratesKeys(Keys(strings), EncodeStringsInto(map[], strings))
  {
    var d := EncodeStringsInto(map[], strings);
    RekeyedDomain(map[], strings);
    forall k | k in Keys(strings) ensures k in d {
      var i :| 0 <= i < |strings| && Keys(strings)[i] == k;
    }
    forall k | k in d ensures k in Keys(strings) {
      var i :| 0 <= i < |strings| && strings[i].key == k;
      assert Keys(strings)[i] == k;
    }
  }

  /**
   * Decoding the encoding, enumerating the dictionary in the original entry
   * order, gives the document back: the key and the dictionary key agree.
   */
  lemma DocumentRoundTrip(doc: XCStrings)
    requires DocumentRoundTrips(doc)
    ensures EnumeratesKeys(Keys(doc.strings), Encode(doc).fields["strings"].fields)
    ensures Decode(Encode(doc), Keys(doc.strings)) == Some(doc)
  {
    var j := Encode(doc);
    var d := EncodeStringsInto(map[], doc.strings);
    RekeyedEnumerates(doc.strings);
    forall i | 0 <= i < |doc.strings|
      ensures DecodeEntry(Keys(doc.strings)[i], d[Keys(doc.strings)[i]]) == Some(doc.strings[i])
    {
      assert Keys(doc.strings)[i] == doc.strings[i].key;
      RekeyedEntryDecodes(doc.strings, i);
    }
    CodingKeysDistinct();
    CodeRoundTrip(doc.sourceLanguage);
    assert j.fields["sourceLanguage"].str == Code(doc.sourceLanguage);
    assert j.fields["version"].str == doc.version;
    assert StampedEntries(d, Keys(doc.strings)) == doc.strings;
  }
}
