# XCStringsEditor document model and sync engine, in Dafny

XCStringsEditor edits Xcode string catalogs (`.xcstrings`). The editor decodes a catalog into a document of entries. Each entry has localizations per language: a string unit, a plural map or a device map. The editor turns the document into a forest of editable items, one root per entry and language, with variant children. It shows a filtered and sorted selection of those roots. Commands edit the items in place, and saving writes the forest back into the document. A per-file overlay of settings remembers the last language and two sets of item ids: translate later and needs work.

This project models that core and proves properties of it:

- **Languages** (`languages.dfy`): the closed list of forty language codes, and `init?(code:)`.
- **Catalog** (`catalog.dfy`): the catalog datatypes (`XCStrings`, `XCString`, `Localization`, `StringUnit`) and their coders over a small JSON value type (`json.dfy`). It covers the shape that wins, the fields that are left out, the stamping and re-keying loops, the raw values and the sort numbers.
- **Items** (`items.dfy`): the item node (`LocalizeItem`). It covers the derived state and its order, `translationStatus`, `itemContains`, `baseID`, `item(with:)`, and `==` with `hash`.
- **Settings** (`settings.dfy`): the overlay (`FileSettings`), a class whose sets are updated in place, and its synthesised coder.
- **Builder** (`builder.dfy`): `xcStringsToLocalizeItems` and its helpers, and `languages(in:)`.
- **Writer** (`writer.dfy`): `updateXCStrings`.
- **RoundTrip** (`roundtrip.dfy`): building the forest and writing it straight back.
- **Projection** (`projection.dfy`): the `Filter`, the filter closure of `reloadData`, the comparators and `sort(using:)`.
- **Edits** (`edits.dfy`): the recursive scans of `updateItem`, `clearModifiedMark` and `clearNeedsWork`, the handlers the commands pass, the lookups, and the sibling ids.
- **App** (`app.dfy`): the `AppModel` class. It holds one forest and the visible rows as positions into that forest. Its methods are proved against the functions above.
- `text.dfy` holds the string helpers: `components(separatedBy:)`, `trimmingPrefix` and ASCII case folding. `wrappers.dfy` holds `Option`.

`LocalizeItem` is a Swift class, so the visible list `localizeItems` holds the same nodes as `allLocalizeItems`. The model keeps one forest and represents the visible list as positions into it. Swift `Set` and `Dictionary` iteration orders are unspecified, so they appear as explicit order parameters. Every proof is stated for all orders allowed.

## Model

| member | source | states |
|---|---|---|
| Languages.FromCode | XCStringsEditor/Model/Language.swift:54-56 | The result is the case whose raw value is the code. It is `None` exactly when no case has that raw value. |
| Languages.CodeRoundTrip | XCStringsEditor/Model/Language.swift:54-60 | `Language(code: l.code) == l` for every language. |
| Languages.CodeInjective | XCStringsEditor/Model/Language.swift:52-60 | Two languages are the same exactly when their codes are (`id` is the value itself). |
| Languages.FromCodeExactlyListed | XCStringsEditor/Model/Language.swift:10-56 | The initialiser succeeds exactly for the forty listed codes. |
| Languages.Description | XCStringsEditor/Model/Language.swift:137-139 | `description` is a string that `init?(code:)` maps back to the same language. |
| Languages.CodeAlphabet | XCStringsEditor/Model/Language.swift:10-50 | No code contains the bar that opens the item-id divider, nor `/`, so an item id splits back into key, code and variant suffix. |
| Text.Find | XCStringsEditor/Model/LocalizeItem.swift:134-136 | The first occurrence of the separator: it occurs there, and nowhere earlier. |
| Text.SplitJoin | XCStringsEditor/Model/LocalizeItem.swift:134-138 | `components(separatedBy:)`, joined back with the separator, gives the original string. |
| Text.SplitPartsFree | XCStringsEditor/Model/LocalizeItem.swift:134-138 | No part contains the separator. There is exactly one part when the string has no separator. |
| Text.TrimPrefix | XCStringsEditor/Model/AppModel.swift:1037 | `trimmingPrefix` removes the prefix exactly when the string starts with it, and otherwise returns the string unchanged. |
| Text.LowerIgnoresCase | XCStringsEditor/Model/AppModel.swift:426-431 | Lower-casing is idempotent and gives the same result for the upper-cased string, so the search does not depend on case. |
| Catalog.ExtractionFromRaw | XCStringsEditor/Model/XCStrings.swift:81-85 | `ExtractionState(rawValue:)` returns the one case with that raw value, or `None` when no case has it. |
| Catalog.StateFromRaw | XCStringsEditor/Model/XCStrings.swift:177-181 | The same for the string-unit state, whose `needsReview` is spelled `needs_review`. |
| Catalog.PluralFromRaw | XCStringsEditor/Model/XCStrings.swift:136-141 | The same for `PluralType`. |
| Catalog.DeviceFromRaw | XCStringsEditor/Model/XCStrings.swift:91-99 | The same for `DeviceType`. |
| Catalog.RawNamesInjective | XCStringsEditor/Model/XCStrings.swift:91-99 | Distinct plural cases have distinct raw values, and so do distinct device cases. |
| Catalog.PluralTwoIsUnknown | XCStringsEditor/Model/XCStrings.swift:136-141 | The CLDR category `two` has no case, so a plural key "two" is rejected. |
| Catalog.PluralSortNum | XCStringsEditor/Model/XCStrings.swift:143-151 | `sortNum` is the case's index in the order zero, one, few, many, other. |
| Catalog.DeviceSortNum | XCStringsEditor/Model/XCStrings.swift:101-112 | `sortNum` is the case's index in the order iphone through other. |
| Catalog.SortNumsInjective | XCStringsEditor/Model/XCStrings.swift:101-151 | Both sort numbers are injective, so sorting by them is a total order. |
| Catalog.OrdersAscending | XCStringsEditor/Model/XCStrings.swift:101-151 | The case lists the model walks are strictly ascending by `sortNum`. |
| Catalog.DecodeUnit | XCStringsEditor/Model/XCStrings.swift:195-201 | Decoding succeeds exactly when both fields are strings. The value is kept, and the state is `new` exactly when the state string is not another raw value. |
| Catalog.UnitRoundTrip | XCStringsEditor/Model/XCStrings.swift:195-208 | Decoding an encoded string unit gives it back. |
| Catalog.UnitStateSpelling | XCStringsEditor/Model/XCStrings.swift:177-201 | `needsReview` is written as "needs_review", and an unknown state string reads back as `new`. |
| Catalog.EncodeLocalization | XCStringsEditor/Model/XCStrings.swift:255-277 | Exactly one shape is written: `stringUnit` exactly for a unit, `variations` exactly for a plural or device map, and nothing for an empty localization. |
| Catalog.DecodeLocalization | XCStringsEditor/Model/XCStrings.swift:229-253 | A present `stringUnit` decides the shape. Otherwise the result comes from `variations`. |
| Catalog.DecodePrefersStringUnit | XCStringsEditor/Model/XCStrings.swift:232-234 | When a decodable `stringUnit` is present, `variations` is never read. |
| Catalog.DecodePrefersPlural | XCStringsEditor/Model/XCStrings.swift:237-251 | When both variation dictionaries decode, the plural one wins. |
| Catalog.BadDeviceFailsPlural | XCStringsEditor/Model/XCStrings.swift:237-251 | A device dictionary that does not decode fails the localization, even when a plural dictionary is beside it. |
| Catalog.DecodedPluralDict | XCStringsEditor/Model/XCStrings.swift:237-243 | Each decoded plural slot comes from the JSON entry stored under its raw value. |
| Catalog.DecodedDeviceDict | XCStringsEditor/Model/XCStrings.swift:245-251 | Each decoded device slot comes from the JSON entry stored under its raw value. |
| Catalog.LocalizationRoundTrip | XCStringsEditor/Model/XCStrings.swift:229-277 | Decoding inverts encoding for every localization that has no empty localization at any depth. |
| Catalog.NoVariationDoesNotRoundTrip | XCStringsEditor/Model/XCStrings.swift:229-277 | The one exception: an empty localization encodes as `{}`, and `{}` does not decode. |
| Catalog.EncodeEntry | XCStringsEditor/Model/XCStrings.swift:290-307 | The comment is written only when present. `extractionState` is written only when it is not "none". `localizations` is written only when non-empty. Nothing else is written. |
| Catalog.DecodeIfPresentString | XCStringsEditor/Model/XCStrings.swift:313 | An absent key reads as nil, and a key with a value that is not a string is a failure. |
| Catalog.DecodeExtraction | XCStringsEditor/Model/XCStrings.swift:314-316 | An absent or empty state is "none". Any other string must be a raw value, or decoding fails. |
| Catalog.DecodeEntry | XCStringsEditor/Model/XCStrings.swift:309-328 | A decoded entry carries the given key and `shouldTranslate` true, and has a comment exactly when the JSON has one. |
| Catalog.EntryRoundTrip | XCStringsEditor/Model/XCStrings.swift:290-328 | Every entry without empty localizations, and with `shouldTranslate` at its default, survives encoding and decoding. |
| Catalog.UnknownExtractionStateFails | XCStringsEditor/Model/XCStrings.swift:315 | An unknown extraction state makes decoding fail. |
| Catalog.UnknownLanguageFails | XCStringsEditor/Model/XCStrings.swift:321 | An unknown language code among the localizations makes decoding fail. |
| Catalog.RekeyStrings | XCStringsEditor/Model/XCStrings.swift:42-45 | The re-keying loop of `encode(to:)` produces the dictionary that stores each entry under its own key, in list order. |
| Catalog.RekeyedEntry | XCStringsEditor/Model/XCStrings.swift:42-45 | When keys are distinct, every entry is stored under its key and none is lost. |
| Catalog.RekeyedDomain | XCStringsEditor/Model/XCStrings.swift:42-45 | The dictionary's keys are exactly the entries' keys. |
| Catalog.StampKeys | XCStringsEditor/Model/XCStrings.swift:27-33 | The stamping loop of `init(from:)` gives each decoded entry, in dictionary order, with its key set to its dictionary key. |
| Catalog.EntriesDecode | XCStringsEditor/Model/XCStrings.swift:26 | The dictionary decodes exactly when every one of its entries decodes. |
| Catalog.Encode | XCStringsEditor/Model/XCStrings.swift:36-47 | The encoded document has the required fields, and `strings` is the re-keyed dictionary. |
| Catalog.Decode | XCStringsEditor/Model/XCStrings.swift:19-34 | A decoded document has its entries' keys in dictionary order, and its source language is the one whose code was read. |
| Catalog.DocumentRoundTrip | XCStringsEditor/Model/XCStrings.swift:19-47 | When the dictionary is read in the original entry order, decoding the encoded document gives it back. Each entry's key and its dictionary key agree. |
| Items.StateTotalOrder | XCStringsEditor/Model/LocalizeItem.swift:27-39 | `<` on states by raw value is a strict total order. |
| Items.StateOf | XCStringsEditor/Model/LocalizeItem.swift:53-71 | The priority order, as an if-and-only-if for each of the seven states: don't-translate, translate-later, needs-work, stale, needs-review, then new when some leaf lacks a translation, else translated. |
| Items.InitState | XCStringsEditor/Model/LocalizeItem.swift:157-174 | The state of a freshly initialised item follows from the initialiser's arguments. |
| Items.Status | XCStringsEditor/Model/LocalizeItem.swift:83-96 | Each `translationStatus` case holds exactly when the checks before it fail and its own check holds. |
| Items.ExactOrSimilar | XCStringsEditor/Model/LocalizeItem.swift:83-96 | `exact` and `similar` never hold together. Together they cover exactly the items whose reverse translation matches the source up to case. |
| Items.ContainsLeaves | XCStringsEditor/Model/LocalizeItem.swift:115-132 | `itemContains` holds exactly when some leaf of the tree matches. A node with children is never matched itself. |
| Items.EmptyChildrenContainNothing | XCStringsEditor/Model/LocalizeItem.swift:119-132 | A node with an empty children list contains nothing. |
| Items.EqualItemsHashEqually | XCStringsEditor/Model/LocalizeItem.swift:13-23 | Items that are equal by `==` hash equally, because the hash uses the id alone. |
| Items.BaseIDParts | XCStringsEditor/Model/LocalizeItem.swift:134-141 | `baseID` is the key part, the divider, and the language part up to the first `/` or the next divider. |
| Items.BaseIDIdempotent | XCStringsEditor/Model/LocalizeItem.swift:134-141 | `baseID(baseID(id)) == baseID(id)`. |
| Items.BaseIDOfRoot | XCStringsEditor/Model/LocalizeItem.swift:134-141 | When the key contains no divider of its own, `baseID` maps a root id, and every variant id below it, back to the root id. |
| Items.ItemWithIsFirstInPreOrder | XCStringsEditor/Model/LocalizeItem.swift:143-155 | `item(with:)` returns the first node in pre-order that has the id. |
| Items.FirstWithID | XCStringsEditor/Model/LocalizeItem.swift:143-155 | A found node is in the list and has the id. Otherwise no node in the list has it. |
| Settings.Decode | XCStringsEditor/Model/FileSettings.swift:12-16 | The synthesised decoder succeeds exactly for an object with a string `lastLanguage` and two string arrays. It keeps the language, and the sets hold the array elements. |
| Settings.Encode | XCStringsEditor/Model/FileSettings.swift:25-32 | `save` writes an object with exactly the three fields. |
| Settings.EncodeDecode | XCStringsEditor/Model/FileSettings.swift:12-32 | Whatever order the sets iterate in, decoding what `save` writes gives the settings back. |
| Settings.Loaded | XCStringsEditor/Model/FileSettings.swift:18-23 | `load` gives the default value when the file cannot be read or does not decode, and the decoded value otherwise. |
| Settings.FileSettings.constructor | XCStringsEditor/Model/FileSettings.swift:12-16 | The default value: `lastLanguage` "en" and both sets empty. |
| Settings.FileSettings.Load | XCStringsEditor/Model/FileSettings.swift:18-23 | The overlay holds what `load` returns. |
| Settings.FileSettings.AppendTranslateLaterItemID | XCStringsEditor/Model/FileSettings.swift:34-36 | The id is inserted with set semantics, so a second insert changes nothing. The other set and the language are unchanged. |
| Settings.FileSettings.RemoveTranslateLaterItemID | XCStringsEditor/Model/FileSettings.swift:38-40 | The id is absent afterwards, and removing an absent id changes nothing. The other set and the language are unchanged. |
| Settings.FileSettings.AppendNeedsWorkItemID | XCStringsEditor/Model/FileSettings.swift:42-44 | The same as the translate-later insert, for the needs-work set. |
| Settings.FileSettings.RemoveNeedsWorkItemID | XCStringsEditor/Model/FileSettings.swift:46-48 | The same as the translate-later removal, for the needs-work set. |
| Builder.SourceText | XCStringsEditor/Model/AppModel.swift:471-476 | The source text is the source language's string-unit value when it exists and is not empty. Otherwise it is the key. |
| Builder.PluralSourceText | XCStringsEditor/Model/AppModel.swift:570-576 | A plural slot's source text is the same slot of the source language when that holds a non-empty unit. Any other text it gives is the fallback. |
| Builder.PluralChild | XCStringsEditor/Model/AppModel.swift:565-583 | A plural child has the id `parent/raw` and the parent's id as `parentID`. It carries the unit's value and review flag, and copies the parent's translate-later and needs-work marks. Its source text is the source language's text for the same plural slot, or else the root's. |
| Builder.UnitSlots | XCStringsEditor/Model/AppModel.swift:564-565 | The children are made for exactly the plural slots that hold a string unit. |
| Builder.PluralKidsShape | XCStringsEditor/Model/AppModel.swift:562-589 | Each child of a plural node is a leaf under the node, with id `id/<raw>`, the slot's value and review flag, and the node's marks. |
| Builder.PluralKidsSorted | XCStringsEditor/Model/AppModel.swift:586 | The children of a plural node are in ascending `sortNum` order. |
| Builder.PluralKidsCover | XCStringsEditor/Model/AppModel.swift:564-585 | Every plural slot that holds a string unit has a child. |
| Builder.DeviceSourceText | XCStringsEditor/Model/AppModel.swift:502-510 | A device slot's source text is the same slot of the source language when that holds a non-empty unit. Any other text it gives is the fallback. |
| Builder.DeviceChild | XCStringsEditor/Model/AppModel.swift:498-519 | A device child has the id `parent/raw`. A unit slot becomes a leaf with the parent's marks, whose source text is the source language's text for the same device slot, or else the root's. A plural slot becomes a plural node with no text of its own. |
| Builder.DeviceKidsShape | XCStringsEditor/Model/AppModel.swift:498-519 | A unit child is a leaf under the node with the slot's value and the node's marks. A plural child is a plural node whose `parentID` stays nil and whose marks come from the overlay by its own id. |
| Builder.DeviceKidIDs | XCStringsEditor/Model/AppModel.swift:500 | Each child of a device node has the id `id/<raw>`. |
| Builder.DeviceKidsSorted | XCStringsEditor/Model/AppModel.swift:521 | The children of a device node are in ascending `sortNum` order. |
| Builder.DeviceKidsCover | XCStringsEditor/Model/AppModel.swift:498-520 | Every device slot that holds a string unit or a plural map has a child. |
| Builder.BuildRoot | XCStringsEditor/Model/AppModel.swift:477-532 | There is a root exactly unless the localization is empty. The root has the id `key + divider + code`. Without a localization it is an untranslated leaf with overlay marks by exact id. A unit gives a leaf with its value and review flag. A plural or device map gives a node with no text of its own. |
| Builder.EntryRootsMembers | XCStringsEditor/Model/AppModel.swift:470-533 | The roots of an entry are exactly the roots built for each language. |
| Builder.ForestMembers | XCStringsEditor/Model/AppModel.swift:465-537 | The forest holds exactly the roots built for each pair of entry and language. |
| Builder.XCStringsToLocalizeItems | XCStringsEditor/Model/AppModel.swift:465-537 | The nested loops, entries outside and languages inside, produce that forest in that order. |
| Builder.LanguagesIn | XCStringsEditor/Model/AppModel.swift:445-453 | `languages(in:)` holds exactly the languages that some entry has a localization for. |
| Writer.View | XCStringsEditor/Model/XCStrings.swift:215-217 | The three optional fields of `Localization`, as the encoder and the builder's branch on a localization read them: the first one present, in the order unit, plural, device. |
| Writer.SetDevicePluralSlotExact | XCStringsEditor/Model/AppModel.swift:258-278 | Writing a plural slot inside a device slot gives the same result on the struct and on the value the coders read. |
| Writer.UnitFor | XCStringsEditor/Model/AppModel.swift:270 | The written unit has the node's text, and its state is `needs_review` exactly when the node needs review. |
| Writer.WriteChild | XCStringsEditor/Model/AppModel.swift:255-308 | A child without text writes nothing, so the slot keeps its old value. A child that is neither a device nor a plural child writes nothing either. |
| Writer.WriteRoot | XCStringsEditor/Model/AppModel.swift:251-320 | `shouldTranslate` is overwritten. A leaf with text replaces the language's localization with a unit, and a leaf without text removes it. A node merges its children. Other languages and the entry's other fields are untouched. |
| Writer.FirstIndex | XCStringsEditor/Model/AppModel.swift:247 | `firstIndex(where:)` returns the first entry with the key, or none when no entry has it. |
| Writer.FindIndex | XCStringsEditor/Model/AppModel.swift:247 | The front-to-back scan returns that index. |
| Writer.WriteItem | XCStringsEditor/Model/AppModel.swift:246-321 | A root whose key matches no entry is skipped. Otherwise only the first entry with that key changes. |
| Writer.WriteAllKeys | XCStringsEditor/Model/AppModel.swift:246-321 | Writing never adds, drops or re-keys an entry. |
| Writer.LastRootWins | XCStringsEditor/Model/AppModel.swift:251 | An entry's `shouldTranslate` comes from the last root of its key in forest order. |
| Writer.Update | XCStringsEditor/Model/AppModel.swift:241-324 | Without a document there is no result. Otherwise the version and source language are kept. |
| Writer.UpdateXCStrings | XCStringsEditor/Model/AppModel.swift:241-324 | The loop over the forest computes `Update`. |
| RoundTrip.NormUnit | XCStringsEditor/Model/AppModel.swift:270 | A unit as written back keeps its value. `needs_review` stays, and every other state becomes `translated`. |
| RoundTrip.PluralRoundTrip | XCStringsEditor/Model/AppModel.swift:255-308 | A plural map written back from the children built for it comes back with its units normalised. |
| RoundTrip.DeviceRoundTrip | XCStringsEditor/Model/AppModel.swift:255-308 | The same holds for a device map, including plural maps nested in it. |
| RoundTrip.WriteBuiltRoot | XCStringsEditor/Model/AppModel.swift:246-321 | A root written into the entry it was built from normalises that language and restores `shouldTranslate`. |
| RoundTrip.BuildThenWrite | XCStringsEditor/Model/AppModel.swift:241-324 | Building the forest and writing it straight back changes only the unit states the forest shows. Entries, keys, comments, `shouldTranslate`, other languages, every text and every slot the forest does not show come back unchanged. |
| Projection.QualityVerdict | XCStringsEditor/Model/AppModel.swift:378-392 | Quality 1 keeps exactly the roots without a reverse translation. Qualities 2 to 4 need a translation and a reverse. Quality 2 keeps exactly the roots with a reverse whose status is different, 3 the similar ones, and 4 the exact matches. |
| Projection.KeptRoot | XCStringsEditor/Model/AppModel.swift:343-376 | A kept root is in the current language and not hidden by a toggle. For `new`, some leaf lacks a translation. For translated 1, every leaf has one. For translated 2, no leaf has one. |
| Projection.KeptRootLater | XCStringsEditor/Model/AppModel.swift:394-436 | Each later criterion holds on some leaf, and the search matches. |
| Projection.QualityDecides | XCStringsEditor/Model/AppModel.swift:378-392 | A translation-quality criterion decides at once. The later criteria and the search make no difference. |
| Projection.NothingOn | XCStringsEditor/Model/AppModel.swift:36-38 | With no criterion on, only the language, the toggles and the search decide. |
| Projection.SearchIgnoresCase | XCStringsEditor/Model/AppModel.swift:425-436 | The search does not depend on the case of the search text. |
| Projection.CompareStrings | XCStringsEditor/Model/AppModel.swift:65-68 | Code-point order, the tie-break of the key order, says "same" exactly for equal strings. |
| Projection.CompareKeys | XCStringsEditor/Model/AppModel.swift:65-68 | The key order says "same" exactly for equal keys, and keys that differ in more than case are ordered by their lower-cased forms. |
| Projection.CompareKeysFlip | XCStringsEditor/Model/AppModel.swift:65-68 | Swapping the two keys flips the verdict. |
| Projection.CompareKeysIgnoresCase | XCStringsEditor/Model/AppModel.swift:65-68 | Re-casing a key does not move it past a key that differs in more than case. |
| Projection.CompareKeysExample | XCStringsEditor/Model/AppModel.swift:65-68 | "b" sorts before "C" among keys, though it comes after it by code point. |
| Projection.CompareStates | XCStringsEditor/Model/LocalizeItem.swift:27-31 | The state comparison is ascending or descending exactly as `<` on states says. |
| Projection.CompareAllFlip | XCStringsEditor/Model/AppModel.swift:440 | Swapping the two items flips the verdict of the comparator list. |
| Projection.Sort | XCStringsEditor/Model/AppModel.swift:440 | The sort returns the same rows: a permutation. |
| Projection.SortOrdered | XCStringsEditor/Model/AppModel.swift:440 | The sorted rows are never in descending order. |
| Projection.SortKeepsTies | XCStringsEditor/Model/AppModel.swift:440 | Rows that all compare the same keep their order. |
| Projection.SortUsing | XCStringsEditor/Model/AppModel.swift:455-461 | The comparator list is extended by at most one comparator, at its end. |
| Projection.StateThenKeyOrdered | XCStringsEditor/Model/AppModel.swift:455-461 | A lone state comparator orders rows by state, and rows of one state by key. |
| Projection.StateThenKey | XCStringsEditor/Model/AppModel.swift:65-68 | Sorting with the default order is sorting with a forward state comparator as `sort(using:)` extends it. |
| Projection.Kept | XCStringsEditor/Model/AppModel.swift:343-439 | The positions of exactly the roots the filter keeps, in forest order. |
| Projection.VisibleRows | XCStringsEditor/Model/AppModel.swift:336-443 | The visible rows are exactly the kept roots, each once, in the order the comparators give. |
| Edits.FlagAll | XCStringsEditor/Model/AppModel.swift:914-920 | Each child has the flag set and nothing else changed. |
| Edits.FlagChildren | XCStringsEditor/Model/AppModel.swift:979-985 | The `for i in 0 ..< children!.count` loop computes that. |
| Edits.FlagNodeEffect | XCStringsEditor/Model/AppModel.swift:1011-1020 | The node and each direct child take the value. Deeper nodes and all other fields are unchanged. |
| Edits.SetTextUnchanged | XCStringsEditor/Model/AppModel.swift:769-775 | The same text, or an empty text for an untranslated item with a key, leaves the node alone. |
| Edits.SetTextSets | XCStringsEditor/Model/AppModel.swift:777-783 | Otherwise an empty text clears the translation and any other text becomes it. The node is marked modified, no longer needs review, and keeps its identity. |
| Edits.SetTextReverse | XCStringsEditor/Model/AppModel.swift:786-789 | A non-empty text stores the reverse translation when one is given. An empty text keeps the old one. |
| Edits.SetTextUnmarksLater | XCStringsEditor/Model/AppModel.swift:786-791 | A non-empty text takes a root and its direct children off translate-later. A node below the root keeps its mark. |
| Edits.SetLaterSkips | XCStringsEditor/Model/AppModel.swift:966-972 | `markTranslateLater` does nothing below the root, nor to a translated root asked to mark. |
| Edits.SetLaterMarks | XCStringsEditor/Model/AppModel.swift:974-987 | Any other root and its direct children take the value, and nothing else changes. |
| Edits.SetWorkEffect | XCStringsEditor/Model/AppModel.swift:1006-1022 | The needs-work handler does nothing below the root. A root and its direct children take the value. |
| Edits.SetShouldEffect | XCStringsEditor/Model/AppModel.swift:905-921 | The same holds for `shouldTranslate`. |
| Edits.ApplyIdempotent | XCStringsEditor/Model/AppModel.swift:627-648 | Every handler, applied a second time, gives the same node. So the second pass of `updateItem` changes nothing more. |
| Edits.ApplyKeepsIdentity | XCStringsEditor/Model/AppModel.swift:627-648 | A handler other than a replacement keeps the node's id, parent, key, language and whether it has children. |
| Edits.UpdateAbsent | XCStringsEditor/Model/AppModel.swift:627-640 | An id that no node carries leaves the forest unchanged. |
| Edits.UpdateUnique | XCStringsEditor/Model/AppModel.swift:627-640 | When at most one node carries the id, the scan agrees with the reference definition: that node gets the handler and nothing else changes. |
| Edits.UpdateTwice | XCStringsEditor/Model/AppModel.swift:641-647 | For every handler but a replacement, a second scan changes nothing more. |
| Edits.UpdateNoop | XCStringsEditor/Model/AppModel.swift:627-640 | A handler that leaves every node it is given unchanged leaves the forest unchanged. |
| Edits.UpdateItems | XCStringsEditor/Model/AppModel.swift:628-640 | The recursive loop with its early return computes the scan. |
| Edits.HandedCarryID | XCStringsEditor/Model/AppModel.swift:630-633 | Only nodes with the id are given to the handler. |
| Edits.HandedIffPresent | XCStringsEditor/Model/AppModel.swift:627-640 | The handler runs exactly when some node, at any depth, carries the id. |
| Edits.HandedUnique | XCStringsEditor/Model/AppModel.swift:627-640 | When one node carries the id, that node alone is given to the handler. |
| Edits.ClearModifiedMarks | XCStringsEditor/Model/AppModel.swift:1110-1117 | The recursive loop computes the clearing. |
| Edits.ClearModifiedClears | XCStringsEditor/Model/AppModel.swift:1107-1124 | Afterwards no node at any depth is marked modified. |
| Edits.ClearModifiedOnlyMarks | XCStringsEditor/Model/AppModel.swift:1110-1117 | Only the marks change: a forest with no modified node is left unchanged. |
| Edits.UnmarkFrom | XCStringsEditor/Model/AppModel.swift:1079-1091 | Every node at the level loses its needs-work mark and keeps its id. |
| Edits.UnmarkSkipsUnmarked | XCStringsEditor/Model/AppModel.swift:1081 | A node without the mark keeps its whole subtree, including marks below it. |
| Edits.UnmarkClearsAll | XCStringsEditor/Model/AppModel.swift:1079-1091 | In a tree where a node is marked only when its parent is, clearing leaves no marked node at any depth. The builder does not guarantee such a tree (see `Edits.UnmarkMissesMarkedChild`). |
| Edits.UnmarkLeavesStranded | XCStringsEditor/Model/AppModel.swift:1079-1091 | In any tree, the marks left after clearing are exactly those below a node that was not marked. |
| Edits.UnmarkMissesMarkedChild | XCStringsEditor/Model/AppModel.swift:1081-1085 | A root without the mark keeps a marked child marked, and the child's id stays in the overlay. This is the case of a device root whose plural slot takes its own mark from the overlay (AppModel.swift:517 and 556). |
| Edits.UnmarkTwice | XCStringsEditor/Model/AppModel.swift:1079-1091 | A second clearing changes nothing and removes nothing. |
| Edits.UnmarkedLevel | XCStringsEditor/Model/AppModel.swift:1079-1091 | A level with no mark is left unchanged, and nothing is removed from the overlay. |
| Edits.UnmarkNeedsWork | XCStringsEditor/Model/AppModel.swift:1079-1091 | The recursive loop unmarks the level and removes each unmarked node's id from the overlay. The overlay's language and other set are unchanged. |
| Edits.UnmarkAt | XCStringsEditor/Model/AppModel.swift:1077-1099 | Clearing the visible rows unmarks exactly the roots at those positions, with everything under them. |
| Edits.FirstRoot | XCStringsEditor/Model/AppModel.swift:703 | `first(where:)` over the roots returns a root with the id, or none when no root has it. |
| Edits.FindSubItem | XCStringsEditor/Model/AppModel.swift:721-736 | `findSubItem` only ever returns a leaf with the id. |
| Edits.LookupAsWritten | XCStringsEditor/Model/AppModel.swift:699-715 | `item(with:)` as written returns a node with the id. A node with children is only found when it is a root. |
| Edits.DeviceNodeNotFound | XCStringsEditor/Model/AppModel.swift:699-736 | A plural node nested in a device slot is never found by its id as written, while the intended lookup finds it. |
| Edits.Lookup | XCStringsEditor/Model/AppModel.swift:699-715 | The corrected lookup: the root named by `baseID`, then the first node of its tree with the id. |
| Edits.LookupSearchesRootTree | XCStringsEditor/Model/AppModel.swift:699-715 | For a root id or a variant id below it, the corrected lookup searches that root's nodes in pre-order. |
| Edits.SiblingOfRoot | XCStringsEditor/Model/AppModel.swift:1035-1039 | For a root of the current language, the sibling id is the other language's root id for the same key. |
| Edits.ShouldTranslateLost | XCStringsEditor/Model/AppModel.swift:900-935 | As written, a value set on a root that is not the key's last root is undone in the catalog entry the writer fills. The file does not carry the field. |
| Edits.ShouldTranslateNotShared | XCStringsEditor/Model/AppModel.swift:343-350 | As written, after turning translation off on one language's root, the other language's root of the key is still not in the "do not translate" state. The dont-translate toggle keeps that root in view exactly as before and hides the changed one. |
| Edits.SetShouldForKey | XCStringsEditor/Model/AppModel.swift:900-935 | The corrected command: every root of the key takes the value. |
| Edits.ShouldTranslateSaved | XCStringsEditor/Model/AppModel.swift:900-935 | After the corrected command, the written entry carries the value set. |
| Edits.ShouldTranslateReachesAll | XCStringsEditor/Model/AppModel.swift:900-935 | After the corrected command turns translation off for a key, every root of the key is in the "do not translate" state, and the dont-translate toggle hides each one. |
| App.Handle | XCStringsEditor/Model/AppModel.swift:767-1029 | One command on one id: the forest is the scan with the command's handler. The document's modified flag and the overlay change as that handler's effects on the nodes it was given dictate. |
| App.HandleAbsent | XCStringsEditor/Model/AppModel.swift:627-640 | An id that no node carries changes nothing, except for `markNeedsWork`, which changes only the overlay. |
| App.MarkLaterRefused | XCStringsEditor/Model/AppModel.swift:966-972 | `markTranslateLater` on an id that names only nodes below a root, or a translated root when marking, changes nothing at all. |
| App.WorkSetEach | XCStringsEditor/Model/AppModel.swift:1005-1029 | `markNeedsWork` puts every requested id into the overlay, or takes every one out, whether it was found or not. |
| App.ShouldStep | XCStringsEditor/Model/AppModel.swift:900-935 | The corrected command on one id: when the id names a root, every root of its key takes the value. |
| App.ShouldStepSaved | XCStringsEditor/Model/AppModel.swift:900-935 | After the corrected command on a root, writing the forest back keeps the value for the entry. |
| App.SiblingsOfRoot | XCStringsEditor/Model/AppModel.swift:1032-1041 | For a root of the current language, the sibling ids are the roots of the same key in each other language, in order. |
| App.StartLanguage | XCStringsEditor/Model/AppModel.swift:164-168 | The shown language is the remembered one when the catalog has it, and otherwise the first language. |
| App.AppModel.constructor | XCStringsEditor/Model/AppModel.swift:114-117 | Nothing is loaded. The three hide toggles are as remembered, the filter is cleared, and the default sort order is set. |
| App.AppModel.ReloadData | XCStringsEditor/Model/AppModel.swift:336-443 | The visible rows become the kept roots, sorted by the sort order. |
| App.AppModel.SetCurrentLanguage | XCStringsEditor/Model/AppModel.swift:54-63 | The rows are reloaded and the overlay remembers the language's code. |
| App.AppModel.SetSearchText | XCStringsEditor/Model/AppModel.swift:69-74 | The search text is set and the rows are reloaded. |
| App.AppModel.SetFilter | XCStringsEditor/Model/AppModel.swift:83-87 | The filter is set and the rows are reloaded. |
| App.AppModel.ResetFilter | XCStringsEditor/Model/AppModel.swift:25-34 | Every criterion is off and the rows are reloaded. |
| App.AppModel.SetHidden | XCStringsEditor/Model/AppModel.swift:88-105 | A hide toggle is set and the rows are reloaded. |
| App.AppModel.SortUsing | XCStringsEditor/Model/AppModel.swift:455-463 | The visible rows are re-sorted in place as a permutation, and `sortOrder` is left as it was. |
| App.AppModel.Load | XCStringsEditor/Model/AppModel.swift:136-170 | The catalog, its languages and the overlay are loaded, and the forest is built from them. Then the rows the previous file still showed are put over the new roots with the same ids, as the reload on setting the language does. The shown language is chosen, its code is remembered, the rows are reloaded from the result, and the document is unmodified. |
| App.AppModel.LoadFresh | XCStringsEditor/Model/AppModel.swift:136-170 | The corrected load, with the previous rows dropped first: the forest is exactly the one built from the file, whatever was open before. |
| App.AppModel.UpdateAllLocalizedItems | XCStringsEditor/Model/AppModel.swift:326-334 | The loop puts each row over the first root with its id, and is proved equal to `App.CarryOver`. |
| App.IndexOfID | XCStringsEditor/Model/AppModel.swift:329 | `firstIndex(where:)` by id: the first root with the id, or none when no root has it. |
| App.CarryOverAt | XCStringsEditor/Model/AppModel.swift:326-334 | Position by position, the first root with an id takes the last row with that id, and every other root stays as it was. |
| App.CarryOverOwnRows | XCStringsEditor/Model/AppModel.swift:326-334 | When the rows are the forest's own roots and ids are unique, the carry-over changes nothing. |
| App.CarryOverReplaces | XCStringsEditor/Model/AppModel.swift:326-334 | A row from another forest replaces the first root with its id, whatever that root held. |
| App.AppModel.Save | XCStringsEditor/Model/AppModel.swift:209-239 | The forest is written into the loaded catalog. Only when the file is written do the document and every node lose their modified marks, and the rows are reloaded. |
| App.AppModel.ClearModifiedMark | XCStringsEditor/Model/AppModel.swift:1107-1124 | No node at any depth stays marked modified, and the rows are reloaded. |
| App.AppModel.UpdateItemWith | XCStringsEditor/Model/AppModel.swift:627-648 | The new state is `Handle` of the old one. |
| App.AppModel.UpdateItem | XCStringsEditor/Model/AppModel.swift:677-697 | The node with the item's id is replaced by the item. |
| App.AppModel.UpdateTranslation | XCStringsEditor/Model/AppModel.swift:767-793 | The new state is `Handle` with the text handler. |
| App.AppModel.ClearTranslation | XCStringsEditor/Model/AppModel.swift:795-806 | Each node's text and reverse text are removed and its modified mark is cleared. Then the rows are reloaded. |
| App.AppModel.MarkNeedsReview | XCStringsEditor/Model/AppModel.swift:887-898 | Each id goes through `Handle` with the review handler. |
| App.AppModel.Reviewed | XCStringsEditor/Model/AppModel.swift:937-948 | Each id goes through `Handle` with the un-review handler. |
| App.AppModel.MarkTranslateLater | XCStringsEditor/Model/AppModel.swift:953-995 | Each id goes through `Handle` with the translate-later handler. |
| App.AppModel.SetShouldTranslate | XCStringsEditor/Model/AppModel.swift:900-935 | The corrected command, applied to each id in turn. |
| App.AppModel.MarkNeedsWork | XCStringsEditor/Model/AppModel.swift:1001-1074 | Each requested id goes through the scan and into the overlay. With all languages, each sibling id of every id whose handler reached a root does too. |
| App.AppModel.CollectSiblings | XCStringsEditor/Model/AppModel.swift:1032-1041 | The nested loops, with languages inside, build the sibling ids. |
| App.AppModel.ClearNeedsWork | XCStringsEditor/Model/AppModel.swift:1076-1105 | With all languages, every root is unmarked and the rows are reloaded. Otherwise the visible roots are unmarked and the rows kept. Every unmarked id leaves the overlay. |
| App.AppModel.UnmarkVisible | XCStringsEditor/Model/AppModel.swift:1077-1099 | The visible roots are unmarked one by one, each by the same recursive clearing. |

## Left out

- Reading and writing files, and the JSON text encoding. JSON numbers and `null` are not in the value type, so a `null` field that `decodeIfPresent` reads as absent (`"comment": null`) cannot be expressed. `load` and `save` take the decoded catalog, the decoded overlay JSON and whether the write succeeded as parameters. `FileSettings.save` after a change of language, `markTranslateLater`, `markNeedsWork` and `clearNeedsWork` is a file write and is not modelled.
- UserDefaults (the hide toggles' storage, recent files), `fileURL`, `title` and `projectName`: I/O and display only.
- The translation services, `translate`, `reverseTranslate` and `detectLanguage`: network and async calls. Their effect on items is `updateTranslation`, which is modelled.
- The async `updateItem(with:updateHandler:) async` variant, and `items(with:)`: the first does the same scan as the synchronous one, and the second maps `item(with:)`.
- `copySourceText`, `copyTranslationText` and `copySourceAndTranslationText` (AppModel.swift:1138-1182): they write to the pasteboard, which is I/O, and change no item.
- `copyFromSourceText` (AppModel.swift:1127-1136) is not modelled as a command of its own. It calls `updateTranslation` with each item's source text, and `App.AppModel.UpdateTranslation` models that call.
- `localizedName` for languages, plurals and devices: localized display strings. The model uses the raw name as the device node key, and `load`'s sort by display name is the parameter `order` of `App.AppModel.Load`, which must list `languages(in:)` once each.
- The selection: the commands' `ids` default to the selection. The model always takes the ids explicitly, in the order a `Set` would iterate them.
- Builder.DeviceChild: decoding a localization can fill both the plural and the device map, and the model keeps only the plural one. The builder reads the source language's device map directly for a device slot's source text (AppModel.swift:504-506). So when the source language holds both maps, the editor takes a device child's source text from the device slot, while the model falls back to the root's source text.
- App.AppModel.constructor: the source's `settings` is nil until `load(file:)`, so a command run before any load traps. The model starts with the default settings, so a fresh `AppModel` behaves like one with an empty overlay.
- Unicode case mapping: `lowercased()` and `uppercased()` are modelled as ASCII case folding.
- Projection.CompareKeys: the key column's `KeyPathComparator` on `String` uses Foundation's `localizedStandard` collation, which is locale-dependent. The model compares ASCII-lower-cased keys by code point, with `Projection.CompareStrings` (code point) as the tie-break. It matches the collation's case-insensitivity ("b" before "C"). It does not match three other things the collation does. Its numeric ordering: the model puts "item10" before "item2". Its placement of punctuation and symbols, which the model orders by code point. Its case-only tie-break: the collation puts "a" before "A", while the model's code-point tie-break puts "A" first.
- App.AppModel.UpdateItemWith: the source runs the scan over the visible rows and then over all rows. With class semantics both scans reach the same nodes, so the model scans the forest once. `Edits.UpdateTwice` and `Edits.ApplyIdempotent` show that the second scan changes nothing more. When two nodes share an id, the source may hand different nodes to the two scans; the model does not capture that.
- App.AppModel.MarkNeedsWork: with all languages, an updated id without a divider makes the source trap when it splits the id. The model skips such ids, which `App.SiblingIDs` records.
- Item identity and aliasing: a `LocalizeItem` is a datatype value and the visible rows are positions into the forest, so the model does not capture two lists diverging.
- `updateAllLocalizedItems` is modelled where it changes something: in `App.AppModel.Load`, where the rows of the previous file meet the new forest. On every other reload the visible rows are the forest's own nodes, so with unique ids it changes nothing (`App.CarryOverOwnRows`), and `App.AppModel.ReloadData` leaves it out.
- `shouldTranslate` on catalog entries: the `XCString` struct in XCStrings.swift has no such field, but AppModel.swift reads and writes it. The model gives the entry the field. The coders do not read or write it, so decoding gives true.
- Catalog.LocalizationRoundTrip: holds only for localizations with no empty localization at any depth, because `{}` does not decode (`Catalog.NoVariationDoesNotRoundTrip`).
- Catalog.DocumentRoundTrip: `sortedKeys` and pretty-printing are formatting details of the JSON text and are not modelled.
- Dictionary iteration order: the builder's device loop and plural loop sort their results, so the model walks the cases in sort order. `XCStrings.init(from:)` reads the dictionary in an order given as a parameter.

## Findings

| source | as written | input that shows it | evidently intended | confidence | as-written member | corrected member |
|---|---|---|---|---|---|---|
| XCStringsEditor/Model/AppModel.swift:900-935 | `setShouldTranslate` sets the value on the root with the id and computes the sibling ids of the other languages, but never uses them. The writer takes an entry's `shouldTranslate` from the key's last root in forest order. | An entry with roots for English then German. Calling `setShouldTranslate(false)` on the English root leaves the German root's `shouldTranslate` true. With "hide dont-translate items" on, the German root stays in view and keeps its state, while the English one is hidden. (The catalog entry the writer fills gets the German value, but the file does not carry the field.) | The value reaches every root of the key, so every language's row is marked "do not translate". | high (by proof; not executed) | Edits.ShouldTranslateNotShared, Edits.ShouldTranslateLost | Edits.SetShouldForKey, App.ShouldStep, Edits.ShouldTranslateReachesAll, Edits.ShouldTranslateSaved |
| XCStringsEditor/Model/AppModel.swift:699-736 | `item(with:)` delegates to `findSubItem`, which recurses into every child that has children and never compares that child itself, so it only returns leaves. | A device-variation root whose `iphone` slot holds a plural map. The id of that plural node, the root id followed by `/iphone`, is never found. | Every node of the root's tree is found by its id, in pre-order as `LocalizeItem.item(with:)` does it. | high (by proof; not executed) | Edits.DeviceNodeNotFound | Edits.Lookup, Edits.LookupSearchesRootTree |
| XCStringsEditor/Model/AppModel.swift:136-170 | `load(file:)` builds the new forest and then sets `currentLanguage`, whose `didSet` reloads the rows. The reload first runs `updateAllLocalizedItems` (AppModel.swift:326-334), which puts each row still shown from the previous file over the new root with the same id. Ids are only the key and the language code. | File A is open in German with an unsaved edit to the row "Cancel". Loading A again, or a file B that also has "Cancel" in German, leaves the old edited node in the new forest in place of the one built from the file, and `isModified` is false. | The forest after a load is the one built from the file, whatever was open before. | high (by proof; not executed) | App.AppModel.Load, App.CarryOverReplaces | App.AppModel.LoadFresh |
