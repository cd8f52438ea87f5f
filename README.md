# wmboost-data entry layer, modelled in Dafny

This project models the entry-handle layer of wmboost-data. The layer gives typed get/put/remove
handles over a webMethods document (`IData`). An `IData` is an ordered multi-map: slots keep their order
and a key may occur in several slots.

It covers two parts:

- **The value pipeline of `BaseEntry`.** This is the construction checks and the wrapping of
  converter failures into invalid-argument errors that carry the field context. It is also the
  get path (convert, then normalise unless told not to) and the three-way put path (declared
  mutator type, else normalise, else store raw).
- **The unit collection-entry contract** of `CollectionEntry` and `CollectionDocEntry`. An entry
  handle targets the first slot with its key. The accessors classify that slot as absent, present
  with a null value, or present with a list, and then apply their fail / empty / default policy under
  `NullValHandling`. The mutators replace the first slot in place, insert a new one, or delete the
  first one.

Files, one module each:

| file | module | models |
|---|---|---|
| `wrappers.dfy` | `Wrappers` | `Option` (nullable references), `Result` / `Outcome` (returns and throws) |
| `text.dfy` | `Text` | `Contains`, `StartsWith`, `EndsWith` on strings, with their lemmas |
| `values.dfy` | `Values` | stored values, type descriptors, the option enumerations, the errors, and the `Platform` collaborators |
| `key_values.dfy` | `KeyValues` | `ImmutableKeyValue` |
| `multi_map.dfy` | `MultiMap` | the document as `seq<KeyValue>`: first slot with a key, replace, insert, delete, unit iteration |
| `documents.dfy` | `Documents` | class `Document`, whose `slots` field the mutators update in place |
| `base_entry.dfy` | `BaseEntries` | `BaseEntry` |
| `collection_entry.dfy` | `CollectionEntries` | `CollectionEntry` |
| `collection_doc_entry.dfy` | `CollectionDocEntries` | `CollectionDocEntry` |

Modelling choices:

- **The collaborators are parameters.** Spring's `ConversionService.convert`, `EntryUtil.normaliseValueForGet`
  and `EntryUtil.normaliseValueForPut`, and `TextUtil.abbreviateObj` are the four function fields of a
  `Platform` value. A `Document` holds this value, just as `DocumentImpl` supplies the conversion service.
  The converter returns a `Result`; what is verified is the decision logic around it.
- **Entry handles are immutable datatypes.** They hold a reference to the mutable `Document`.
  Accessors are functions that read the document. `put`, `putConverted` and `remove` are methods that
  modify it, through `Document.Assign` and `Document.DeleteFirst`.
- **Java `null`.** A null argument is `None`. A null stored value is `Value.Null`. A null list returned
  by an accessor is `None`.
- **Present-null is decided after conversion.** An entry counts as "present with a null value" when its
  first slot's value, after conversion and get-normalisation, is null. This is what makes
  `getNonNullVal`'s "never null" promise hold whatever the converter returns. The implementing classes
  are not part of this model, so this choice comes from the interfaces' doc-comments.
- **A converted value that is not a list.** For a collection entry, such a value (an array or any
  other non-list object) is the error `IncompatibleValue`. In Java this is the `ClassCastException`
  the caller would get.
- **Runtime classes.** A non-null value carries its runtime class twice: as the type descriptor that
  `TypeDescriptor.forObject` builds (the converter's source type) and as the text `Class.toString`
  prints (what the conversion failure message shows). For an `Integer[]` these are
  `java.lang.Integer[]` and `class [Ljava.lang.Integer;`.
- **Arrays and iterables share one representation.** Both are `Value.Items`, told apart by the shape
  of their class's descriptor. `put(Iterable)` and `put(E[])` differ only in which shape their argument
  has; both run the same put pipeline.
- **Choices made where the implementations are not shown:**
  - `putConverted` converts the value to the entry's list type and then follows the `put` path. This
    agrees with the `putConverted` tests in `DocumentTest.java`.
  - `CollectionDocEntry.remove()` is strict, like `CollectionEntry.remove()`.
  - The no-argument `getValOrEmpty` and `getValOrDefault` of `CollectionDocEntry` use `RETURN_DEFAULT`,
    as the `CollectionEntry` doc-comments state for their own no-argument forms.
- **Insert position.** A put on an absent key inserts one slot, and the contract (`MultiMap.IsPutOf`)
  leaves its position open. The method body appends.
- **Put then remove.** This sequence restores the document only when the key was absent before the put
  (`MultiMap.PutThenRemoveRestores`). On a present key the put replaces the first slot in place and the
  remove then deletes it, so one slot is lost (`MultiMap.PutThenRemoveOnPresentKey`).

## Model

| member | source | states |
|---|---|---|
| `KeyValues.NewKeyValue` | src/main/java/au/com/innodev/wmboost/data/ImmutableKeyValue.java:23-41 | a null key is rejected; otherwise `getKey` and `getValue` give back exactly the key and the (possibly null) value passed in |
| `BaseEntries.NewBaseEntry` | src/main/java/au/com/innodev/wmboost/data/BaseEntry.java:40-44 | succeeds exactly when the key is non-null and non-empty and the document and normalise option are non-null; a bad key is checked first and gives the invalid-key argument error; on success `getKey` returns the key given |
| `BaseEntries.ConversionFailureMessageContents` | src/main/java/au/com/innodev/wmboost/data/BaseEntry.java:68-93 | every conversion failure message names the destination type and the field key; for a non-collection, non-array destination it also shows the abbreviated value, and it ends with the value's class exactly when the value is non-null (else with `]`) |
| `BaseEntries.GetConvertedValue` | src/main/java/au/com/innodev/wmboost/data/BaseEntry.java:62-99 | a successful conversion returns exactly the converter's output; a converter failure becomes an invalid-argument error that keeps the failure as its cause and whose message names the destination type and key, plus the value abbreviated with limit 100 and its class when non-null, for a non-collection destination |
| `BaseEntries.GetConvertedValueOf` | src/main/java/au/com/innodev/wmboost/data/BaseEntry.java:54-56 | the single-argument conversion takes the value's runtime type as the source type, and no source type for null |
| `BaseEntries.ConvertAndNormaliseValForGet` | src/main/java/au/com/innodev/wmboost/data/BaseEntry.java:101-112 | conversion always comes first and its failure is returned as is; with don't-normalise the converted value is returned unchanged, otherwise its get-normalisation |
| `BaseEntries.ConvertAndNormaliseValForPut` | src/main/java/au/com/innodev/wmboost/data/BaseEntry.java:114-128 | a declared mutator type means conversion to it whatever the normalise option; else put-normalisation when normalising; else the raw value; only the first path can fail |
| `BaseEntries.TypedPutIgnoresNormaliseOption` | src/main/java/au/com/innodev/wmboost/data/BaseEntry.java:117-118 | with a declared mutator type the put path gives the same result under both normalise options |
| `MultiMap.FirstIndex` | src/main/java/au/com/innodev/wmboost/data/CollectionEntry.java:37-40 | finds a slot exactly when some slot holds the key, and the slot it finds is the first one with that key |
| `MultiMap.FirstValue` | src/main/java/au/com/innodev/wmboost/data/CollectionEntry.java:37-40 | the value read for a key is that of its first slot, and exists exactly when the key is present |
| `MultiMap.PutTargetsFirstSlot` | src/main/java/au/com/innodev/wmboost/data/CollectionEntry.java:184-193 | after a put the key is assigned and its first slot holds the value put |
| `MultiMap.PutOnPresentKey` | src/main/java/au/com/innodev/wmboost/data/CollectionEntry.java:184-193 | a put on a present key keeps the slot count and the slot's position, and changes no other slot |
| `MultiMap.PutOnAbsentKey` | src/main/java/au/com/innodev/wmboost/data/CollectionEntry.java:184-193 | a put on an absent key adds exactly one slot, `(key, value)`, and it is the key's only slot; taking that slot out gives back the old slots in their order |
| `MultiMap.PutKeepsOtherKeys` | src/main/java/au/com/innodev/wmboost/data/CollectionEntry.java:184-193 | a put under one key changes neither the presence nor the first value of any other key |
| `MultiMap.RemoveDeletesFirstSlot` | src/main/java/au/com/innodev/wmboost/data/CollectionEntry.java:220-235 | removing a present key deletes exactly its first slot, keeping the others in order; an absent key leaves the slots unchanged |
| `MultiMap.RemoveDropsOneOccurrence` | src/main/java/au/com/innodev/wmboost/data/CollectionEntry.java:220-235 | removing a present key leaves the key with exactly one slot fewer, so later slots of the same key remain |
| `MultiMap.RemoveKeepsOtherKeys` | src/main/java/au/com/innodev/wmboost/data/CollectionEntry.java:220-235 | removing under one key changes neither the presence nor the first value of any other key |
| `MultiMap.PutThenRemoveRestores` | src/test/java/au/com/innodev/wmboost/data/DocumentTest.java:41-67 | a put on an absent key followed by a remove of it gives back the original slots |
| `MultiMap.PutThenRemoveOnPresentKey` | src/main/java/au/com/innodev/wmboost/data/CollectionEntry.java:184-235 | on a present key, put followed by remove leaves one slot fewer than before the put |
| `MultiMap.UnitEntriesCoverKeys` | src/test/java/au/com/innodev/wmboost/data/DocumentTest.java:1164-1195 | a key occurs in unit iteration exactly when it is present in the document |
| `MultiMap.UnitEntriesDistinctKeys` | src/test/java/au/com/innodev/wmboost/data/DocumentTest.java:1164-1195 | unit iteration yields each key at most once |
| `MultiMap.UnitEntriesAreFirstSlots` | src/test/java/au/com/innodev/wmboost/data/DocumentTest.java:1164-1195 | every slot unit iteration yields is the first slot of its key, with that slot's value |
| `MultiMap.UnitEntriesInFirstOccurrenceOrder` | src/test/java/au/com/innodev/wmboost/data/DocumentTest.java:1164-1195 | unit iteration yields the keys in the order of their first occurrence in the document |
| `MultiMap.UnitEntriesOfRepeatedKeys` | src/test/java/au/com/innodev/wmboost/data/DocumentTest.java:1165-1195 | for the slots x, z, y, x, z unit iteration yields x, z, y with the values of their first slots |
| `Documents.Document.Wrap` | src/test/java/au/com/innodev/wmboost/data/DocumentTest.java:69-76 | a wrapped document holds exactly the given slots and hands its entries exactly the given collaborators; `create` is a wrap of no slots |
| `Documents.Document.Assign` | src/main/java/au/com/innodev/wmboost/data/CollectionEntry.java:184-193 | the new slots are a put of the value under the key: the first slot replaced in place, or one slot inserted when absent |
| `Documents.Document.DeleteFirst` | src/main/java/au/com/innodev/wmboost/data/CollectionEntry.java:227-229 | the new slots are the old ones without the first slot holding the key |
| `CollectionEntries.IsAssigned` | src/main/java/au/com/innodev/wmboost/data/CollectionEntry.java:55-58 | true exactly when some slot of the document holds the key |
| `CollectionEntries.Lookup` | src/main/java/au/com/innodev/wmboost/data/CollectionEntry.java:37-40 | absent exactly when the key is unassigned; otherwise the first slot's value read through the get pipeline, classified as null, a list, or an error |
| `CollectionEntries.GetVal` | src/main/java/au/com/innodev/wmboost/data/CollectionEntry.java:60-71 | an absent key is an inexistent entry; a present key gives its list, or null for a null value; pipeline errors propagate |
| `CollectionEntries.GetNonNullVal` | src/main/java/au/com/innodev/wmboost/data/CollectionEntry.java:73-89 | never returns null: absent is an inexistent entry, a null value is an unexpected value (null found), otherwise the list |
| `CollectionEntries.GetNonEmptyVal` | src/main/java/au/com/innodev/wmboost/data/CollectionEntry.java:91-106 | never returns null or an empty list: absent is an inexistent entry, a null or an empty list is an unexpected value |
| `CollectionEntries.GetValOrEmptyWith` | src/main/java/au/com/innodev/wmboost/data/CollectionEntry.java:124-139 | an absent key gives an empty list; with the fail policy a null value is an unexpected value |
| `CollectionEntries.GetValOrEmpty` | src/main/java/au/com/innodev/wmboost/data/CollectionEntry.java:108-122 | equals the return-default form, so an absent key or a null value gives an empty list |
| `CollectionEntries.GetValOrDefaultWith` | src/main/java/au/com/innodev/wmboost/data/CollectionEntry.java:161-180 | an absent key gives the caller's default under every policy; a null value gives null, the default, or an unexpected value per policy; a list is returned as read |
| `CollectionEntries.GetValOrDefault` | src/main/java/au/com/innodev/wmboost/data/CollectionEntry.java:141-159 | equals the return-default form, so an absent key or a null value gives the caller's default |
| `CollectionEntries.OrEmptyIsOrDefaultOfEmpty` | src/main/java/au/com/innodev/wmboost/data/CollectionEntry.java:108-180 | the or-empty accessor is the or-default accessor with an empty default, under every policy |
| `CollectionEntries.StrictAccessorsRefineGetVal` | src/main/java/au/com/innodev/wmboost/data/CollectionEntry.java:60-106 | the non-null and non-empty accessors return what `getVal` returns whenever they succeed, and succeed whenever that value is non-null (resp. non-empty) |
| `CollectionEntries.DefaultAccessorsAgreeOnValue` | src/main/java/au/com/innodev/wmboost/data/CollectionEntry.java:108-180 | on a present, non-null value every or-empty and or-default accessor returns what `getVal` returns |
| `CollectionEntries.InexistentEntryMeansAbsent` | src/main/java/au/com/innodev/wmboost/data/CollectionEntry.java:60-106 | the strict accessors fail with an inexistent entry exactly when no slot holds the key |
| `CollectionEntries.Put` | src/main/java/au/com/innodev/wmboost/data/CollectionEntry.java:184-193 | the value goes through the put path; on success the first slot is replaced or a slot inserted, the entry becomes assigned and reads back as the stored value; a failure leaves the document unchanged |
| `CollectionEntries.PutConverted` | src/main/java/au/com/innodev/wmboost/data/CollectionEntry.java:195-211 | converts to the entry's type first; a conversion failure leaves the document unchanged; otherwise as `put` of the converted value, so the entry is then assigned and reads back as the stored value |
| `CollectionEntries.RemoveWith` | src/main/java/au/com/innodev/wmboost/data/CollectionEntry.java:220-235 | a present key loses its first slot only; on an absent key the document is unchanged, strict fails with an inexistent entry and lenient returns normally |
| `CollectionEntries.Remove` | src/main/java/au/com/innodev/wmboost/data/CollectionEntry.java:213-218 | strict removal: an absent key fails and leaves the document unchanged |
| `CollectionDocEntries.IsAssigned` | src/main/java/au/com/innodev/wmboost/data/CollectionDocEntry.java:56-63 | true exactly when at least one slot holds the key, whatever its value |
| `CollectionDocEntries.GetVal` | src/main/java/au/com/innodev/wmboost/data/CollectionDocEntry.java:65-78 | an absent key is an inexistent entry; a present list is returned as read |
| `CollectionDocEntries.GetNonEmptyVal` | src/main/java/au/com/innodev/wmboost/data/CollectionDocEntry.java:80-97 | never null or empty on success: absent is an inexistent entry, a null or empty list an unexpected value, a present non-empty list is returned as read, and pipeline errors propagate |
| `CollectionDocEntries.GetValOrEmpty` | src/main/java/au/com/innodev/wmboost/data/CollectionDocEntry.java:101-112 | an absent key or a null value gives an empty list; a present list is returned as read |
| `CollectionDocEntries.GetValOrDefault` | src/main/java/au/com/innodev/wmboost/data/CollectionDocEntry.java:114-128 | an absent key or a null value gives the caller's default; a present list is returned as read |
| `CollectionDocEntries.Put` | src/main/java/au/com/innodev/wmboost/data/CollectionDocEntry.java:132-141 | takes an iterable or null; creates the entry when absent, otherwise replaces the first slot's value; a put-path failure leaves the document unchanged; the entry is then assigned and reads back as the stored value |
| `CollectionDocEntries.PutArray` | src/main/java/au/com/innodev/wmboost/data/CollectionDocEntry.java:143-151 | takes an array or null and has the same effect as `put(Iterable)`: the put pipeline, then assigned and read back as the stored value |
| `CollectionDocEntries.PutConverted` | src/main/java/au/com/innodev/wmboost/data/CollectionDocEntry.java:153-174 | converts to the entry's type, then puts; a failure leaves the document unchanged; on success the entry is assigned and reads back as the stored value |
| `CollectionDocEntries.Remove` | src/main/java/au/com/innodev/wmboost/data/CollectionDocEntry.java:176-186 | deletes only the first slot with the key, matched by key alone |

## Left out

- The actual conversions (strings to numbers, booleans, dates, enums, decimals, floating point) belong to Spring's `ConversionService`, an outside library. The model keeps the converter as an arbitrary function.
- `EntryUtil.normaliseValueForGet` / `normaliseValueForPut` and `TextUtil.abbreviateObj` are not part of this model. They are arbitrary functions. Only the limit 100 passed to the abbreviation is modelled. That the abbreviation respects this limit belongs to `TextUtil` and is not stated.
- `Preconditions` is not part of this model. Its exception classes are not visible, so a bad key is `InvalidArgument` with the message given at the call site, and a null document or option is `NullArgument`.
- The texts of the inexistent-entry and unexpected-value exceptions come from classes that are not part of this model. The errors carry the key and what was found (null or empty).
- `deleteCurrentEntry`, `newCursorResource` and the cursor API are outside plumbing, and so is releasing a cursor after iteration. The model deletes and replaces slots directly on the sequence.
- `DirectIDataFactory` creates platform objects and has no behaviour of its own. The two `EntryMutator` signatures are covered by the collection-entry mutators.
- Java list views are not modelled: unmodifiability and covariance. Dafny sequences are immutable, so a caller's default list cannot be altered.
- Split/scattered entries, item entries and the `Document` facade (key listing, size, clear, the entry factories) are not part of this model. Whole-document iteration is the slot sequence itself. Unit iteration is `MultiMap.UnitEntries`.
- `CollectionDocEntries.Put`: an `Iterable` that is not a `java.util.Collection` is not distinguished; the argument is taken to have the collection shape.
- `CollectionEntries.ReadSlot`: a converted `Collection` that is not a `List` (a `Set`, say) reads as a list, where Java's cast to `List` would fail; descriptors do not tell lists from other collections here. A converter asked for a list type does not return one.
- Thread safety is not modelled; the layer has no synchronisation.
