# AdeptivePantyhose: footwear classifier and no-heel morph, modelled in Dafny

AdeptivePantyhose is an SKSE plugin for Skyrim. It decides whether the footwear an actor wears
is a "high heel", and it drives a body morph, `NoHeel`, that is applied when the actor is
barefoot or wears flat footwear. This project models the plugin's logic and proves properties
of that model:

- **Rule loader** (`HighHeelDetector::ParseJson`, `ParseKeywords`, `ParseFormIDRange`, `Init`).
  It turns an already-parsed JSON document into two flat rule lists:
  - keyword strings (`ByKeywords`);
  - `{Plugin, Min, Max}` FormID ranges with hexadecimal bounds (`ByFormIDRange`).

  Validation is skip-and-continue:
  - a missing section is accepted;
  - a section that is not an array fails the load;
  - a malformed entry is dropped;
  - a range with `Max <= Min` is dropped.
- **Bound parsing** (`std::stoul(text, nullptr, 16)` cast to a 32-bit FormID), modelled after
  the C library's `strtoul` on Windows, where `unsigned long` is 32 bits wide.
- **Classifier** (`HighHeelDetector::IsHighHeel`). A null armour is not a heel. An armour
  carrying any keyword rule is a heel. Otherwise, an armour from a file is a heel when the file
  name equals a range rule's plugin (exact, case-sensitive) and its local FormID lies in that
  rule's inclusive range.
- **Morph update** (`BodyMorphManager::UpdateHighHeelMorph`). It clears the legacy and the
  current key of the `NoHeel` morph, re-applies the current key for non-heels, and asks for
  the model weight to be recomputed.
- **Equip-event sink** (`EventProcessor::ProcessEvent` and its free `IsHighHeel`). It reacts
  to an actor equipping or unequipping feet armour. The high-heel test there is a single fixed
  keyword, `SLA_KillerHeels`.

Host objects are replaced by records of the answers the plugin asks of them (`GameForms`).
The body-morph interface is an actuator. A handler is modelled as the list of requests it
sends (`ClearMorph`, `SetMorph`, `UpdateModelWeight`). `BodyMorphManager.Run` applies such a
list to a morph store. The store maps (actor, morph name, key) to a value. It also records the
actors whose model weight is stale, which makes "weight recomputed last" observable.

Files: `common.dfy` (Option, 32-bit values), `json.dfy` (parsed JSON values), `stoul.dfy`
(bound parsing), `stoul_examples.dfy` (bound texts and how they read), `game_forms.dfy` (armour, references, forms), `high_heel_detector.dfy`,
`body_morph_manager.dfy`, `event_processor.dfy`, and `scenarios.dfy` (concrete documents,
armours and event sequences).

Notes on what the code does:
- The rules are two flat lists, keywords and FormID ranges. There are no nested clauses and
  no per-plugin conditions, so a plugin is never matched as a whole.
- Plugin names are compared exactly, so case matters.
- Bounds are read leniently, as `stoul` reads them: leading blanks, a sign, and trailing text
  are all accepted. A bad bound skips its entry; it does not fail the document.
- The event sink clears only the current key, never the legacy one. Only
  `UpdateHighHeelMorph` clears the legacy key.
- The event sink calls the morph interface without checking that it exists.
- Nothing synchronises actors at start-up, and a reload clears the rules before reading the
  new document rather than swapping them in at once.
- `src/plugin.cpp` registers the event sink and initialises the morph manager, but never calls
  `HighHeelDetector::Init` and never reaches `UpdateHighHeelMorph`. The sink uses its own
  one-keyword test and calls the morph interface directly. The loader, the detector and
  `UpdateHighHeelMorph` are modelled as written all the same.
- `src/BodyMorphManager/BodyMorphManager.h:16-19` does not declare `UpdateHighHeelMorph`,
  although `src/BodyMorphManager/BodyMorphManager.cpp` defines it.
- `src/EventProcessor/EventProcessor.h:19` comments out the only declaration of the free
  `IsHighHeel`. `src/EventProcessor/EventProcessor.cpp:30` calls it before its definition at
  line 43. The model treats the call as reaching that definition.
- `src/HighHeelDetector/HighHeelDetector.h` declares a nested `rules_` member and a
  `void ParseJson`. The `.cpp` uses `keywordsRules_`, `formIDRangeRules_` and `bool ParseJson`.
  The model follows the `.cpp`.

## Model

| member | source | states |
|---|---|---|
| `Stoul.NumberRead` | src/HighHeelDetector/HighHeelDetector.cpp:80-81 | a text made of blanks, an optional `+` or `-`, an optional `0x` or `0X`, a run of hexadecimal digits and a tail that does not start with a digit (an unprefixed run `0` not followed by `x` or `X` and a digit, which would form a prefix) reads as the run's value, negated modulo 2^32 under `-`; it is refused (`out_of_range`) when the run needs more than 32 bits |
| `Stoul.PrefixedDigitsRead` | src/HighHeelDetector/HighHeelDetector.cpp:80-81 | `0x` followed by a run of hexadecimal digits whose value fits in 32 bits reads as that value; reading stops at the first non-digit, so trailing text is ignored |
| `Stoul.NegatedDigitsRead` | src/HighHeelDetector/HighHeelDetector.cpp:80-81 | a minus sign before `0x` and a digit run negates the value modulo 2^32, as `strtoul` does |
| `Stoul.FormatHexRoundTrip` | src/HighHeelDetector/HighHeelDetector.cpp:80-81 | a bound written as `0x` and upper-case digits reads back as the same 32-bit number, whatever non-digit text follows it |
| `Stoul.NoDigitsRefused` | src/HighHeelDetector/HighHeelDetector.cpp:80-81 | a bound containing no hexadecimal digit is refused, as `stoul` throws `invalid_argument` |
| `Stoul.OverflowRefused` | src/HighHeelDetector/HighHeelDetector.cpp:80-81 | a bound whose value needs more than 32 bits is refused, as `stoul` throws `out_of_range` |
| `HighHeelDetector.DecodeFormIdRange` | src/HighHeelDetector/HighHeelDetector.cpp:47-96 | an entry that fails the shape test (an object with all of `Plugin`, `Min` and `Max`, extra members allowed) is skipped; a kept rule has min < max and carries exactly the entry's plugin string and parsed bounds; conversely, an entry of that shape whose three members are strings and whose bounds both read, with min < max, is kept |
| `HighHeelDetector.DecodeRangeEntry` | src/HighHeelDetector/HighHeelDetector.cpp:77-90 | round trip: an entry written from a plugin and bounds min < max is read back as exactly that rule |
| `HighHeelDetector.EmptyOrReversedRangeSkipped` | src/HighHeelDetector/HighHeelDetector.cpp:83-88 | an entry with max <= min is dropped, equal bounds included |
| `HighHeelDetector.MalformedRangeMembersSkipped` | src/HighHeelDetector/HighHeelDetector.cpp:77-96 | an entry with a non-string member or an unreadable bound is dropped |
| `HighHeelDetector.KeywordRules` | src/HighHeelDetector/HighHeelDetector.cpp:117-125 | the keywords loaded from an array are exactly its string elements; non-strings are skipped; no more rules than elements |
| `HighHeelDetector.KeywordRulesAppend` | src/HighHeelDetector/HighHeelDetector.cpp:117-125 | keywords are appended in document order: two consecutive runs of elements give their rules one after the other |
| `HighHeelDetector.RangeRules` | src/HighHeelDetector/HighHeelDetector.cpp:72-97 | every range rule loaded from an array has min < max; no more rules than entries |
| `HighHeelDetector.RangeRulesMembers` | src/HighHeelDetector/HighHeelDetector.cpp:72-97 | a range rule is loaded exactly when some entry of the array decodes to it |
| `HighHeelDetector.RangeRulesAppend` | src/HighHeelDetector/HighHeelDetector.cpp:72-97 | range rules are appended in document order |
| `HighHeelDetector.ParseKeywords` | src/HighHeelDetector/HighHeelDetector.cpp:101-128 | succeeds exactly when `ByKeywords` is absent or an array; on failure the store is unchanged; range rules are untouched; the section's keywords are appended after the existing ones |
| `HighHeelDetector.ParseFormIdRange` | src/HighHeelDetector/HighHeelDetector.cpp:56-99 | succeeds exactly when `ByFormIDRange` is absent or an array; on failure the store is unchanged; keywords are untouched; the section's rules are appended; a store whose ranges all have min < max keeps that property |
| `HighHeelDetector.ParseJson` | src/HighHeelDetector/HighHeelDetector.cpp:130-141 | succeeds exactly when both sections are acceptable; both sections are always read; the resulting store does not depend on the prior store; every stored range has min < max |
| `HighHeelDetector.Init` | src/HighHeelDetector/HighHeelDetector.cpp:12-44 | an unreadable or unparsable file fails and keeps the previous rules; a parsed document succeeds exactly when both sections are absent or arrays, and replaces the rules with what it holds; the min < max invariant is kept |
| `HighHeelDetector.ReloadIsIdempotent` | src/HighHeelDetector/HighHeelDetector.cpp:130-141 | loading the same document twice leaves the same store and result as loading it once |
| `HighHeelDetector.AnyKeywordMatches` | src/HighHeelDetector/HighHeelDetector.cpp:154-160 | the keyword loop answers true exactly when some stored keyword is on the armour |
| `HighHeelDetector.AnyRangeMatches` | src/HighHeelDetector/HighHeelDetector.cpp:172-180 | the range loop answers true exactly when some rule has the file name as its plugin and the local FormID within [min, max] |
| `HighHeelDetector.IsHighHeel` | src/HighHeelDetector/HighHeelDetector.cpp:143-185 | null gives false; any matching keyword gives true, with or without a file; without a file and without a keyword match the answer is false; otherwise the answer is true exactly when some rule matches the file name exactly and holds the local FormID inclusively |
| `HighHeelDetector.LoadedRangeClassifies` | src/HighHeelDetector/HighHeelDetector.cpp:172-184 | after loading one range rule, an armour is a heel exactly when it comes from that plugin and its local FormID lies within both bounds, inclusive |
| `BodyMorphManager.UpdateHighHeelMorph` | src/BodyMorphManager/BodyMorphManager.cpp:54-89 | no request for a null actor or a missing interface; otherwise every request addresses the actor, the legacy key then the current key are cleared first, no set precedes a clear, a set is issued exactly for non-heels, and the weight update comes last |
| `BodyMorphManager.UpdateSettles` | src/BodyMorphManager/BodyMorphManager.cpp:72-86 | afterwards the legacy key is absent, the current key is present exactly for non-heels and then at 1.0, every other morph keeps its value, and the actor's weight is up to date |
| `BodyMorphManager.UpdateForgetsPriorState` | src/BodyMorphManager/BodyMorphManager.cpp:72-83 | convergence: two stores that differ only in the two `NoHeel` keys (and the actor's weight state) end identical |
| `BodyMorphManager.UpdateIsIdempotent` | src/BodyMorphManager/BodyMorphManager.cpp:72-86 | two identical updates leave the same store as one |
| `EventProcessor.IsHighHeel` | src/EventProcessor/EventProcessor.cpp:43-51 | the sink's own test gives the same verdict as the detector holding only the keyword `SLA_KillerHeels` and no ranges |
| `EventProcessor.ProcessEvent` | src/EventProcessor/EventProcessor.cpp:12-41 | always returns Continue; no request unless an actor equips or unequips feet armour; then the current key is cleared first, the weight update comes last, a set is issued exactly on unequip or on a non-heel equip, and only the current `NoHeel` key is touched |
| `EventProcessor.EventSettles` | src/EventProcessor/EventProcessor.cpp:28-39 | after one event the actor's current key is present (at 1.0) exactly when the morph is wanted; every other slot, the legacy key included, is unchanged; filtered events change nothing |
| `EventProcessor.UnequipAppliesNoHeel` | src/EventProcessor/EventProcessor.cpp:30-32 | unequipping feet armour always leaves the no-heel morph applied, whatever the item |
| `EventProcessor.LegacyKeySurvivesEvent` | src/EventProcessor/EventProcessor.cpp:28-32 | the sink never clears the legacy key: a value stored under it survives any event |
| `EventProcessor.OtherEventsLeaveActorAlone` | src/EventProcessor/EventProcessor.cpp:14-24 | events that are filtered out, or are about other actors, leave an actor's current key as it was |
| `EventProcessor.LastEventDecides` | src/EventProcessor/EventProcessor.cpp:28-39 | over any sequence of events, an actor's last feet-armour event decides its no-heel morph, whatever came before |
| `Scenarios.KeywordDocument` | src/HighHeelDetector/HighHeelDetector.cpp:154-160 | `{"ByKeywords": ["Tag_HighHeel"], "ByFormIDRange": []}` loads one keyword; an armour with that keyword is a heel even without a file, one without it is not |
| `StoulExamples.WrittenBoundsRead` | src/HighHeelDetector/HighHeelDetector.cpp:80-81 | `"0x800"` and `"0x8FF"` read as 0x800 and 0x8FF |
| `StoulExamples.TrailingTextIgnored` | src/HighHeelDetector/HighHeelDetector.cpp:80-81 | `"0x800 // end"` reads as 0x800 |
| `StoulExamples.MinusOneWraps` | src/HighHeelDetector/HighHeelDetector.cpp:80-81 | `"-0x1"` reads as 0xFFFFFFFF |
| `StoulExamples.WideBoundRefused` | src/HighHeelDetector/HighHeelDetector.cpp:80-81 | `0x100000000` is refused |
| `StoulExamples.NonNumericBoundRefused` | src/HighHeelDetector/HighHeelDetector.cpp:80-81 | `"high"` and the empty text are refused |
| `Scenarios.RangeDocumentInside` | src/HighHeelDetector/HighHeelDetector.cpp:172-180 | the rule Mod.esp 0x800..0x8FF matches 0x850 and both bounds |
| `Scenarios.RangeDocumentOutside` | src/HighHeelDetector/HighHeelDetector.cpp:172-180 | the same rule does not match 0x900, 0x7FF, or the file name `mod.esp` |
| `Scenarios.MissingMaxSkipped` | src/HighHeelDetector/HighHeelDetector.cpp:47-53 | an entry without `Max` is skipped |
| `Scenarios.GoodEntryAfterSkipped` | src/HighHeelDetector/HighHeelDetector.cpp:72-97 | three skipped entries before a good one leave exactly the good rule loaded, and the load succeeds |
| `Scenarios.MalformedEntriesSkipped` | src/HighHeelDetector/HighHeelDetector.cpp:72-97 | entries with no `Max`, a non-object entry and a reversed range are dropped, and the good entry after them still loads |
| `Scenarios.NonArraySectionFails` | src/HighHeelDetector/HighHeelDetector.cpp:130-141 | a non-array `ByKeywords` fails the load, but the ranges are still read |
| `Scenarios.NonObjectDocumentLoadsNothing` | src/HighHeelDetector/HighHeelDetector.cpp:130-141 | a document that is not an object loads with no rules, clearing the old ones |
| `Scenarios.EquipShoeThenHeel` | src/EventProcessor/EventProcessor.cpp:28-39 | after equipping a plain shoe the no-heel morph is present; after then equipping a `SLA_KillerHeels` item it is gone |

## Left out

- File reading and JSON text parsing in `HighHeelDetector::Init`. They are I/O and a foreign library. `Init` takes an abstract source: unreadable, unparsable, or an already-parsed value.
- Stoul.Stoul16: it has no contract of its own. `Stoul.NumberRead` gives its result on every text written as a number, and `Stoul.NoDigitsRefused` covers text without digits. The converse is not stated as a lemma: that every value read comes from such a text, for example that text with other characters before the digits is refused. It follows C `strtoul` with a 32-bit `unsigned long`, as on Windows. On a platform with a 64-bit `unsigned long`, values above 2^32 - 1 would be truncated by the cast instead of refused. The case where `0x` has no digit after it follows the C standard, so `"0x"` reads as 0 and an entry with such a bound is kept; the Windows runtime may consume the prefix and refuse it, which is not modelled.
- JSON numbers are integers only. The loader only tests a value's type, so floating-point numbers would behave like any other non-string value.
- Keyword tests (`HasKeywordString`) are modelled as membership in the armour's keyword set. How the host compares keyword names is the host's business and is not modelled.
- `GetFile(0)`, `GetLocalFormID`, `HasPartOf`, `LookupByID` and `As<Actor>` are fields of the input records. The host computes them.
- `BodyMorphManager::Init`. It is an interface exchange through the host's messaging system and a version check (`version >= 4`). The model passes whether the interface is available as a parameter.
- EventProcessor.ProcessEvent: it assumes the morph interface is present, because the source calls it without a null check. What happens when it is missing is undefined in C++ and is not modelled.
- Logging, the singletons, plugin registration in `src/plugin.cpp`, and the morph magnitude's floating-point type. The magnitude is the exact value 1.0.
- The nested rule types declared in `src/HighHeelDetector/HighHeelDetector.h`. They have no implementation.
