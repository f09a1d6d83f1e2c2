/** Concrete rule documents, armours and event sequences, with the outcomes the model gives. */
module Scenarios {
  import opened Common
  import opened Json
  import opened GameForms
  import opened HighHeelDetector
  import opened BodyMorphManager
  import EP = EventProcessor

  function FeetArmor(keywords: set<string>, file: Option<string>, localFormId: u32): Armor {
    Armor(keywords, file, localFormId, {FeetSlot})
  }

  /** A keyword rule classifies an armour carrying that keyword, even one without a file. */
  lemma KeywordDocument()
    ensures var doc := Object(map[KeywordsSection := Array([Str("Tag_HighHeel")]), RangesSection := Array([])]);
      var loaded := ParseJson(EmptyDetector, doc);
      && loaded.0
      && loaded.1.keywordsRules == ["Tag_HighHeel"]
      && IsHighHeel(loaded.1, Some(FeetArmor({"Tag_HighHeel"}, None, 0)))
      && !IsHighHeel(loaded.1, Some(FeetArmor({"Tag_Boots"}, None, 0)))
  {
  }

  /** A rule for 0x800..0x8FF of "Mod.esp" matches both bounds and the inside. */
  lemma RangeDocumentInside()
    ensures var loaded := ParseJson(EmptyDetector, SingleRangeDocument("Mod.esp", 0x800, 0x8FF));
      && loaded.0
      && IsHighHeel(loaded.1, Some(FeetArmor({}, Some("Mod.esp"), 0x850)))
      && IsHighHeel(loaded.1, Some(FeetArmor({}, Some("Mod.esp"), 0x800)))
      && IsHighHeel(loaded.1, Some(FeetArmor({}, Some("Mod.esp"), 0x8FF)))
  {
    LoadedRangeClassifies(EmptyDetector, "Mod.esp", 0x800, 0x8FF, FeetArmor({}, Some("Mod.esp"), 0x850));
    LoadedRangeClassifies(EmptyDetector, "Mod.esp", 0x800, 0x8FF, FeetArmor({}, Some("Mod.esp"), 0x800));
    LoadedRangeClassifies(EmptyDetector, "Mod.esp", 0x800, 0x8FF, FeetArmor({}, Some("Mod.esp"), 0x8FF));
  }

  /** The same rule does not match outside the bounds, nor a file name differing in case. */
  lemma RangeDocumentOutside()
    ensures var loaded := ParseJson(EmptyDetector, SingleRangeDocument("Mod.esp", 0x800, 0x8FF));
      && !IsHighHeel(loaded.1, Some(FeetArmor({}, Some("Mod.esp"), 0x900)))
      && !IsHighHeel(loaded.1, Some(FeetArmor({}, Some("Mod.esp"), 0x7FF)))
      && !IsHighHeel(loaded.1, Some(FeetArmor({}, Some("mod.esp"), 0x850)))
  {
    LoadedRangeClassifies(EmptyDetector, "Mod.esp", 0x800, 0x8FF, FeetArmor({}, Some("Mod.esp"), 0x900));
    LoadedRangeClassifies(EmptyDetector, "Mod.esp", 0x800, 0x8FF, FeetArmor({}, Some("Mod.esp"), 0x7FF));
    LoadedRangeClassifies(EmptyDetector, "Mod.esp", 0x800, 0x8FF, FeetArmor({}, Some("mod.esp"), 0x850));
    assert "mod.esp"[0] != "Mod.esp"[0];
  }

  /** An entry without "Max" is skipped. */
  lemma MissingMaxSkipped()
    ensures DecodeFormIdRange(Object(map["Plugin" := Str("Mod.esp"), "Min" := Str("0x800")])).None?
  {
  }

  /** A skipped entry contributes nothing to the rule list. */
  lemma SkippedEntry(e: Json, rest: seq<Json>)
    requires DecodeFormIdRange(e).None?
    ensures RangeRules([e] + rest) == RangeRules(rest)
  {
  }

  /** A document whose only section is the given range entries. */
  function RangesOnly(elems: seq<Json>): Json {
    Object(map[RangesSection := Array(elems)])
  }

  /** Skipped entries ahead of a good one do not stop it from being loaded. */
  lemma GoodEntryAfterSkipped(a: Json, b: Json, c: Json, plugin: string, min: u32, max: u32)
    requires DecodeFormIdRange(a).None? && DecodeFormIdRange(b).None? && DecodeFormIdRange(c).None?
    requires min < max
    ensures ParseJson(EmptyDetector, RangesOnly([a, b, c, RangeEntry(plugin, min, max)]))
      == (true, Detector([], [FormIdRangeRule(plugin, min, max)]))
  {
    var good := RangeEntry(plugin, min, max);
    var elems := [a, b, c, good];
    assert SectionElems(RangesOnly(elems), RangesSection) == elems;
    assert SectionElems(RangesOnly(elems), KeywordsSection) == [];
    assert elems == [a] + ([b] + ([c] + [good]));
    SkippedEntry(c, [good]);
    SkippedEntry(b, [c] + [good]);
    SkippedEntry(a, [b] + ([c] + [good]));
    SingleEntryRules(plugin, min, max);
  }

  /**
    Skip and continue: an entry without "Max", an entry that is not an object and an entry
    with max below min are dropped, and the good entry after them is still loaded.
   */
  lemma MalformedEntriesSkipped()
    ensures var missingMax := Object(map["Plugin" := Str("Mod.esp"), "Min" := Str("0x800")]);
      var doc := RangesOnly([missingMax, Str("0x800"), RangeEntry("Mod.esp", 0x8FF, 0x800), RangeEntry("Other.esp", 0x10, 0x20)]);
      ParseJson(EmptyDetector, doc) == (true, Detector([], [FormIdRangeRule("Other.esp", 0x10, 0x20)]))
  {
    MissingMaxSkipped();
    EmptyOrReversedRangeSkipped("Mod.esp", 0x8FF, 0x800);
    GoodEntryAfterSkipped(Object(map["Plugin" := Str("Mod.esp"), "Min" := Str("0x800")]), Str("0x800"),
      RangeEntry("Mod.esp", 0x8FF, 0x800), "Other.esp", 0x10, 0x20);
  }

  /** A section that is present but not an array fails the load, yet the other section is still read. */
  lemma NonArraySectionFails()
    ensures var doc := Object(map[KeywordsSection := Str("Tag_HighHeel"), RangesSection := Array([RangeEntry("Mod.esp", 1, 2)])]);
      ParseJson(EmptyDetector, doc) == (false, Detector([], [FormIdRangeRule("Mod.esp", 1, 2)]))
  {
    var doc := Object(map[KeywordsSection := Str("Tag_HighHeel"), RangesSection := Array([RangeEntry("Mod.esp", 1, 2)])]);
    assert SectionElems(doc, RangesSection) == [RangeEntry("Mod.esp", 1, 2)];
    assert SectionElems(doc, KeywordsSection) == [];
    assert !SectionAccepted(doc, KeywordsSection);
    SingleEntryRules("Mod.esp", 1, 2);
  }

  /** A document that is not an object has no sections: it loads, with no rules, clearing the old ones. */
  lemma NonObjectDocumentLoadsNothing()
    ensures ParseJson(Detector(["Old"], []), Array([Str("Tag_HighHeel")])) == (true, EmptyDetector)
  {
  }

  /** Equip a plain shoe, then a high heel: the no-heel morph is gone at the end. */
  lemma EquipShoeThenHeel(s: MorphStore, player: RefHandle)
    ensures var shoe := FeetArmor({}, Some("Skyrim.esm"), 0x12E4D);
      var heel := FeetArmor({EP.KillerHeelsKeyword}, Some("Mod.esp"), 0x850);
      var events := [
        Some(EP.EquipEvent(Some(ObjectRef(player, true)), Some(ArmorForm(shoe)), true)),
        Some(EP.EquipEvent(Some(ObjectRef(player, true)), Some(ArmorForm(heel)), true))];
      && NoHeelSlot(player) in EP.AfterEvents(s, events[..1]).morphs
      && NoHeelSlot(player) !in EP.AfterEvents(s, events).morphs
  {
    var shoe := FeetArmor({}, Some("Skyrim.esm"), 0x12E4D);
    var heel := FeetArmor({EP.KillerHeelsKeyword}, Some("Mod.esp"), 0x850);
    var events := [
      Some(EP.EquipEvent(Some(ObjectRef(player, true)), Some(ArmorForm(shoe)), true)),
      Some(EP.EquipEvent(Some(ObjectRef(player, true)), Some(ArmorForm(heel)), true))];
    EP.LastEventDecides(s, events[..1], 0, player);
    EP.LastEventDecides(s, events, 1, player);
  }
}
