/**
  The host game's objects, reduced to the answers the plugin asks of them. Each field stands
  for one host query: `HasKeywordString` (membership in `keywords`), `GetFile(0)` and its
  `GetFilename` (`file`), `GetLocalFormID` (`localFormId`) and `HasPartOf` (`bipedSlots`).
 */
module GameForms {
  import opened Common

  /** Biped slot numbers as the game counts them (30 = head ... 61); feet is slot 37. */
  const FeetSlot: nat := 37

  /** An armour record (RE::TESObjectARMO). */
  datatype Armor = Armor(
    keywords: set<string>,
    file: Option<string>,
    localFormId: u32,
    bipedSlots: set<nat>)

  /** Identity of an in-game reference, used to address morphs. */
  type RefHandle = nat

  /** An object reference (RE::TESObjectREFR) and whether it casts to RE::Actor. */
  datatype ObjectRef = ObjectRef(handle: RefHandle, isActor: bool)

  /** What `TESForm::LookupByID` finds for an equipped base object. */
  datatype Form = ArmorForm(armor: Armor) | OtherForm
}
