/**
  The equip-event sink (EventProcessor). For every equip or unequip of feet armour by an actor
  it clears the current no-heel key, applies the no-heel morph unless a high heel was just put
  on, and asks for the model weight to be recomputed. It never stops the event's propagation.
 */
module EventProcessor {
  import opened Common
  import opened GameForms
  import opened BodyMorphManager
  import HighHeelDetector

  /** The keyword the event sink's own high-heel test looks for. */
  const KillerHeelsKeyword := "SLA_KillerHeels"

  /** RE::TESEquipEvent: who, what (already looked up by FormID), and equip or unequip. */
  datatype EquipEvent = EquipEvent(actor: Option<ObjectRef>, baseObject: Option<Form>, equipped: bool)

  /** RE::BSEventNotifyControl. */
  datatype NotifyControl = Continue | Stop

  /** What the sink returns to the event source, and the requests it sent on the way. */
  datatype Handled = Handled(control: NotifyControl, actions: seq<Action>)

  /**
    The free function `IsHighHeel` of the event sink: a single fixed keyword. It gives the
    same verdict as a rule store holding that one keyword and no ranges.
   */
  function IsHighHeel(armor: Option<Armor>): (r: bool)
    ensures r == HighHeelDetector.IsHighHeel(HighHeelDetector.Detector([KillerHeelsKeyword], []), armor)
  {
    armor.Some? && KillerHeelsKeyword in armor.value.keywords
  }

  /** An event the sink acts on: an actor equipping or unequipping feet armour. */
  predicate IsFeetArmorEvent(event: Option<EquipEvent>) {
    && event.Some?
    && event.value.actor.Some?
    && event.value.actor.value.isActor
    && event.value.baseObject.Some?
    && event.value.baseObject.value.ArmorForm?
    && FeetSlot in event.value.baseObject.value.armor.bipedSlots
  }

  /** Whether a feet-armour event ends with the no-heel morph applied. */
  predicate WantsNoHeel(event: Option<EquipEvent>)
    requires IsFeetArmorEvent(event)
  {
    !event.value.equipped || !IsHighHeel(Some(event.value.baseObject.value.armor))
  }

  /** `ProcessEvent`. */
  function ProcessEvent(event: Option<EquipEvent>): (r: Handled)
    ensures r.control == Continue
    ensures !IsFeetArmorEvent(event) ==> r.actions == []
    ensures IsFeetArmorEvent(event) ==>
      var actor := event.value.actor.value.handle;
      && |r.actions| >= 2
      && AllFor(r.actions, actor)
      && r.actions[0] == ClearMorph(actor, NoHeelMorph, MorphKey)
      && r.actions[|r.actions| - 1] == UpdateModelWeight(actor)
      && (SetsAMorph(r.actions) <==> WantsNoHeel(event))
      && (forall i :: 0 <= i < |r.actions| && !r.actions[i].UpdateModelWeight? ==>
            r.actions[i].morphName == NoHeelMorph && r.actions[i].morphKey == MorphKey)
  {
    match event
    case None => Handled(Continue, [])
    case Some(e) =>
      match e.actor
      case None => Handled(Continue, [])
      case Some(actorRefr) =>
        if !actorRefr.isActor then Handled(Continue, [])
        else
          match e.baseObject
          case None => Handled(Continue, [])
          case Some(form) =>
            if !form.ArmorForm? then Handled(Continue, [])
            else if FeetSlot !in form.armor.bipedSlots then Handled(Continue, [])
            else
              var a := actorRefr.handle;
              var clear := ClearMorph(a, NoHeelMorph, MorphKey);
              if !e.equipped || !IsHighHeel(Some(form.armor)) then
                var actions := [clear, SetMorph(a, NoHeelMorph, MorphKey, FullMagnitude), UpdateModelWeight(a)];
                assert actions[1].SetMorph?;
                Handled(Continue, actions)
              else
                Handled(Continue, [clear, UpdateModelWeight(a)])
  }

  /** The store one event leaves behind. */
  function AfterEvent(s: MorphStore, event: Option<EquipEvent>): MorphStore {
    Run(s, ProcessEvent(event).actions)
  }

  /**
    One event: the no-heel key of the event's actor ends present (at full magnitude) exactly
    when the morph is wanted; every other slot, the legacy key included, is left as it was.
   */
  lemma EventSettles(s: MorphStore, event: Option<EquipEvent>)
    ensures !IsFeetArmorEvent(event) ==> AfterEvent(s, event) == s
    ensures IsFeetArmorEvent(event) ==>
      var actor := event.value.actor.value.handle;
      var t := AfterEvent(s, event);
      && (NoHeelSlot(actor) in t.morphs <==> WantsNoHeel(event))
      && (NoHeelSlot(actor) in t.morphs ==> t.morphs[NoHeelSlot(actor)] == FullMagnitude)
      && t.morphs - {NoHeelSlot(actor)} == s.morphs - {NoHeelSlot(actor)}
      && t.stale == s.stale - {actor}
  {
    if IsFeetArmorEvent(event) {
      var actor := event.value.actor.value.handle;
      var acts := ProcessEvent(event).actions;
      var clear := ClearMorph(actor, NoHeelMorph, MorphKey);
      var weight := UpdateModelWeight(actor);
      var s1 := Apply(s, clear);
      if WantsNoHeel(event) {
        var set1 := SetMorph(actor, NoHeelMorph, MorphKey, FullMagnitude);
        assert acts == [clear] + ([set1] + ([weight] + []));
        RunCons(s, clear, [set1] + ([weight] + []));
        RunCons(s1, set1, [weight] + []);
        RunCons(Apply(s1, set1), weight, []);
      } else {
        assert acts == [clear] + ([weight] + []);
        RunCons(s, clear, [weight] + []);
        RunCons(s1, weight, []);
      }
    }
  }

  /** Unequipping feet armour always leaves the no-heel morph applied, whatever the item. */
  lemma UnequipAppliesNoHeel(s: MorphStore, event: Option<EquipEvent>)
    requires IsFeetArmorEvent(event) && !event.value.equipped
    ensures NoHeelSlot(event.value.actor.value.handle) in AfterEvent(s, event).morphs
  {
    EventSettles(s, event);
  }

  /**
    Unlike `UpdateHighHeelMorph`, the sink never clears the legacy key: a value left under it
    survives any event.
   */
  lemma LegacyKeySurvivesEvent(s: MorphStore, event: Option<EquipEvent>, actor: RefHandle)
    requires LegacySlot(actor) in s.morphs
    ensures LegacySlot(actor) in AfterEvent(s, event).morphs
    ensures AfterEvent(s, event).morphs[LegacySlot(actor)] == s.morphs[LegacySlot(actor)]
  {
    EventSettles(s, event);
    if IsFeetArmorEvent(event) {
      var other := event.value.actor.value.handle;
      AgreeAwayFrom(AfterEvent(s, event).morphs, s.morphs, NoHeelSlot(other), LegacySlot(actor));
    }
  }

  /** Events handled in the order the host delivers them. */
  function AfterEvents(s: MorphStore, events: seq<Option<EquipEvent>>): MorphStore
    decreases |events|
  {
    if |events| == 0 then s else AfterEvent(AfterEvents(s, events[..|events| - 1]), events[|events| - 1])
  }

  /** True of an event the sink acts on for the given actor. */
  predicate ConcernsActor(event: Option<EquipEvent>, actor: RefHandle) {
    IsFeetArmorEvent(event) && event.value.actor.value.handle == actor
  }

  /** Two maps that agree once `x` is removed agree on every other key. */
  lemma AgreeAwayFrom<K, V>(m1: map<K, V>, m2: map<K, V>, x: K, y: K)
    requires m1 - {x} == m2 - {x} && y != x
    ensures y in m1 <==> y in m2
    ensures y in m1 ==> m1[y] == m2[y]
  {
    assert y in m1 <==> y in m1 - {x};
    assert y in m2 <==> y in m2 - {x};
    if y in m1 {
      assert m1[y] == (m1 - {x})[y];
      assert m2[y] == (m2 - {x})[y];
    }
  }

  /** Events that do not concern an actor leave that actor's morphs alone. */
  lemma {:induction false} OtherEventsLeaveActorAlone(s: MorphStore, events: seq<Option<EquipEvent>>, actor: RefHandle)
    requires forall k :: 0 <= k < |events| ==> !ConcernsActor(events[k], actor)
    ensures (NoHeelSlot(actor) in AfterEvents(s, events).morphs) == (NoHeelSlot(actor) in s.morphs)
    ensures NoHeelSlot(actor) in s.morphs ==>
      AfterEvents(s, events).morphs[NoHeelSlot(actor)] == s.morphs[NoHeelSlot(actor)]
    decreases |events|
  {
    if |events| > 0 {
      var prefix := events[..|events| - 1];
      var last := events[|events| - 1];
      OtherEventsLeaveActorAlone(s, prefix, actor);
      var mid := AfterEvents(s, prefix);
      EventSettles(mid, last);
      if IsFeetArmorEvent(last) {
        var other := last.value.actor.value.handle;
        AgreeAwayFrom(AfterEvent(mid, last).morphs, mid.morphs, NoHeelSlot(other), NoHeelSlot(actor));
      }
    }
  }

  /**
    The last feet-armour event of an actor decides that actor's no-heel morph: present after an
    unequip or a non-heel equip, absent after a high-heel equip, whatever came before.
   */
  lemma {:induction false} LastEventDecides(s: MorphStore, events: seq<Option<EquipEvent>>, i: nat, actor: RefHandle)
    requires i < |events| && ConcernsActor(events[i], actor)
    requires forall k :: i < k < |events| ==> !ConcernsActor(events[k], actor)
    ensures NoHeelSlot(actor) in AfterEvents(s, events).morphs <==> WantsNoHeel(events[i])
    decreases |events|
  {
    var prefix := events[..|events| - 1];
    var last := events[|events| - 1];
    var mid := AfterEvents(s, prefix);
    EventSettles(mid, last);
    if i == |events| - 1 {
    } else {
      LastEventDecides(s, prefix, i, actor);
      assert !ConcernsActor(last, actor);
      if IsFeetArmorEvent(last) {
        var other := last.value.actor.value.handle;
        AgreeAwayFrom(AfterEvent(mid, last).morphs, mid.morphs, NoHeelSlot(other), NoHeelSlot(actor));
      }
    }
  }
}
