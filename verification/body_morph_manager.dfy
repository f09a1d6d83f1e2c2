/**
  The morph side of the plugin (BodyMorphManager). The body-morph interface of the host is an
  actuator: the plugin sends it ClearMorph / SetMorph / UpdateModelWeight requests. A handler
  is modelled as the list of requests it sends, and the actuator as a function that applies
  requests to a morph store.
 */
module BodyMorphManager {
  import opened Common
  import opened GameForms

  /** The morph the plugin drives, and the keys it has stored its value under. */
  const NoHeelMorph := "NoHeel"
  const LegacyMorphKey := "CH_AdeptivePantyhoseMorphKey"
  const MorphKey := "AdeptivePantyhoseMorphKey"

  /** The magnitude the morph is set to (1.0f in the source). */
  const FullMagnitude: real := 1.0

  /** One stored morph value: the actor, the morph's name and the key it is stored under. */
  datatype MorphSlot = MorphSlot(actor: RefHandle, morphName: string, morphKey: string)

  /**
    What the actuator holds: morph values, and the actors whose model weight has not been
    recomputed since their morphs last changed.
   */
  datatype MorphStore = MorphStore(morphs: map<MorphSlot, real>, stale: set<RefHandle>)

  /** A request to the body-morph interface. */
  datatype Action =
    | ClearMorph(actor: RefHandle, morphName: string, morphKey: string)
    | SetMorph(actor: RefHandle, morphName: string, morphKey: string, value: real)
    | UpdateModelWeight(actor: RefHandle)

  function LegacySlot(actor: RefHandle): MorphSlot {
    MorphSlot(actor, NoHeelMorph, LegacyMorphKey)
  }

  function NoHeelSlot(actor: RefHandle): MorphSlot {
    MorphSlot(actor, NoHeelMorph, MorphKey)
  }

  /** The actuator's response to one request. */
  function Apply(s: MorphStore, a: Action): MorphStore {
    match a
    case ClearMorph(actor, name, key) =>
      MorphStore(s.morphs - {MorphSlot(actor, name, key)}, s.stale + {actor})
    case SetMorph(actor, name, key, value) =>
      MorphStore(s.morphs[MorphSlot(actor, name, key) := value], s.stale + {actor})
    case UpdateModelWeight(actor) =>
      MorphStore(s.morphs, s.stale - {actor})
  }

  /** The actuator's response to requests sent in order. */
  function Run(s: MorphStore, actions: seq<Action>): MorphStore
    decreases |actions|
  {
    if |actions| == 0 then s else Run(Apply(s, actions[0]), actions[1..])
  }

  lemma {:induction false} RunAppend(s: MorphStore, a: seq<Action>, b: seq<Action>)
    ensures Run(s, a + b) == Run(Run(s, a), b)
    decreases |a|
  {
    if |a| == 0 {
      assert a + b == b;
    } else {
      assert (a + b)[0] == a[0];
      assert (a + b)[1..] == a[1..] + b;
      RunAppend(Apply(s, a[0]), a[1..], b);
    }
  }

  /** True of requests that only address the given actor. */
  predicate AllFor(actions: seq<Action>, actor: RefHandle) {
    forall i :: 0 <= i < |actions| ==> actions[i].actor == actor
  }

  /** True when no SetMorph comes before a ClearMorph. */
  predicate ClearsBeforeSets(actions: seq<Action>) {
    forall i, j :: 0 <= i < j < |actions| && actions[j].ClearMorph? ==> !actions[i].SetMorph?
  }

  /** True when some request sets a morph. */
  predicate SetsAMorph(actions: seq<Action>) {
    exists i :: 0 <= i < |actions| && actions[i].SetMorph?
  }

  /**
    `UpdateHighHeelMorph`: the requests sent for an actor (None: null actor) when the
    interface is or is not available. Both keys are cleared, the current key is set again
    only for footwear that is not a high heel, and the model weight is recomputed last.
   */
  function UpdateHighHeelMorph(actor: Option<RefHandle>, interfaceAvailable: bool, isHighHeel: bool)
    : (actions: seq<Action>)
    ensures actor.None? || !interfaceAvailable ==> actions == []
    ensures actor.Some? && interfaceAvailable ==>
      && |actions| >= 3
      && AllFor(actions, actor.value)
      && actions[0] == ClearMorph(actor.value, NoHeelMorph, LegacyMorphKey)
      && actions[1] == ClearMorph(actor.value, NoHeelMorph, MorphKey)
      && actions[|actions| - 1] == UpdateModelWeight(actor.value)
      && ClearsBeforeSets(actions)
      && (SetsAMorph(actions) <==> !isHighHeel)
  {
    match actor
    case None => []
    case Some(a) =>
      if !interfaceAvailable then []
      else
        var clears := [ClearMorph(a, NoHeelMorph, LegacyMorphKey), ClearMorph(a, NoHeelMorph, MorphKey)];
        if isHighHeel then clears + [UpdateModelWeight(a)]
        else
          var actions := clears + [SetMorph(a, NoHeelMorph, MorphKey, FullMagnitude), UpdateModelWeight(a)];
          assert actions[2].SetMorph?;
          actions
  }

  lemma RunCons(s: MorphStore, a: Action, rest: seq<Action>)
    ensures Run(s, [a] + rest) == Run(Apply(s, a), rest)
  {
  }

  /** The store an update leaves behind. */
  function UpdatedStore(s: MorphStore, actor: RefHandle, isHighHeel: bool): MorphStore {
    var cleared := s.morphs - {LegacySlot(actor), NoHeelSlot(actor)};
    MorphStore(
      if isHighHeel then cleared else cleared[NoHeelSlot(actor) := FullMagnitude],
      s.stale - {actor})
  }

  /** The store an update leaves, stated slot by slot. */
  ghost predicate SettledAfterUpdate(before: MorphStore, after: MorphStore, actor: RefHandle, isHighHeel: bool) {
    && LegacySlot(actor) !in after.morphs
    && (NoHeelSlot(actor) in after.morphs <==> !isHighHeel)
    && (NoHeelSlot(actor) in after.morphs ==> after.morphs[NoHeelSlot(actor)] == FullMagnitude)
    && after.morphs.Keys - {NoHeelSlot(actor)} == before.morphs.Keys - {LegacySlot(actor), NoHeelSlot(actor)}
    && (forall slot :: slot in after.morphs && slot != NoHeelSlot(actor) ==>
          slot in before.morphs && after.morphs[slot] == before.morphs[slot])
    && after.stale == before.stale - {actor}
  }

  /** Running an update's requests yields the updated store. */
  lemma UpdateRuns(s: MorphStore, actor: RefHandle, isHighHeel: bool)
    ensures Run(s, UpdateHighHeelMorph(Some(actor), true, isHighHeel)) == UpdatedStore(s, actor, isHighHeel)
  {
    var legacy := ClearMorph(actor, NoHeelMorph, LegacyMorphKey);
    var current := ClearMorph(actor, NoHeelMorph, MorphKey);
    var weight := UpdateModelWeight(actor);
    var actions := UpdateHighHeelMorph(Some(actor), true, isHighHeel);
    var clears, rest := actions[..2], actions[2..];
    assert clears == [legacy] + ([current] + []);
    assert actions == clears + rest;
    RunAppend(s, clears, rest);
    RunCons(s, legacy, [current] + []);
    RunCons(Apply(s, legacy), current, []);
    var s2 := Apply(Apply(s, legacy), current);
    assert s2.morphs == s.morphs - {LegacySlot(actor), NoHeelSlot(actor)};
    if isHighHeel {
      assert rest == [weight] + [];
      RunCons(s2, weight, []);
    } else {
      var set1 := SetMorph(actor, NoHeelMorph, MorphKey, FullMagnitude);
      assert rest == [set1] + ([weight] + []);
      RunCons(s2, set1, [weight] + []);
      RunCons(Apply(s2, set1), weight, []);
    }
  }

  /** The updated store differs from the old one only in the actor's two keys and weight state. */
  lemma UpdatedStoreSettled(s: MorphStore, actor: RefHandle, isHighHeel: bool)
    ensures SettledAfterUpdate(s, UpdatedStore(s, actor, isHighHeel), actor, isHighHeel)
  {
  }

  /**
    Convergence: whatever the store held before, an update leaves the legacy key absent, the
    current key present (at full magnitude) exactly for non-heels, every other morph as it was,
    and the actor's model weight up to date.
   */
  lemma UpdateSettles(s: MorphStore, actor: RefHandle, isHighHeel: bool)
    ensures Run(s, UpdateHighHeelMorph(Some(actor), true, isHighHeel)) == UpdatedStore(s, actor, isHighHeel)
    ensures SettledAfterUpdate(s, Run(s, UpdateHighHeelMorph(Some(actor), true, isHighHeel)), actor, isHighHeel)
  {
    UpdateRuns(s, actor, isHighHeel);
    UpdatedStoreSettled(s, actor, isHighHeel);
  }

  /** The store after an update depends only on the verdict and on the slots it does not touch. */
  lemma UpdateForgetsPriorState(s1: MorphStore, s2: MorphStore, actor: RefHandle, isHighHeel: bool)
    requires s1.morphs - {LegacySlot(actor), NoHeelSlot(actor)} == s2.morphs - {LegacySlot(actor), NoHeelSlot(actor)}
    requires s1.stale - {actor} == s2.stale - {actor}
    ensures var acts := UpdateHighHeelMorph(Some(actor), true, isHighHeel);
      Run(s1, acts) == Run(s2, acts)
  {
    UpdateSettles(s1, actor, isHighHeel);
    UpdateSettles(s2, actor, isHighHeel);
  }

  /** Idempotence: two identical updates leave the same store as one. */
  lemma UpdateIsIdempotent(s: MorphStore, actor: Option<RefHandle>, interfaceAvailable: bool, isHighHeel: bool)
    ensures var acts := UpdateHighHeelMorph(actor, interfaceAvailable, isHighHeel);
      Run(Run(s, acts), acts) == Run(s, acts)
  {
    var acts := UpdateHighHeelMorph(actor, interfaceAvailable, isHighHeel);
    if actor.Some? && interfaceAvailable {
      var once := Run(s, acts);
      UpdateSettles(s, actor.value, isHighHeel);
      UpdateSettles(once, actor.value, isHighHeel);
      var twice := Run(once, acts);
      assert twice.morphs == once.morphs;
    } else {
      assert acts == [];
    }
  }
}
