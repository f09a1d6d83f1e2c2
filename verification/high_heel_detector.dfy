/**
  The footwear classifier and its rule loader (HighHeelDetector). The loader turns a parsed
  rule document into two flat rule lists; the classifier answers "is this armour a high heel?"
  from those lists. Loading validates entry by entry: a bad entry is skipped, the load goes on.
 */
module HighHeelDetector {
  import opened Common
  import opened Json
  import opened Stoul
  import opened GameForms

  const KeywordsSection := "ByKeywords"
  const RangesSection := "ByFormIDRange"

  /** One `ByFormIDRange` rule: items of `plugin` whose local FormID lies in [min, max]. */
  datatype FormIdRangeRule = FormIdRangeRule(plugin: string, min: u32, max: u32)

  /** The detector's rule store: `keywordsRules_` and `formIDRangeRules_`. */
  datatype Detector = Detector(keywordsRules: seq<string>, formIdRangeRules: seq<FormIdRangeRule>)

  /** The store the singleton starts with. */
  const EmptyDetector := Detector([], [])

  /** Every stored range rule is a proper range. */
  predicate RangesWellFormed(d: Detector) {
    forall i :: 0 <= i < |d.formIdRangeRules| ==> d.formIdRangeRules[i].min < d.formIdRangeRules[i].max
  }

  /** Where `Init` gets its document from; the file read and the text parse are the host's. */
  datatype DocumentSource = Unreadable | Unparsable | Parsed(json: Json)

  // ---------------------------------------------------------------------------------------
  // Range entries

  /** The shape test made before an entry is read: an object with all three members. */
  predicate IsValidFormIdRangeRulesJson(e: Json) {
    Contains(e, "Plugin") && Contains(e, "Min") && Contains(e, "Max")
  }

  /**
    Reads one `ByFormIDRange` entry; None means the entry is skipped. The library throws for
    a member that is not a string and stoul throws for a bad bound; both are caught per entry.
   */
  function DecodeFormIdRange(e: Json): (r: Option<FormIdRangeRule>)
    ensures !IsValidFormIdRangeRulesJson(e) ==> r.None?
    ensures r.Some? ==> r.value.min < r.value.max
    ensures r.Some? ==> e.members["Plugin"] == Str(r.value.plugin)
    ensures r.Some? ==> e.members["Min"].Str? && Stoul16(e.members["Min"].s) == Some(r.value.min)
    ensures r.Some? ==> e.members["Max"].Str? && Stoul16(e.members["Max"].s) == Some(r.value.max)
    ensures IsValidFormIdRangeRulesJson(e) && e.members["Plugin"].Str?
      && e.members["Min"].Str? && e.members["Max"].Str?
      && Stoul16(e.members["Min"].s).Some? && Stoul16(e.members["Max"].s).Some?
      && Stoul16(e.members["Min"].s).value < Stoul16(e.members["Max"].s).value
      ==> r.Some?
  {
    if !IsValidFormIdRangeRulesJson(e) then None
    else
      match (e.members["Plugin"], e.members["Min"], e.members["Max"])
      case (Str(plugin), Str(minText), Str(maxText)) =>
        (match (Stoul16(minText), Stoul16(maxText))
         case (Some(min), Some(max)) =>
           if max <= min then None else Some(FormIdRangeRule(plugin, min, max))
         case _ => None)
      case _ => None
  }

  /** The entry a rule file holds for one range, with bounds written as `0x...`. */
  function RangeEntry(plugin: string, min: u32, max: u32): Json {
    Object(map["Plugin" := Str(plugin), "Min" := Str(FormatHex(min)), "Max" := Str(FormatHex(max))])
  }

  /** Round trip: a well-formed range written to a rule file is read back unchanged. */
  lemma DecodeRangeEntry(plugin: string, min: u32, max: u32)
    requires min < max
    ensures DecodeFormIdRange(RangeEntry(plugin, min, max)) == Some(FormIdRangeRule(plugin, min, max))
  {
    FormatHexRoundTrip(min, []);
    FormatHexRoundTrip(max, []);
    assert FormatHex(min) + [] == FormatHex(min);
    assert FormatHex(max) + [] == FormatHex(max);
  }

  /** An array holding one well-formed entry loads exactly its rule. */
  lemma SingleEntryRules(plugin: string, min: u32, max: u32)
    requires min < max
    ensures RangeRules([RangeEntry(plugin, min, max)]) == [FormIdRangeRule(plugin, min, max)]
  {
    assert [RangeEntry(plugin, min, max)][1..] == [];
    DecodeRangeEntry(plugin, min, max);
  }

  /** A range entry whose bounds are in the wrong order, or equal, is skipped. */
  lemma EmptyOrReversedRangeSkipped(plugin: string, min: u32, max: u32)
    requires max <= min
    ensures DecodeFormIdRange(RangeEntry(plugin, min, max)).None?
  {
    FormatHexRoundTrip(min, []);
    FormatHexRoundTrip(max, []);
    assert FormatHex(min) + [] == FormatHex(min);
    assert FormatHex(max) + [] == FormatHex(max);
  }

  /** A range entry whose member has the wrong type or whose bound is not hexadecimal is skipped. */
  lemma MalformedRangeMembersSkipped(e: Json)
    requires IsValidFormIdRangeRulesJson(e)
    requires || !e.members["Plugin"].Str?
             || !e.members["Min"].Str?
             || !e.members["Max"].Str?
             || Stoul16(e.members["Min"].s).None?
             || Stoul16(e.members["Max"].s).None?
    ensures DecodeFormIdRange(e).None?
  {
  }

  // ---------------------------------------------------------------------------------------
  // Sections

  /** The keyword rules an array yields: its string elements, in document order. */
  function KeywordRules(elems: seq<Json>): (r: seq<string>)
    ensures |r| <= |elems|
    ensures forall k :: k in r <==> Str(k) in elems
  {
    if |elems| == 0 then []
    else (if elems[0].Str? then [elems[0].s] else []) + KeywordRules(elems[1..])
  }

  /** The range rules an array yields: its decodable entries, in document order. */
  function RangeRules(elems: seq<Json>): (r: seq<FormIdRangeRule>)
    ensures |r| <= |elems|
    ensures forall i :: 0 <= i < |r| ==> r[i].min < r[i].max
  {
    if |elems| == 0 then []
    else
      match DecodeFormIdRange(elems[0])
      case Some(rule) => [rule] + RangeRules(elems[1..])
      case None => RangeRules(elems[1..])
  }

  /** A rule is loaded from a run of entries exactly when one of the entries decodes to it. */
  lemma {:induction false} RangeRulesMembers(elems: seq<Json>, rule: FormIdRangeRule)
    ensures rule in RangeRules(elems) <==> exists e :: e in elems && DecodeFormIdRange(e) == Some(rule)
    decreases |elems|
  {
    if |elems| > 0 {
      var head, tail := elems[0], elems[1..];
      assert elems == [head] + tail;
      RangeRulesMembers(tail, rule);
      if rule in RangeRules(elems) {
        if DecodeFormIdRange(head) != Some(rule) {
          assert rule in RangeRules(tail);
          var e :| e in tail && DecodeFormIdRange(e) == Some(rule);
          assert e in elems;
        }
      } else {
        forall e | e in elems
          ensures DecodeFormIdRange(e) != Some(rule)
        {
          if e != head {
            assert e in tail;
          }
        }
      }
    }
  }

  /** Document order: the rules of two consecutive runs of elements are those of each, in turn. */
  lemma {:induction false} KeywordRulesAppend(a: seq<Json>, b: seq<Json>)
    ensures KeywordRules(a + b) == KeywordRules(a) + KeywordRules(b)
    decreases |a|
  {
    if |a| == 0 {
      assert a + b == b;
    } else {
      assert (a + b)[1..] == a[1..] + b;
      KeywordRulesAppend(a[1..], b);
    }
  }

  lemma {:induction false} RangeRulesAppend(a: seq<Json>, b: seq<Json>)
    ensures RangeRules(a + b) == RangeRules(a) + RangeRules(b)
    decreases |a|
  {
    if |a| == 0 {
      assert a + b == b;
    } else {
      assert (a + b)[1..] == a[1..] + b;
      assert (a + b)[0] == a[0];
      RangeRulesAppend(a[1..], b);
    }
  }

  /** A section is acceptable when it is absent or is an array. */
  predicate SectionAccepted(j: Json, name: string) {
    !Contains(j, name) || j.members[name].Array?
  }

  /** The elements a section contributes: none when it is absent or not an array. */
  function SectionElems(j: Json, name: string): seq<Json> {
    if Contains(j, name) && j.members[name].Array? then j.members[name].elems else []
  }

  /** `ParseKeywords`: appends the section's string keywords to the store. */
  function ParseKeywords(d: Detector, j: Json): (r: (bool, Detector))
    ensures r.0 <==> SectionAccepted(j, KeywordsSection)
    ensures !r.0 ==> r.1 == d
    ensures r.1.formIdRangeRules == d.formIdRangeRules
    ensures r.1.keywordsRules == d.keywordsRules + KeywordRules(SectionElems(j, KeywordsSection))
  {
    if !Contains(j, KeywordsSection) then (true, d)
    else if !j.members[KeywordsSection].Array? then (false, d)
    else (true, d.(keywordsRules := d.keywordsRules + KeywordRules(j.members[KeywordsSection].elems)))
  }

  /** `ParseFormIDRange`: appends the section's well-formed range rules to the store. */
  function ParseFormIdRange(d: Detector, j: Json): (r: (bool, Detector))
    ensures r.0 <==> SectionAccepted(j, RangesSection)
    ensures !r.0 ==> r.1 == d
    ensures r.1.keywordsRules == d.keywordsRules
    ensures RangesWellFormed(d) ==> RangesWellFormed(r.1)
    ensures r.1.formIdRangeRules == d.formIdRangeRules + RangeRules(SectionElems(j, RangesSection))
  {
    if !Contains(j, RangesSection) then (true, d)
    else if !j.members[RangesSection].Array? then (false, d)
    else (true, d.(formIdRangeRules := d.formIdRangeRules + RangeRules(j.members[RangesSection].elems)))
  }

  /**
    `ParseJson`: empties the store, then loads both sections; both are always read, and the
    load succeeds when both sections are acceptable.
   */
  function ParseJson(d: Detector, j: Json): (r: (bool, Detector))
    ensures r.0 <==> SectionAccepted(j, KeywordsSection) && SectionAccepted(j, RangesSection)
    ensures r.1.keywordsRules == KeywordRules(SectionElems(j, KeywordsSection))
    ensures r.1.formIdRangeRules == RangeRules(SectionElems(j, RangesSection))
    ensures RangesWellFormed(r.1)
  {
    var cleared := EmptyDetector;
    var (keywordsParsed, afterKeywords) := ParseKeywords(cleared, j);
    var (rangesParsed, afterRanges) := ParseFormIdRange(afterKeywords, j);
    (keywordsParsed && rangesParsed, afterRanges)
  }

  /**
    `Init`: an unreadable or unparsable file fails and leaves the store as it was; a parsed
    document replaces the store and succeeds exactly when both of its sections are acceptable.
   */
  function Init(d: Detector, source: DocumentSource): (r: (bool, Detector))
    ensures !source.Parsed? ==> r == (false, d)
    ensures source.Parsed? ==>
      (r.0 <==> SectionAccepted(source.json, KeywordsSection) && SectionAccepted(source.json, RangesSection))
    ensures source.Parsed? ==> r.1 == ParseJson(EmptyDetector, source.json).1
    ensures RangesWellFormed(d) ==> RangesWellFormed(r.1)
  {
    match source
    case Unreadable => (false, d)
    case Unparsable => (false, d)
    case Parsed(j) => ParseJson(d, j)
  }

  /** Loading the same document twice leaves the same store as loading it once. */
  lemma ReloadIsIdempotent(d: Detector, source: DocumentSource)
    ensures Init(Init(d, source).1, source) == Init(d, source)
  {
    match source
    case Unreadable =>
    case Unparsable =>
    case Parsed(j) =>
      var once := ParseJson(d, j);
      var twice := ParseJson(once.1, j);
      assert twice.1 == once.1;
  }

  // ---------------------------------------------------------------------------------------
  // Classification

  /** One range rule matches a file name and local FormID: exact name, inclusive bounds. */
  predicate RangeMatches(rule: FormIdRangeRule, fileName: string, localFormId: u32) {
    fileName == rule.plugin && rule.min <= localFormId && localFormId <= rule.max
  }

  /** The keyword loop of `IsHighHeel`: some stored keyword is on the armour. */
  function AnyKeywordMatches(keywords: seq<string>, armor: Armor): (r: bool)
    ensures r <==> exists i :: 0 <= i < |keywords| && keywords[i] in armor.keywords
  {
    if |keywords| == 0 then false
    else if keywords[0] in armor.keywords then true
    else AnyKeywordMatches(keywords[1..], armor)
  }

  /** The range loop of `IsHighHeel`: some stored range rule matches. */
  function AnyRangeMatches(rules: seq<FormIdRangeRule>, fileName: string, localFormId: u32): (r: bool)
    ensures r <==> exists i :: 0 <= i < |rules| && RangeMatches(rules[i], fileName, localFormId)
  {
    if |rules| == 0 then false
    else if RangeMatches(rules[0], fileName, localFormId) then true
    else AnyRangeMatches(rules[1..], fileName, localFormId)
  }

  /** `IsHighHeel`: the verdict for a possibly-null armour. */
  function IsHighHeel(d: Detector, armor: Option<Armor>): (r: bool)
    ensures armor.None? ==> !r
    ensures armor.Some? && (exists k :: k in d.keywordsRules && k in armor.value.keywords) ==> r
    ensures armor.Some? && armor.value.file.None? ==>
      (r <==> exists k :: k in d.keywordsRules && k in armor.value.keywords)
    ensures armor.Some? && armor.value.file.Some? && !(exists k :: k in d.keywordsRules && k in armor.value.keywords) ==>
      (r <==> exists rule :: rule in d.formIdRangeRules && RangeMatches(rule, armor.value.file.value, armor.value.localFormId))
  {
    match armor
    case None => false
    case Some(a) =>
      if AnyKeywordMatches(d.keywordsRules, a) then true
      else
        match a.file
        case None => false
        case Some(fileName) => AnyRangeMatches(d.formIdRangeRules, fileName, a.localFormId)
  }

  /** A document holding one range rule and nothing else. */
  function SingleRangeDocument(plugin: string, min: u32, max: u32): Json {
    Object(map[RangesSection := Array([RangeEntry(plugin, min, max)])])
  }

  /**
    End to end: once a document with one range rule is loaded, an armour from that plugin is
    a high heel exactly when its local FormID lies within the bounds, both included; an armour
    from any other file is not.
   */
  lemma LoadedRangeClassifies(d: Detector, plugin: string, min: u32, max: u32, armor: Armor)
    requires min < max
    requires armor.file.Some?
    ensures var loaded := ParseJson(d, SingleRangeDocument(plugin, min, max));
      && loaded.0
      && (IsHighHeel(loaded.1, Some(armor)) <==>
            armor.file.value == plugin && min <= armor.localFormId <= max)
  {
    var doc := SingleRangeDocument(plugin, min, max);
    assert SectionElems(doc, RangesSection) == [RangeEntry(plugin, min, max)];
    assert SectionElems(doc, KeywordsSection) == [];
    SingleEntryRules(plugin, min, max);
    var rule := FormIdRangeRule(plugin, min, max);
    assert ParseJson(d, doc).1 == Detector([], [rule]);
    assert RangeMatches(rule, armor.file.value, armor.localFormId) <==>
      armor.file.value == plugin && min <= armor.localFormId <= max;
  }
}
