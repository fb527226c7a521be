/** Label documents by other writers: every spelling the reader accepts, and what it makes of any text in them. */
module LabelSpellings {
  import opened Wrappers
  import opened Text
  import opened Labeling
  import opened LabelXml

  // ---- Documents

  /** How a writer may put it: the outer element, the attribute for the policy's OID, the element for a category's
      value, and the creation time as an attribute or as an element. */
  datatype Spelling = Spelling(wrapper: Tag, oidKey: AttributeKey, valueTag: Tag, timeTag: Option<Tag>)

  predicate Known(sp: Spelling) {
    && sp.wrapper in {ConfidentialityLabel, OriginatorConfidentialityLabel, MetadataConfidentialityLabel}
    && sp.oidKey in {Url, Uri} && sp.valueTag in {GenericValue, GenericValues}
    && (sp.timeTag.Some? ==> sp.timeTag.value in {CreationDateTime, CreationTime})
  }

  datatype RawCategory = RawCategory(tagName: string, kind: string, values: seq<string>)

  /** The texts of a document without alternative labels. */
  datatype Document = Document(
    policy: string,
    oid: Option<string>,
    classification: string,
    privacyMark: Option<string>,
    colour: Option<string>,
    markingData: Option<string>,
    categories: seq<RawCategory>,
    created: Option<string>,
    review: Option<string>)

  function ValuesIn(tag: Tag, values: seq<string>): seq<XmlEvent> {
    if values == [] then [] else ValuesIn(tag, values[..|values| - 1]) + TextElement(tag, values[|values| - 1])
  }

  function CategoryIn(c: RawCategory, sp: Spelling): seq<XmlEvent> {
    [Start(Category, [Attribute(TagName, c.tagName), Attribute(Type, c.kind)])] + ValuesIn(sp.valueTag, c.values)
    + [End(Category)]
  }

  function CategoriesIn(cs: seq<RawCategory>, sp: Spelling): seq<XmlEvent> {
    if cs == [] then [] else CategoriesIn(cs[..|cs| - 1], sp) + CategoryIn(cs[|cs| - 1], sp)
  }

  function PolicyIn(d: Document, sp: Spelling): seq<XmlEvent> {
    [Start(PolicyIdentifier, if d.oid.Some? then [Attribute(sp.oidKey, d.oid.value)] else []), TextEvent(d.policy),
     End(PolicyIdentifier)]
  }

  function InformationIn(d: Document, sp: Spelling): seq<XmlEvent> {
    [Start(ConfidentialityInformation, [])] + PolicyIn(d, sp) + TextElement(Classification, d.classification)
    + OptionalElement(PrivacyMark, d.privacyMark) + OptionalElement(Colour, d.colour)
    + OptionalElement(MarkingData, d.markingData)
    + CategoriesIn(d.categories, sp) + [End(ConfidentialityInformation)]
  }

  function RootIn(d: Document, sp: Spelling): seq<Attribute> {
    (if d.created.Some? && sp.timeTag.None? then [Attribute(CreationTimeKey, d.created.value)] else [])
    + (if d.review.Some? then [Attribute(ReviewDateTimeKey, d.review.value)] else [])
  }

  function TimeIn(d: Document, sp: Spelling): seq<XmlEvent> {
    if sp.timeTag.None? then [] else OptionalElement(sp.timeTag.value, d.created)
  }

  function Spelled(d: Document, sp: Spelling): seq<XmlEvent> {
    [Decl, Start(sp.wrapper, RootIn(d, sp))] + InformationIn(d, sp) + TimeIn(d, sp) + [End(sp.wrapper)]
  }

  // ---- What a document means

  /** A time as an attribute is taken as it stands, as an element it is trimmed, and a blank element is none. */
  function CreatedAt(d: Document, sp: Spelling, clock: Clock): Result<Option<Instant>, LabelError> {
    match d.created
    case None => Ok(None)
    case Some(text) =>
      if sp.timeTag.None? then TimeOf(text, clock)
      else if XmlTrim(text) == "" then Ok(None)
      else TimeOf(XmlTrim(text), clock)
  }

  function TimeOf(text: string, clock: Clock): Result<Option<Instant>, LabelError> {
    match clock.parse(text)
    case None => Err(Parse)
    case Some(t) => Ok(Some(t))
  }

  function ReviewAt(d: Document, clock: Clock): Result<Option<Instant>, LabelError> {
    match d.review
    case None => Ok(None)
    case Some(text) => TimeOf(text, clock)
  }

  function KindOf(text: string): CategoryType {
    if EqIgnoreCase(text, "RESTRICTIVE") then Restrictive
    else if EqIgnoreCase(text, "INFORMATIVE") then Informative
    else Permissive
  }

  function CategoryOf(c: RawCategory): CategoryMarking {
    CategoryMarking(c.tagName, KindOf(c.kind), ReadValues(c.values))
  }

  function CategoriesOf(cs: seq<RawCategory>): seq<CategoryMarking> {
    seq(|cs|, i requires 0 <= i < |cs| => CategoryOf(cs[i]))
  }

  /** A time that cannot be read, a missing classification or one that is no level's name is an error; everything else
      has a meaning: texts trimmed, blank ones as if they were not there, the NATO policy where none is named. */
  function Meaning(d: Document, sp: Spelling, clock: Clock): Result<Label, LabelError> {
    var created, review := CreatedAt(d, sp, clock), ReviewAt(d, clock);
    if created.Err? || review.Err? then Err(Parse)
    else if XmlTrim(d.classification) == "" then Err(Validation)
    else
      match ParseClassification(XmlTrim(d.classification))
      case Err(e) => Err(e)
      case Ok(level) =>
        Ok(Label(LabelPolicy(OrNato(Over("", d.policy)), d.oid, ALL_LEVELS), level,
                 OverOption(None, d.privacyMark), OverOption(None, d.colour), OverOption(None, d.markingData),
                 CategoriesOf(d.categories), [], created.value, review.value))
  }

  // ---- Through the reader

  lemma StopsAtError(s: ReaderState, a: seq<XmlEvent>, b: seq<XmlEvent>, clock: Clock)
    requires Through(s, a, clock).Err?
    ensures Through(s, a + b, clock) == Through(s, a, clock)
  {
    hide Received, ReadAll;
    ReceivedConcat(a, b);
    ReadAllConcat(s, Received(a), Received(b), clock);
  }

  lemma {:induction false} ThroughValuesIn(s: ReaderState, tag: Tag, values: seq<string>, clock: Clock)
    requires s.inCategory && tag in {GenericValue, GenericValues}
    ensures Through(s, ValuesIn(tag, values), clock) ==
      Ok(s.(categoryValues := s.categoryValues + ReadValues(values),
            element := if values == [] then s.element else None))
  {
    hide XmlTrim, Through;
    if values == [] {
      NothingRead(s, clock);
      assert s.categoryValues + [] == s.categoryValues;
    } else {
      var before, v := values[..|values| - 1], values[|values| - 1];
      ThroughValuesIn(s, tag, before, clock);
      var t := s.(categoryValues := s.categoryValues + ReadValues(before),
                  element := if before == [] then s.element else None);
      ThroughConcat(s, ValuesIn(tag, before), TextElement(tag, v), clock, t);
      ThroughElement(t, Start(tag, []), v, End(tag), clock, t.(element := Some(tag)));
      if XmlTrim(v) != "" {
        assert s.categoryValues + ReadValues(before) + [XmlTrim(v)] == s.categoryValues + ReadValues(values);
      }
    }
  }

  function AfterCategory(s: ReaderState, c: RawCategory): ReaderState {
    s.(categories := s.categories + [CategoryOf(c)], categoryTag := c.tagName, categoryType := KindOf(c.kind),
       categoryValues := ReadValues(c.values), inCategory := false, element := None)
  }

  function AfterCategories(s: ReaderState, cs: seq<RawCategory>): ReaderState {
    if cs == [] then s else AfterCategory(AfterCategories(s, cs[..|cs| - 1]), cs[|cs| - 1])
  }

  lemma ThroughCategoryIn(s: ReaderState, c: RawCategory, sp: Spelling, clock: Clock)
    requires Known(sp)
    ensures Through(s, CategoryIn(c, sp), clock) == Ok(AfterCategory(s, c))
  {
    hide XmlTrim, Through, ParseType, EqIgnoreCase;
    var tag, kind := Attribute(TagName, c.tagName), Attribute(Type, c.kind);
    var start := Start(Category, [tag, kind]);
    KindIsParsed(c.kind);
    var inside := s.(element := Some(Category), inCategory := true, categoryValues := [], categoryTag := c.tagName,
                     categoryType := KindOf(c.kind));
    TwoCategoryAttributes(s.(element := Some(Category), inCategory := true, categoryValues := []), tag, kind);
    ThroughOne(s, start, clock);
    assert Through(s, [start], clock) == Ok(inside);
    ThroughValuesIn(inside, sp.valueTag, c.values, clock);
    ThroughConcat(s, [start], ValuesIn(sp.valueTag, c.values), clock, inside);
    var filled := inside.(categoryValues := inside.categoryValues + ReadValues(c.values),
                          element := if c.values == [] then inside.element else None);
    assert filled.categoryValues == ReadValues(c.values);
    ThroughConcat(s, [start] + ValuesIn(sp.valueTag, c.values), [End(Category)], clock, filled);
    ThroughOne(filled, End(Category), clock);
  }

  lemma KindIsParsed(text: string)
    ensures ParseType(text) == KindOf(text)
  {
    hide EqIgnoreCase;
  }

  lemma {:induction false} ThroughCategoriesIn(s: ReaderState, cs: seq<RawCategory>, sp: Spelling, clock: Clock)
    requires Known(sp)
    ensures Through(s, CategoriesIn(cs, sp), clock) == Ok(AfterCategories(s, cs))
  {
    hide Through, CategoryIn, AfterCategory, Known;
    if cs == [] {
      NothingRead(s, clock);
    } else {
      var before := cs[..|cs| - 1];
      ThroughCategoriesIn(s, before, sp, clock);
      ThroughConcat(s, CategoriesIn(before, sp), CategoryIn(cs[|cs| - 1], sp), clock, AfterCategories(s, before));
      ThroughCategoryIn(AfterCategories(s, before), cs[|cs| - 1], sp, clock);
    }
  }

  lemma {:induction false} AfterCategoriesIs(s: ReaderState, cs: seq<RawCategory>)
    ensures var t := AfterCategories(s, cs);
      && t.categories == s.categories + CategoriesOf(cs)
      && t == s.(categories := t.categories, categoryTag := t.categoryTag, categoryType := t.categoryType,
                 categoryValues := t.categoryValues, inCategory := t.inCategory, element := t.element)
  {
    hide CategoryOf, KindOf;
    if cs == [] {
      assert s.categories + CategoriesOf(cs) == s.categories;
    } else {
      var before := cs[..|cs| - 1];
      AfterCategoriesIs(s, before);
      assert CategoriesOf(cs) == CategoriesOf(before) + [CategoryOf(cs[|cs| - 1])];
      assert s.categories + CategoriesOf(before) + [CategoryOf(cs[|cs| - 1])] == s.categories + CategoriesOf(cs);
    }
  }

  lemma ThroughPolicyIn(s: ReaderState, d: Document, sp: Spelling, clock: Clock)
    requires Known(sp)
    ensures Through(s, PolicyIn(d, sp), clock) ==
      Ok(s.(policy := Over(s.policy, d.policy), policyOid := if d.oid.Some? then d.oid
                                                             else s.policyOid, element := None))
  {
    hide XmlTrim, Through;
    var named := s.(element := Some(PolicyIdentifier));
    var inside := named.(policyOid := if d.oid.Some? then d.oid else s.policyOid);
    var attributes := if d.oid.Some? then [Attribute(sp.oidKey, d.oid.value)] else [];
    if d.oid.Some? {
      assert attributes[1..] == [] && PolicyAttributes(inside, []) == inside;
      assert PolicyAttributes(named, attributes) == inside;
    }
    ThroughElement(s, Start(PolicyIdentifier, attributes), d.policy, End(PolicyIdentifier), clock, inside);
  }

  lemma ThroughClassificationIn(s: ReaderState, text: string, clock: Clock)
    requires !s.inAlternative && s.element == None
    ensures Through(s, TextElement(Classification, text), clock)
              == Ok(s.(classification := Over(s.classification, text)))
  {
    hide XmlTrim, Through;
    ThroughElement(s, Start(Classification, []), text, End(Classification), clock, s.(element := Some(Classification)));
  }

  /** The state after the information block, but for what the reader remembers of the last category. */
  function AfterInformation(s: ReaderState, d: Document): ReaderState {
    AfterCategories(
      s.(policy := Over(s.policy, d.policy), policyOid := if d.oid.Some? then d.oid else s.policyOid,
         classification := Over(s.classification, d.classification),
         privacyMark := OverOption(s.privacyMark, d.privacyMark), colour := OverOption(s.colour, d.colour),
         markingData := OverOption(s.markingData, d.markingData), element := None),
      d.categories).(element := None)
  }

  lemma ThroughInformationIn(s: ReaderState, d: Document, sp: Spelling, clock: Clock)
    requires Known(sp) && !s.inAlternative
    ensures Through(s, InformationIn(d, sp), clock) == Ok(AfterInformation(s, d))
  {
    hide XmlTrim, Through, PolicyIn, TextElement, OptionalElement, CategoriesIn, AfterCategories, OverOption, Over,
         Known;
    var start := [Start(ConfidentialityInformation, [])];
    var s0 := s.(element := Some(ConfidentialityInformation));
    ThroughOne(s, start[0], clock);
    ThroughConcat(s, start, PolicyIn(d, sp), clock, s0);
    ThroughPolicyIn(s0, d, sp, clock);
    var s1 := s0.(policy := Over(s.policy, d.policy), policyOid := if d.oid.Some? then d.oid else s.policyOid,
                  element := None);
    var head := start + PolicyIn(d, sp);
    ThroughConcat(s, head, TextElement(Classification, d.classification), clock, s1);
    ThroughClassificationIn(s1, d.classification, clock);
    var s2 := s1.(classification := Over(s.classification, d.classification));
    var classified := head + TextElement(Classification, d.classification);
    var marks := NewLabel(NatoPolicy(), Unclassified).(
      privacyMark := d.privacyMark, colour := d.colour, markingData := d.markingData);
    ThroughMarks(s, classified, s2, marks, clock);
    var s3 := s2.(privacyMark := OverOption(s.privacyMark, d.privacyMark), colour := OverOption(s.colour, d.colour),
                  markingData := OverOption(s.markingData, d.markingData));
    var marked := classified + OptionalElement(PrivacyMark, d.privacyMark) + OptionalElement(Colour, d.colour)
                  + OptionalElement(MarkingData, d.markingData);
    assert Through(s, marked, clock) == Ok(s3);
    ThroughConcat(s, marked, CategoriesIn(d.categories, sp), clock, s3);
    ThroughCategoriesIn(s3, d.categories, sp, clock);
    var s4 := AfterCategories(s3, d.categories);
    ThroughConcat(s, marked + CategoriesIn(d.categories, sp), [End(ConfidentialityInformation)], clock, s4);
    ThroughOne(s4, End(ConfidentialityInformation), clock);
  }

  /** The times that stand in the attributes of the outer element. */
  lemma RootInRead(s: ReaderState, d: Document, sp: Spelling, clock: Clock)
    requires s.creationTime == None && s.reviewTime == None
    ensures var r := WrapperAttributes(s, RootIn(d, sp), clock);
      var created := if sp.timeTag.None? then CreatedAt(d, sp, clock) else Ok(None);
      if created.Err? || ReviewAt(d, clock).Err? then r == Err(Parse)
      else r == Ok(s.(creationTime := created.value, reviewTime := ReviewAt(d, clock).value))
  {
    var created := if d.created.Some? && sp.timeTag.None? then [Attribute(CreationTimeKey, d.created.value)] else [];
    var reviewed := if d.review.Some? then [Attribute(ReviewDateTimeKey, d.review.value)] else [];
    var at := if sp.timeTag.None? then CreatedAt(d, sp, clock) else Ok(None);
    if at.Ok? {
      var s1 := s.(creationTime := at.value);
      NoAttributes(s1, clock);
      if d.review.Some? {
        assert reviewed[1..] == [];
        if ReviewAt(d, clock).Ok? {
          NoAttributes(s1.(reviewTime := ReviewAt(d, clock).value), clock);
        }
      }
      if created != [] {
        assert (created + reviewed)[1..] == reviewed;
      } else {
        assert created + reviewed == reviewed;
      }
    } else {
      assert (created + reviewed)[0] == created[0];
    }
  }

  lemma ThroughTimeIn(s: ReaderState, d: Document, sp: Spelling, clock: Clock)
    requires Known(sp) && s.element == None
    ensures sp.timeTag.None? ==> Through(s, TimeIn(d, sp), clock) == Ok(s)
    ensures sp.timeTag.Some? ==>
              match CreatedAt(d, sp, clock)
              case Err(_) => Through(s, TimeIn(d, sp), clock) == Err(Parse)
              case Ok(at) =>
                Through(s, TimeIn(d, sp), clock) == Ok(s.(creationTime := if at.Some? then at else s.creationTime))
  {
    hide XmlTrim, Through;
    if sp.timeTag.None? || d.created.None? {
      NothingRead(s, clock);
    } else {
      var tag, text := sp.timeTag.value, d.created.value;
      var inside := s.(element := Some(tag));
      if CreatedAt(d, sp, clock).Ok? {
        ThroughElement(s, Start(tag, []), text, End(tag), clock, inside);
      } else {
        ThroughOne(s, Start(tag, []), clock);
        ThroughText(inside, text, clock);
        ThroughConcat(s, [Start(tag, [])], [TextEvent(text)], clock, inside);
        StopsAtError(s, [Start(tag, [])] + [TextEvent(text)], [End(tag)], clock);
        assert [Start(tag, [])] + [TextEvent(text)] + [End(tag)] == TextElement(tag, text);
      }
    }
  }

  /** Every document, in every spelling, is read as what it means, errors included. */
  lemma SpelledReads(d: Document, sp: Spelling, clock: Clock)
    requires Known(sp)
    ensures Read(Received(Spelled(d, sp)), clock) == Meaning(d, sp, clock)
  {
    hide XmlTrim, Through, InformationIn, TimeIn, RootIn, AfterInformation, CreatedAt, ReviewAt, ParseClassification,
         CategoriesOf, Over, OverOption, Received, ReadAll;
    var root := Start(sp.wrapper, RootIn(d, sp));
    var head := [Decl, root];
    var s := INITIAL.(element := Some(sp.wrapper));
    RootInRead(s, d, sp, clock);
    ThroughOne(INITIAL, Decl, clock);
    ThroughOne(INITIAL, root, clock);
    ThroughConcat(INITIAL, [Decl], [root], clock, INITIAL);
    assert [Decl] + [root] == head;
    var attributes := WrapperAttributes(s, RootIn(d, sp), clock);
    assert Through(INITIAL, head, clock) == attributes;
    if attributes.Err? {
      StopsAtError(INITIAL, head, InformationIn(d, sp), clock);
      StopsAtError(INITIAL, head + InformationIn(d, sp), TimeIn(d, sp), clock);
      StopsAtError(INITIAL, head + InformationIn(d, sp) + TimeIn(d, sp), [End(sp.wrapper)], clock);
    } else {
      BodyReads(d, sp, clock, head, attributes.value);
    }
    ThroughIsRead(Spelled(d, sp), clock);
  }

  lemma ThroughIsRead(events: seq<XmlEvent>, clock: Clock)
    ensures Read(Received(events), clock) ==
      match Through(INITIAL, events, clock)
      case Err(e) => Err(e)
      case Ok(s) => Finish(s)
  {
    hide Received, ReadAll;
  }

  lemma BodyReads(d: Document, sp: Spelling, clock: Clock, head: seq<XmlEvent>, s0: ReaderState)
    requires Known(sp) && Through(INITIAL, head, clock) == Ok(s0)
    requires s0 == INITIAL.(element := s0.element, creationTime := s0.creationTime, reviewTime := s0.reviewTime)
    requires ReviewAt(d, clock) == Ok(s0.reviewTime)
    requires if sp.timeTag.None? then CreatedAt(d, sp, clock) == Ok(s0.creationTime) else s0.creationTime == None
    ensures var r := Through(INITIAL, head + InformationIn(d, sp) + TimeIn(d, sp) + [End(sp.wrapper)], clock);
      if CreatedAt(d, sp, clock).Err? then r == Err(Parse) else r.Ok? && Finish(r.value) == Meaning(d, sp, clock)
  {
    hide XmlTrim, Through, InformationIn, TimeIn, CreatedAt, ReviewAt, ParseClassification, CategoriesOf, OverOption;
    ThroughConcat(INITIAL, head, InformationIn(d, sp), clock, s0);
    ThroughInformationIn(s0, d, sp, clock);
    var s1 := AfterInformation(s0, d);
    AfterInformationIs(s0, d);
    var body := head + InformationIn(d, sp);
    ThroughTimeIn(s1, d, sp, clock);
    ThroughConcat(INITIAL, body, TimeIn(d, sp), clock, s1);
    if Through(s1, TimeIn(d, sp), clock).Err? {
      StopsAtError(INITIAL, body + TimeIn(d, sp), [End(sp.wrapper)], clock);
    } else {
      var s2 := Through(s1, TimeIn(d, sp), clock).value;
      ThroughConcat(INITIAL, body + TimeIn(d, sp), [End(sp.wrapper)], clock, s2);
      ThroughOne(s2, End(sp.wrapper), clock);
      assert Through(s2, [End(sp.wrapper)], clock) == Ok(s2.(element := None));
    }
  }

  lemma AfterInformationIs(s0: ReaderState, d: Document)
    requires s0 == INITIAL.(element := s0.element, creationTime := s0.creationTime, reviewTime := s0.reviewTime)
    ensures var s := AfterInformation(s0, d);
      && s.policy == Over("", d.policy) && s.policyOid == d.oid
      && s.classification == Over("", d.classification)
      && s.privacyMark == OverOption(None, d.privacyMark) && s.colour == OverOption(None, d.colour)
      && s.markingData == OverOption(None, d.markingData) && s.categories == CategoriesOf(d.categories)
      && s.alternatives == [] && s.creationTime == s0.creationTime && s.reviewTime == s0.reviewTime
      && !s.inAlternative && s.element == None
  {
    hide XmlTrim, Over, OverOption, CategoriesOf, AfterCategories;
    var s := s0.(policy := Over(s0.policy, d.policy), policyOid := if d.oid.Some? then d.oid else s0.policyOid,
                 classification := Over(s0.classification, d.classification),
                 privacyMark := OverOption(s0.privacyMark, d.privacyMark), colour := OverOption(s0.colour, d.colour),
                 markingData := OverOption(s0.markingData, d.markingData), element := None);
    AfterCategoriesIs(s, d.categories);
    assert [] + CategoriesOf(d.categories) == CategoriesOf(d.categories);
  }

  // ---- What the reader does not look at

  /** An element of another name, with any attributes and any text, changes nothing. */
  lemma UnknownIsIgnored(s: ReaderState, name: string, attributes: seq<Attribute>, text: string, clock: Clock)
    ensures Through(s, [Start(Other(name), attributes), TextEvent(text), End(Other(name))], clock)
      == Ok(s.(element := None))
  {
    hide XmlTrim, Through;
    ThroughElement(s, Start(Other(name), attributes), text, End(Other(name)), clock, s.(element := Some(Other(name))));
  }

  /** An alternative label without a classification is dropped. */
  lemma EmptyAlternativeIsDropped(s: ReaderState, clock: Clock)
    ensures var r := Through(s, [Start(AlternativeConfidentialityLabel, []), End(AlternativeConfidentialityLabel)],
                             clock);
      r.Ok? && r.value.alternatives == s.alternatives && !r.value.inAlternative && Fields(r.value) == Fields(s)
  {
    hide XmlTrim, Through;
    var start, end := Start(AlternativeConfidentialityLabel, []), End(AlternativeConfidentialityLabel);
    ThroughOne(s, start, clock);
    NoAttributes(OpenAlternative(s), clock);
    assert ReadEvent(s, start, clock) == Ok(OpenAlternative(s));
    ThroughConcat(s, [start], [end], clock, OpenAlternative(s));
    ThroughOne(OpenAlternative(s), end, clock);
    assert [start] + [end] == [start, end];
  }

  /** An attribute of another name changes nothing. */
  lemma UnknownAttributeIsIgnored(s: ReaderState, tag: Tag, name: string, raw: string, clock: Clock)
    ensures Through(s, [Start(tag, [Attribute(OtherKey(name), raw)])], clock) == Through(s, [Start(tag, [])], clock)
  {
    hide Through;
    var a := [Attribute(OtherKey(name), raw)];
    assert a[1..] == [];
    ThroughOne(s, Start(tag, a), clock);
    ThroughOne(s, Start(tag, []), clock);
  }

  /** A value outside any category changes nothing. */
  lemma StrayValueIsIgnored(s: ReaderState, tag: Tag, text: string, clock: Clock)
    requires !s.inCategory && tag in {GenericValue, GenericValues}
    ensures Through(s, TextElement(tag, text), clock) == Ok(s.(element := None))
  {
    hide XmlTrim, Through;
    ThroughElement(s, Start(tag, []), text, End(tag), clock, s.(element := Some(tag)));
  }

  /** Of a category within a category only the inner one is taken: after its end no category is open, and the outer end
      adds to nothing but the list that an alternative label keeps for itself. */
  lemma SecondEndAddsNoCategory(s: ReaderState, clock: Clock)
    requires !s.inCategory
    ensures Through(s, [End(Category)], clock) ==
      Ok(s.(element := None,
            altCategories := if s.inAlternative
                             then s.altCategories + [CategoryMarking(s.categoryTag, s.categoryType, s.categoryValues)]
                             else s.altCategories))
  {
    hide Through;
    ThroughOne(s, End(Category), clock);
  }
}
