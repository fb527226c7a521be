/** The JSON form of a confidentiality label. */
module LabelJson {
  import opened Wrappers
  import opened Text
  import opened Labeling
  import opened LabelXml

  /** Member names; `KOther` stands for every name the reader does not look at. */
  datatype Key =
    | KXmlns | KInformation | KPolicyIdentifier | KClassification | KPrivacyMark | KCategory
    | KTagName | KType | KGenericValues | KCreationTime | KReviewDateTime | KOther(name: string)

  datatype Json = JText(text: string) | JArray(items: seq<Json>) | JObject(members: map<Key, Json>) | JOther

  function Member(v: Json, key: Key): Option<Json> {
    if v.JObject? && key in v.members then Some(v.members[key]) else None
  }

  function TextMember(v: Json, key: Key): Option<string> {
    match Member(v, key)
    case Some(JText(text)) => Some(text)
    case _ => None
  }

  // ---- Writing

  function TextArray(values: seq<string>): Json {
    JArray(seq(|values|, i requires 0 <= i < |values| => JText(values[i])))
  }

  function CategoryValue(c: CategoryMarking): Json {
    JObject(map[KTagName := JText(c.tagName), KType := JText(TypeText(c.kind)), KGenericValues := TextArray(c.values)])
  }

  function InformationValue(l: Label): Json {
    JObject(map[KPolicyIdentifier := JText(l.policy.identifier),
                KClassification := JText(l.classification.StanagText())]
            + (if l.privacyMark.Some? then map[KPrivacyMark := JText(l.privacyMark.value)] else map[])
            + (if l.categories != []
               then map[KCategory :=
                          JArray(seq(|l.categories|,
                                     i requires 0 <= i < |l.categories| => CategoryValue(l.categories[i])))]
               else map[]))
  }

  function LabelValue(l: Label, clock: Clock): Json {
    JObject(map[KXmlns := JText(NAMESPACE), KInformation := InformationValue(l)]
            + (if l.creationTime.Some? then map[KCreationTime := JText(clock.format(l.creationTime.value))] else map[])
            + (if l.reviewTime.Some? then map[KReviewDateTime := JText(clock.format(l.reviewTime.value))] else map[]))
  }

  // ---- Reading

  function Texts(items: seq<Json>): seq<string> {
    if items == [] then [] else
      var before := Texts(items[..|items| - 1]);
      match items[|items| - 1]
      case JText(text) => before + [text]
      case _ => before
  }

  function ParseCategory(v: Json): Result<CategoryMarking, LabelError> {
    match TextMember(v, KTagName)
    case None => Err(Parse)
    case Some(tag) =>
      var kind := match TextMember(v, KType) case Some(text) => ParseType(text) case None => Permissive;
      var values := match Member(v, KGenericValues)
                    case Some(JArray(items)) => Texts(items)
                    case Some(JText(text)) => [text]
                    case _ => [];
      Ok(CategoryMarking(tag, kind, values))
  }

  function ParseCategories(items: seq<Json>): Result<seq<CategoryMarking>, LabelError> {
    if items == [] then Ok([]) else
      match ParseCategories(items[..|items| - 1])
      case Err(e) => Err(e)
      case Ok(before) =>
        match ParseCategory(items[|items| - 1])
        case Err(e) => Err(e)
        case Ok(c) => Ok(before + [c])
  }

  function CategoryList(information: Json): Result<seq<CategoryMarking>, LabelError> {
    match Member(information, KCategory)
    case None => Ok([])
    case Some(JArray(items)) => ParseCategories(items)
    case Some(single) =>
      match ParseCategory(single)
      case Err(e) => Err(e)
      case Ok(c) => Ok([c])
  }

  /** An instant under a key: absent or not a text means none; a text must parse. */
  function TimeMember(v: Json, key: Key, clock: Clock): Result<Option<Instant>, LabelError> {
    match TextMember(v, key)
    case None => Ok(None)
    case Some(text) => if clock.parse(text).None? then Err(Parse) else Ok(clock.parse(text))
  }

  function ParseLabel(v: Json, clock: Clock): Result<Label, LabelError> {
    match Member(v, KInformation)
    case None => Err(Parse)
    case Some(information) =>
      var identifier := match TextMember(information, KPolicyIdentifier) case Some(t) => t case None => "NATO";
      match TextMember(information, KClassification)
      case None => Err(Validation)
      case Some(text) =>
        match ParseClassification(text)
        case Err(e) => Err(e)
        case Ok(level) =>
          match CategoryList(information)
          case Err(e) => Err(e)
          case Ok(categories) =>
            match TimeMember(v, KCreationTime, clock)
            case Err(e) => Err(e)
            case Ok(creation) =>
              match TimeMember(v, KReviewDateTime, clock)
              case Err(e) => Err(e)
              case Ok(review) =>
                Ok(Label(LabelPolicy(identifier, None, ALL_LEVELS), level, TextMember(information, KPrivacyMark),
                         None, None, categories, [], creation, review))
  }

  // ---- The round trip

  lemma {:induction false} TextsReadBack(values: seq<string>)
    ensures Texts(TextArray(values).items) == values
  {
    if values == [] {
    } else {
      var before := values[..|values| - 1];
      TextsReadBack(before);
      assert TextArray(values).items[..|values| - 1] == TextArray(before).items;
    }
  }

  lemma CategoryReadsBack(c: CategoryMarking)
    ensures ParseCategory(CategoryValue(c)) == Ok(c)
  {
    hide ParseType, TypeText, TextArray;
    TypeTextReadsBack(c.kind);
    TextsReadBack(c.values);
    assert TextArray(c.values).JArray? by { TextArrayIsArray(c.values); }
  }

  lemma TextArrayIsArray(values: seq<string>)
    ensures TextArray(values).JArray?
  {
  }

  lemma {:induction false} CategoriesReadBack(cs: seq<CategoryMarking>, items: seq<Json>)
    requires |items| == |cs| && forall i :: 0 <= i < |cs| ==> items[i] == CategoryValue(cs[i])
    ensures ParseCategories(items) == Ok(cs)
  {
    hide ParseCategory, CategoryValue;
    if cs == [] {
    } else {
      CategoriesReadBack(cs[..|cs| - 1], items[..|items| - 1]);
      CategoryReadsBack(cs[|cs| - 1]);
      assert cs == cs[..|cs| - 1] + [cs[|cs| - 1]];
    }
  }

  lemma InformationReadsBack(l: Label)
    ensures var information := InformationValue(l);
      && TextMember(information, KPolicyIdentifier) == Some(l.policy.identifier)
      && TextMember(information, KClassification) == Some(l.classification.StanagText())
      && TextMember(information, KPrivacyMark) == l.privacyMark
      && CategoryList(information) == Ok(l.categories)
  {
    hide ClassificationLevel.StanagText, CategoryValue, ParseCategories;
    var information := InformationValue(l);
    if l.categories != [] {
      CategoriesReadBack(l.categories, information.members[KCategory].items);
    }
  }

  lemma TimesReadBack(l: Label, clock: Clock)
    requires FaithfulClock(clock)
    ensures var v := LabelValue(l, clock);
      && Member(v, KInformation) == Some(InformationValue(l))
      && TimeMember(v, KCreationTime, clock) == Ok(l.creationTime)
      && TimeMember(v, KReviewDateTime, clock) == Ok(l.reviewTime)
  {
    hide InformationValue;
    if l.creationTime.Some? {
      ClockReads(clock, l.creationTime.value);
    }
    if l.reviewTime.Some? {
      ClockReads(clock, l.reviewTime.value);
    }
  }

  /** Every label comes back from JSON without its policy OID, colour, marking data and alternatives, and otherwise as
      it was. */
  lemma JsonLabelReadsBack(l: Label, clock: Clock)
    requires FaithfulClock(clock)
    ensures ParseLabel(LabelValue(l, clock), clock) ==
      Ok(l.(policy := LabelPolicy(l.policy.identifier, None, ALL_LEVELS), colour := None, markingData := None,
            alternatives := []))
  {
    hide ParseClassification, ClassificationLevel.StanagText, InformationValue, LabelValue, CategoryList, TextMember,
         TimeMember, Member, FaithfulClock;
    ClassificationRoundTrip(l.classification);
    InformationReadsBack(l);
    TimesReadBack(l, clock);
  }

  // ---- Every document

  ghost predicate Has(v: Json, key: Key, member: Json) {
    v.JObject? && key in v.members && v.members[key] == member
  }

  /** Under the key stands no text. */
  ghost predicate Silent(v: Json, key: Key) {
    forall text :: !Has(v, key, JText(text))
  }

  lemma TextMemberExactly(v: Json, key: Key)
    ensures forall text :: TextMember(v, key) == Some(text) <==> Has(v, key, JText(text))
    ensures TextMember(v, key) == None <==> Silent(v, key)
    ensures Member(v, key).Some? ==> Has(v, key, Member(v, key).value)
  {
    if TextMember(v, key).Some? {
      assert Has(v, key, JText(TextMember(v, key).value));
    }
  }

  /** Of an array the texts are taken, in order, and everything else is passed over. */
  lemma TextsExactly(before: seq<Json>, last: Json)
    ensures Texts(before + [last]) == if last.JText? then Texts(before) + [last.text] else Texts(before)
    ensures Texts([]) == []
  {
    assert (before + [last])[..|before|] == before;
  }

  ghost predicate HasValues(v: Json, values: seq<string>) {
    if v.JObject? && KGenericValues in v.members then
      match v.members[KGenericValues]
      case JArray(items) => values == Texts(items)
      case JText(text) => values == [text]
      case _ => values == []
    else values == []
  }

  /** Under the key stands the name, in whatever case. */
  ghost predicate Names(v: Json, key: Key, name: string) {
    exists text :: Has(v, key, JText(text)) && SameLetters(text, name)
  }

  ghost predicate HasKind(v: Json, kind: CategoryType) {
    match kind
    case Restrictive => Names(v, KType, "RESTRICTIVE")
    case Informative => Names(v, KType, "INFORMATIVE")
    case Permissive => !Names(v, KType, "RESTRICTIVE") && !Names(v, KType, "INFORMATIVE")
  }

  /** Only the tag name is needed; any other kind is permissive. */
  lemma CategoryExactly(v: Json, c: CategoryMarking)
    ensures ParseCategory(v) == Ok(c) <==>
      Has(v, KTagName, JText(c.tagName)) && HasKind(v, c.kind) && HasValues(v, c.values)
    ensures ParseCategory(v) == Err(Parse) <==> Silent(v, KTagName)
  {
    hide Texts, SameLetters;
    TextMemberExactly(v, KTagName);
    KindExactly(v, c.kind);
  }

  lemma KindExactly(v: Json, kind: CategoryType)
    ensures HasKind(v, kind) <==>
      kind == match TextMember(v, KType) case Some(text) => ParseType(text) case None => Permissive
  {
    hide SameLetters, EqIgnoreCase;
    var r, i := "RESTRICTIVE", "INFORMATIVE";
    match TextMember(v, KType)
    case None =>
    case Some(text) =>
      assert Has(v, KType, JText(text));
      EqIgnoreCaseExactly(text, r);
      EqIgnoreCaseExactly(text, i);
      NotBoth(text);
  }

  lemma NotBoth(text: string)
    ensures !SameLetters(text, "RESTRICTIVE") || !SameLetters(text, "INFORMATIVE")
  {
    if |text| == 11 {
      assert SameLetters(text, "RESTRICTIVE") ==> SameLetter(text[0], 'R');
      assert SameLetters(text, "INFORMATIVE") ==> SameLetter(text[0], 'I');
    }
  }

  /** The categories are read one by one; one without a tag name fails them all. */
  lemma {:induction false} CategoriesExactly(items: seq<Json>, cs: seq<CategoryMarking>)
    ensures ParseCategories(items) == Ok(cs) <==>
      |cs| == |items| && forall i :: 0 <= i < |items| ==> ParseCategory(items[i]) == Ok(cs[i])
    ensures ParseCategories(items) == Err(Parse) <==> exists v :: v in items && Silent(v, KTagName)
    ensures ParseCategories(items).Err? ==> ParseCategories(items) == Err(Parse)
  {
    hide Silent, ParseCategory;
    if items != [] {
      var n := |items| - 1;
      var before, last := items[..n], items[n];
      CategoriesExactly(before, if cs == [] then [] else cs[..|cs| - 1]);
      ParseCategoryFails(last);
      assert forall v :: v in items <==> v in before || v == last;
      if |cs| == |items| {
        assert cs == cs[..n] + [cs[n]];
      }
    }
  }

  lemma ParseCategoryFails(v: Json)
    ensures ParseCategory(v).Err? <==> Silent(v, KTagName)
    ensures ParseCategory(v).Err? ==> ParseCategory(v) == Err(Parse)
  {
    TextMemberExactly(v, KTagName);
  }

  /** An array of categories, a single category, or none. */
  ghost predicate HasCategories(v: Json, cs: seq<CategoryMarking>) {
    if v.JObject? && KCategory in v.members then
      var member := v.members[KCategory];
      if member.JArray? then
        && |cs| == |member.items|
        && forall i :: 0 <= i < |cs| ==> ParseCategory(member.items[i]) == Ok(cs[i])
      else |cs| == 1 && ParseCategory(member) == Ok(cs[0])
    else cs == []
  }

  ghost predicate HasTime(v: Json, key: Key, time: Option<Instant>, clock: Clock) {
    match time
    case None => Silent(v, key)
    case Some(t) => exists text :: Has(v, key, JText(text)) && clock.parse(text) == Some(t)
  }

  /** A document is a label exactly when each of its parts is there or may be missing. */
  ghost predicate IsLabel(v: Json, clock: Clock, l: Label, information: Json) {
    && Has(v, KInformation, information)
    && l.policy.oid == None && l.policy.allowed == ALL_LEVELS
    && l.colour == None && l.markingData == None && l.alternatives == []
    && (Has(information, KPolicyIdentifier, JText(l.policy.identifier))
        || (Silent(information, KPolicyIdentifier) && l.policy.identifier == "NATO"))
    && (exists text :: Has(information, KClassification, JText(text))
                       && ParseClassification(text) == Ok(l.classification))
    && (match l.privacyMark
        case Some(mark) => Has(information, KPrivacyMark, JText(mark))
        case None => Silent(information, KPrivacyMark))
    && HasCategories(information, l.categories)
    && HasTime(v, KCreationTime, l.creationTime, clock) && HasTime(v, KReviewDateTime, l.reviewTime, clock)
  }

  lemma CategoryListExactly(v: Json, cs: seq<CategoryMarking>)
    ensures CategoryList(v) == Ok(cs) <==> HasCategories(v, cs)
    ensures CategoryList(v).Err? ==> CategoryList(v) == Err(Parse)
  {
    hide ParseCategory, ParseCategories;
    match Member(v, KCategory)
    case None =>
    case Some(JArray(items)) =>
      CategoriesExactly(items, cs);
    case Some(single) =>
      ParseCategoryFails(single);
      assert |cs| == 1 ==> cs == [cs[0]];
  }

  lemma TimeExactly(v: Json, key: Key, time: Option<Instant>, clock: Clock)
    ensures TimeMember(v, key, clock) == Ok(time) <==> HasTime(v, key, time, clock)
    ensures TimeMember(v, key, clock).Err? ==> TimeMember(v, key, clock) == Err(Parse)
  {
    if TextMember(v, key).Some? {
      assert Has(v, key, JText(TextMember(v, key).value));
    }
  }

  lemma ParsedLabelExactly(v: Json, clock: Clock, l: Label)
    ensures ParseLabel(v, clock) == Ok(l) <==> exists information :: IsLabel(v, clock, l, information)
  {
    hide ParseClassification, CategoryList, TimeMember, HasCategories, HasTime, TextMember, Silent;
    if Member(v, KInformation).Some? {
      var information := Member(v, KInformation).value;
      assert Has(v, KInformation, information);
      TextMemberExactly(information, KPolicyIdentifier);
      TextMemberExactly(information, KPrivacyMark);
      TextMemberExactly(information, KClassification);
      CategoryListExactly(information, l.categories);
      TimeExactly(v, KCreationTime, l.creationTime, clock);
      TimeExactly(v, KReviewDateTime, l.reviewTime, clock);
      assert ParseLabel(v, clock) == Ok(l) <==> IsLabel(v, clock, l, information);
    }
  }

  /** A missing classification is a validation error and an unknown one is named; everything else does not parse. */
  lemma LabelFailsExactly(v: Json, clock: Clock, e: LabelError)
    requires ParseLabel(v, clock) == Err(e)
    ensures e == Validation <==>
      exists information :: Has(v, KInformation, information) && Silent(information, KClassification)
    ensures e.InvalidClassification? <==>
      exists information, text ::
        Has(v, KInformation, information) && Has(information, KClassification, JText(text))
        && ParseClassification(text) == Err(e)
    ensures e.InvalidClassification? <==>
      exists information, text ::
        Has(v, KInformation, information) && Has(information, KClassification, JText(text))
        && ParseClassification(text).Err?
  {
    hide ParseClassification, CategoryList, TimeMember, TextMember, Silent;
    if Member(v, KInformation).Some? {
      var information := Member(v, KInformation).value;
      assert Has(v, KInformation, information);
      TextMemberExactly(information, KClassification);
      var said := TextMember(information, KClassification);
      if said.Some? {
        ParsedExactly(said.value, Unmarked);
      }
      CategoryListExactly(information, []);
      TimeExactly(v, KCreationTime, None, clock);
      TimeExactly(v, KReviewDateTime, None, clock);
    }
  }
}
