/** The STANAG 4774 XML form of a label: a writer of events and an event-driven reader. */
module LabelXml {
  import opened Wrappers
  import opened Text
  import opened Labeling

  // ---- Events

  /** Element names; `Other` stands for every name the reader does not look at. */
  datatype Tag =
    | ConfidentialityLabel
    | OriginatorConfidentialityLabel
    | MetadataConfidentialityLabel
    | AlternativeConfidentialityLabel
    | ConfidentialityInformation
    | PolicyIdentifier
    | Classification
    | PrivacyMark
    | Colour
    | MarkingData
    | Category
    | GenericValue
    | GenericValues
    | CreationDateTime
    | CreationTime
    | Other(name: string)

  datatype AttributeKey =
    Xmlns | CreationTimeKey | ReviewDateTimeKey | Url | Uri | TagName | Type | OtherKey(name: string)

  /** An attribute with its value as it stands in the document. */
  datatype Attribute = Attribute(key: AttributeKey, raw: string)

  datatype XmlEvent = Decl | Start(tag: Tag, attributes: seq<Attribute>) | TextEvent(content: string) | End(tag: Tag)

  const NAMESPACE := "urn:nato:stanag:4774:confidentialitymetadatalabel:1:0"

  /** The textual form of instants. */
  datatype Clock = Clock(format: Instant -> string, parse: string -> Option<Instant>)

  /** RFC 3339 text reads back and contains nothing that needs escaping. */
  ghost predicate FaithfulClock(clock: Clock) {
    forall t :: clock.parse(clock.format(t)) == Some(t) && Escape(clock.format(t)) == clock.format(t)
  }

  function EscapeChar(c: char): string {
    match c
    case '<' => "&lt;"
    case '>' => "&gt;"
    case '&' => "&amp;"
    case '\'' => "&apos;"
    case '"' => "&quot;"
    case _ => [c]
  }

  /** What the writer puts into the document for an attribute value. The reader takes it as it stands. */
  function Escape(s: string): (r: string)
    ensures |r| >= |s|
  {
    if s == "" then "" else EscapeChar(s[0]) + Escape(s[1..])
  }

  predicate NeedsEscape(c: char) {
    c == '<' || c == '>' || c == '&' || c == '\'' || c == '"'
  }

  lemma {:induction false} EscapeFixesExactly(s: string)
    ensures Escape(s) == s <==> forall i :: 0 <= i < |s| ==> !NeedsEscape(s[i])
    ensures (exists i :: 0 <= i < |s| && NeedsEscape(s[i])) ==> |Escape(s)| > |s|
  {
    if s == "" {
    } else {
      EscapeFixesExactly(s[1..]);
      assert forall i :: 0 <= i < |s[1..]| ==> s[1..][i] == s[i + 1];
      if NeedsEscape(s[0]) {
        assert |EscapeChar(s[0])| > 1;
      } else {
        assert Escape(s) == [s[0]] + Escape(s[1..]);
        assert s == [s[0]] + s[1..];
        assert Escape(s) == s ==> Escape(s[1..]) == Escape(s)[1..];
        if i :| 0 <= i < |s| && NeedsEscape(s[i]) {
          assert s[1..][i - 1] == s[i];
        }
      }
    }
  }

  lemma {:induction false} EscapeConcat(a: string, b: string)
    ensures Escape(a + b) == Escape(a) + Escape(b)
  {
    if a == "" {
      assert a + b == b;
    } else {
      assert (a + b)[1..] == a[1..] + b;
      EscapeConcat(a[1..], b);
    }
  }

  /** The five markup characters become entities, every other character stays. */
  lemma EscapedCharacters(c: char)
    ensures Escape("<") == "&lt;" && Escape(">") == "&gt;" && Escape("&") == "&amp;"
    ensures Escape("'") == "&apos;" && Escape("\"") == "&quot;"
    ensures c !in "<>&'\"" ==> Escape([c]) == [c]
  {
    assert forall x: char :: [x][1..] == "" && Escape([x]) == EscapeChar(x) + "";
  }

  predicate XmlSpace(c: char) {
    c == ' ' || c == '\t' || c == '\n' || c == '\r'
  }

  function XmlTrimStart(s: string): string {
    if s == "" || !XmlSpace(s[0]) then s else XmlTrimStart(s[1..])
  }

  function XmlTrimEnd(s: string): string {
    if s == "" || !XmlSpace(s[|s| - 1]) then s else XmlTrimEnd(s[..|s| - 1])
  }

  /** What the reader is given for a text: trimmed, and nothing at all when only white space is left. */
  function XmlTrim(s: string): string {
    XmlTrimEnd(XmlTrimStart(s))
  }

  /** Trimming takes away exactly the spaces, tabs and line ends at both ends. */
  ghost predicate XmlTrimmedTo(s: string, t: string, from: nat) {
    && from + |t| <= |s| && s[from..from + |t|] == t
    && (forall i :: 0 <= i < from ==> s[i] in " \t\n\r") && (forall i :: from + |t| <= i < |s| ==> s[i] in " \t\n\r")
    && (t == "" || (t[0] !in " \t\n\r" && t[|t| - 1] !in " \t\n\r"))
  }

  lemma XmlTrimExactly(s: string, t: string)
    ensures XmlTrim(s) == t <==> exists from :: XmlTrimmedTo(s, t, from)
  {
    hide XmlTrimStart, XmlTrimEnd;
    XmlFrontTrimmed(s);
    var front := XmlTrimStart(s);
    XmlBackTrimmed(front);
    var from, both := |s| - |front|, XmlTrimEnd(front);
    assert s[from..from + |both|] == both;
    assert forall i :: from + |both| <= i < |s| ==> s[i] == front[i - from];
    assert XmlTrimmedTo(s, both, from) by {
      assert both != "" ==> both[0] == front[0];
    }
    if k :| XmlTrimmedTo(s, t, k) {
      XmlTrimmedOnce(s, both, from, t, k);
    }
  }

  lemma {:induction false} XmlFrontTrimmed(s: string)
    ensures var t := XmlTrimStart(s);
      && |t| <= |s| && t == s[|s| - |t|..] && (t == "" || t[0] !in " \t\n\r")
      && forall i :: 0 <= i < |s| - |t| ==> s[i] in " \t\n\r"
  {
    if s == "" || !XmlSpace(s[0]) {
    } else {
      XmlFrontTrimmed(s[1..]);
      var t := XmlTrimStart(s[1..]);
      forall i | 0 <= i < |s| - |t|
        ensures s[i] in " \t\n\r"
      {
        assert i > 0 ==> s[i] == s[1..][i - 1];
      }
    }
  }

  lemma {:induction false} XmlBackTrimmed(s: string)
    ensures var t := XmlTrimEnd(s);
      && |t| <= |s| && t == s[..|t|] && (t == "" || t[|t| - 1] !in " \t\n\r")
      && forall i :: |t| <= i < |s| ==> s[i] in " \t\n\r"
  {
    if s == "" || !XmlSpace(s[|s| - 1]) {
    } else {
      XmlBackTrimmed(s[..|s| - 1]);
    }
  }

  lemma XmlTrimmedOnce(s: string, t: string, i: nat, u: string, k: nat)
    requires XmlTrimmedTo(s, t, i) && XmlTrimmedTo(s, u, k)
    ensures t == u
  {
    XmlBlankExactly(s, t, i);
    XmlBlankExactly(s, u, k);
    if t != "" {
      assert s[i] == t[0] && s[k] == u[0];
      assert s[i + |t| - 1] == t[|t| - 1] && s[k + |u| - 1] == u[|u| - 1];
      assert i == k && i + |t| == k + |u|;
    }
  }

  lemma XmlBlankExactly(s: string, t: string, from: nat)
    requires XmlTrimmedTo(s, t, from)
    ensures t == "" <==> forall i :: 0 <= i < |s| ==> s[i] in " \t\n\r"
  {
    assert t != "" ==> s[from] == t[0];
  }

  /** Text as the reader's event stream carries it. */
  function Received(events: seq<XmlEvent>): seq<XmlEvent> {
    if events == [] then [] else
      var e := events[|events| - 1];
      var before := Received(events[..|events| - 1]);
      if !e.TextEvent? then before + [e]
      else if XmlTrim(e.content) == "" then before
      else before + [TextEvent(XmlTrim(e.content))]
  }

  // ---- Writing

  function TypeText(t: CategoryType): string {
    match t
    case Restrictive => "RESTRICTIVE"
    case Permissive => "PERMISSIVE"
    case Informative => "INFORMATIVE"
  }

  function ParseType(s: string): CategoryType {
    if EqIgnoreCase(s, "RESTRICTIVE") then Restrictive
    else if EqIgnoreCase(s, "INFORMATIVE") then Informative
    else Permissive
  }

  function TextElement(tag: Tag, value: string): seq<XmlEvent> {
    [Start(tag, []), TextEvent(value), End(tag)]
  }

  function OptionalElement(tag: Tag, value: Option<string>): seq<XmlEvent> {
    match value
    case None => []
    case Some(v) => TextElement(tag, v)
  }

  function PolicyElement(policy: LabelPolicy): seq<XmlEvent> {
    match policy.oid
    case Some(oid) =>
      [Start(PolicyIdentifier, [Attribute(Url, Escape(oid))]), TextEvent(policy.identifier), End(PolicyIdentifier)]
    case None => TextElement(PolicyIdentifier, policy.identifier)
  }

  function ValueElements(values: seq<string>): seq<XmlEvent> {
    if values == [] then [] else ValueElements(values[..|values| - 1]) + TextElement(GenericValue, values[|values| - 1])
  }

  function CategoryStart(c: CategoryMarking): XmlEvent {
    Start(Category, [Attribute(TagName, Escape(c.tagName)), Attribute(Type, Escape(TypeText(c.kind)))])
  }

  function CategoryElement(c: CategoryMarking): seq<XmlEvent> {
    [CategoryStart(c)] + ValueElements(c.values) + [End(Category)]
  }

  function CategoryElements(cs: seq<CategoryMarking>): seq<XmlEvent> {
    if cs == [] then [] else CategoryElements(cs[..|cs| - 1]) + CategoryElement(cs[|cs| - 1])
  }

  function Information(l: Label): seq<XmlEvent> {
    [Start(ConfidentialityInformation, [])]
    + PolicyElement(l.policy)
    + TextElement(Classification, l.classification.StanagText())
    + OptionalElement(PrivacyMark, l.privacyMark)
    + OptionalElement(Colour, l.colour)
    + OptionalElement(MarkingData, l.markingData)
    + CategoryElements(l.categories)
    + [End(ConfidentialityInformation)]
  }

  function AlternativeElement(l: Label): seq<XmlEvent> {
    [Start(AlternativeConfidentialityLabel, [])] + Information(l) + [End(AlternativeConfidentialityLabel)]
  }

  function AlternativeElements(ls: seq<Label>): seq<XmlEvent> {
    if ls == [] then [] else AlternativeElements(ls[..|ls| - 1]) + AlternativeElement(ls[|ls| - 1])
  }

  function RootAttributes(l: Label, clock: Clock): seq<Attribute> {
    [Attribute(Xmlns, Escape(NAMESPACE))]
    + (if l.creationTime.Some? then [Attribute(CreationTimeKey, Escape(clock.format(l.creationTime.value)))] else [])
    + (if l.reviewTime.Some? then [Attribute(ReviewDateTimeKey, Escape(clock.format(l.reviewTime.value)))] else [])
  }

  function Written(l: Label, clock: Clock): seq<XmlEvent> {
    [Decl, Start(ConfidentialityLabel, RootAttributes(l, clock))]
    + Information(l) + AlternativeElements(l.alternatives)
    + [End(ConfidentialityLabel)]
  }

  /** The information block of a label with every mark and a category of two values. */
  lemma InformationInFull(policy: string, oid: string, privacy: string, colour: string, marking: string, tag: string,
                          kind: CategoryType, v: string, w: string, l: Label)
    requires l.policy == LabelPolicy(policy, Some(oid), []) && l.classification == Secret
    requires l.privacyMark == Some(privacy) && l.colour == Some(colour) && l.markingData == Some(marking)
    requires l.categories == [CategoryMarking(tag, kind, [v, w])]
    ensures Information(l) ==
      [Start(ConfidentialityInformation, [])]
      + [Start(PolicyIdentifier, [Attribute(Url, Escape(oid))]), TextEvent(policy), End(PolicyIdentifier)]
      + [Start(Classification, []), TextEvent("SECRET"), End(Classification)]
      + [Start(PrivacyMark, []), TextEvent(privacy), End(PrivacyMark)]
      + [Start(Colour, []), TextEvent(colour), End(Colour)]
      + [Start(MarkingData, []), TextEvent(marking), End(MarkingData)]
      + ([Start(Category,
            [Attribute(TagName, Escape(tag)),
             Attribute(Type, Escape(if kind.Restrictive? then "RESTRICTIVE" else if kind.Permissive? then "PERMISSIVE"
                                    else "INFORMATIVE"))])]
         + ([Start(GenericValue, []), TextEvent(v), End(GenericValue)]
            + [Start(GenericValue, []), TextEvent(w), End(GenericValue)])
         + [End(Category)])
      + [End(ConfidentialityInformation)]
  {
    hide Escape;
    var c := l.categories[0];
    assert [v, w][..1] == [v] && [v][..0] == [];
    assert ValueElements([v]) == TextElement(GenericValue, v);
    assert ValueElements([v, w]) == TextElement(GenericValue, v) + TextElement(GenericValue, w);
    assert [c][..0] == [];
    assert CategoryElements([c]) == CategoryElement(c);
  }

  /** The information block of a label with neither mark nor category. */
  lemma InformationAtLeast(policy: string, l: Label)
    requires l.policy == LabelPolicy(policy, None, []) && l.classification == Restricted
    requires l.privacyMark == None && l.colour == None && l.markingData == None && l.categories == []
    ensures Information(l) ==
      [Start(ConfidentialityInformation, [])]
      + [Start(PolicyIdentifier, []), TextEvent(policy), End(PolicyIdentifier)]
      + [Start(Classification, []), TextEvent("RESTRICTED"), End(Classification)]
      + [End(ConfidentialityInformation)]
  {
  }

  /** A document: the times as attributes of the root, then the label's block, then the alternative's. */
  lemma WrittenInFull(l: Label, created: Instant, review: Instant, alternative: Label, clock: Clock)
    requires l.creationTime == Some(created) && l.reviewTime == Some(review) && l.alternatives == [alternative]
    ensures Written(l, clock) ==
      [Decl,
       Start(ConfidentialityLabel,
         [Attribute(Xmlns, Escape("urn:nato:stanag:4774:confidentialitymetadatalabel:1:0")),
          Attribute(CreationTimeKey, Escape(clock.format(created))),
          Attribute(ReviewDateTimeKey, Escape(clock.format(review)))])]
      + Information(l)
      + ([Start(AlternativeConfidentialityLabel, [])] + Information(alternative)
         + [End(AlternativeConfidentialityLabel)])
      + [End(ConfidentialityLabel)]
  {
    hide Escape, Information;
    assert RootAttributes(l, clock) ==
      [Attribute(Xmlns, Escape("urn:nato:stanag:4774:confidentialitymetadatalabel:1:0")),
       Attribute(CreationTimeKey, Escape(clock.format(created))),
       Attribute(ReviewDateTimeKey, Escape(clock.format(review)))];
    assert [alternative][..0] == [];
    assert AlternativeElements([alternative]) == AlternativeElement(alternative);
  }

  // ---- Reading

  datatype ReaderState = ReaderState(
    policy: string,
    policyOid: Option<string>,
    classification: string,
    privacyMark: Option<string>,
    colour: Option<string>,
    markingData: Option<string>,
    categories: seq<CategoryMarking>,
    alternatives: seq<Label>,
    creationTime: Option<Instant>,
    reviewTime: Option<Instant>,
    categoryTag: string,
    categoryType: CategoryType,
    categoryValues: seq<string>,
    inCategory: bool,
    inAlternative: bool,
    altPolicy: string,
    altPolicyOid: Option<string>,
    altClassification: string,
    altPrivacy: Option<string>,
    altColour: Option<string>,
    altMarking: Option<string>,
    altCategories: seq<CategoryMarking>,
    element: Option<Tag>)

  const INITIAL := ReaderState("", None, "", None, None, None, [], [], None, None,
                               "", Permissive, [], false, false, "", None, "", None, None, None, [], None)

  predicate IsWrapper(tag: Tag) {
    tag == ConfidentialityLabel || tag == OriginatorConfidentialityLabel || tag == MetadataConfidentialityLabel
    || tag == AlternativeConfidentialityLabel
  }

  function WrapperAttribute(s: ReaderState, a: Attribute, clock: Clock): Result<ReaderState, LabelError> {
    match a.key
    case CreationTimeKey =>
      var t := clock.parse(a.raw);
      if t.None? then Err(Parse) else Ok(s.(creationTime := t))
    case ReviewDateTimeKey =>
      var t := clock.parse(a.raw);
      if t.None? then Err(Parse) else Ok(s.(reviewTime := t))
    case _ => Ok(s)
  }

  function WrapperAttributes(s: ReaderState, attributes: seq<Attribute>, clock: Clock): Result<ReaderState, LabelError>
    decreases |attributes|
  {
    if attributes == [] then Ok(s) else
      match WrapperAttribute(s, attributes[0], clock)
      case Err(e) => Err(e)
      case Ok(next) => WrapperAttributes(next, attributes[1..], clock)
  }

  function PolicyAttributes(s: ReaderState, attributes: seq<Attribute>): ReaderState
    decreases |attributes|
  {
    if attributes == [] then s else
      var a := attributes[0];
      PolicyAttributes(if a.key == Url || a.key == Uri then s.(policyOid := Some(a.raw)) else s, attributes[1..])
  }

  function CategoryAttributes(s: ReaderState, attributes: seq<Attribute>): ReaderState
    decreases |attributes|
  {
    if attributes == [] then s else
      var a := attributes[0];
      var next := match a.key
                  case TagName => s.(categoryTag := a.raw)
                  case Type => s.(categoryType := ParseType(a.raw))
                  case _ => s;
      CategoryAttributes(next, attributes[1..])
  }

  function ReadStart(s: ReaderState, tag: Tag, attributes: seq<Attribute>, clock: Clock)
    : Result<ReaderState, LabelError> {
    var named := s.(element := Some(tag));
    if IsWrapper(tag) then
      WrapperAttributes(
        if tag == AlternativeConfidentialityLabel
        then named.(inAlternative := true, altPolicy := "", altPolicyOid := None, altClassification := "",
                    altPrivacy := None, altColour := None, altMarking := None, altCategories := [])
        else named, attributes, clock)
    else if tag == PolicyIdentifier then Ok(PolicyAttributes(named, attributes))
    else if tag == Category then Ok(CategoryAttributes(named.(inCategory := true, categoryValues := []), attributes))
    else Ok(named)
  }

  function ReadText(s: ReaderState, text: string, clock: Clock): Result<ReaderState, LabelError> {
    match s.element
    case Some(PolicyIdentifier) => Ok(s.(policy := text))
    case Some(Classification) =>
      Ok(if s.inAlternative then s.(altClassification := text) else s.(classification := text))
    case Some(PrivacyMark) =>
      Ok(if s.inAlternative then s.(altPrivacy := Some(text)) else s.(privacyMark := Some(text)))
    case Some(Colour) =>
      Ok(if s.inAlternative then s.(altColour := Some(text)) else s.(colour := Some(text)))
    case Some(MarkingData) =>
      Ok(if s.inAlternative then s.(altMarking := Some(text)) else s.(markingData := Some(text)))
    case Some(GenericValue) => Ok(if s.inCategory then s.(categoryValues := s.categoryValues + [text]) else s)
    case Some(GenericValues) => Ok(if s.inCategory then s.(categoryValues := s.categoryValues + [text]) else s)
    case Some(CreationDateTime) =>
      (match clock.parse(text) case None => Err(Parse) case Some(t) => Ok(s.(creationTime := Some(t))))
    case Some(CreationTime) =>
      (match clock.parse(text) case None => Err(Parse) case Some(t) => Ok(s.(creationTime := Some(t))))
    case _ => Ok(s)
  }

  function ReadEnd(s: ReaderState, tag: Tag): Result<ReaderState, LabelError> {
    var closed := s.(element := None);
    var category := CategoryMarking(s.categoryTag, s.categoryType, s.categoryValues);
    if tag == Category && s.inCategory then Ok(closed.(categories := s.categories + [category], inCategory := false))
    else if tag == Category && s.inAlternative then
      Ok(closed.(altCategories := s.altCategories + [category], inCategory := false))
    else if tag == AlternativeConfidentialityLabel && s.inAlternative then
      if s.altClassification == "" then Ok(closed.(inAlternative := false))
      else
        match ParseClassification(s.altClassification)
        case Err(e) => Err(e)
        case Ok(level) =>
          var policy := LabelPolicy(if s.altPolicy == "" then "NATO" else s.altPolicy, s.altPolicyOid, ALL_LEVELS);
          var alternative := Label(policy, level, s.altPrivacy, s.altColour, s.altMarking, s.altCategories, [], None,
                                   None);
          Ok(closed.(alternatives := s.alternatives + [alternative], inAlternative := false))
    else Ok(closed)
  }

  function ReadEvent(s: ReaderState, e: XmlEvent, clock: Clock): Result<ReaderState, LabelError> {
    match e
    case Decl => Ok(s)
    case Start(tag, attributes) => ReadStart(s, tag, attributes, clock)
    case TextEvent(text) => ReadText(s, text, clock)
    case End(tag) => ReadEnd(s, tag)
  }

  function ReadAll(s: ReaderState, events: seq<XmlEvent>, clock: Clock): Result<ReaderState, LabelError> {
    if events == [] then Ok(s) else
      match ReadAll(s, events[..|events| - 1], clock)
      case Err(e) => Err(e)
      case Ok(t) => ReadEvent(t, events[|events| - 1], clock)
  }

  function Finish(s: ReaderState): Result<Label, LabelError> {
    if s.classification == "" then Err(Validation)
    else
      match ParseClassification(s.classification)
      case Err(e) => Err(e)
      case Ok(level) =>
        var policy := LabelPolicy(if s.policy == "" then "NATO" else s.policy, s.policyOid, ALL_LEVELS);
        Ok(Label(policy, level, s.privacyMark, s.colour, s.markingData, s.categories, s.alternatives,
                 s.creationTime, s.reviewTime))
  }

  function Read(events: seq<XmlEvent>, clock: Clock): Result<Label, LabelError> {
    match ReadAll(INITIAL, events, clock)
    case Err(e) => Err(e)
    case Ok(s) => Finish(s)
  }

  // ---- What each written piece does to the reader

  /** A text replaces what was there, unless nothing but white space was written. */
  function Over(known: string, written: string): string {
    if XmlTrim(written) == "" then known else XmlTrim(written)
  }

  function OverOption(known: Option<string>, written: Option<string>): Option<string> {
    if written.None? || XmlTrim(written.value) == "" then known else Some(XmlTrim(written.value))
  }

  function ReadValues(values: seq<string>): seq<string> {
    if values == [] then [] else
      var before, v := ReadValues(values[..|values| - 1]), XmlTrim(values[|values| - 1]);
      if v == "" then before else before + [v]
  }

  function ReadCategory(c: CategoryMarking): CategoryMarking {
    CategoryMarking(Escape(c.tagName), c.kind, ReadValues(c.values))
  }

  function ReadCategories(cs: seq<CategoryMarking>): seq<CategoryMarking> {
    seq(|cs|, i requires 0 <= i < |cs| => ReadCategory(cs[i]))
  }

  /** Writing some events and reading them back from a given state. */
  function Through(s: ReaderState, events: seq<XmlEvent>, clock: Clock): Result<ReaderState, LabelError> {
    ReadAll(s, Received(events), clock)
  }

  lemma {:induction false} ReceivedConcat(a: seq<XmlEvent>, b: seq<XmlEvent>)
    ensures Received(a + b) == Received(a) + Received(b)
  {
    hide XmlTrim;
    if b == [] {
      assert a + b == a;
    } else {
      assert (a + b)[..|a + b| - 1] == a + b[..|b| - 1];
      ReceivedConcat(a, b[..|b| - 1]);
    }
  }

  lemma {:induction false} ReadAllConcat(s: ReaderState, a: seq<XmlEvent>, b: seq<XmlEvent>, clock: Clock)
    ensures ReadAll(s, a + b, clock) ==
      match ReadAll(s, a, clock)
      case Err(e) => Err(e)
      case Ok(t) => ReadAll(t, b, clock)
    decreases |b|
  {
    hide ReadEvent;
    if b == [] {
      assert a + b == a;
    } else {
      assert (a + b)[..|a + b| - 1] == a + b[..|b| - 1];
      ReadAllConcat(s, a, b[..|b| - 1], clock);
    }
  }

  lemma ThroughConcat(s: ReaderState, a: seq<XmlEvent>, b: seq<XmlEvent>, clock: Clock, t: ReaderState)
    requires Through(s, a, clock) == Ok(t)
    ensures Through(s, a + b, clock) == Through(t, b, clock)
  {
    hide Received, ReadAll;
    ReceivedConcat(a, b);
    ReadAllConcat(s, Received(a), Received(b), clock);
  }

  lemma ReceivedOne(e: XmlEvent)
    ensures Received([e]) ==
      if !e.TextEvent? then [e] else if XmlTrim(e.content) == "" then [] else [TextEvent(XmlTrim(e.content))]
  {
    hide XmlTrim;
    assert [e][..0] == [] && Received([]) == [];
  }

  lemma ReadAllOne(s: ReaderState, e: XmlEvent, clock: Clock)
    ensures ReadAll(s, [e], clock) == ReadEvent(s, e, clock)
  {
    hide ReadEvent;
    assert [e][..0] == [] && ReadAll(s, [], clock) == Ok(s);
  }

  /** One event other than a text. */
  lemma ThroughOne(s: ReaderState, e: XmlEvent, clock: Clock)
    requires !e.TextEvent?
    ensures Through(s, [e], clock) == ReadEvent(s, e, clock)
  {
    hide ReadEvent, Received, ReadAll;
    ReceivedOne(e);
    ReadAllOne(s, e, clock);
  }

  lemma ThroughText(s: ReaderState, text: string, clock: Clock)
    ensures Through(s, [TextEvent(text)], clock) ==
      if XmlTrim(text) == "" then Ok(s) else ReadText(s, XmlTrim(text), clock)
  {
    hide XmlTrim, Received, ReadAll;
    ReceivedOne(TextEvent(text));
    if XmlTrim(text) == "" {
      NothingRead(s, clock);
    } else {
      ReadAllOne(s, TextEvent(XmlTrim(text)), clock);
    }
  }

  lemma NothingRead(s: ReaderState, clock: Clock)
    ensures ReadAll(s, [], clock) == Ok(s) && Through(s, [], clock) == Ok(s)
  {
  }

  lemma ThroughElement(s: ReaderState, start: XmlEvent, text: string, end: XmlEvent, clock: Clock, inside: ReaderState)
    requires !start.TextEvent? && !end.TextEvent? && ReadEvent(s, start, clock) == Ok(inside)
    requires XmlTrim(text) != "" ==> ReadText(inside, XmlTrim(text), clock).Ok?
    ensures Through(s, [start, TextEvent(text), end], clock) ==
      ReadEvent(if XmlTrim(text) == "" then inside else ReadText(inside, XmlTrim(text), clock).value, end, clock)
  {
    hide XmlTrim, ReadStart, ReadText, ReadEnd, Through;
    var written := if XmlTrim(text) == "" then inside else ReadText(inside, XmlTrim(text), clock).value;
    ThroughOne(s, start, clock);
    ThroughText(inside, text, clock);
    ThroughOne(written, end, clock);
    ThroughConcat(s, [start], [TextEvent(text)], clock, inside);
    ThroughConcat(s, [start] + [TextEvent(text)], [end], clock, written);
    assert [start] + [TextEvent(text)] + [end] == [start, TextEvent(text), end];
  }

  // ---- Categories

  function CategoryEffect(s: ReaderState, c: CategoryMarking): ReaderState {
    s.(categories := s.categories + [ReadCategory(c)], categoryTag := Escape(c.tagName), categoryType := c.kind,
       categoryValues := ReadValues(c.values), inCategory := false, element := None)
  }

  function CategoriesEffect(s: ReaderState, cs: seq<CategoryMarking>): ReaderState {
    if cs == [] then s else CategoryEffect(CategoriesEffect(s, cs[..|cs| - 1]), cs[|cs| - 1])
  }

  lemma {:induction false} ThroughValues(s: ReaderState, values: seq<string>, clock: Clock)
    requires s.inCategory
    ensures Through(s, ValueElements(values), clock) ==
      Ok(s.(categoryValues := s.categoryValues + ReadValues(values),
            element := if values == [] then s.element else None))
  {
    hide XmlTrim, Through;
    if values == [] {
      NothingRead(s, clock);
      assert s.categoryValues + [] == s.categoryValues;
    } else {
      var before, v := values[..|values| - 1], values[|values| - 1];
      ThroughValues(s, before, clock);
      var t := s.(categoryValues := s.categoryValues + ReadValues(before),
                  element := if before == [] then s.element else None);
      ThroughConcat(s, ValueElements(before), TextElement(GenericValue, v), clock, t);
      ThroughElement(t, Start(GenericValue, []), v, End(GenericValue), clock, t.(element := Some(GenericValue)));
      if XmlTrim(v) != "" {
        assert s.categoryValues + ReadValues(before) + [XmlTrim(v)] == s.categoryValues + ReadValues(values);
      }
    }
  }

  lemma TypeTextReadsBack(t: CategoryType)
    ensures Escape(TypeText(t)) == TypeText(t) && ParseType(TypeText(t)) == t
  {
    hide Escape;
    var text := TypeText(t);
    EscapeFixesExactly(text);
    assert forall i :: 0 <= i < |text| ==> !NeedsEscape(text[i]);
    assert ToAsciiLowercase("PERMISSIVE")[0] == 'p' && ToAsciiLowercase("RESTRICTIVE")[0] == 'r'
           && ToAsciiLowercase("INFORMATIVE")[0] == 'i';
  }

  lemma TwoCategoryAttributes(s: ReaderState, tag: Attribute, kind: Attribute)
    requires tag.key == TagName && kind.key == Type
    ensures CategoryAttributes(s, [tag, kind]) == s.(categoryTag := tag.raw, categoryType := ParseType(kind.raw))
  {
    hide ParseType;
    var t := s.(categoryTag := tag.raw);
    assert [tag, kind][1..] == [kind] && [kind][1..] == [];
    assert CategoryAttributes(t, [kind]) == t.(categoryType := ParseType(kind.raw));
  }

  lemma ThroughCategory(s: ReaderState, c: CategoryMarking, clock: Clock)
    ensures Through(s, CategoryElement(c), clock) == Ok(CategoryEffect(s, c))
  {
    hide XmlTrim, Through, Escape, ParseType, TypeText;
    TypeTextReadsBack(c.kind);
    var tag, kind := Attribute(TagName, Escape(c.tagName)), Attribute(Type, Escape(TypeText(c.kind)));
    var inside := s.(element := Some(Category), inCategory := true, categoryValues := [], categoryTag := tag.raw,
                     categoryType := c.kind);
    TwoCategoryAttributes(s.(element := Some(Category), inCategory := true, categoryValues := []), tag, kind);
    ThroughOne(s, CategoryStart(c), clock);
    assert Through(s, [CategoryStart(c)], clock) == Ok(inside);
    ThroughValues(inside, c.values, clock);
    ThroughConcat(s, [CategoryStart(c)], ValueElements(c.values), clock, inside);
    var filled := inside.(categoryValues := inside.categoryValues + ReadValues(c.values),
                          element := if c.values == [] then inside.element else None);
    assert filled.categoryValues == ReadValues(c.values);
    ThroughConcat(s, [CategoryStart(c)] + ValueElements(c.values), [End(Category)], clock, filled);
    ThroughOne(filled, End(Category), clock);
  }

  lemma {:induction false} ThroughCategories(s: ReaderState, cs: seq<CategoryMarking>, clock: Clock)
    ensures Through(s, CategoryElements(cs), clock) == Ok(CategoriesEffect(s, cs))
  {
    hide Through, CategoryElement, CategoryEffect;
    if cs == [] {
      NothingRead(s, clock);
    } else {
      var before := cs[..|cs| - 1];
      ThroughCategories(s, before, clock);
      ThroughConcat(s, CategoryElements(before), CategoryElement(cs[|cs| - 1]), clock, CategoriesEffect(s, before));
      ThroughCategory(CategoriesEffect(s, before), cs[|cs| - 1], clock);
    }
  }

  // ---- The information block

  function PolicyEffect(s: ReaderState, p: LabelPolicy): ReaderState {
    s.(policy := Over(s.policy, p.identifier),
       policyOid := if p.oid.Some? then Some(Escape(p.oid.value)) else s.policyOid,
       element := None)
  }

  lemma ThroughPolicy(s: ReaderState, p: LabelPolicy, clock: Clock)
    ensures Through(s, PolicyElement(p), clock) == Ok(PolicyEffect(s, p))
  {
    hide XmlTrim, Through, Escape;
    var inside := s.(element := Some(PolicyIdentifier),
                     policyOid := if p.oid.Some? then Some(Escape(p.oid.value)) else s.policyOid);
    var attributes := if p.oid.Some? then [Attribute(Url, Escape(p.oid.value))] else [];
    if p.oid.Some? {
      assert attributes[1..] == [] && PolicyAttributes(inside, []) == inside;
      assert PolicyAttributes(s.(element := Some(PolicyIdentifier)), attributes) == inside;
    }
    ThroughElement(s, Start(PolicyIdentifier, attributes), p.identifier, End(PolicyIdentifier), clock, inside);
  }

  /** The marks go to the label being read, outer or alternative. */
  function MarksEffect(s: ReaderState, l: Label): ReaderState {
    if s.inAlternative then
      s.(altClassification := l.classification.StanagText(), altPrivacy := OverOption(s.altPrivacy, l.privacyMark),
         altColour := OverOption(s.altColour, l.colour), altMarking := OverOption(s.altMarking, l.markingData))
    else
      s.(classification := l.classification.StanagText(), privacyMark := OverOption(s.privacyMark, l.privacyMark),
         colour := OverOption(s.colour, l.colour), markingData := OverOption(s.markingData, l.markingData))
  }

  lemma LevelTextIsReceived(level: ClassificationLevel)
    ensures XmlTrim(level.StanagText()) == level.StanagText() != ""
  {
    StanagTextShape(level);
  }

  lemma ThroughClassification(s: ReaderState, level: ClassificationLevel, clock: Clock)
    requires s.element == None
    ensures Through(s, TextElement(Classification, level.StanagText()), clock) ==
      Ok(if s.inAlternative then s.(altClassification := level.StanagText())
         else s.(classification := level.StanagText()))
  {
    hide XmlTrim, Through, ClassificationLevel.StanagText;
    LevelTextIsReceived(level);
    ThroughElement(s, Start(Classification, []), level.StanagText(), End(Classification), clock,
                   s.(element := Some(Classification)));
  }

  /** One optional mark. */
  function MarkEffect(s: ReaderState, tag: Tag, value: Option<string>): ReaderState {
    match tag
    case PrivacyMark =>
      if s.inAlternative then s.(altPrivacy := OverOption(s.altPrivacy, value))
      else s.(privacyMark := OverOption(s.privacyMark, value))
    case Colour =>
      if s.inAlternative then s.(altColour := OverOption(s.altColour, value))
      else s.(colour := OverOption(s.colour, value))
    case MarkingData =>
      if s.inAlternative then s.(altMarking := OverOption(s.altMarking, value))
      else s.(markingData := OverOption(s.markingData, value))
    case _ => s
  }

  lemma ThroughMark(s: ReaderState, tag: Tag, value: Option<string>, clock: Clock)
    requires s.element == None && (tag == PrivacyMark || tag == Colour || tag == MarkingData)
    ensures Through(s, OptionalElement(tag, value), clock) == Ok(MarkEffect(s, tag, value))
  {
    hide XmlTrim, Through;
    if value.None? {
      NothingRead(s, clock);
    } else {
      ThroughElement(s, Start(tag, []), value.value, End(tag), clock, s.(element := Some(tag)));
    }
  }

  function InformationEffect(s: ReaderState, l: Label): ReaderState {
    CategoriesEffect(MarksEffect(PolicyEffect(s, l.policy), l), l.categories).(element := None)
  }

  /** The three optional marks, after the classification. */
  lemma ThroughMarks(s: ReaderState, before: seq<XmlEvent>, s2: ReaderState, l: Label, clock: Clock)
    requires Through(s, before, clock) == Ok(s2) && s2.element == None
    ensures Through(s, before + OptionalElement(PrivacyMark, l.privacyMark) + OptionalElement(Colour, l.colour)
                       + OptionalElement(MarkingData, l.markingData), clock)
      == Ok(MarkEffect(MarkEffect(MarkEffect(s2, PrivacyMark, l.privacyMark), Colour, l.colour), MarkingData,
                       l.markingData))
  {
    hide Through, OptionalElement, OverOption;
    ThroughMark(s2, PrivacyMark, l.privacyMark, clock);
    var s3 := MarkEffect(s2, PrivacyMark, l.privacyMark);
    ThroughConcat(s, before, OptionalElement(PrivacyMark, l.privacyMark), clock, s2);
    var p3 := before + OptionalElement(PrivacyMark, l.privacyMark);
    ThroughMark(s3, Colour, l.colour, clock);
    var s4 := MarkEffect(s3, Colour, l.colour);
    ThroughConcat(s, p3, OptionalElement(Colour, l.colour), clock, s3);
    var p4 := p3 + OptionalElement(Colour, l.colour);
    ThroughMark(s4, MarkingData, l.markingData, clock);
    ThroughConcat(s, p4, OptionalElement(MarkingData, l.markingData), clock, s4);
  }

  /** The information block up to its classification. */
  function InformationHead(l: Label): seq<XmlEvent> {
    [Start(ConfidentialityInformation, [])] + PolicyElement(l.policy)
    + TextElement(Classification, l.classification.StanagText())
  }

  function HeadEffect(s: ReaderState, l: Label): ReaderState {
    var t := PolicyEffect(s, l.policy);
    if t.inAlternative then t.(altClassification := l.classification.StanagText())
    else t.(classification := l.classification.StanagText())
  }

  lemma ThroughHead(s: ReaderState, l: Label, clock: Clock)
    ensures Through(s, InformationHead(l), clock) == Ok(HeadEffect(s, l))
  {
    hide XmlTrim, Through, PolicyElement, TextElement, ClassificationLevel.StanagText, Escape, Over;
    var start := [Start(ConfidentialityInformation, [])];
    var s0 := s.(element := Some(ConfidentialityInformation));
    ThroughOne(s, start[0], clock);
    ThroughConcat(s, start, PolicyElement(l.policy), clock, s0);
    ThroughPolicy(s0, l.policy, clock);
    var s1 := PolicyEffect(s0, l.policy);
    var classification := TextElement(Classification, l.classification.StanagText());
    ThroughConcat(s, start + PolicyElement(l.policy), classification, clock, s1);
    ThroughClassification(s1, l.classification, clock);
  }

  lemma ThroughInformation(s: ReaderState, l: Label, clock: Clock)
    ensures Through(s, Information(l), clock) == Ok(InformationEffect(s, l))
  {
    hide XmlTrim, Through, PolicyElement, TextElement, OptionalElement, CategoryElements, CategoriesEffect, OverOption,
         ClassificationLevel.StanagText, Escape, Over;
    var s2 := HeadEffect(s, l);
    ThroughHead(s, l, clock);
    ThroughMarks(s, InformationHead(l), s2, l, clock);
    var s5 := MarksEffect(PolicyEffect(s, l.policy), l);
    var marked := InformationHead(l) + OptionalElement(PrivacyMark, l.privacyMark) + OptionalElement(Colour, l.colour)
                  + OptionalElement(MarkingData, l.markingData);
    assert Through(s, marked, clock) == Ok(s5);
    ThroughConcat(s, marked, CategoryElements(l.categories), clock, s5);
    ThroughCategories(s5, l.categories, clock);
    var s6 := CategoriesEffect(s5, l.categories);
    ThroughConcat(s, marked + CategoryElements(l.categories), [End(ConfidentialityInformation)], clock, s6);
    ThroughOne(s6, End(ConfidentialityInformation), clock);
  }

  // ---- Alternative labels

  /** What remains of an alternative label: classification and marks, under a default policy. */
  function ReadAlternative(l: Label): Label {
    Label(LabelPolicy("NATO", None, ALL_LEVELS), l.classification, OverOption(None, l.privacyMark),
          OverOption(None, l.colour), OverOption(None, l.markingData), [], [], None, None)
  }

  function OpenAlternative(s: ReaderState): ReaderState {
    s.(inAlternative := true, altPolicy := "", altPolicyOid := None, altClassification := "", altPrivacy := None,
       altColour := None, altMarking := None, altCategories := [], element := Some(AlternativeConfidentialityLabel))
  }

  function AlternativeEffect(s: ReaderState, l: Label): ReaderState {
    InformationEffect(OpenAlternative(s), l).(
      alternatives := s.alternatives + [ReadAlternative(l)], inAlternative := false, element := None)
  }

  function AlternativesEffect(s: ReaderState, ls: seq<Label>): ReaderState {
    if ls == [] then s else AlternativeEffect(AlternativesEffect(s, ls[..|ls| - 1]), ls[|ls| - 1])
  }

  /** Categories touch none of the fields an alternative is built from. */
  lemma {:induction false} CategoriesFrame(s: ReaderState, cs: seq<CategoryMarking>)
    ensures var t := CategoriesEffect(s, cs);
      && t.categories == s.categories + ReadCategories(cs)
      && t == s.(categories := t.categories, categoryTag := t.categoryTag, categoryType := t.categoryType,
                 categoryValues := t.categoryValues, inCategory := t.inCategory, element := t.element)
  {
    if cs == [] {
      assert s.categories + ReadCategories(cs) == s.categories;
    } else {
      var before := cs[..|cs| - 1];
      CategoriesFrame(s, before);
      assert ReadCategories(cs) == ReadCategories(before) + [ReadCategory(cs[|cs| - 1])];
      assert s.categories + ReadCategories(before) + [ReadCategory(cs[|cs| - 1])] == s.categories + ReadCategories(cs);
    }
  }

  /** The end of an alternative adds exactly its classification and marks, under a default policy. */
  lemma AlternativeCloses(s: ReaderState, l: Label)
    ensures ReadEnd(InformationEffect(OpenAlternative(s), l), AlternativeConfidentialityLabel)
              == Ok(AlternativeEffect(s, l))
  {
    hide CategoriesEffect, Over, OverOption, ClassificationLevel.StanagText, Escape, ParseClassification;
    var marked := MarksEffect(PolicyEffect(OpenAlternative(s), l.policy), l);
    CategoriesFrame(marked, l.categories);
    ClassificationRoundTrip(l.classification);
    LevelTextIsReceived(l.classification);
    var t := InformationEffect(OpenAlternative(s), l);
    assert t.altClassification == l.classification.StanagText() && t.altPolicy == "" && t.altPolicyOid == None
           && t.altCategories == [] && t.inAlternative && t.alternatives == s.alternatives;
  }

  lemma ThroughAlternative(s: ReaderState, l: Label, clock: Clock)
    ensures Through(s, AlternativeElement(l), clock) == Ok(AlternativeEffect(s, l))
  {
    hide XmlTrim, Through, Information, InformationEffect, AlternativeEffect, ReadEnd;
    var start, end := Start(AlternativeConfidentialityLabel, []), End(AlternativeConfidentialityLabel);
    ThroughOne(s, start, clock);
    var t := InformationEffect(OpenAlternative(s), l);
    ThroughConcat(s, [start], Information(l), clock, OpenAlternative(s));
    ThroughInformation(OpenAlternative(s), l, clock);
    ThroughConcat(s, [start] + Information(l), [end], clock, t);
    ThroughOne(t, end, clock);
    AlternativeCloses(s, l);
  }

  lemma {:induction false} ThroughAlternatives(s: ReaderState, ls: seq<Label>, clock: Clock)
    ensures Through(s, AlternativeElements(ls), clock) == Ok(AlternativesEffect(s, ls))
  {
    hide Through, AlternativeElement, AlternativeEffect;
    if ls == [] {
      NothingRead(s, clock);
    } else {
      var before := ls[..|ls| - 1];
      ThroughAlternatives(s, before, clock);
      ThroughConcat(s, AlternativeElements(before), AlternativeElement(ls[|ls| - 1]), clock,
                    AlternativesEffect(s, before));
      ThroughAlternative(AlternativesEffect(s, before), ls[|ls| - 1], clock);
    }
  }

  // ---- The label that comes back, for every label

  /** The last of these policy identifiers that is not blank, else the first argument. */
  function LastIdentifier(known: string, ls: seq<Label>): string {
    if ls == [] then known else Over(LastIdentifier(known, ls[..|ls| - 1]), ls[|ls| - 1].policy.identifier)
  }

  function LastOid(known: Option<string>, ls: seq<Label>): Option<string> {
    if ls == [] then known
    else if ls[|ls| - 1].policy.oid.Some? then Some(Escape(ls[|ls| - 1].policy.oid.value))
    else LastOid(known, ls[..|ls| - 1])
  }

  function AllCategories(ls: seq<Label>): seq<CategoryMarking> {
    if ls == [] then [] else AllCategories(ls[..|ls| - 1]) + ReadCategories(ls[|ls| - 1].categories)
  }

  function ReadAlternatives(ls: seq<Label>): seq<Label> {
    if ls == [] then [] else ReadAlternatives(ls[..|ls| - 1]) + [ReadAlternative(ls[|ls| - 1])]
  }

  function OrNato(identifier: string): string {
    if identifier == "" then "NATO" else identifier
  }

  /** Texts come back trimmed and blank ones are lost; attribute values come back escaped; an alternative label leaks
      its policy and its categories into the outer label and keeps only its classification and marks. */
  function Reread(l: Label): Label {
    Label(
      LabelPolicy(OrNato(LastIdentifier(Over("", l.policy.identifier), l.alternatives)),
                  LastOid(if l.policy.oid.Some? then Some(Escape(l.policy.oid.value)) else None, l.alternatives),
                  ALL_LEVELS),
      l.classification,
      OverOption(None, l.privacyMark), OverOption(None, l.colour), OverOption(None, l.markingData),
      ReadCategories(l.categories) + AllCategories(l.alternatives),
      ReadAlternatives(l.alternatives),
      l.creationTime, l.reviewTime)
  }

  /** The fields of the state the resulting label is built from. */
  function Fields(s: ReaderState): Label {
    Label(LabelPolicy(s.policy, s.policyOid, []), Unmarked, s.privacyMark, s.colour, s.markingData, s.categories,
          s.alternatives, s.creationTime, s.reviewTime)
  }

  lemma AlternativeFields(s: ReaderState, l: Label)
    requires !s.inAlternative
    ensures var t := AlternativeEffect(s, l);
      && !t.inAlternative && t.classification == s.classification
      && Fields(t) == Fields(s).(
           policy := LabelPolicy(Over(s.policy, l.policy.identifier),
                                 if l.policy.oid.Some? then Some(Escape(l.policy.oid.value)) else s.policyOid, []),
           categories := s.categories + ReadCategories(l.categories),
           alternatives := s.alternatives + [ReadAlternative(l)])
  {
    hide XmlTrim, CategoriesEffect, Over, OverOption, ClassificationLevel.StanagText, Escape, ReadCategories;
    CategoriesFrame(MarksEffect(PolicyEffect(OpenAlternative(s), l.policy), l), l.categories);
  }

  lemma {:induction false} AlternativesFields(s: ReaderState, ls: seq<Label>)
    requires !s.inAlternative
    ensures var t := AlternativesEffect(s, ls);
      && !t.inAlternative && t.classification == s.classification
      && Fields(t) == Fields(s).(
           policy := LabelPolicy(LastIdentifier(s.policy, ls), LastOid(s.policyOid, ls), []),
           categories := s.categories + AllCategories(ls),
           alternatives := s.alternatives + ReadAlternatives(ls))
  {
    hide AlternativeEffect, Over, Escape, ReadCategories, ReadAlternative;
    if ls == [] {
      assert s.categories + AllCategories(ls) == s.categories &&
          s.alternatives + ReadAlternatives(ls) == s.alternatives;
    } else {
      var before, last := ls[..|ls| - 1], ls[|ls| - 1];
      AlternativesFields(s, before);
      AlternativeFields(AlternativesEffect(s, before), last);
      assert s.categories + AllCategories(before) + ReadCategories(last.categories) == s.categories + AllCategories(ls);
      assert s.alternatives + ReadAlternatives(before) + [ReadAlternative(last)]
          == s.alternatives + ReadAlternatives(ls);
    }
  }

  function RootState(l: Label): ReaderState {
    INITIAL.(creationTime := l.creationTime, reviewTime := l.reviewTime, element := Some(ConfidentialityLabel))
  }

  lemma ThroughRoot(l: Label, clock: Clock)
    requires FaithfulClock(clock)
    ensures Through(INITIAL, [Decl, Start(ConfidentialityLabel, RootAttributes(l, clock))], clock) == Ok(RootState(l))
  {
    hide Through, Escape;
    var attributes := RootAttributes(l, clock);
    var s := INITIAL.(element := Some(ConfidentialityLabel));
    var start := Start(ConfidentialityLabel, attributes);
    RootAttributesRead(s, l, clock);
    ThroughOne(INITIAL, Decl, clock);
    ThroughOne(INITIAL, start, clock);
    ThroughConcat(INITIAL, [Decl], [start], clock, INITIAL);
    assert [Decl] + [start] == [Decl, start];
  }

  lemma RootAttributesRead(s: ReaderState, l: Label, clock: Clock)
    requires FaithfulClock(clock) && s.creationTime == None && s.reviewTime == None
    ensures WrapperAttributes(s, RootAttributes(l, clock), clock)
              == Ok(s.(creationTime := l.creationTime, reviewTime := l.reviewTime))
  {
    hide Escape;
    var created := if l.creationTime.Some?
                   then [Attribute(CreationTimeKey, Escape(clock.format(l.creationTime.value)))] else [];
    var reviewed := if l.reviewTime.Some?
                    then [Attribute(ReviewDateTimeKey, Escape(clock.format(l.reviewTime.value)))] else [];
    var attributes := RootAttributes(l, clock);
    var s1 := s.(creationTime := l.creationTime);
    var s2 := s1.(reviewTime := l.reviewTime);
    assert attributes[1..] == created + reviewed;
    NoAttributes(s2, clock);
    if l.reviewTime.Some? {
      ClockReads(clock, l.reviewTime.value);
      assert WrapperAttribute(s1, reviewed[0], clock) == Ok(s2) && reviewed[1..] == [];
    }
    assert WrapperAttributes(s1, reviewed, clock) == Ok(s2);
    if l.creationTime.Some? {
      ClockReads(clock, l.creationTime.value);
      assert WrapperAttribute(s, created[0], clock) == Ok(s1) && (created + reviewed)[1..] == reviewed;
    } else {
      assert created + reviewed == reviewed;
    }
    assert WrapperAttributes(s, created + reviewed, clock) == Ok(s2);
  }

  lemma ClockReads(clock: Clock, t: Instant)
    requires FaithfulClock(clock)
    ensures clock.parse(clock.format(t)) == Some(t) && Escape(clock.format(t)) == clock.format(t)
  {
  }

  lemma NoAttributes(s: ReaderState, clock: Clock)
    ensures WrapperAttributes(s, [], clock) == Ok(s)
  {
  }

  /** Writing any label and reading it back gives exactly the label described by `Reread`. */
  lemma WrittenLabelReads(l: Label, clock: Clock)
    requires FaithfulClock(clock)
    ensures Read(Received(Written(l, clock)), clock) == Ok(Reread(l))
  {
    hide Received, ReadAll, Information, AlternativeElements, AlternativesEffect, CategoriesEffect, RootAttributes,
         XmlTrim, Over, OverOption, Escape, ClassificationLevel.StanagText, ParseClassification, ReadCategories,
             AllCategories, ReadAlternatives, LastIdentifier, LastOid, FaithfulClock;
    var head := [Decl, Start(ConfidentialityLabel, RootAttributes(l, clock))];
    ThroughRoot(l, clock);
    var s0 := RootState(l);
    ThroughConcat(INITIAL, head, Information(l), clock, s0);
    ThroughInformation(s0, l, clock);
    var s1 := InformationEffect(s0, l);
    CategoriesFrame(MarksEffect(PolicyEffect(s0, l.policy), l), l.categories);
    assert [] + ReadCategories(l.categories) == ReadCategories(l.categories);
    ThroughConcat(INITIAL, head + Information(l), AlternativeElements(l.alternatives), clock, s1);
    ThroughAlternatives(s1, l.alternatives, clock);
    var s2 := AlternativesEffect(s1, l.alternatives);
    AlternativesFields(s1, l.alternatives);
    assert [] + ReadAlternatives(l.alternatives) == ReadAlternatives(l.alternatives);
    var end := [End(ConfidentialityLabel)];
    ThroughConcat(INITIAL, head + Information(l) + AlternativeElements(l.alternatives), end, clock, s2);
    ThroughOne(s2, End(ConfidentialityLabel), clock);
    ClassificationRoundTrip(l.classification);
    assert Fields(s2.(element := None)) == Fields(s2);
  }

  // ---- Exactly which labels survive

  predicate CleanText(s: string) {
    s != "" && XmlTrim(s) == s
  }

  predicate CleanOption(o: Option<string>) {
    o.Some? ==> CleanText(o.value)
  }

  predicate Plain(s: string) {
    forall i :: 0 <= i < |s| ==> !NeedsEscape(s[i])
  }

  predicate CleanCategory(c: CategoryMarking) {
    Plain(c.tagName) && forall i :: 0 <= i < |c.values| ==> CleanText(c.values[i])
  }

  /** Texts trimmed and not empty; attribute values free of markup characters. */
  predicate Clean(l: Label) {
    && CleanText(l.policy.identifier) && (l.policy.oid.Some? ==> Plain(l.policy.oid.value))
    && CleanOption(l.privacyMark) && CleanOption(l.colour) && CleanOption(l.markingData)
    && forall i :: 0 <= i < |l.categories| ==> CleanCategory(l.categories[i])
  }

  lemma ReadOneMore(before: seq<string>, last: string)
    ensures ReadValues(before + [last]) ==
      if XmlTrim(last) == "" then ReadValues(before) else ReadValues(before) + [XmlTrim(last)]
    ensures ReadValues([]) == []
  {
    hide XmlTrim;
    assert (before + [last])[..|before|] == before;
  }

  lemma SameAppended<T>(s: seq<T>, x: T, t: seq<T>, y: T)
    ensures s + [x] == t + [y] <==> s == t && x == y
  {
    if s + [x] == t + [y] {
      assert (s + [x])[|s|] == x && (t + [y])[|t|] == y && |s| == |t|;
      assert (s + [x])[..|s|] == s && (t + [y])[..|s|] == t;
    }
  }

  lemma {:induction false} ValuesSurviveExactly(values: seq<string>)
    ensures |ReadValues(values)| <= |values|
    ensures ReadValues(values) == values <==> forall i :: 0 <= i < |values| ==> CleanText(values[i])
  {
    hide XmlTrim, ReadValues;
    if values == [] {
      ReadOneMore([], "");
    } else {
      var before, last := values[..|values| - 1], values[|values| - 1];
      ValuesSurviveExactly(before);
      ReadOneMore(before, last);
      SameAppended(ReadValues(before), XmlTrim(last), before, last);
      assert values == before + [last];
      assert forall i :: 0 <= i < |before| ==> before[i] == values[i];
    }
  }

  lemma CategorySurvivesExactly(c: CategoryMarking)
    ensures ReadCategory(c) == c <==> CleanCategory(c)
  {
    hide Escape, ReadValues;
    EscapeFixesExactly(c.tagName);
    ValuesSurviveExactly(c.values);
  }

  lemma CategoriesSurviveExactly(cs: seq<CategoryMarking>)
    ensures ReadCategories(cs) == cs <==> forall i :: 0 <= i < |cs| ==> CleanCategory(cs[i])
  {
    hide ReadCategory, CleanCategory;
    forall i | 0 <= i < |cs|
      ensures ReadCategory(cs[i]) == cs[i] <==> CleanCategory(cs[i])
    {
      CategorySurvivesExactly(cs[i]);
    }
    if ReadCategories(cs) == cs {
      assert forall i :: 0 <= i < |cs| ==> ReadCategories(cs)[i] == ReadCategory(cs[i]);
    }
  }

  /** An alternative keeps its classification and marks only. */
  predicate CleanAlternative(a: Label) {
    && a.policy.identifier == "NATO" && a.policy.oid == None
    && CleanOption(a.privacyMark) && CleanOption(a.colour) && CleanOption(a.markingData)
    && a.categories == [] && a.alternatives == [] && a.creationTime == None && a.reviewTime == None
  }

  /** A label as the document carries it: without the lists of allowed classifications. */
  function Stripped(l: Label): Label {
    l.(policy := l.policy.(allowed := ALL_LEVELS), alternatives := StrippedAll(l.alternatives))
  }

  function StrippedAll(ls: seq<Label>): seq<Label> {
    seq(|ls|, i requires 0 <= i < |ls| => ls[i].(policy := ls[i].policy.(allowed := ALL_LEVELS)))
  }

  lemma AlternativeSurvivesExactly(a: Label)
    ensures ReadAlternative(a) == a.(policy := a.policy.(allowed := ALL_LEVELS)) <==> CleanAlternative(a)
  {
    hide XmlTrim;
  }

  lemma {:induction false} ReadAlternativesAt(ls: seq<Label>, i: nat)
    requires i < |ls|
    ensures |ReadAlternatives(ls)| == |ls| && ReadAlternatives(ls)[i] == ReadAlternative(ls[i])
  {
    hide ReadAlternative;
    AlternativesCount(ls);
    if i < |ls| - 1 {
      ReadAlternativesAt(ls[..|ls| - 1], i);
    } else {
      AlternativesCount(ls[..|ls| - 1]);
    }
  }

  lemma AlternativesSurviveExactly(ls: seq<Label>)
    ensures ReadAlternatives(ls) == StrippedAll(ls) <==> forall i :: 0 <= i < |ls| ==> CleanAlternative(ls[i])
  {
    hide ReadAlternative, CleanAlternative, ReadAlternatives;
    AlternativesCount(ls);
    forall i | 0 <= i < |ls|
      ensures ReadAlternatives(ls)[i] == StrippedAll(ls)[i] <==> CleanAlternative(ls[i])
    {
      ReadAlternativesAt(ls, i);
      AlternativeSurvivesExactly(ls[i]);
    }
  }

  /** Even a clean alternative writes its policy identifier into the outer label, but nothing else. */
  lemma {:induction false} CleanAlternativesWrite(known: string, oid: Option<string>, ls: seq<Label>)
    requires forall i :: 0 <= i < |ls| ==> CleanAlternative(ls[i])
    ensures LastIdentifier(known, ls) == if ls == [] then known else "NATO"
    ensures LastOid(oid, ls) == oid && AllCategories(ls) == []
  {
    hide XmlTrim, ReadCategory;
    if ls == [] {
    } else {
      CleanAlternativesWrite(known, oid, ls[..|ls| - 1]);
      NatoIsTrimmed();
      assert ls[|ls| - 1].policy.identifier == "NATO";
    }
  }

  lemma NatoIsTrimmed()
    ensures XmlTrim("NATO") == "NATO"
  {
    assert XmlTrimStart("NATO") == "NATO";
  }

  /** A label comes back as it was, up to the lists of allowed classifications, which the document does not carry,
      exactly when its texts are trimmed and not empty, its attributes need no escaping, its alternatives have nothing
      but a classification and marks under the NATO policy, and it is itself under that policy if it has any. */
  lemma LabelRoundTripsExactly(l: Label, clock: Clock)
    requires FaithfulClock(clock)
    ensures Read(Received(Written(l, clock)), clock) == Ok(Stripped(l)) <==>
      && Clean(l)
      && (forall i :: 0 <= i < |l.alternatives| ==> CleanAlternative(l.alternatives[i]))
      && (l.alternatives != [] ==> l.policy.identifier == "NATO")
  {
    hide Received, Read, Written, XmlTrim, Escape, ReadCategories, CleanCategory, CleanAlternative, ReadAlternatives,
         StrippedAll, LastIdentifier, LastOid, AllCategories;
    WrittenLabelReads(l, clock);
    CategoriesSurviveExactly(l.categories);
    AlternativesSurviveExactly(l.alternatives);
    if l.policy.oid.Some? {
      EscapeFixesExactly(l.policy.oid.value);
    }
    TrimNotEmpty("NATO");
    NatoIsTrimmed();
    if forall i :: 0 <= i < |l.alternatives| ==> CleanAlternative(l.alternatives[i]) {
      var written := if l.policy.oid.Some? then Some(Escape(l.policy.oid.value)) else None;
      CleanAlternativesWrite(Over("", l.policy.identifier), written, l.alternatives);
      assert ReadCategories(l.categories) + [] == ReadCategories(l.categories);
    }
  }

  /** A policy OID with a markup character is not read back. */
  lemma MarkupIsLost(level: ClassificationLevel, clock: Clock)
    requires FaithfulClock(clock)
    ensures var l := NewLabel(LabelPolicy("NATO", Some("a&b"), ALL_LEVELS), level);
      Read(Received(Written(l, clock)), clock) != Ok(Stripped(l))
  {
    hide Received, Read, Written, Stripped, CleanAlternative;
    var l := NewLabel(LabelPolicy("NATO", Some("a&b"), ALL_LEVELS), level);
    LabelRoundTripsExactly(l, clock);
    assert NeedsEscape("a&b"[1]);
  }

  /** Only a text of white space reads as nothing; the default identifier is not such a text. */
  lemma TrimNotEmpty(s: string)
    requires s != "" && !XmlSpace(s[0])
    ensures XmlTrim(s) != ""
  {
    assert XmlTrimStart(s) == s;
    TrimEndKeepsFirst(s);
  }

  lemma {:induction false} TrimEndKeepsFirst(s: string)
    requires s != "" && !XmlSpace(s[0])
    ensures XmlTrimEnd(s) != ""
  {
    if |s| <= 1 {
    } else {
      TrimEndKeepsFirst(s[..|s| - 1]);
    }
  }

  /** What alternatives do in general: the last alternative's policy identifier replaces the label's own, and its
      categories are added to the label's own, so a label with an alternative that has a category never comes back as it
      was. */
  lemma AlternativeLeaks(l: Label, earlier: seq<Label>, last: Label, clock: Clock, back: Label)
    requires FaithfulClock(clock) && l.alternatives == earlier + [last]
    requires Read(Received(Written(l, clock)), clock) == Ok(back)
    ensures XmlTrim(last.policy.identifier) != "" ==> back.policy.identifier == XmlTrim(last.policy.identifier)
    ensures last.categories != [] ==> back.categories != l.categories
    ensures |back.alternatives| == |l.alternatives|
  {
    hide *;
    WrittenLabelReads(l, clock);
    RereadLeaks(l, earlier, last);
  }

  lemma RereadLeaks(l: Label, earlier: seq<Label>, last: Label)
    requires l.alternatives == earlier + [last]
    ensures XmlTrim(last.policy.identifier) != "" ==> Reread(l).policy.identifier == XmlTrim(last.policy.identifier)
    ensures last.categories != [] ==> Reread(l).categories != l.categories
    ensures |Reread(l).alternatives| == |l.alternatives|
  {
    hide XmlTrim, Escape, ReadCategory, ReadAlternative, LastOid, OverOption;
    assert l.alternatives[..|l.alternatives| - 1] == earlier;
    AlternativesCount(l.alternatives);
    assert |Reread(l).categories| == |l.categories| + |AllCategories(earlier)| + |last.categories|;
  }

  lemma {:induction false} AlternativesCount(ls: seq<Label>)
    ensures |ReadAlternatives(ls)| == |ls|
  {
    if ls == [] {
    } else {
      AlternativesCount(ls[..|ls| - 1]);
    }
  }

  // ---- The writer and the reader as loops

  method WriteTextElement(events: seq<XmlEvent>, tag: Tag, value: string) returns (out: seq<XmlEvent>)
    ensures out == events + TextElement(tag, value)
  {
    out := events + [Start(tag, [])];
    out := out + [TextEvent(value)];
    out := out + [End(tag)];
  }

  method WriteOptionalElement(events: seq<XmlEvent>, tag: Tag, value: Option<string>) returns (out: seq<XmlEvent>)
    ensures out == events + OptionalElement(tag, value)
  {
    out := events;
    if value.Some? {
      out := WriteTextElement(out, tag, value.value);
    }
  }

  method WritePolicyIdentifier(events: seq<XmlEvent>, policy: LabelPolicy) returns (out: seq<XmlEvent>)
    ensures out == events + PolicyElement(policy)
  {
    hide Escape;
    if policy.oid.Some? {
      out := events + [Start(PolicyIdentifier, [Attribute(Url, Escape(policy.oid.value))])];
      out := out + [TextEvent(policy.identifier)];
      out := out + [End(PolicyIdentifier)];
    } else {
      out := WriteTextElement(events, PolicyIdentifier, policy.identifier);
    }
  }

  method WriteConfidentialityInformation(events: seq<XmlEvent>, l: Label) returns (out: seq<XmlEvent>)
    ensures out == events + Information(l)
  {
    hide TextElement, OptionalElement, PolicyElement, CategoryElements, ClassificationLevel.StanagText;
    var start := [Start(ConfidentialityInformation, [])];
    out := events + start;
    out := WritePolicyIdentifier(out, l.policy);
    ghost var done := start + PolicyElement(l.policy);
    assert out == events + done;
    out := WriteTextElement(out, Classification, l.classification.StanagText());
    Regroup(events, done, TextElement(Classification, l.classification.StanagText()));
    done := done + TextElement(Classification, l.classification.StanagText());
    out := WriteOptionalElement(out, PrivacyMark, l.privacyMark);
    Regroup(events, done, OptionalElement(PrivacyMark, l.privacyMark));
    done := done + OptionalElement(PrivacyMark, l.privacyMark);
    out := WriteOptionalElement(out, Colour, l.colour);
    Regroup(events, done, OptionalElement(Colour, l.colour));
    done := done + OptionalElement(Colour, l.colour);
    out := WriteOptionalElement(out, MarkingData, l.markingData);
    Regroup(events, done, OptionalElement(MarkingData, l.markingData));
    done := done + OptionalElement(MarkingData, l.markingData);
    out := WriteCategories(out, l.categories);
    Regroup(events, done, CategoryElements(l.categories));
    done := done + CategoryElements(l.categories);
    out := out + [End(ConfidentialityInformation)];
    Regroup(events, done, [End(ConfidentialityInformation)]);
  }

  lemma Regroup(a: seq<XmlEvent>, b: seq<XmlEvent>, c: seq<XmlEvent>)
    ensures (a + b) + c == a + (b + c)
  {
  }

  method WriteCategories(events: seq<XmlEvent>, categories: seq<CategoryMarking>) returns (out: seq<XmlEvent>)
    ensures out == events + CategoryElements(categories)
  {
    hide CategoryElement;
    out := events;
    for n := 0 to |categories|
      invariant out == events + CategoryElements(categories[..n])
    {
      assert categories[..n + 1][..n] == categories[..n];
      out := WriteCategory(out, categories[n]);
      Regroup(events, CategoryElements(categories[..n]), CategoryElement(categories[n]));
    }
    assert categories[..|categories|] == categories;
  }

  method WriteCategory(events: seq<XmlEvent>, c: CategoryMarking) returns (out: seq<XmlEvent>)
    ensures out == events + CategoryElement(c)
  {
    hide TextElement, CategoryStart;
    out := events + [CategoryStart(c)];
    for k := 0 to |c.values|
      invariant out == events + ([CategoryStart(c)] + ValueElements(c.values[..k]))
    {
      assert c.values[..k + 1][..k] == c.values[..k];
      out := WriteTextElement(out, GenericValue, c.values[k]);
    }
    assert c.values[..|c.values|] == c.values;
    out := out + [End(Category)];
  }

  method Serialize(l: Label, clock: Clock) returns (events: seq<XmlEvent>)
    ensures events == Written(l, clock)
  {
    hide Information, Escape, FaithfulClock;
    events := [Decl];
    var attributes := [Attribute(Xmlns, Escape(NAMESPACE))];
    if l.creationTime.Some? {
      attributes := attributes + [Attribute(CreationTimeKey, Escape(clock.format(l.creationTime.value)))];
    }
    if l.reviewTime.Some? {
      attributes := attributes + [Attribute(ReviewDateTimeKey, Escape(clock.format(l.reviewTime.value)))];
    }
    assert attributes == RootAttributes(l, clock);
    events := events + [Start(ConfidentialityLabel, attributes)];
    events := WriteConfidentialityInformation(events, l);
    events := WriteAlternatives(events, l.alternatives);
    events := events + [End(ConfidentialityLabel)];
  }

  method WriteAlternatives(events: seq<XmlEvent>, alternatives: seq<Label>) returns (out: seq<XmlEvent>)
    ensures out == events + AlternativeElements(alternatives)
  {
    hide Information;
    out := events;
    for n := 0 to |alternatives|
      invariant out == events + AlternativeElements(alternatives[..n])
    {
      assert alternatives[..n + 1][..n] == alternatives[..n];
      ghost var before := out;
      out := out + [Start(AlternativeConfidentialityLabel, [])];
      out := WriteConfidentialityInformation(out, alternatives[n]);
      out := out + [End(AlternativeConfidentialityLabel)];
      assert out == before + AlternativeElement(alternatives[n]);
    }
    assert alternatives[..|alternatives|] == alternatives;
  }

  /** The event loop over the reader's state. */
  method Deserialize(events: seq<XmlEvent>, clock: Clock) returns (r: Result<Label, LabelError>)
    ensures r == Read(events, clock)
  {
    hide ReadEvent, Finish;
    var s := INITIAL;
    for n := 0 to |events|
      invariant ReadAll(INITIAL, events[..n], clock) == Ok(s)
    {
      assert events[..n + 1][..n] == events[..n];
      var step := ReadEvent(s, events[n], clock);
      if step.Err? {
        ReadAllConcat(INITIAL, events[..n + 1], events[n + 1..], clock);
        assert events[..n + 1] + events[n + 1..] == events;
        return Err(step.error);
      }
      s := step.value;
    }
    assert events[..|events|] == events;
    return Finish(s);
  }
}
