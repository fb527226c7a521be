/** Confidentiality labels and security domains. */
module Labeling {
  import opened Wrappers
  import opened Text

  /** NATO classification levels, declared from least to most sensitive. */
  datatype ClassificationLevel =
    Unmarked | Public | Unclassified | Internal | Restricted | Confidential | Secret | CosmicTopSecret
  {
    function Rank(): nat {
      match this
      case Unmarked => 0
      case Public => 1
      case Unclassified => 2
      case Internal => 3
      case Restricted => 4
      case Confidential => 5
      case Secret => 6
      case CosmicTopSecret => 7
    }

    function StanagText(): string {
      match this
      case Unmarked => "UNMARKED"
      case Public => "PUBLIC"
      case Unclassified => "UNCLASSIFIED"
      case Internal => "INTERNAL"
      case Restricted => "RESTRICTED"
      case Confidential => "CONFIDENTIAL"
      case Secret => "SECRET"
      case CosmicTopSecret => "COSMIC TOP SECRET"
    }

    /** Stays at or below `max` in the sensitivity order. */
    predicate AtMost(max: ClassificationLevel) {
      Rank() <= max.Rank()
    }
  }

  const ALL_LEVELS: seq<ClassificationLevel> :=
    [Unmarked, Public, Unclassified, Internal, Restricted, Confidential, Secret, CosmicTopSecret]

  datatype LabelError = InvalidClassification(text: string) | Validation | Parse

  function ParseClassification(value: string): Result<ClassificationLevel, LabelError> {
    LevelNamed(ToAsciiUppercase(Trim(value)))
  }

  function LevelNamed(name: string): Result<ClassificationLevel, LabelError> {
    if name == "UNMARKED" then Ok(Unmarked)
    else if name == "PUBLIC" then Ok(Public)
    else if name == "UNCLASSIFIED" || name == "NATO UNCLASSIFIED" then Ok(Unclassified)
    else if name == "INTERNAL" then Ok(Internal)
    else if name == "RESTRICTED" || name == "NATO RESTRICTED" then Ok(Restricted)
    else if name == "CONFIDENTIAL" || name == "NATO CONFIDENTIAL"
            || name == "NATO/EAPC CONFIDENTIAL" || name == "NATO/KFOR CONFIDENTIAL"
    then Ok(Confidential)
    else if name == "SECRET" || name == "NATO SECRET" then Ok(Secret)
    else if name == "TOP SECRET" || name == "COSMIC TOP SECRET" || name == "COSMIC_TOP_SECRET"
    then Ok(CosmicTopSecret)
    else Err(InvalidClassification(name))
  }

  lemma LevelNames(level: ClassificationLevel)
    ensures LevelNamed(level.StanagText()) == Ok(level)
  {
    NameIsLevels(level.StanagText(), level);
  }

  lemma StanagTextShape(level: ClassificationLevel)
    ensures IsTrimmed(level.StanagText()) && ToAsciiUppercase(level.StanagText()) == level.StanagText()
  {
    var text := level.StanagText();
    assert forall i :: 0 <= i < |text| ==> UpperChar(text[i]) == text[i];
  }

  /** The text written for a level is read back as that level. */
  lemma ClassificationRoundTrip(level: ClassificationLevel)
    ensures ParseClassification(level.StanagText()) == Ok(level)
    ensures Trim(level.StanagText()) == level.StanagText() != ""
  {
    StanagTextShape(level);
    TrimFixes(level.StanagText());
    LevelNames(level);
  }

  /** The levels ascend in this order, and there are no others. */
  lemma LevelsAscend(i: nat, j: nat)
    requires i < |ALL_LEVELS| && j < |ALL_LEVELS|
    ensures ALL_LEVELS[i].AtMost(ALL_LEVELS[j]) <==> i <= j
    ensures forall level: ClassificationLevel :: level in ALL_LEVELS
  {
    forall level: ClassificationLevel
      ensures level in ALL_LEVELS
    {
      assert ALL_LEVELS[level.Rank()] == level;
    }
  }

  /** The names a level goes by. */
  function Names(level: ClassificationLevel): seq<string> {
    match level
    case Unmarked => ["UNMARKED"]
    case Public => ["PUBLIC"]
    case Unclassified => ["UNCLASSIFIED", "NATO UNCLASSIFIED"]
    case Internal => ["INTERNAL"]
    case Restricted => ["RESTRICTED", "NATO RESTRICTED"]
    case Confidential =>
      ["CONFIDENTIAL", "NATO CONFIDENTIAL", "NATO/EAPC CONFIDENTIAL", "NATO/KFOR CONFIDENTIAL"]
    case Secret => ["SECRET", "NATO SECRET"]
    case CosmicTopSecret => ["TOP SECRET", "COSMIC TOP SECRET", "COSMIC_TOP_SECRET"]
  }

  lemma NamedExactly(name: string, level: ClassificationLevel)
    ensures LevelNamed(name) == Ok(level) <==> name in Names(level)
    ensures (forall any: ClassificationLevel :: name !in Names(any)) ==>
              LevelNamed(name) == Err(InvalidClassification(name))
  {
    if name in Names(level) {
      NameIsLevels(name, level);
    }
    match LevelNamed(name) {
      case Err(_) =>
      case Ok(found) =>
        assert name in Names(found);
    }
  }

  lemma NameIsLevels(name: string, level: ClassificationLevel)
    requires name in Names(level)
    ensures LevelNamed(name) == Ok(level)
  {
    hide LevelNamed;
    match level {
      case Unmarked => UnmarkedOrInternalNamed(name, level);
      case Public => PublicNamed(name);
      case Unclassified => UnclassifiedNamed(name);
      case Internal => UnmarkedOrInternalNamed(name, level);
      case Restricted => RestrictedNamed(name);
      case Confidential => ConfidentialNamed(name);
      case Secret => SecretNamed(name);
      case CosmicTopSecret => CosmicTopSecretNamed(name);
    }
  }

  // Names of different levels differ in length, or in their first or sixth character.

  lemma UnmarkedOrInternalNamed(name: string, level: ClassificationLevel)
    requires (level == Unmarked || level == Internal) && name in Names(level)
    ensures LevelNamed(name) == Ok(level)
  {
    assert |name| == 8 && name[0] == if level == Unmarked then 'U' else 'I';
  }

  lemma PublicNamed(name: string)
    requires name in Names(Public)
    ensures LevelNamed(name) == Ok(Public)
  {
    assert |name| == 6 && name[0] == 'P';
  }

  lemma UnclassifiedNamed(name: string)
    requires name in Names(Unclassified)
    ensures LevelNamed(name) == Ok(Unclassified)
  {
    assert (|name| == 12 && name[0] == 'U') || (|name| == 17 && name[0] == 'N' && name[5] == 'U');
  }

  lemma RestrictedNamed(name: string)
    requires name in Names(Restricted)
    ensures LevelNamed(name) == Ok(Restricted)
  {
    assert (|name| == 10 && name[0] == 'R') || |name| == 15;
  }

  lemma ConfidentialNamed(name: string)
    requires name in Names(Confidential)
    ensures LevelNamed(name) == Ok(Confidential)
  {
    assert (|name| == 12 && name[0] == 'C') || (|name| == 17 && name[0] == 'N' && name[5] == 'C') || |name| == 22;
  }

  lemma SecretNamed(name: string)
    requires name in Names(Secret)
    ensures LevelNamed(name) == Ok(Secret)
  {
    assert (|name| == 6 && name[0] == 'S') || |name| == 11;
  }

  lemma CosmicTopSecretNamed(name: string)
    requires name in Names(CosmicTopSecret)
    ensures LevelNamed(name) == Ok(CosmicTopSecret)
  {
    assert (|name| == 10 && name[0] == 'T') || (|name| == 17 && name[0] == 'C');
  }

  /** A text names a level exactly when, trimmed and in upper case, it is one of the level's names; a text that names
      none is reported in that form. */
  lemma ParsedExactly(text: string, level: ClassificationLevel)
    ensures ParseClassification(text) == Ok(level) <==> ToAsciiUppercase(Trim(text)) in Names(level)
    ensures ParseClassification(text).Err? ==>
              ParseClassification(text) == Err(InvalidClassification(ToAsciiUppercase(Trim(text))))
  {
    hide LevelNamed, Names;
    NamedExactly(ToAsciiUppercase(Trim(text)), level);
    UnnamedReported(ToAsciiUppercase(Trim(text)));
  }

  lemma UnnamedReported(name: string)
    ensures LevelNamed(name).Err? ==> LevelNamed(name) == Err(InvalidClassification(name))
  {
  }

  datatype CategoryType = Restrictive | Permissive | Informative

  datatype CategoryMarking = CategoryMarking(tagName: string, kind: CategoryType, values: seq<string>) {
    predicate IsReleasability() {
      EqIgnoreCase(tagName, "Releasable to")
    }
  }

  datatype LabelPolicy = LabelPolicy(identifier: string, oid: Option<string>, allowed: seq<ClassificationLevel>)

  const NATO_OID := "urn:oid:2.16.840.1.101.2.3.6.1.31778.102.25"

  function NatoPolicy(): LabelPolicy {
    LabelPolicy("NATO", Some(NATO_OID), [Unclassified, Restricted, Confidential, Secret, CosmicTopSecret])
  }

  /** An instant; its textual form belongs to the codec. */
  type Instant = int

  datatype Label = Label(
    policy: LabelPolicy,
    classification: ClassificationLevel,
    privacyMark: Option<string>,
    colour: Option<string>,
    markingData: Option<string>,
    categories: seq<CategoryMarking>,
    alternatives: seq<Label>,
    creationTime: Option<Instant>,
    reviewTime: Option<Instant>)
  {
    function Validate(): Result<Unit, LabelError> {
      if policy.identifier == "" then Err(Validation)
      else if classification !in policy.allowed then Err(Validation)
      else if exists i :: 0 <= i < |categories| && (categories[i].tagName == "" || categories[i].values == [])
      then Err(Validation)
      else Ok(Unit)
    }

    function ReleasableCountries(): seq<string> {
      CategoryValues(categories, (c: CategoryMarking) => c.IsReleasability())
    }

    function RestrictiveCategoryValues(): seq<string> {
      CategoryValues(categories, (c: CategoryMarking) => c.kind == Restrictive)
    }
  }

  function NewLabel(policy: LabelPolicy, level: ClassificationLevel): Label {
    Label(policy, level, None, None, None, [], [], None, None)
  }

  /** A label is valid exactly when its policy has a name and allows its level, and every category has a name and a
      value. */
  lemma ValidExactly(l: Label)
    ensures l.Validate().Ok? <==>
      && l.policy.identifier != "" && l.classification in l.policy.allowed
      && forall c :: c in l.categories ==> c.tagName != "" && c.values != []
    ensures l.Validate().Err? ==> l.Validate() == Err(Validation)
  {
  }

  /** The countries a label is releasable to, and its handling caveats, are the values of the categories so named, or of
      that kind. */
  lemma CountriesAndCaveatsExactly(l: Label, v: string)
    ensures v in l.ReleasableCountries() <==>
      exists i :: 0 <= i < |l.categories| && SameLetters(l.categories[i].tagName, "Releasable to")
                    && v in l.categories[i].values
    ensures v in l.RestrictiveCategoryValues() <==>
      exists i :: 0 <= i < |l.categories| && l.categories[i].kind.Restrictive? && v in l.categories[i].values
  {
    hide EqIgnoreCase, SameLetters;
    CategoryValuesMember(l.categories, (c: CategoryMarking) => c.IsReleasability(), v);
    CategoryValuesMember(l.categories, (c: CategoryMarking) => c.kind == Restrictive, v);
    forall i | 0 <= i < |l.categories|
      ensures l.categories[i].IsReleasability() <==> SameLetters(l.categories[i].tagName, "Releasable to")
    {
      EqIgnoreCaseExactly(l.categories[i].tagName, "Releasable to");
    }
  }

  /** All values of the selected categories, in order. */
  function CategoryValues(categories: seq<CategoryMarking>, select: CategoryMarking -> bool): seq<string> {
    if categories == [] then []
    else (if select(categories[0]) then categories[0].values else []) + CategoryValues(categories[1..], select)
  }

  lemma {:induction false} CategoryValuesMember(categories: seq<CategoryMarking>, select: CategoryMarking -> bool,
                                                v: string)
    ensures v in CategoryValues(categories, select)
      <==> exists i :: 0 <= i < |categories| && select(categories[i]) && v in categories[i].values
  {
    if categories == [] {
    } else {
      CategoryValuesMember(categories[1..], select, v);
      if i :| 0 <= i < |categories| && select(categories[i]) && v in categories[i].values {
        assert i > 0 ==> categories[1..][i - 1] == categories[i];
      }
      if v in CategoryValues(categories[1..], select) {
        var j :| 0 <= j < |categories[1..]| && select(categories[1..][j]) && v in categories[1..][j].values;
        assert categories[j + 1] == categories[1..][j];
      }
    }
  }

  datatype SecurityDomain = SecurityDomain(
    id: string,
    name: string,
    maxClassification: ClassificationLevel,
    releasableTo: seq<string>,
    acceptedNationalities: seq<string>,
    missionCompartments: seq<string>)
  {
    predicate AcceptsMission(mission: string) {
      missionCompartments == [] || Mentions(missionCompartments, mission)
    }

    predicate AcceptsCountry(country: string) {
      (acceptedNationalities != [] ==> Mentions(acceptedNationalities, country))
      && (releasableTo == [] || Mentions(releasableTo, country))
    }
  }

  /** A domain accepts a country exactly when it is among its nationalities and among the countries it releases to,
      where an empty list is no restriction; and a mission when it is among its compartments or there are none. */
  lemma AcceptsExactly(domain: SecurityDomain, name: string)
    ensures domain.AcceptsCountry(name) <==>
      && (domain.acceptedNationalities == [] || exists a :: a in domain.acceptedNationalities && SameLetters(a, name))
      && (domain.releasableTo == [] || exists a :: a in domain.releasableTo && SameLetters(a, name))
    ensures domain.AcceptsMission(name) <==>
      domain.missionCompartments == [] || exists a :: a in domain.missionCompartments && SameLetters(a, name)
  {
    hide SameLetters, Mentions;
    MentionsExactly(domain.acceptedNationalities, name);
    MentionsExactly(domain.releasableTo, name);
    MentionsExactly(domain.missionCompartments, name);
  }

  lemma MentionsExactly(items: seq<string>, text: string)
    ensures Mentions(items, text) <==> exists a :: a in items && SameLetters(a, text)
  {
    hide EqIgnoreCase, SameLetters;
    forall i | 0 <= i < |items|
      ensures items[i] in items && (EqIgnoreCase(items[i], text) <==> SameLetters(items[i], text))
    {
      EqIgnoreCaseExactly(items[i], text);
    }
  }

  /** Some element equals the text, ignoring ASCII case. */
  predicate Mentions(items: seq<string>, text: string) {
    exists i :: 0 <= i < |items| && EqIgnoreCase(items[i], text)
  }
}
