/** The policy plane: context assembly, decision and enforcement. */
module Policy {
  import opened Wrappers
  import opened Labeling
  import opened Downgrade

  datatype AccessOperation = Read | Write | Delete | CrossDomainTransfer

  datatype Subject = Subject(
    id: string,
    clearance: ClassificationLevel,
    nationality: Option<string>,
    caveats: seq<string>,
    mission: Option<string>)
  {
    predicate HoldsCaveat(caveat: string) {
      Mentions(caveats, caveat)
    }
  }

  datatype Resource = Resource(
    classification: ClassificationLevel,
    countries: seq<string>,
    policyId: string,
    caveats: seq<string>)

  function ResourceOf(original: Label): Resource {
    Resource(original.classification, original.ReleasableCountries(), original.policy.identifier,
             original.RestrictiveCategoryValues())
  }

  datatype Environment = Environment(
    operation: AccessOperation,
    source: string,
    target: Option<string>,
    mission: Option<string>)

  datatype Context = Context(subject: Subject, resource: Resource, environment: Environment, original: Label)

  datatype CrossDomainPolicy = CrossDomainPolicy(id: string, source: string, target: string, allowDowngrade: bool)

  datatype PolicyStore = PolicyStore(
    domains: map<string, SecurityDomain>,
    policies: seq<CrossDomainPolicy>,
    downgrade: DowngradeConfig)
  {
    predicate HasPolicyForPair(source: string, target: string) {
      exists i :: 0 <= i < |policies| && policies[i].source == source && policies[i].target == target
    }
  }

  /** Why a request is denied; the source carries the same data inside a message. */
  datatype DenyReason =
    | LacksCaveat(caveat: string)
    | MissionRequired
    | MissionNotInSource(mission: string)
    | MissionNotInTarget(mission: string)
    | ClearanceInsufficient
    | ExceedsDomainMax
    | NationalityNotReleasable(nationality: string)
    | NationalityNotAccepted(nationality: string)
    | CountryNotPermitted(country: string)

  datatype Decision = Permit(released: Label) | Deny(reason: DenyReason) | Downgraded(released: Label)

  datatype PolicyError = Denied(reason: DenyReason) | NotFound | Invalid | Rejected(error: LabelError)

  // ---- Policy decision point

  /** The first caveat the subject lacks. */
  function CheckCaveats(subject: Subject, caveats: seq<string>): (r: Option<DenyReason>)
    ensures r.None? <==> forall i :: 0 <= i < |caveats| ==> subject.HoldsCaveat(caveats[i])
    ensures r.Some? ==> r.value.LacksCaveat?
  {
    if caveats == [] then None
    else if !subject.HoldsCaveat(caveats[0]) then Some(LacksCaveat(caveats[0]))
    else
      assert forall i :: 0 <= i < |caveats[1..]| ==> caveats[1..][i] == caveats[i + 1];
      CheckCaveats(subject, caveats[1..])
  }

  /** The first releasability country the domain does not accept. */
  function CheckCountries(domain: SecurityDomain, countries: seq<string>): (r: Option<DenyReason>)
    ensures r.None? <==> forall i :: 0 <= i < |countries| ==> domain.AcceptsCountry(countries[i])
    ensures r.Some? ==> r.value.CountryNotPermitted?
  {
    if countries == [] then None
    else if !domain.AcceptsCountry(countries[0]) then Some(CountryNotPermitted(countries[0]))
    else
      assert forall i :: 0 <= i < |countries[1..]| ==> countries[1..][i] == countries[i + 1];
      CheckCountries(domain, countries[1..])
  }

  function CheckMission(mission: Option<string>, source: SecurityDomain, target: Option<SecurityDomain>)
    : Option<DenyReason> {
    var required := source.missionCompartments != [] || (target.Some? && target.value.missionCompartments != []);
    if !required then None
    else if mission.None? then Some(MissionRequired)
    else if !source.AcceptsMission(mission.value) then Some(MissionNotInSource(mission.value))
    else if target.Some? && !target.value.AcceptsMission(mission.value) then Some(MissionNotInTarget(mission.value))
    else None
  }

  function ResolveMission(context: Context): Option<string> {
    if context.environment.mission.Some? then context.environment.mission else context.subject.mission
  }

  function CheckNationality(context: Context, domain: SecurityDomain): Option<DenyReason> {
    match context.subject.nationality
    case None => None
    case Some(n) =>
      if context.resource.countries != [] && n !in context.resource.countries then Some(NationalityNotReleasable(n))
      else if !domain.AcceptsCountry(n) then Some(NationalityNotAccepted(n))
      else None
  }

  function EvaluateAccess(store: PolicyStore, context: Context): Result<Decision, PolicyError> {
    if context.environment.source !in store.domains then Err(NotFound) else
      var domain := store.domains[context.environment.source];
      match CheckCaveats(context.subject, context.resource.caveats)
      case Some(deny) => Ok(Deny(deny))
      case None =>
        match CheckMission(ResolveMission(context), domain, None)
        case Some(deny) => Ok(Deny(deny))
        case None =>
          if !context.resource.classification.AtMost(context.subject.clearance) then Ok(Deny(ClearanceInsufficient))
          else if !context.resource.classification.AtMost(domain.maxClassification) then Ok(Deny(ExceedsDomainMax))
          else
            match CheckNationality(context, domain)
            case Some(deny) => Ok(Deny(deny))
            case None =>
              match CheckCountries(domain, context.resource.countries)
              case Some(deny) => Ok(Deny(deny))
              case None => Ok(Permit(context.original))
  }

  function EvaluateCrossDomain(store: PolicyStore, context: Context): Result<Decision, PolicyError> {
    if context.environment.target.None? then Err(Invalid) else
      var source, target := context.environment.source, context.environment.target.value;
      if !store.HasPolicyForPair(source, target) then Err(NotFound)
      else if source !in store.domains || target !in store.domains then Err(NotFound)
      else
        var to := store.domains[target];
        match CheckCaveats(context.subject, context.resource.caveats)
        case Some(deny) => Ok(Deny(deny))
        case None =>
          match CheckMission(ResolveMission(context), store.domains[source], Some(to))
          case Some(deny) => Ok(Deny(deny))
          case None =>
            match CheckCountries(to, context.resource.countries)
            case Some(deny) => Ok(Deny(deny))
            case None =>
              if context.original.classification.AtMost(to.maxClassification) then Ok(Permit(context.original))
              else if Unclassified.AtMost(to.maxClassification) then
                match DowngradedLabel(context.original, to, store.downgrade)
                case Ok(released) => Ok(Downgraded(released))
                case Err(e) => Err(Rejected(e))
              else Ok(Deny(ExceedsDomainMax))
  }

  function Evaluate(store: PolicyStore, context: Context): Result<Decision, PolicyError> {
    if context.environment.operation == CrossDomainTransfer
    then EvaluateCrossDomain(store, context)
    else EvaluateAccess(store, context)
  }

  // ---- Policy information point and enforcement point

  function AccessContext(subject: Subject, original: Label, operation: AccessOperation, domain: SecurityDomain)
    : Result<Context, PolicyError>
  {
    match original.Validate()
    case Err(e) => Err(Rejected(e))
    case Ok(_) => Ok(Context(subject, ResourceOf(original), Environment(operation, domain.id, None, None), original))
  }

  function CrossDomainContext(subject: Subject, original: Label, source: SecurityDomain, target: SecurityDomain,
                              mission: Option<string>): Result<Context, PolicyError>
  {
    match original.Validate()
    case Err(e) => Err(Rejected(e))
    case Ok(_) =>
      if source.id == target.id then Err(Invalid) else
        var effective := if mission.Some? then mission else subject.mission;
        Ok(Context(subject, ResourceOf(original),
                   Environment(CrossDomainTransfer, source.id, Some(target.id), effective), original))
  }

  function AccessDecision(store: PolicyStore, subject: Subject, original: Label, operation: AccessOperation,
                          domain: SecurityDomain): Result<Decision, PolicyError>
  {
    match AccessContext(subject, original, operation, domain)
    case Err(e) => Err(e)
    case Ok(context) => Evaluate(store, context)
  }

  function CrossDomainDecision(store: PolicyStore, subject: Subject, original: Label, source: SecurityDomain,
                               target: SecurityDomain, mission: Option<string>): Result<Decision, PolicyError>
  {
    match CrossDomainContext(subject, original, source, target, mission)
    case Err(e) => Err(e)
    case Ok(context) => Evaluate(store, context)
  }

  function EnforceAccess(store: PolicyStore, subject: Subject, original: Label, operation: AccessOperation,
                         domain: SecurityDomain): Result<Decision, PolicyError>
  {
    match AccessDecision(store, subject, original, operation, domain)
    case Err(e) => Err(e)
    case Ok(Deny(reason)) => Err(Denied(reason))
    case Ok(decision) => Ok(decision)
  }

  // ---- What a local decision means

  /** The subject satisfies every requirement the label and the domain put on the person asking. */
  ghost predicate SubjectSuits(subject: Subject, original: Label, domain: SecurityDomain) {
    && (forall c :: c in original.RestrictiveCategoryValues() ==> subject.HoldsCaveat(c))
    && (domain.missionCompartments != [] ==> subject.mission.Some? && domain.AcceptsMission(subject.mission.value))
    && original.classification.AtMost(subject.clearance)
    && (subject.nationality.Some? ==>
          && domain.AcceptsCountry(subject.nationality.value)
          && (original.ReleasableCountries() != [] ==> subject.nationality.value in original.ReleasableCountries()))
  }

  /** The label may live in the domain, whoever asks. */
  ghost predicate LabelFits(original: Label, domain: SecurityDomain) {
    && original.classification.AtMost(domain.maxClassification)
    && forall c :: c in original.ReleasableCountries() ==> domain.AcceptsCountry(c)
  }

  /** For a registered domain and a valid label, local access is granted exactly when the subject suits and
      the label fits; the decision then carries the label unchanged. It does not depend on the operation. */
  lemma AccessGrantedExactly(store: PolicyStore, subject: Subject, original: Label, operation: AccessOperation,
                             domain: SecurityDomain)
    requires operation != CrossDomainTransfer
    ensures EnforceAccess(store, subject, original, operation, domain).Ok?
      <==> original.Validate().Ok? && domain.id in store.domains
           && SubjectSuits(subject, original, store.domains[domain.id]) && LabelFits(original, store.domains[domain.id])
    ensures EnforceAccess(store, subject, original, operation, domain).Ok?
      ==> EnforceAccess(store, subject, original, operation, domain) == Ok(Permit(original))
  {
    hide Mentions, CategoryValues, CheckCaveats, CheckCountries;
    if original.Validate().Ok? && domain.id in store.domains {
      var registered := store.domains[domain.id];
      var caveats, countries := original.RestrictiveCategoryValues(), original.ReleasableCountries();
      assert (forall c :: c in caveats ==> subject.HoldsCaveat(c))
        <==> (forall i :: 0 <= i < |caveats| ==> subject.HoldsCaveat(caveats[i]));
      assert (forall c :: c in countries ==> registered.AcceptsCountry(c))
        <==> (forall i :: 0 <= i < |countries| ==> registered.AcceptsCountry(countries[i]));
    }
  }

  /** The stated reason holds of the request: what is reported missing is missing, what is reported too high is too
      high. */
  ghost predicate Justifies(reason: DenyReason, subject: Subject, original: Label, domain: SecurityDomain) {
    match reason
    case LacksCaveat(c) => c in original.RestrictiveCategoryValues() && !subject.HoldsCaveat(c)
    case MissionRequired => domain.missionCompartments != [] && subject.mission.None?
    case MissionNotInSource(m) => subject.mission == Some(m) && !domain.AcceptsMission(m)
    case MissionNotInTarget(_) => false
    case ClearanceInsufficient => subject.clearance.Rank() < original.classification.Rank()
    case ExceedsDomainMax => domain.maxClassification.Rank() < original.classification.Rank()
    case NationalityNotReleasable(n) =>
      subject.nationality == Some(n) && original.ReleasableCountries() != [] && n !in original.ReleasableCountries()
    case NationalityNotAccepted(n) => subject.nationality == Some(n) && !domain.AcceptsCountry(n)
    case CountryNotPermitted(c) => c in original.ReleasableCountries() && !domain.AcceptsCountry(c)
  }

  lemma DenialIsJustified(store: PolicyStore, subject: Subject, original: Label, operation: AccessOperation,
                          domain: SecurityDomain, reason: DenyReason)
    requires operation != CrossDomainTransfer
    requires EnforceAccess(store, subject, original, operation, domain) == Err(Denied(reason))
    ensures domain.id in store.domains && Justifies(reason, subject, original, store.domains[domain.id])
  {
    hide Mentions, CategoryValues, CheckCaveats, CheckCountries;
    MissingCaveat(subject, original.RestrictiveCategoryValues());
    RefusedCountry(store.domains[domain.id], original.ReleasableCountries());
  }

  lemma {:induction false} MissingCaveat(subject: Subject, caveats: seq<string>)
    ensures var r := CheckCaveats(subject, caveats);
      r.Some? ==> r.value.caveat in caveats && !subject.HoldsCaveat(r.value.caveat)
  {
    if caveats == [] || !subject.HoldsCaveat(caveats[0]) {
    } else {
      MissingCaveat(subject, caveats[1..]);
    }
  }

  lemma {:induction false} RefusedCountry(domain: SecurityDomain, countries: seq<string>)
    ensures var r := CheckCountries(domain, countries);
      r.Some? ==> r.value.country in countries && !domain.AcceptsCountry(r.value.country)
  {
    if countries == [] || !domain.AcceptsCountry(countries[0]) {
    } else {
      RefusedCountry(domain, countries[1..]);
    }
  }

  // ---- Which requests are errors, and which reason a denial names

  /** The first element that fails a test. */
  ghost predicate FirstFailing(s: seq<string>, test: string -> bool, c: string) {
    exists i :: 0 <= i < |s| && s[i] == c && !test(c) && forall k :: 0 <= k < i ==> test(s[k])
  }

  lemma FirstOrLater(s: seq<string>, test: string -> bool, c: string)
    requires s != []
    ensures FirstFailing(s, test, c) <==> if test(s[0]) then FirstFailing(s[1..], test, c) else c == s[0]
  {
    var rest := s[1..];
    if test(s[0]) && FirstFailing(rest, test, c) {
      var i :| 0 <= i < |rest| && rest[i] == c && !test(c) && forall k :: 0 <= k < i ==> test(rest[k]);
      forall k | 0 <= k < i + 1
        ensures test(s[k])
      {
        assert k > 0 ==> s[k] == rest[k - 1];
      }
      assert s[i + 1] == c;
    }
    if FirstFailing(s, test, c) {
      var i :| 0 <= i < |s| && s[i] == c && !test(c) && forall k :: 0 <= k < i ==> test(s[k]);
      if i > 0 {
        assert rest[i - 1] == c;
        forall k | 0 <= k < i - 1
          ensures test(rest[k])
        {
          assert rest[k] == s[k + 1];
        }
      }
    }
  }

  lemma NoneFails(s: seq<string>, test: string -> bool)
    requires forall c :: c in s ==> test(c)
    ensures forall c :: !FirstFailing(s, test, c)
  {
  }

  ghost predicate FirstLacking(subject: Subject, caveats: seq<string>, c: string) {
    FirstFailing(caveats, x => subject.HoldsCaveat(x), c)
  }

  ghost predicate FirstRefused(domain: SecurityDomain, countries: seq<string>, c: string) {
    FirstFailing(countries, x => domain.AcceptsCountry(x), c)
  }

  ghost predicate CaveatsHeld(subject: Subject, original: Label) {
    forall c :: c in original.RestrictiveCategoryValues() ==> subject.HoldsCaveat(c)
  }

  ghost predicate MissionFits(mission: Option<string>, domain: SecurityDomain) {
    domain.missionCompartments != [] ==> mission.Some? && domain.AcceptsMission(mission.value)
  }

  ghost predicate NationalityFits(subject: Subject, original: Label, domain: SecurityDomain) {
    subject.nationality.Some? ==>
      && domain.AcceptsCountry(subject.nationality.value)
      && (original.ReleasableCountries() != [] ==> subject.nationality.value in original.ReleasableCountries())
  }

  /** The reason holds, and everything that is looked at before it is in order: caveats, mission, clearance, the
      domain's maximum, nationality, and last the countries the label is releasable to. */
  ghost predicate FirstFailure(reason: DenyReason, subject: Subject, original: Label, domain: SecurityDomain) {
    var countries := original.ReleasableCountries();
    var level := original.classification;
    match reason
    case LacksCaveat(c) => FirstLacking(subject, original.RestrictiveCategoryValues(), c)
    case MissionRequired => CaveatsHeld(subject, original) && domain.missionCompartments != [] && subject.mission.None?
    case MissionNotInSource(m) => CaveatsHeld(subject, original) && subject.mission == Some(m) &&
        !domain.AcceptsMission(m)
    case MissionNotInTarget(_) => false
    case ClearanceInsufficient =>
      CaveatsHeld(subject, original) && MissionFits(subject.mission, domain) && !level.AtMost(subject.clearance)
    case ExceedsDomainMax =>
      && CaveatsHeld(subject, original) && MissionFits(subject.mission, domain)
      && level.AtMost(subject.clearance) && !level.AtMost(domain.maxClassification)
    case NationalityNotReleasable(n) =>
      && CaveatsHeld(subject, original) && MissionFits(subject.mission, domain)
      && level.AtMost(subject.clearance) && level.AtMost(domain.maxClassification)
      && subject.nationality == Some(n) && countries != [] && n !in countries
    case NationalityNotAccepted(n) =>
      && CaveatsHeld(subject, original) && MissionFits(subject.mission, domain)
      && level.AtMost(subject.clearance) && level.AtMost(domain.maxClassification)
      && subject.nationality == Some(n) && (countries == [] || n in countries) && !domain.AcceptsCountry(n)
    case CountryNotPermitted(c) =>
      && CaveatsHeld(subject, original) && MissionFits(subject.mission, domain)
      && level.AtMost(subject.clearance) && level.AtMost(domain.maxClassification)
      && NationalityFits(subject, original, domain) && FirstRefused(domain, countries, c)
  }

  lemma {:induction false} LackingIsFirst(subject: Subject, caveats: seq<string>, reason: DenyReason)
    ensures CheckCaveats(subject, caveats) == Some(reason) <==>
      reason.LacksCaveat? && FirstLacking(subject, caveats, reason.caveat)
  {
    hide Mentions, FirstFailing;
    if caveats == [] {
      assert reason.LacksCaveat? ==> !FirstLacking(subject, caveats, reason.caveat) by {
        NoneFails(caveats, x => subject.HoldsCaveat(x));
      }
    } else {
      LackingIsFirst(subject, caveats[1..], reason);
      if reason.LacksCaveat? {
        FirstOrLater(caveats, x => subject.HoldsCaveat(x), reason.caveat);
      }
    }
  }

  lemma {:induction false} RefusedIsFirst(domain: SecurityDomain, countries: seq<string>, reason: DenyReason)
    ensures CheckCountries(domain, countries) == Some(reason) <==>
      reason.CountryNotPermitted? && FirstRefused(domain, countries, reason.country)
  {
    hide Mentions, FirstFailing;
    if countries == [] {
      assert reason.CountryNotPermitted? ==> !FirstRefused(domain, countries, reason.country) by {
        NoneFails(countries, x => domain.AcceptsCountry(x));
      }
    } else {
      RefusedIsFirst(domain, countries[1..], reason);
      if reason.CountryNotPermitted? {
        FirstOrLater(countries, x => domain.AcceptsCountry(x), reason.country);
      }
    }
  }

  /** A local request is an error exactly when its label is invalid or its domain unknown; otherwise it is denied
      exactly for the first requirement that fails, and granted when none does. */
  lemma AccessOutcomeExactly(store: PolicyStore, subject: Subject, original: Label, operation: AccessOperation,
                             domain: SecurityDomain, reason: DenyReason)
    requires operation != CrossDomainTransfer
    ensures var r := EnforceAccess(store, subject, original, operation, domain);
      && (original.Validate().Err? ==> r == Err(Rejected(original.Validate().error)))
      && (original.Validate().Ok? && domain.id !in store.domains ==> r == Err(NotFound))
      && (original.Validate().Ok? && domain.id in store.domains ==>
            && (r.Ok? || (r.error.Denied? && FirstFailure(r.error.reason, subject, original, store.domains[domain.id])))
            && (r == Err(Denied(reason)) <==> FirstFailure(reason, subject, original, store.domains[domain.id])))
  {
    hide Mentions, CategoryValues, CheckCaveats, CheckCountries, FirstLacking, FirstRefused;
    if original.Validate().Ok? && domain.id in store.domains {
      var caveats, countries := original.RestrictiveCategoryValues(), original.ReleasableCountries();
      var registered := store.domains[domain.id];
      forall x: DenyReason
        ensures CheckCaveats(subject, caveats) == Some(x) <==>
                  x.LacksCaveat? && FirstLacking(subject, caveats, x.caveat)
        ensures CheckCountries(registered, countries) == Some(x) <==>
          x.CountryNotPermitted? && FirstRefused(registered, countries, x.country)
      {
        LackingIsFirst(subject, caveats, x);
        RefusedIsFirst(registered, countries, x);
      }
      NoneLacking(subject, caveats);
    }
  }

  lemma NoneLacking(subject: Subject, caveats: seq<string>)
    ensures CheckCaveats(subject, caveats).None? <==> forall c :: c in caveats ==> subject.HoldsCaveat(c)
    ensures CheckCaveats(subject, caveats).None? ==> forall c :: !FirstLacking(subject, caveats, c)
  {
    hide Mentions, CheckCaveats, FirstFailing;
    if CheckCaveats(subject, caveats).None? {
      NoneFails(caveats, x => subject.HoldsCaveat(x));
    }
  }

  /** One subject is cleared for at least what another is, with the same nationality and mission. */
  ghost predicate Dominates(strong: Subject, weak: Subject) {
    && weak.clearance.AtMost(strong.clearance)
    && (forall c :: weak.HoldsCaveat(c) ==> strong.HoldsCaveat(c))
    && strong.nationality == weak.nationality
    && strong.mission == weak.mission
  }

  lemma AccessIsMonotone(store: PolicyStore, strong: Subject, weak: Subject, original: Label,
                         operation: AccessOperation, domain: SecurityDomain)
    requires operation != CrossDomainTransfer
    requires Dominates(strong, weak)
    requires EnforceAccess(store, weak, original, operation, domain).Ok?
    ensures EnforceAccess(store, strong, original, operation, domain).Ok?
  {
    AccessGrantedExactly(store, weak, original, operation, domain);
    AccessGrantedExactly(store, strong, original, operation, domain);
  }

  // ---- What a cross-domain release means

  lemma PolicyForPair(store: PolicyStore, source: string, target: string)
    ensures store.HasPolicyForPair(source, target) <==>
      exists p :: p in store.policies && p.source == source && p.target == target
  {
    if store.HasPolicyForPair(source, target) {
      var i :| 0 <= i < |store.policies| && store.policies[i].source == source && store.policies[i].target == target;
      assert store.policies[i] in store.policies;
    }
  }

  /** What a release must satisfy before its classification is looked at. */
  ghost predicate TransferAllowed(store: PolicyStore, subject: Subject, original: Label, source: SecurityDomain,
                                  target: SecurityDomain, mission: Option<string>)
  {
    && original.Validate().Ok? && source.id != target.id
    && (exists p :: p in store.policies && p.source == source.id && p.target == target.id)
    && source.id in store.domains && target.id in store.domains
    && (forall c :: c in original.RestrictiveCategoryValues() ==> subject.HoldsCaveat(c))
    && (forall c :: c in original.ReleasableCountries() ==> store.domains[target.id].AcceptsCountry(c))
    && var presented := if mission.Some? then mission else subject.mission;
       forall d :: d in {store.domains[source.id], store.domains[target.id]} && d.missionCompartments != []
         ==> presented.Some? && d.AcceptsMission(presented.value)
  }

  /** The outcome of every cross-domain request that is neither refused nor in error: the label itself when
      it fits under the target's maximum, otherwise the label with only its classification lowered to it. */
  lemma ReleaseOutcome(store: PolicyStore, subject: Subject, original: Label, source: SecurityDomain,
                       target: SecurityDomain, mission: Option<string>)
    ensures var decision := CrossDomainDecision(store, subject, original, source, target, mission);
      && (decision.Ok? && !decision.value.Deny? ==> TransferAllowed(store, subject, original, source, target, mission))
      && (TransferAllowed(store, subject, original, source, target, mission) ==>
          var max := store.domains[target.id].maxClassification;
          decision == if original.classification.AtMost(max) then Ok(Permit(original))
                      else if !Unclassified.AtMost(max) then Ok(Deny(ExceedsDomainMax))
                      else if max in original.policy.allowed then Ok(Downgraded(original.(classification := max)))
                      else Err(Rejected(Validation)))
  {
    hide Mentions, CategoryValues, CheckCaveats, CheckCountries, DowngradedCategories;
    PolicyForPair(store, source.id, target.id);
    if original.Validate().Ok? && source.id != target.id && store.HasPolicyForPair(source.id, target.id)
       && source.id in store.domains && target.id in store.domains {
      var to := store.domains[target.id];
      var caveats, countries := original.RestrictiveCategoryValues(), original.ReleasableCountries();
      assert (forall c :: c in caveats ==> subject.HoldsCaveat(c))
        <==> (forall i :: 0 <= i < |caveats| ==> subject.HoldsCaveat(caveats[i]));
      assert (forall c :: c in countries ==> to.AcceptsCountry(c))
        <==> (forall i :: 0 <= i < |countries| ==> to.AcceptsCountry(countries[i]));
      if TransferAllowed(store, subject, original, source, target, mission)
      {
        IntersectionKeepsAccepted(original, to, store.downgrade);
      }
    }
  }

  /** The label is valid, and the transfer is between two registered domains for which there is a policy. */
  ghost predicate TransferReady(store: PolicyStore, original: Label, source: SecurityDomain, target: SecurityDomain) {
    && original.Validate().Ok? && source.id != target.id
    && (exists p :: p in store.policies && p.source == source.id && p.target == target.id)
    && source.id in store.domains && target.id in store.domains
  }

  /** The reason holds, and everything that is looked at before it is in order: caveats, mission, the countries the
      label is releasable to, and last the target's maximum. */
  ghost predicate FirstTransferFailure(reason: DenyReason, subject: Subject, original: Label, from: SecurityDomain,
                                       target: SecurityDomain, presented: Option<string>)
  {
    match reason
    case LacksCaveat(c) => FirstLacking(subject, original.RestrictiveCategoryValues(), c)
    case MissionRequired =>
      && CaveatsHeld(subject, original) && presented.None?
      && (from.missionCompartments != [] || target.missionCompartments != [])
    case MissionNotInSource(m) => CaveatsHeld(subject, original) && presented == Some(m) && !from.AcceptsMission(m)
    case MissionNotInTarget(m) =>
      CaveatsHeld(subject, original) && presented == Some(m) && from.AcceptsMission(m) && !target.AcceptsMission(m)
    case CountryNotPermitted(c) =>
      && CaveatsHeld(subject, original) && MissionFits(presented, from) && MissionFits(presented, target)
      && FirstRefused(target, original.ReleasableCountries(), c)
    case ExceedsDomainMax =>
      && CaveatsHeld(subject, original) && MissionFits(presented, from) && MissionFits(presented, target)
      && (forall c :: c in original.ReleasableCountries() ==> target.AcceptsCountry(c))
      && !original.classification.AtMost(target.maxClassification) && !Unclassified.AtMost(target.maxClassification)
    case _ => false
  }

  /** A cross-domain request is an error exactly when its label is invalid, its domains are the same, no policy covers
      them, one is unknown, or the lowered label is invalid; it is denied exactly for the first requirement that
      fails. */
  lemma TransferOutcomeExactly(store: PolicyStore, subject: Subject, original: Label, source: SecurityDomain,
                               target: SecurityDomain, mission: Option<string>, reason: DenyReason)
    ensures var r := CrossDomainDecision(store, subject, original, source, target, mission);
      && (original.Validate().Err? ==> r == Err(Rejected(original.Validate().error)))
      && (original.Validate().Ok? && source.id == target.id ==> r == Err(Invalid))
      && (original.Validate().Ok? && source.id != target.id && !TransferReady(store, original, source, target) ==>
            r == Err(NotFound))
      && (TransferReady(store, original, source, target) ==>
            var presented := if mission.Some? then mission else subject.mission;
            && (r == Ok(Deny(reason)) <==>
                  FirstTransferFailure(reason, subject, original, store.domains[source.id], store.domains[target.id],
                                       presented))
            && (r.Err? ==> r == Err(Rejected(Validation))
                           && TransferAllowed(store, subject, original, source, target, mission)))
  {
    hide CrossDomainDecision, TransferReady, FirstTransferFailure, TransferAllowed;
    if TransferReady(store, original, source, target) {
      TransferReadyOutcome(store, subject, original, source, target, mission, reason);
    }
    TransferNotReady(store, subject, original, source, target, mission);
  }

  lemma TransferNotReady(store: PolicyStore, subject: Subject, original: Label, source: SecurityDomain,
                         target: SecurityDomain, mission: Option<string>)
    ensures var r := CrossDomainDecision(store, subject, original, source, target, mission);
      && (original.Validate().Err? ==> r == Err(Rejected(original.Validate().error)))
      && (original.Validate().Ok? && source.id == target.id ==> r == Err(Invalid))
      && (original.Validate().Ok? && source.id != target.id && !TransferReady(store, original, source, target) ==>
            r == Err(NotFound))
    ensures TransferReady(store, original, source, target) ==> original.Validate().Ok? && source.id != target.id
  {
    hide Label.Validate, CheckCaveats, CheckCountries, CheckMission, ResourceOf, DowngradedLabel;
    PolicyForPair(store, source.id, target.id);
  }

  lemma TransferReadyOutcome(store: PolicyStore, subject: Subject, original: Label, source: SecurityDomain,
                             target: SecurityDomain, mission: Option<string>, reason: DenyReason)
    requires TransferReady(store, original, source, target)
    ensures var r := CrossDomainDecision(store, subject, original, source, target, mission);
      var presented := if mission.Some? then mission else subject.mission;
      && (r == Ok(Deny(reason)) <==>
            FirstTransferFailure(reason, subject, original, store.domains[source.id], store.domains[target.id],
                                 presented))
      && (r.Err? ==> r == Err(Rejected(Validation))
                     && TransferAllowed(store, subject, original, source, target, mission))
  {
    hide Mentions, CategoryValues, CheckCaveats, CheckCountries, FirstFailing, DowngradedCategories;
    PolicyForPair(store, source.id, target.id);
    var caveats, countries := original.RestrictiveCategoryValues(), original.ReleasableCountries();
    var to := store.domains[target.id];
    forall x: DenyReason
      ensures CheckCaveats(subject, caveats) == Some(x) <==> x.LacksCaveat? && FirstLacking(subject, caveats, x.caveat)
      ensures CheckCountries(to, countries) == Some(x) <==>
        x.CountryNotPermitted? && FirstRefused(to, countries, x.country)
    {
      LackingIsFirst(subject, caveats, x);
      RefusedIsFirst(to, countries, x);
    }
    NoneLacking(subject, caveats);
    NoneRefused(to, countries);
    ReleaseOutcome(store, subject, original, source, target, mission);
  }

  lemma NoneRefused(domain: SecurityDomain, countries: seq<string>)
    ensures CheckCountries(domain, countries).None? <==> forall c :: c in countries ==> domain.AcceptsCountry(c)
    ensures CheckCountries(domain, countries).None? ==> forall c :: !FirstRefused(domain, countries, c)
  {
    hide Mentions, CheckCountries, FirstFailing;
    if CheckCountries(domain, countries).None? {
      NoneFails(countries, x => domain.AcceptsCountry(x));
    }
  }

  // ---- A setting without effect

  /** Two stores whose policies agree on everything but whether they allow downgrading. */
  ghost predicate DifferInAllowDowngrade(a: PolicyStore, b: PolicyStore) {
    && a.domains == b.domains && a.downgrade == b.downgrade && |a.policies| == |b.policies|
    && forall i :: 0 <= i < |a.policies| ==>
         a.policies[i].(allowDowngrade := true) == b.policies[i].(allowDowngrade := true)
  }

  /** No decision depends on whether a cross-domain policy allows downgrading. */
  lemma AllowDowngradeIsIgnored(a: PolicyStore, b: PolicyStore, subject: Subject, original: Label,
                                source: SecurityDomain,
                                target: SecurityDomain, mission: Option<string>)
    requires DifferInAllowDowngrade(a, b)
    ensures CrossDomainDecision(a, subject, original, source, target, mission)
      == CrossDomainDecision(b, subject, original, source, target, mission)
  {
    hide Mentions, CategoryValues, CheckCaveats, CheckCountries, CheckMission, DowngradedLabel;
    assert a.HasPolicyForPair(source.id, target.id) <==> b.HasPolicyForPair(source.id, target.id) by {
      assert forall i :: 0 <= i < |a.policies| ==>
          a.policies[i].source == b.policies[i].source && a.policies[i].target == b.policies[i].target;
    }
  }

  /** So a label is downgraded exactly when the checks pass, it exceeds the target's maximum, and the label's own policy
      allows that maximum, even where the cross-domain policy forbids downgrading. */
  lemma DowngradedExactly(store: PolicyStore, subject: Subject, original: Label, source: SecurityDomain,
                          target: SecurityDomain, mission: Option<string>)
    ensures var decision := CrossDomainDecision(store, subject, original, source, target, mission);
      decision.Ok? && decision.value.Downgraded? <==>
        && TransferAllowed(store, subject, original, source, target, mission)
        && var max := store.domains[target.id].maxClassification;
           !original.classification.AtMost(max) && Unclassified.AtMost(max) && max in original.policy.allowed
  {
    hide TransferAllowed, CrossDomainDecision;
    ReleaseOutcome(store, subject, original, source, target, mission);
  }

  /** A secret label is downgraded across a pair whose only policy forbids downgrading. */
  lemma DowngradesAgainstPolicy(subject: Subject)
    ensures var high := SecurityDomain("high", "High", Secret, [], [], []);
      var low := SecurityDomain("low", "Low", Restricted, [], [], []);
      var store := PolicyStore(map["high" := high, "low" := low], [CrossDomainPolicy("p", "high", "low", false)],
                               DowngradeConfig(true, true));
      var original := NewLabel(NatoPolicy(), Secret);
      CrossDomainDecision(store, subject, original, high, low, None)
          == Ok(Downgraded(original.(classification := Restricted)))
  {
    hide Mentions, CrossDomainDecision;
    var high := SecurityDomain("high", "High", Secret, [], [], []);
    var low := SecurityDomain("low", "Low", Restricted, [], [], []);
    var store := PolicyStore(map["high" := high, "low" := low], [CrossDomainPolicy("p", "high", "low", false)],
                             DowngradeConfig(true, true));
    var original := NewLabel(NatoPolicy(), Secret);
    assert store.policies[0].source == "high" && store.policies[0].target == "low";
    ReleaseOutcome(store, subject, original, high, low, None);
  }

  /** Whatever is released stays within the target's maximum and accepted countries, differs from the original
      at most in classification, and is permitted unchanged when it is evaluated again. */
  lemma ReleaseStaysWithinTarget(store: PolicyStore, subject: Subject, original: Label, source: SecurityDomain,
                                 target: SecurityDomain, mission: Option<string>, decision: Decision)
    requires CrossDomainDecision(store, subject, original, source, target, mission) == Ok(decision)
    requires !decision.Deny?
    ensures target.id in store.domains && LabelFits(decision.released, store.domains[target.id])
    ensures decision.released == original.(classification := decision.released.classification)
    ensures decision.released.classification.AtMost(original.classification)
    ensures decision.released.Validate().Ok?
    ensures CrossDomainDecision(store, subject, decision.released, source, target, mission)
              == Ok(Permit(decision.released))
  {
    hide Mentions, CategoryValues, CrossDomainDecision;
    ReleaseOutcome(store, subject, original, source, target, mission);
    assert decision.released.RestrictiveCategoryValues() == original.RestrictiveCategoryValues();
    assert decision.released.ReleasableCountries() == original.ReleasableCountries();
    ReleaseOutcome(store, subject, decision.released, source, target, mission);
  }

  /** In the target domain a released label can be refused only for an attribute of the person asking. */
  lemma ReleasedLabelDeniedOnlyForSubject(store: PolicyStore, subject: Subject, original: Label, source: SecurityDomain,
                                          target: SecurityDomain, mission: Option<string>, decision: Decision,
                                          reader: Subject, operation: AccessOperation)
    requires CrossDomainDecision(store, subject, original, source, target, mission) == Ok(decision)
    requires !decision.Deny?
    requires operation != CrossDomainTransfer
    ensures var access := EnforceAccess(store, reader, decision.released, operation, target);
      && (access.Ok? <==> SubjectSuits(reader, decision.released, store.domains[target.id]))
      && (access.Err? ==>
            access.error.Denied? && !access.error.reason.ExceedsDomainMax? && !access.error.reason.CountryNotPermitted?)
  {
    hide Mentions, CategoryValues, CheckCaveats, CheckCountries, CrossDomainDecision;
    ReleaseStaysWithinTarget(store, subject, original, source, target, mission, decision);
    AccessGrantedExactly(store, reader, decision.released, operation, target);
    var countries := decision.released.ReleasableCountries();
    assert forall i :: 0 <= i < |countries| ==> store.domains[target.id].AcceptsCountry(countries[i]);
  }
}
