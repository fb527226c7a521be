/** The exchange broker behind policy enforcement. */
module Secured {
  import opened Wrappers
  import opened Text
  import opened Sequences
  import opened Labeling
  import Policy
  import opened Instance
  import opened Journal
  import opened Broker

  predicate SeparatesCountries(c: char) {
    c == ',' || c == ';' || c == ' '
  }

  function ReleasabilityCountries(text: string, uppercase: string -> string): seq<string> {
    var parts := SplitNonEmpty(text, SeparatesCountries);
    seq(|parts|, i requires 0 <= i < |parts| => uppercase(parts[i]))
  }

  /** The confidentiality label an instance's security metadata stands for. `uppercase` is full Unicode upper-casing. */
  function LabelFromSecurity(s: Security, uppercase: string -> string): Result<Label, LabelError> {
    if s.classification.None? then Ok(NewLabel(NatoPolicy(), Unclassified)) else
      var policy := NatoPolicy().(identifier := if s.policy.Some? then s.policy.value else "NATO");
      match ParseClassification(s.classification.value)
      case Err(e) => Err(e)
      case Ok(level) =>
        var countries := if s.releasability.Some? then ReleasabilityCountries(s.releasability.value, uppercase) else [];
        Ok(NewLabel(policy, level).(categories :=
          if countries == [] then [] else [CategoryMarking("Releasable to", Permissive, countries)]))
  }

  /** One subject's window on a broker: the policy, the domain and who is asking. */
  datatype View = View(
    store: Policy.PolicyStore,
    domain: SecurityDomain,
    uppercase: string -> string,
    subject: Policy.Subject)
  {
    function LabelOf(i: MimInstance): Result<Label, LabelError> {
      LabelFromSecurity(i.security, uppercase)
    }

    function Enforce(i: MimInstance, operation: Policy.AccessOperation): Result<Unit, TransportError> {
      match LabelOf(i)
      case Err(_) => Err(TransportError.Validation)
      case Ok(lab) =>
        match Policy.EnforceAccess(store, subject, lab, operation, domain)
        case Err(e) => Err(MapPolicyError(e))
        case Ok(_) => Ok(Unit)
    }

    predicate CanRead(i: MimInstance) {
      Enforce(i, Policy.Read).Ok?
    }
  }

  function MapPolicyError(e: Policy.PolicyError): TransportError {
    match e
    case Denied(_) => Forbidden
    case NotFound => TransportError.NotFound
    case Invalid => InvalidRequest
    case Rejected(_) => TransportError.Validation
  }

  // ---- Operations

  function ReadAs(b: BrokerState, v: View, oid: string): Result<MimInstance, TransportError> {
    match ReadObject(b, oid)
    case Err(e) => Err(e)
    case Ok(i) =>
      match v.Enforce(i, Policy.Read)
      case Err(e) => Err(e)
      case Ok(_) => Ok(i)
  }

  function PutAs(b: BrokerState, v: View, i: MimInstance): Result<BrokerState, TransportError> {
    match v.Enforce(i, Policy.Write)
    case Err(e) => Err(e)
    case Ok(_) => if b.registry.valid(i) then Ok(Put(b, i)) else Err(TransportError.Validation)
  }

  function DeleteAs(b: BrokerState, v: View, oid: string): Result<BrokerState, TransportError> {
    match ReadObject(b, oid)
    case Err(e) => Err(e)
    case Ok(i) =>
      match v.Enforce(i, Policy.Delete)
      case Err(e) => Err(e)
      case Ok(_) => Ok(Delete(b, oid))
  }

  predicate PassesSync(b: BrokerState, v: View, e: JournalEntry) {
    e.operation == DeleteObject || ReadAs(b, v, e.oid).Ok?
  }

  function PermittedSince(b: BrokerState, v: View, since: nat): seq<JournalEntry> {
    Retain(SyncSince(b, since), (e: JournalEntry) => PassesSync(b, v, e))
  }

  function QueryAs(b: BrokerState, v: View, r: FilterRequest): Result<FilterResponse, TransportError>
    requires Indexed(b)
  {
    match Query(b, r)
    case Err(e) => Err(e)
    case Ok(response) =>
      if exists k :: 0 <= k < |response.instances| && v.LabelOf(response.instances[k]).Err?
      then Err(TransportError.Validation)
      else
        var permitted := Retain(response.instances, (i: MimInstance) => v.CanRead(i));
        Ok(FilterResponse(permitted, |permitted|, response.total))
  }

  // ---- Properties that span operations

  /** What the metadata of an instance says of its label: without a classification it is unclassified under the NATO
      policy and nothing else counts; otherwise the classification must be a known one, the policy is named by the
      metadata or is NATO's, and the label is releasable to exactly the listed countries, in upper case. */
  lemma SecurityLabelExactly(s: Security, uppercase: string -> string, country: string)
    ensures var r := LabelFromSecurity(s, uppercase);
      match s.classification
      case None => r == Ok(NewLabel(NatoPolicy(), Unclassified))
      case Some(text) =>
        match ParseClassification(text)
        case Err(e) => r == Err(e)
        case Ok(level) =>
          && r.Ok? && r.value.classification == level
          && r.value.policy == NatoPolicy().(identifier := match s.policy case Some(p) => p case None => "NATO")
          && r.value.RestrictiveCategoryValues() == []
          && (country in r.value.ReleasableCountries() <==>
                s.releasability.Some? &&
                exists w :: HasWord(s.releasability.value, c => c in ",; ", w) && uppercase(w) == country)
  {
    hide ParseClassification, HasWord;
    var r := LabelFromSecurity(s, uppercase);
    if s.classification.Some? && r.Ok? {
      if s.releasability.Some? {
        Listed(s.releasability.value, uppercase, country);
      }
      OneCategory(r.value);
    }
  }

  lemma OneCategory(l: Label)
    requires l.categories == [] || (|l.categories| == 1 && l.categories[0].kind == Permissive
                                    && l.categories[0].tagName == "Releasable to")
    ensures l.RestrictiveCategoryValues() == []
    ensures l.ReleasableCountries() == if l.categories == [] then [] else l.categories[0].values
  {
    hide EqIgnoreCase;
    if l.categories != [] {
      assert l.categories[0].IsReleasability() by { SameText("Releasable to"); }
      assert l.categories[1..] == [];
      assert CategoryValues(l.categories[1..], (c: CategoryMarking) => c.IsReleasability()) == [];
      assert CategoryValues(l.categories[1..], (c: CategoryMarking) => c.kind == Restrictive) == [];
    }
  }

  lemma SameText(s: string)
    ensures EqIgnoreCase(s, s)
  {
  }

  lemma Listed(text: string, uppercase: string -> string, country: string)
    ensures country in ReleasabilityCountries(text, uppercase) <==>
      exists w :: HasWord(text, c => c in ",; ", w) && uppercase(w) == country
  {
    hide HasWord, SplitNonEmpty;
    var parts := SplitNonEmpty(text, SeparatesCountries);
    var listed := c => c in ",; ";
    forall w: string
      ensures w in parts <==> HasWord(text, listed, w)
    {
      SplitExactly(text, SeparatesCountries, w);
      SameWords(text, SeparatesCountries, listed, w);
    }
    var countries := ReleasabilityCountries(text, uppercase);
    assert forall i :: 0 <= i < |parts| ==> countries[i] == uppercase(parts[i]) && parts[i] in parts;
    if w :| HasWord(text, listed, w) && uppercase(w) == country {
      assert w in parts;
      var i :| 0 <= i < |parts| && parts[i] == w;
      assert countries[i] == country;
    }
  }

  /** A put succeeds exactly when the subject may read the new instance and it is valid; it then does what the broker
      does. Policy is looked at first. */
  lemma PutsExactly(b: BrokerState, v: View, i: MimInstance)
    ensures PutAs(b, v, i).Ok? <==> v.CanRead(i) && b.registry.valid(i)
    ensures PutAs(b, v, i).Ok? ==> PutAs(b, v, i).value == Put(b, i)
    ensures v.CanRead(i) && !b.registry.valid(i) ==> PutAs(b, v, i) == Err(TransportError.Validation)
    ensures v.LabelOf(i).Err? ==> PutAs(b, v, i) == Err(TransportError.Validation)
  {
    hide Policy.EnforceAccess, LabelFromSecurity;
    OperationsAlike(v, i, Policy.Write);
  }

  /** Write access and read access are decided alike: what a subject may put, it reads back unchanged. */
  lemma WriterReadsBack(b: BrokerState, v: View, i: MimInstance)
    requires PutAs(b, v, i).Ok?
    ensures ReadAs(PutAs(b, v, i).value, v, i.oid) == Ok(i)
  {
    hide Policy.EnforceAccess, LabelFromSecurity;
    OperationsAlike(v, i, Policy.Write);
  }

  /** A subject may delete exactly what it may read, and afterwards finds it inactive. */
  lemma DeletesWhatItReads(b: BrokerState, v: View, oid: string)
    requires Indexed(b)
    ensures DeleteAs(b, v, oid).Ok? <==> ReadAs(b, v, oid).Ok?
    ensures DeleteAs(b, v, oid).Ok? ==>
              DeleteAs(b, v, oid).value == Delete(b, oid) && ReadAs(DeleteAs(b, v, oid).value, v, oid) == Err(Inactive)
  {
    hide Policy.EnforceAccess, LabelFromSecurity;
    if ReadObject(b, oid).Ok? {
      OperationsAlike(v, b.store[oid], Policy.Delete);
    }
  }

  lemma OperationsAlike(v: View, i: MimInstance, operation: Policy.AccessOperation)
    requires operation != Policy.CrossDomainTransfer
    ensures v.Enforce(i, operation).Ok? <==> v.CanRead(i)
  {
    hide Policy.EnforceAccess;
    if v.LabelOf(i).Ok? {
      Policy.AccessGrantedExactly(v.store, v.subject, v.LabelOf(i).value, operation, v.domain);
      Policy.AccessGrantedExactly(v.store, v.subject, v.LabelOf(i).value, Policy.Read, v.domain);
    }
  }

  lemma CanReadIsMonotone(v: View, strong: Policy.Subject, i: MimInstance)
    requires Policy.Dominates(strong, v.subject) && v.CanRead(i)
    ensures v.(subject := strong).CanRead(i)
  {
    hide Policy.EnforceAccess, LabelFromSecurity;
    Policy.AccessIsMonotone(v.store, strong, v.subject, v.LabelOf(i).value, Policy.Read, v.domain);
  }

  /** A less cleared subject sees a subsequence of what a more cleared one sees, in every query and every sync. */
  lemma ViewsAreMonotone(b: BrokerState, v: View, strong: Policy.Subject, r: FilterRequest, since: nat)
    requires Indexed(b)
    requires Policy.Dominates(strong, v.subject)
    ensures var w := v.(subject := strong);
      && QueryAs(b, v, r).Ok? == QueryAs(b, w, r).Ok?
      && (QueryAs(b, v, r).Ok? ==> IsSubsequence(QueryAs(b, v, r).value.instances, QueryAs(b, w, r).value.instances))
      && IsSubsequence(PermittedSince(b, v, since), PermittedSince(b, w, since))
  {
    hide Policy.EnforceAccess, LabelFromSecurity, Retain, IsSubsequence, Query, Policy.Dominates, View.CanRead;
    var w := v.(subject := strong);
    forall i: MimInstance | v.CanRead(i)
      ensures w.CanRead(i)
    {
      CanReadIsMonotone(v, strong, i);
    }
    if Query(b, r).Ok? {
      RetainSubsequence(Query(b, r).value.instances, (i: MimInstance) => v.CanRead(i),
                        (i: MimInstance) => w.CanRead(i));
    }
    forall e: JournalEntry | PassesSync(b, v, e)
      ensures PassesSync(b, w, e)
    {
      ReadableAsIs(b, v, e.oid);
      ReadableAsIs(b, w, e.oid);
    }
    RetainSubsequence(SyncSince(b, since), (e: JournalEntry) => PassesSync(b, v, e),
                      (e: JournalEntry) => PassesSync(b, w, e));
  }

  /** A query for a subject succeeds exactly when the broker's own does and every instance of its page has a readable
      label; the answer is then exactly the instances of the page the subject may read, in the page's order. */
  lemma QueryAsSelectsExactly(b: BrokerState, v: View, r: FilterRequest, i: MimInstance)
    requires Indexed(b)
    ensures QueryAs(b, v, r).Ok? <==>
      && Query(b, r).Ok?
      && forall k :: 0 <= k < |Query(b, r).value.instances| ==> v.LabelOf(Query(b, r).value.instances[k]).Ok?
    ensures Query(b, r).Err? ==> QueryAs(b, v, r) == Query(b, r)
    ensures Query(b, r).Ok? && QueryAs(b, v, r).Err? ==> QueryAs(b, v, r).error == TransportError.Validation
    ensures QueryAs(b, v, r).Ok? ==>
              var answer, page := QueryAs(b, v, r).value, Query(b, r).value;
              && (i in answer.instances <==> i in page.instances && v.CanRead(i))
              && IsSubsequence(answer.instances, page.instances)
              && answer.count == |answer.instances| && answer.total == page.total
  {
    hide Query, View.CanRead, View.LabelOf, IsSubsequence, Retain;
    if QueryAs(b, v, r).Ok? {
      var page := Query(b, r).value.instances;
      RetainAll(page, x => true);
      RetainSubsequence(page, (x: MimInstance) => v.CanRead(x), x => true);
    }
  }

  /** What a subject is synced of a position: exactly the entries beyond it that are Deletes or concern an object the
      subject may read now, in order. */
  lemma PermittedSinceExactly(b: BrokerState, v: View, since: nat, e: JournalEntry)
    ensures e in PermittedSince(b, v, since) <==>
      && e in b.journal && e.sequence > since
      && (e.operation == DeleteObject || (b.Active(e.oid) && v.CanRead(b.store[e.oid])))
    ensures IsSubsequence(PermittedSince(b, v, since), b.journal)
  {
    hide View.CanRead, IsSubsequence, Retain, ReadAs;
    ReadableAsIs(b, v, e.oid);
    var raw, j := SyncSince(b, since), b.journal;
    var both := (x: JournalEntry) => x.sequence > since && PassesSync(b, v, x);
    RetainTwice(j, (x: JournalEntry) => x.sequence > since, (x: JournalEntry) => PassesSync(b, v, x), both);
    RetainAll(j, x => true);
    RetainSubsequence(j, both, x => true);
  }

  lemma ReadableAsIs(b: BrokerState, v: View, oid: string)
    ensures ReadAs(b, v, oid).Ok? <==> b.Active(oid) && v.CanRead(b.store[oid])
    ensures ReadAs(b, v, oid).Ok? ==> ReadAs(b, v, oid).value == b.store[oid]
  {
    hide Policy.EnforceAccess, LabelFromSecurity;
  }

  // ---- The secured broker object

  class SecuredExchangeBroker {
    const view: View
    const inner: ExchangeBroker

    constructor (inner: ExchangeBroker, view: View)
      ensures this.inner == inner && this.view == view
    {
      this.inner := inner;
      this.view := view;
    }

    /** Success exactly for active objects the subject may read; an inactive or unknown object is reported as such to
        anyone, and only then does the label decide. */
    method GetByOidAs(subject: Policy.Subject, oid: string) returns (r: Result<MimInstance, TransportError>)
      ensures r.Ok? <==> inner.State().Active(oid) && view.(subject := subject).CanRead(inner.store[oid])
      ensures r.Ok? ==> r.value == inner.store[oid]
      ensures oid in inner.inactive ==> r == Err(Inactive)
      ensures oid !in inner.inactive && oid !in inner.store ==> r == Err(TransportError.NotFound)
      ensures inner.State().Active(oid) && r.Err? ==>
                match view.LabelOf(inner.store[oid])
                case Err(_) => r.error == TransportError.Validation
                case Ok(lab) =>
                  var denied := Policy.EnforceAccess(view.store, subject, lab, Policy.Read, view.domain);
                  denied.Err? && r.error == MapPolicyError(denied.error)
    {
      hide Policy.EnforceAccess, LabelFromSecurity;
      if oid in inner.inactive {
        return Err(Inactive);
      }
      if oid !in inner.store {
        return Err(TransportError.NotFound);
      }
      var instance := inner.store[oid];
      var marked := view.LabelOf(instance);
      if marked.Err? {
        return Err(TransportError.Validation);
      }
      var access := Policy.EnforceAccess(view.store, subject, marked.value, Policy.Read, view.domain);
      if access.Err? {
        return Err(MapPolicyError(access.error));
      }
      return Ok(instance);
    }

    method PutObjectAs(subject: Policy.Subject, instance: MimInstance) returns (r: Result<bool, TransportError>)
      modifies inner
      ensures match PutAs(old(inner.State()), view.(subject := subject), instance)
              case Ok(next) => r == Ok(instance.oid !in old(inner.store)) && inner.State() == next
              case Err(e) => r == Err(e) && inner.State() == old(inner.State())
    {
      var allowed := view.(subject := subject).Enforce(instance, Policy.Write);
      if allowed.Err? {
        return Err(allowed.error);
      }
      r := inner.PutObject(instance);
      if r.Err? {
        return Err(TransportError.Validation);
      }
    }

    method DeleteObjectAs(subject: Policy.Subject, oid: string) returns (r: Result<bool, TransportError>)
      modifies inner
      ensures match DeleteAs(old(inner.State()), view.(subject := subject), oid)
              case Ok(next) => r == Ok(true) && inner.State() == next
              case Err(e) => r == Err(e) && inner.State() == old(inner.State())
    {
      var existing := ReadObject(inner.State(), oid);
      if existing.Err? {
        return Err(existing.error);
      }
      var allowed := view.(subject := subject).Enforce(existing.value, Policy.Delete);
      if allowed.Err? {
        return Err(allowed.error);
      }
      r := inner.DeleteObject(oid);
    }

    method GetByFilterAs(subject: Policy.Subject, request: FilterRequest)
      returns (r: Result<FilterResponse, TransportError>)
      requires Indexed(inner.State())
      ensures r == QueryAs(inner.State(), view.(subject := subject), request)
    {
      hide Query, Retain, Policy.EnforceAccess, LabelFromSecurity;
      var v := view.(subject := subject);
      var response := Query(inner.State(), request);
      if response.Err? {
        return Err(response.error);
      }
      var instances := response.value.instances;
      var permitted: seq<MimInstance> := [];
      for n := 0 to |instances|
        invariant forall k :: 0 <= k < n ==> v.LabelOf(instances[k]).Ok?
        invariant permitted == Retain(instances[..n], (i: MimInstance) => v.CanRead(i))
      {
        var i := instances[n];
        if v.LabelOf(i).Err? {
          return Err(TransportError.Validation);
        }
        RetainStep(instances, n, (x: MimInstance) => v.CanRead(x));
        if v.Enforce(i, Policy.Read).Ok? {
          permitted := permitted + [i];
        }
      }
      assert instances[..|instances|] == instances;
      return Ok(FilterResponse(permitted, |permitted|, response.value.total));
    }

    method SyncSinceAs(subject: Policy.Subject, since: nat) returns (entries: seq<JournalEntry>)
      ensures entries == PermittedSince(inner.State(), view.(subject := subject), since)
    {
      hide ReadAs, Retain, View.CanRead;
      var v := view.(subject := subject);
      var b := inner.State();
      var raw := inner.SyncEntries(since);
      entries := [];
      for n := 0 to |raw|
        invariant entries == Retain(raw[..n], (e: JournalEntry) => PassesSync(b, v, e))
      {
        RetainStep(raw, n, (e: JournalEntry) => PassesSync(b, v, e));
        if raw[n].operation == DeleteObject {
          entries := entries + [raw[n]];
        } else {
          var read := GetByOidAs(subject, raw[n].oid);
          ReadableAsIs(b, v, raw[n].oid);
          if read.Ok? {
            entries := entries + [raw[n]];
          }
        }
      }
      assert raw[..|raw|] == raw;
    }
  }
}
