/** The property graph of an ontology, and what filling in missing domains and ranges does to it. */
module PropertyGraph {
  import opened Wrappers

  datatype PropertyKind = ObjectProperty | DataProperty

  datatype OwlProperty = OwlProperty(
    name: string,
    caption: Option<string>,
    kind: PropertyKind,
    domain: Option<string>,
    range: Option<string>,
    parents: seq<string>,
    inverseOf: Option<string>)

  type Properties = map<string, OwlProperty>

  /** What a property inserted for a mere reference looks like. */
  function Unknown(): OwlProperty {
    OwlProperty("unknown", None, ObjectProperty, None, None, [], None)
  }

  // ---- Updates

  /** A domain and range offered to a property; `data` turns an object property into a data property. */
  datatype Update = Update(target: string, domain: Option<string>, range: Option<string>, data: bool)

  function OrElse(known: Option<string>, offered: Option<string>): Option<string> {
    if known.Some? then known else offered
  }

  function Filled(p: OwlProperty, u: Update): OwlProperty {
    p.(domain := OrElse(p.domain, u.domain), range := OrElse(p.range, u.range),
       kind := if u.data then DataProperty else p.kind)
  }

  function Apply(m: Properties, u: Update): Properties {
    m[u.target := Filled(if u.target in m then m[u.target] else Unknown(), u)]
  }

  function ApplyAll(m: Properties, us: seq<Update>): Properties {
    if us == [] then m else Apply(ApplyAll(m, us[..|us| - 1]), us[|us| - 1])
  }

  // ---- The two passes; `order` is the order in which the keys are walked

  function InverseUpdates(m: Properties, order: seq<string>): seq<Update>
    requires forall k :: k in order ==> k in m
  {
    if order == [] then [] else
      var p := m[order[|order| - 1]];
      InverseUpdates(m, order[..|order| - 1])
      + (if p.inverseOf.Some? then [Update(p.inverseOf.value, p.range, p.domain, false)] else [])
  }

  function ParentUpdates(m: Properties, name: string, parents: seq<string>): seq<Update> {
    if parents == [] then [] else
      var parent := parents[|parents| - 1];
      ParentUpdates(m, name, parents[..|parents| - 1])
      + (if parent in m then [Update(name, m[parent].domain, m[parent].range, m[parent].kind == DataProperty)] else [])
  }

  function InheritanceUpdates(m: Properties, order: seq<string>): seq<Update>
    requires forall k :: k in order ==> k in m
  {
    if order == [] then [] else
      var name := order[|order| - 1];
      InheritanceUpdates(m, order[..|order| - 1]) + ParentUpdates(m, name, m[name].parents)
  }

  ghost predicate Enumerates(order: seq<string>, m: Properties) {
    forall k :: k in order <==> k in m
  }

  // ---- What the updates of a pass are

  lemma {:induction false} InverseUpdatesAre(m: Properties, order: seq<string>, u: Update)
    requires forall k :: k in order ==> k in m
    ensures u in InverseUpdates(m, order) <==>
      exists y :: y in order && m[y].inverseOf == Some(u.target) && u.domain == m[y].range && u.range == m[y].domain &&
          !u.data
  {
    if order == [] {
    } else {
      InverseUpdatesAre(m, order[..|order| - 1], u);
    }
  }

  ghost predicate Inherits(m: Properties, child: string, parent: string, u: Update) {
    && child in m && parent in m && parent in m[child].parents
    && u == Update(child, m[parent].domain, m[parent].range, m[parent].kind == DataProperty)
  }

  lemma {:induction false} ParentUpdatesAre(m: Properties, name: string, parents: seq<string>, u: Update)
    ensures u in ParentUpdates(m, name, parents) <==>
      exists p :: p in parents && p in m && u == Update(name, m[p].domain, m[p].range, m[p].kind == DataProperty)
  {
    if parents == [] {
    } else {
      ParentUpdatesAre(m, name, parents[..|parents| - 1], u);
    }
  }

  lemma {:induction false} InheritanceUpdatesAre(m: Properties, order: seq<string>, u: Update)
    requires forall k :: k in order ==> k in m
    ensures u in InheritanceUpdates(m, order) <==> exists c, p :: c in order && Inherits(m, c, p, u)
  {
    if order == [] {
    } else {
      var name := order[|order| - 1];
      var before := order[..|order| - 1];
      InheritanceUpdatesAre(m, before, u);
      ParentUpdatesAre(m, name, m[name].parents, u);
      if c, p :| c in order && Inherits(m, c, p, u) {
        assert c in before || c == name;
      }
      if u in ParentUpdates(m, name, m[name].parents) {
        var p :| p in m[name].parents && p in m &&
            u == Update(name, m[p].domain, m[p].range, m[p].kind == DataProperty);
        assert Inherits(m, name, p, u);
      }
    }
  }

  // ---- What applying updates guarantees

  datatype Side = DomainSide | RangeSide | DataSide

  /** The domain of one property, its range, or its mark as a data property. */
  datatype Slot = Slot(name: string, side: Side)

  function SideOf(p: OwlProperty, side: Side): Option<string> {
    match side
    case DomainSide => p.domain
    case RangeSide => p.range
    case DataSide => if p.kind == DataProperty then Some("data") else None
  }

  function At(m: Properties, s: Slot): Option<string> {
    if s.name in m then SideOf(m[s.name], s.side) else None
  }

  /** Nothing known is overwritten, a data property stays one, names, captions and links do not change, and a new
      property has none of them. */
  ghost predicate Preserves(m: Properties, m': Properties) {
    && (forall x :: x in m ==> x in m')
    && (forall x :: x in m' ==> m'[x].name == (if x in m then m[x].name else "unknown"))
    && (forall x :: x in m' ==> m'[x].caption == (if x in m then m[x].caption else None))
    && (forall x :: x in m' ==> m'[x].parents == (if x in m then m[x].parents else []))
    && (forall x :: x in m' ==> m'[x].inverseOf == (if x in m then m[x].inverseOf else None))
    && (forall s :: At(m, s).Some? ==> At(m', s) == At(m, s))
  }

  lemma PreservesTransitive(a: Properties, b: Properties, c: Properties)
    requires Preserves(a, b) && Preserves(b, c)
    ensures Preserves(a, c)
  {
  }

  lemma ApplyPreserves(m: Properties, u: Update)
    ensures Preserves(m, Apply(m, u))
    ensures forall x :: x in Apply(m, u) <==> x in m || u.target == x
  {
  }

  lemma {:induction false} ApplyAllPreserves(m: Properties, us: seq<Update>)
    ensures Preserves(m, ApplyAll(m, us))
    ensures forall x :: x in ApplyAll(m, us) <==> x in m || exists u :: u in us && u.target == x
  {
    hide Preserves, Apply;
    if us == [] {
      PreservesItself(m);
    } else {
      var before, u := us[..|us| - 1], us[|us| - 1];
      ApplyAllPreserves(m, before);
      ApplyPreserves(ApplyAll(m, before), u);
      PreservesTransitive(m, ApplyAll(m, before), ApplyAll(m, us));
      assert us == before + [u];
    }
  }

  lemma PreservesItself(m: Properties)
    ensures Preserves(m, m)
  {
  }

  /** What an update offers to a slot of its target. */
  function Offer(u: Update, side: Side): Option<string> {
    match side
    case DomainSide => u.domain
    case RangeSide => u.range
    case DataSide => if u.data then Some("data") else None
  }

  lemma ApplyFills(m: Properties, u: Update, s: Slot)
    ensures At(Apply(m, u), s) == if s.name == u.target then OrElse(At(m, s), Offer(u, s.side)) else At(m, s)
  {
  }

  /** A slot is known afterwards exactly when it was before or some update offers it; if it is new, it is an offered
      one. */
  lemma {:induction false} ApplyAllFills(m: Properties, us: seq<Update>, s: Slot)
    ensures var m' := ApplyAll(m, us);
      && (At(m', s).Some? <==> At(m, s).Some? || exists u :: u in us && u.target == s.name && Offer(u, s.side).Some?)
      && (At(m, s).None? && At(m', s).Some? ==>
          exists u :: u in us && u.target == s.name && Offer(u, s.side) == At(m', s))
  {
    hide Apply, Offer, At;
    if us == [] {
    } else {
      var before, last := us[..|us| - 1], us[|us| - 1];
      assert forall u :: u in us <==> u in before || u == last;
      ApplyAllFills(m, before, s);
      ApplyFills(ApplyAll(m, before), last, s);
    }
  }

  // ---- Derivations

  function OtherSide(side: Side): Side {
    match side
    case DomainSide => RangeSide
    case RangeSide => DomainSide
    case DataSide => DataSide
  }

  /** One inverseOf step swaps domain and range between partners; one subPropertyOf step copies a side from parent to
      child. */
  predicate Link(m: Properties, a: Slot, b: Slot) {
    || (a.name in m && m[a.name].inverseOf == Some(b.name) && a.side != DataSide && b.side == OtherSide(a.side))
    || (b.name in m && a.name in m[b.name].parents && a.side == b.side)
  }

  ghost predicate Chain(m: Properties, path: seq<Slot>) {
    path != [] && forall i :: 0 <= i < |path| - 1 ==> Link(m, path[i], path[i + 1])
  }

  /** A finite chain leads from a declared slot with this value to the slot. */
  ghost predicate Derivable(m: Properties, s: Slot, v: Option<string>) {
    exists path :: Chain(m, path) && path[|path| - 1] == s && At(m, path[0]) == v
  }

  lemma Declared(m: Properties, s: Slot)
    ensures Derivable(m, s, At(m, s))
  {
    assert Chain(m, [s]);
  }

  lemma DeriveStep(m: Properties, a: Slot, b: Slot, v: Option<string>)
    requires Derivable(m, a, v) && Link(m, a, b)
    ensures Derivable(m, b, v)
  {
    var path :| Chain(m, path) && path[|path| - 1] == a && At(m, path[0]) == v;
    var longer := path + [b];
    assert Chain(m, longer) by {
      forall i | 0 <= i < |longer| - 1
        ensures Link(m, longer[i], longer[i + 1])
      {
        assert longer[i] == path[i];
      }
    }
  }

  /** Everything known in `m` has a derivation from what was declared in `base`. */
  ghost predicate Justified(base: Properties, m: Properties) {
    forall s :: At(m, s).Some? ==> Derivable(base, s, At(m, s))
  }

  /** Whatever the update offers to a slot is held by a slot one link away. */
  ghost predicate Offered(base: Properties, m: Properties, u: Update) {
    forall side :: Offer(u, side).Some? ==> HeldNearby(base, m, Slot(u.target, side), Offer(u, side))
  }

  ghost predicate HeldNearby(base: Properties, m: Properties, s: Slot, v: Option<string>) {
    exists a :: Link(base, a, s) && At(m, a) == v
  }

  lemma OfferedIsDerivable(base: Properties, m: Properties, u: Update, side: Side)
    requires Justified(base, m) && Offered(base, m, u) && Offer(u, side).Some?
    ensures Derivable(base, Slot(u.target, side), Offer(u, side))
  {
    hide Derivable, Link, At, Offer;
    var s := Slot(u.target, side);
    assert HeldNearby(base, m, s, Offer(u, side));
    var a :| Link(base, a, s) && At(m, a) == Offer(u, side);
    DeriveStep(base, a, s, Offer(u, side));
  }

  lemma JustifiedStep(base: Properties, m: Properties, us: seq<Update>)
    requires Justified(base, m)
    requires forall u :: u in us ==> Offered(base, m, u)
    ensures Justified(base, ApplyAll(m, us))
  {
    hide Derivable, Offered, ApplyAll, Offer, At;
    var m' := ApplyAll(m, us);
    ApplyAllPreserves(m, us);
    forall s | At(m', s).Some?
      ensures Derivable(base, s, At(m', s))
    {
      ApplyAllFills(m, us, s);
      if At(m, s).None? {
        var u :| u in us && u.target == s.name && Offer(u, s.side) == At(m', s);
        OfferedIsDerivable(base, m, u, s.side);
      }
    }
  }

  // ---- Data properties

  ghost predicate IsChild(m: Properties, parent: string, child: string) {
    child in m && parent in m[child].parents
  }

  /** Each step leads from a parent to its child. */
  ghost predicate ParentPath(m: Properties, path: seq<string>) {
    path != [] && forall i :: 0 <= i < |path| - 1 ==> IsChild(m, path[i], path[i + 1])
  }

  /** A chain that ends in the mark of a data property consists of such marks, each handed from parent to child. */
  lemma {:induction false} DataChain(m: Properties, chain: seq<Slot>, path: seq<string>)
    requires Chain(m, chain) && chain[|chain| - 1].side == DataSide
    requires |path| == |chain| && forall i :: 0 <= i < |chain| ==> path[i] == chain[i].name
    ensures ParentPath(m, path) && chain[0].side == DataSide
    decreases |chain|
  {
    if |chain| == 1 {
    } else {
      var n := |chain| - 1;
      assert Link(m, chain[n - 1], chain[n]);
      assert Chain(m, chain[..n]) by {
        assert forall i :: 0 <= i < n - 1 ==> Link(m, chain[i], chain[i + 1]);
      }
      DataChain(m, chain[..n], path[..n]);
      forall i | 0 <= i < n
        ensures IsChild(m, path[i], path[i + 1])
      {
        if i < n - 1 {
          assert IsChild(m, path[..n][i], path[..n][i + 1]);
        }
      }
    }
  }

  /** What is a data property in the end was declared one, or has one above it. */
  lemma DataComesFromAbove(base: Properties, m: Properties, x: string)
    requires Justified(base, m) && x in m && m[x].kind == DataProperty
    ensures exists path: seq<string> :: ParentPath(base, path) && path[|path| - 1] == x
              && path[0] in base && base[path[0]].kind == DataProperty
  {
    var s := Slot(x, DataSide);
    assert At(m, s) == Some("data");
    var chain: seq<Slot> :| Chain(base, chain) && chain[|chain| - 1] == s && At(base, chain[0]) == Some("data");
    var path: seq<string> := seq(|chain|, (i: int) requires 0 <= i < |chain| => chain[i].name);
    DataChain(base, chain, path);
    assert path[0] in base && base[path[0]].kind == DataProperty;
  }

  // ---- One pass

  function InversePass(m: Properties, order: seq<string>): Properties
    requires forall k :: k in order ==> k in m
  {
    ApplyAll(m, InverseUpdates(m, order))
  }

  function InheritancePass(m: Properties, order: seq<string>): Properties
    requires forall k :: k in order ==> k in m
  {
    ApplyAll(m, InheritanceUpdates(m, order))
  }

  /** `m'` results from `m` by an inverse pass and then an inheritance pass, each over all properties in some order. */
  ghost predicate Pass(m: Properties, between: Properties, m': Properties) {
    && (exists order :: Enumerates(order, m) && between == InversePass(m, order))
    && (exists order :: Enumerates(order, between) && m' == InheritancePass(between, order))
  }

  lemma PartnerOffers(base: Properties, m: Properties, y: string, u: Update)
    requires Preserves(base, m) && y in m && m[y].inverseOf == Some(u.target)
    requires u.domain == m[y].range && u.range == m[y].domain && !u.data
    ensures Offered(base, m, u)
  {
    forall side | Offer(u, side).Some?
      ensures HeldNearby(base, m, Slot(u.target, side), Offer(u, side))
    {
      assert Link(base, Slot(y, OtherSide(side)), Slot(u.target, side));
      assert At(m, Slot(y, OtherSide(side))) == Offer(u, side);
    }
  }

  lemma ParentOffers(base: Properties, m: Properties, c: string, p: string, u: Update)
    requires Preserves(base, m) && Inherits(m, c, p, u)
    ensures Offered(base, m, u)
  {
    forall side | Offer(u, side).Some?
      ensures HeldNearby(base, m, Slot(u.target, side), Offer(u, side))
    {
      assert Link(base, Slot(p, side), Slot(c, side)) && At(m, Slot(p, side)) == Offer(u, side);
    }
  }

  lemma InversePassJustified(base: Properties, m: Properties, order: seq<string>)
    requires Preserves(base, m) && Justified(base, m) && Enumerates(order, m)
    ensures Preserves(base, InversePass(m, order)) && Justified(base, InversePass(m, order))
  {
    hide Justified, ApplyAll, InverseUpdates, Preserves, Offered;
    var us := InverseUpdates(m, order);
    ApplyAllPreserves(m, us);
    PreservesTransitive(base, m, InversePass(m, order));
    forall u | u in us
      ensures Offered(base, m, u)
    {
      InverseUpdatesAre(m, order, u);
      var y :| y in order && m[y].inverseOf == Some(u.target) && u.domain == m[y].range && u.range == m[y].domain &&
          !u.data;
      PartnerOffers(base, m, y, u);
    }
    JustifiedStep(base, m, us);
  }

  lemma InheritancePassJustified(base: Properties, m: Properties, order: seq<string>)
    requires Preserves(base, m) && Justified(base, m) && Enumerates(order, m)
    ensures Preserves(base, InheritancePass(m, order)) && Justified(base, InheritancePass(m, order))
  {
    hide Justified, ApplyAll, InheritanceUpdates, Preserves, Offered, Inherits;
    var us := InheritanceUpdates(m, order);
    ApplyAllPreserves(m, us);
    PreservesTransitive(base, m, InheritancePass(m, order));
    forall u | u in us
      ensures Offered(base, m, u)
    {
      InheritanceUpdatesAre(m, order, u);
      var c, p :| c in order && Inherits(m, c, p, u);
      ParentOffers(base, m, c, p, u);
    }
    JustifiedStep(base, m, us);
  }

  // ---- Why the passes come to an end

  /** All property names there can ever be: the declared ones and their inverse partners. */
  function Universe(m: Properties): set<string> {
    m.Keys + set y | y in m && m[y].inverseOf.Some? :: m[y].inverseOf.value
  }

  function KnownDomains(m: Properties): set<string> {
    set x | x in m && m[x].domain.Some?
  }

  lemma InversePassStaysInside(base: Properties, m: Properties, order: seq<string>)
    requires Preserves(base, m) && m.Keys <= Universe(base) && Enumerates(order, m)
    ensures InversePass(m, order).Keys <= Universe(base)
  {
    hide ApplyAll, InverseUpdates;
    ApplyAllPreserves(m, InverseUpdates(m, order));
    forall x | x in InversePass(m, order) && x !in m
      ensures x in Universe(base)
    {
      var u :| u in InverseUpdates(m, order) && u.target == x;
      InverseUpdatesAre(m, order, u);
      var y :| y in order && m[y].inverseOf == Some(u.target);
      assert y in base && base[y].inverseOf == Some(x);
    }
  }

  lemma InheritancePassStaysInside(m: Properties, order: seq<string>)
    requires Enumerates(order, m)
    ensures InheritancePass(m, order).Keys == m.Keys
  {
    hide ApplyAll, InheritanceUpdates;
    var us := InheritanceUpdates(m, order);
    ApplyAllPreserves(m, us);
    forall u | u in us
      ensures u.target in m
    {
      InheritanceUpdatesAre(m, order, u);
    }
  }

  lemma KnownDomainsGrow(m: Properties, m': Properties)
    requires Preserves(m, m')
    ensures KnownDomains(m) <= KnownDomains(m') && |KnownDomains(m)| <= |KnownDomains(m')|
    ensures |KnownDomains(m)| == |KnownDomains(m')| ==> KnownDomains(m) == KnownDomains(m')
  {
    var a, b := KnownDomains(m), KnownDomains(m');
    forall x | x in a
      ensures x in b
    {
      assert At(m, Slot(x, DomainSide)).Some?;
    }
    assert b == a + (b - a);
    assert |b| == |a| + |b - a|;
  }

  lemma KnownDomainsBounded(m: Properties, universe: set<string>)
    requires m.Keys <= universe
    ensures |KnownDomains(m)| <= |universe|
  {
    var a := KnownDomains(m);
    assert universe == a + (universe - a);
    assert |universe| == |a| + |universe - a|;
  }

  lemma NothingResolved(m: Properties)
    ensures Preserves(m, m) && Justified(m, m) && m.Keys <= Universe(m)
  {
    forall s | At(m, s).Some?
      ensures Derivable(m, s, At(m, s))
    {
      Declared(m, s);
    }
  }

  // ---- One pass, and what it makes known

  lemma PassPreserves(m: Properties, between: Properties, m': Properties)
    requires Pass(m, between, m')
    ensures Preserves(m, between) && Preserves(between, m') && Preserves(m, m')
  {
    hide ApplyAll, InverseUpdates, InheritanceUpdates;
    var o1 :| Enumerates(o1, m) && between == InversePass(m, o1);
    var o2 :| Enumerates(o2, between) && m' == InheritancePass(between, o2);
    ApplyAllPreserves(m, InverseUpdates(m, o1));
    ApplyAllPreserves(between, InheritanceUpdates(between, o2));
    PreservesTransitive(m, between, m');
  }

  /** A slot after the inverse pass: known before, or a partner's other side. */
  lemma InverseAdds(m: Properties, between: Properties, order: seq<string>, x: string, side: Side)
    requires Enumerates(order, m) && between == InversePass(m, order)
    ensures At(between, Slot(x, side)).Some? <==>
      || At(m, Slot(x, side)).Some?
      || (side != DataSide && exists y :: y in m && m[y].inverseOf == Some(x) && At(m, Slot(y, OtherSide(side))).Some?)
  {
    hide ApplyAll, InverseUpdates;
    var us := InverseUpdates(m, order);
    ApplyAllFills(m, us, Slot(x, side));
    forall u: Update
      ensures u in us <==> exists y ::
                && y in order && m[y].inverseOf == Some(u.target)
                && u.domain == m[y].range && u.range == m[y].domain && !u.data
    {
      InverseUpdatesAre(m, order, u);
    }
    forall y | y in m && m[y].inverseOf == Some(x)
      ensures Update(x, m[y].range, m[y].domain, false) in us
    {
    }
  }

  /** A slot after the inheritance pass: known before, or a parent's. */
  lemma InheritanceAdds(m: Properties, m': Properties, order: seq<string>, c: string, side: Side)
    requires Enumerates(order, m) && m' == InheritancePass(m, order)
    ensures At(m', Slot(c, side)).Some? <==>
      At(m, Slot(c, side)).Some? || (c in m && exists p :: p in m[c].parents && At(m, Slot(p, side)).Some?)
  {
    hide ApplyAll, InheritanceUpdates;
    var us := InheritanceUpdates(m, order);
    ApplyAllFills(m, us, Slot(c, side));
    forall u: Update
      ensures u in us <==> exists d, p :: d in order && Inherits(m, d, p, u)
    {
      InheritanceUpdatesAre(m, order, u);
    }
    forall p | c in m && p in m[c].parents && p in m
      ensures Update(c, m[p].domain, m[p].range, m[p].kind == DataProperty) in us
    {
      assert Inherits(m, c, p, Update(c, m[p].domain, m[p].range, m[p].kind == DataProperty));
    }
  }

  // ---- What is known after each round, computed from the declarations alone

  /** The known domains and ranges, and the data properties. */
  function KnownSlots(m: Properties): set<Slot> {
    (set x | x in m && m[x].domain.Some? :: Slot(x, DomainSide))
    + (set x | x in m && m[x].range.Some? :: Slot(x, RangeSide))
    + (set x | x in m && m[x].kind == DataProperty :: Slot(x, DataSide))
  }

  function Domains(known: set<Slot>): set<string> {
    set s | s in known && s.side == DomainSide :: s.name
  }

  /** What is known of a property's domain and range becomes known of its inverse partner, on the other side. */
  function InverseRound(m: Properties, known: set<Slot>): set<Slot> {
    known + set s | s in known && s.side != DataSide && s.name in m && m[s.name].inverseOf.Some? ::
              Slot(m[s.name].inverseOf.value, OtherSide(s.side))
  }

  /** What is known of a parent becomes known of its children. */
  function InheritanceRound(m: Properties, known: set<Slot>): set<Slot> {
    known + set c, s | c in m && s in known && s.name in m[c].parents :: Slot(c, s.side)
  }

  function Round(m: Properties, known: set<Slot>): set<Slot> {
    InheritanceRound(m, InverseRound(m, known))
  }

  lemma RoundStaysInside(m: Properties, known: set<Slot>)
    requires Domains(known) <= Universe(m)
    ensures Domains(known) <= Domains(Round(m, known)) <= Universe(m)
  {
    forall x | x in Domains(Round(m, known))
      ensures x in Universe(m)
    {
      assert Slot(x, DomainSide) in Round(m, known);
    }
  }

  lemma SubsetCardinality<T>(a: set<T>, b: set<T>)
    requires a <= b
    ensures |a| <= |b|
    ensures a != b ==> |a| < |b|
  {
    assert b == a + (b - a);
    assert |b| == |a| + |b - a|;
  }

  /** What is known before the first round that makes no further domain known. */
  function BeforeLastRound(m: Properties, known: set<Slot>): (last: set<Slot>)
    requires Domains(known) <= Universe(m)
    ensures Domains(Round(m, last)) == Domains(last)
    decreases |Universe(m)| - |Domains(known)|
  {
    var next := Round(m, known);
    if Domains(next) == Domains(known) then known else
      RoundStaysInside(m, known);
      SubsetCardinality(Domains(known), Domains(next));
      SubsetCardinality(Domains(next), Universe(m));
      BeforeLastRound(m, next)
  }

  lemma DomainsOfKnownSlots(m: Properties)
    ensures Domains(KnownSlots(m)) == KnownDomains(m)
  {
    forall x | x in KnownDomains(m)
      ensures x in Domains(KnownSlots(m))
    {
      assert Slot(x, DomainSide) in KnownSlots(m);
    }
  }

  lemma DeclaredInside(m: Properties)
    ensures Domains(KnownSlots(m)) <= Universe(m)
  {
  }

  /** What is known before the last round of a resolution of `m`. */
  function LastState(m: Properties): (last: set<Slot>)
    ensures Domains(Round(m, last)) == Domains(last)
  {
    DeclaredInside(m);
    BeforeLastRound(m, KnownSlots(m))
  }

  lemma KnownSlotsAt(m: Properties, s: Slot)
    ensures s in KnownSlots(m) <==> At(m, s).Some?
  {
  }

  lemma InverseRoundAdds(m: Properties, known: set<Slot>, x: string, side: Side)
    ensures Slot(x, side) in InverseRound(m, known) <==>
      || Slot(x, side) in known
      || (side != DataSide && exists y :: y in m && m[y].inverseOf == Some(x) && Slot(y, OtherSide(side)) in known)
  {
    if side != DataSide {
      if y :| y in m && m[y].inverseOf == Some(x) && Slot(y, OtherSide(side)) in known {
        var s := Slot(y, OtherSide(side));
        assert Slot(m[s.name].inverseOf.value, OtherSide(s.side)) == Slot(x, side);
      }
    }
  }

  lemma InheritanceRoundAdds(m: Properties, known: set<Slot>, c: string, side: Side)
    ensures Slot(c, side) in InheritanceRound(m, known) <==>
      Slot(c, side) in known || (c in m && exists p :: p in m[c].parents && Slot(p, side) in known)
  {
    if c in m {
      if p :| p in m[c].parents && Slot(p, side) in known {
        assert Slot(p, side).name in m[c].parents;
      }
    }
  }

  lemma InversePassKnows(base: Properties, m: Properties, between: Properties, order: seq<string>)
    requires Preserves(base, m) && Enumerates(order, m) && between == InversePass(m, order)
    ensures KnownSlots(between) == InverseRound(base, KnownSlots(m))
  {
    hide InversePass, KnownSlots, InverseRound;
    forall s: Slot
      ensures s in KnownSlots(between) <==> s in InverseRound(base, KnownSlots(m))
    {
      KnownSlotsAt(between, s);
      KnownSlotsAt(m, s);
      InverseAdds(m, between, order, s.name, s.side);
      InverseRoundAdds(base, KnownSlots(m), s.name, s.side);
      forall y: string
        ensures Slot(y, OtherSide(s.side)) in KnownSlots(m) <==> At(m, Slot(y, OtherSide(s.side))).Some?
      {
        KnownSlotsAt(m, Slot(y, OtherSide(s.side)));
      }
    }
  }

  lemma InheritancePassKnows(base: Properties, m: Properties, m': Properties, order: seq<string>)
    requires Preserves(base, m) && Enumerates(order, m) && m' == InheritancePass(m, order)
    ensures KnownSlots(m') == InheritanceRound(base, KnownSlots(m))
  {
    hide InheritancePass, KnownSlots, InheritanceRound;
    forall s: Slot
      ensures s in KnownSlots(m') <==> s in InheritanceRound(base, KnownSlots(m))
    {
      KnownSlotsAt(m', s);
      KnownSlotsAt(m, s);
      InheritanceAdds(m, m', order, s.name, s.side);
      InheritanceRoundAdds(base, KnownSlots(m), s.name, s.side);
      forall p: string
        ensures Slot(p, s.side) in KnownSlots(m) <==> At(m, Slot(p, s.side)).Some?
      {
        KnownSlotsAt(m, Slot(p, s.side));
      }
    }
  }

  /** What a pass makes known depends on what was known and on the declared links, not on the order of the walk. */
  lemma PassKnows(base: Properties, m: Properties, between: Properties, m': Properties)
    requires Preserves(base, m) && Pass(m, between, m')
    ensures KnownSlots(m') == Round(base, KnownSlots(m))
  {
    hide InversePass, InheritancePass, KnownSlots, InverseRound, InheritanceRound, Preserves;
    PassPreserves(m, between, m');
    PreservesTransitive(base, m, between);
    var o1 :| Enumerates(o1, m) && between == InversePass(m, o1);
    var o2 :| Enumerates(o2, between) && m' == InheritancePass(between, o2);
    InversePassKnows(base, m, between, o1);
    InheritancePassKnows(base, between, m', o2);
  }

  // ---- What resolution ends with

  /** Nothing is overwritten, and known is what was known before the last round and what that round adds. */
  ghost predicate Resolved(base: Properties, m: Properties) {
    Preserves(base, m) && KnownSlots(m) == Round(base, LastState(base))
  }

  /** A property has a domain, has a range, or is a data property, whenever one of its parents has or is. */
  ghost predicate InheritanceClosed(m: Properties, side: Side) {
    forall c, p :: c in m && p in m[c].parents && At(m, Slot(p, side)).Some? ==> At(m, Slot(c, side)).Some?
  }

  /** A property's domain gives its inverse partner a range, or its range a domain. */
  ghost predicate InverseClosed(m: Properties, side: Side) {
    forall y, x :: y in m && m[y].inverseOf == Some(x) && At(m, Slot(y, side)).Some? ==>
      At(m, Slot(x, OtherSide(side))).Some?
  }

  lemma ResolvedKnows(base: Properties, m: Properties, s: Slot)
    requires Resolved(base, m)
    ensures At(m, s).Some? <==> s in Round(base, LastState(base))
  {
    hide KnownSlots, Round, LastState, Preserves;
    KnownSlotsAt(m, s);
  }

  /** A domain known at the end was known before the last round. */
  lemma DomainsWereKnown(base: Properties, m: Properties, x: string)
    requires Resolved(base, m)
    ensures At(m, Slot(x, DomainSide)).Some? <==> Slot(x, DomainSide) in LastState(base)
  {
    hide KnownSlots, Round, LastState, Preserves, At;
    ResolvedKnows(base, m, Slot(x, DomainSide));
    var last := LastState(base);
    assert x in Domains(last) <==> x in Domains(Round(base, last));
  }

  /** Domains end up closed under subPropertyOf, and every known domain has given the inverse partner a range. */
  lemma ResolvedHandsOnDomains(base: Properties, m: Properties)
    requires Resolved(base, m)
    ensures InheritanceClosed(m, DomainSide) && InverseClosed(m, DomainSide)
  {
    hide KnownSlots, LastState, InheritanceRound, InverseRound, At;
    var last := LastState(base);
    forall c, p | c in m && p in m[c].parents && At(m, Slot(p, DomainSide)).Some?
      ensures At(m, Slot(c, DomainSide)).Some?
    {
      DomainsWereKnown(base, m, p);
      InverseRoundAdds(base, last, p, DomainSide);
      InheritanceRoundAdds(base, InverseRound(base, last), c, DomainSide);
      ResolvedKnows(base, m, Slot(c, DomainSide));
    }
    forall y, x | y in m && m[y].inverseOf == Some(x) && At(m, Slot(y, DomainSide)).Some?
      ensures At(m, Slot(x, RangeSide)).Some?
    {
      DomainsWereKnown(base, m, y);
      InverseRoundAdds(base, last, x, RangeSide);
      InheritanceRoundAdds(base, InverseRound(base, last), x, RangeSide);
      ResolvedKnows(base, m, Slot(x, RangeSide));
    }
  }

  /** The last round finds a range for a property whose partner has no domain then. */
  predicate LateRange(m: Properties, y: string) {
    && y in m && m[y].inverseOf.Some?
    && Slot(y, RangeSide) in Round(m, LastState(m)) && Slot(y, RangeSide) !in LastState(m)
    && Slot(m[y].inverseOf.value, DomainSide) !in LastState(m)
  }

  /** The exit test counts domains only, so the last round may find a range that no later round hands on. Ranges have
      given the inverse partners domains exactly when the declarations have no late range. */
  lemma ResolvedClosesInverseExactly(base: Properties, m: Properties)
    requires Resolved(base, m)
    ensures InverseClosed(m, RangeSide) <==> !exists y :: LateRange(base, y)
  {
    hide KnownSlots, LastState, InheritanceRound, InverseRound, At;
    forall y: string
      ensures LateRange(base, y) <==>
        && y in m && m[y].inverseOf.Some? && At(m, Slot(y, RangeSide)).Some?
        && At(m, Slot(m[y].inverseOf.value, DomainSide)).None?
    {
      if y in base && base[y].inverseOf.Some? {
        LateRangeStaysUnused(base, m, y, base[y].inverseOf.value);
      }
    }
    if y :| LateRange(base, y) {
      assert y in m && m[y].inverseOf == Some(m[y].inverseOf.value);
    }
  }

  lemma LateRangeStaysUnused(base: Properties, m: Properties, y: string, x: string)
    requires Resolved(base, m) && y in base && base[y].inverseOf == Some(x)
    ensures LateRange(base, y) <==> At(m, Slot(y, RangeSide)).Some? && At(m, Slot(x, DomainSide)).None?
  {
    hide KnownSlots, LastState, InheritanceRound, InverseRound, Preserves, At;
    var last := LastState(base);
    ResolvedKnows(base, m, Slot(y, RangeSide));
    ResolvedKnows(base, m, Slot(x, DomainSide));
    DomainsWereKnown(base, m, x);
    // A range known before the last round is handed on by it.
    InverseRoundAdds(base, last, x, DomainSide);
    InheritanceRoundAdds(base, InverseRound(base, last), x, DomainSide);
  }

  /** A range, or the mark of a data property, that is only inherited in the last round, by a parent of a property that
      inherits none in that round. */
  predicate LateInheritance(m: Properties, side: Side, c: string, p: string) {
    var last := InverseRound(m, LastState(m));
    && c in m && p in m[c].parents
    && Slot(p, side) in InheritanceRound(m, last) && Slot(p, side) !in last
    && Slot(c, side) !in last && forall q :: q in m[c].parents ==> Slot(q, side) !in last
  }

  /** For the same reason ranges and data properties end up closed under subPropertyOf exactly when the declarations
      have no late inheritance. */
  lemma ResolvedClosesInheritanceExactly(base: Properties, m: Properties, side: Side)
    requires Resolved(base, m)
    ensures InheritanceClosed(m, side) <==> !exists c, p :: LateInheritance(base, side, c, p)
  {
    hide KnownSlots, LastState, InheritanceRound, InverseRound, At;
    forall c: string, p: string
      ensures LateInheritance(base, side, c, p) <==>
        && c in m && p in m[c].parents
        && At(m, Slot(p, side)).Some? && At(m, Slot(c, side)).None?
    {
      var last := InverseRound(base, LastState(base));
      ResolvedKnows(base, m, Slot(p, side));
      ResolvedKnows(base, m, Slot(c, side));
      InheritanceRoundAdds(base, last, c, side);
    }
  }

  function Bare(name: string, domain: Option<string>, inverseOf: Option<string>): OwlProperty {
    OwlProperty(name, None, ObjectProperty, domain, None, [], inverseOf)
  }

  /** `a` has a domain and names `b` as its inverse; `b` names `c`. */
  function ChainOfInverses(d: string): Properties {
    map["a" := Bare("a", Some(d), Some("b")), "b" := Bare("b", None, Some("c"))]
  }

  /** Resolution of this chain stops after one round, in which `b` gets a range that could be the domain of `c`. */
  lemma ChainHasLateRange(d: string)
    ensures LateRange(ChainOfInverses(d), "b")
  {
    var m := ChainOfInverses(d);
    var known := KnownSlots(m);
    assert known == {Slot("a", DomainSide)};
    assert InverseRound(m, known) == {Slot("a", DomainSide), Slot("b", RangeSide)} by {
      assert Slot("a", DomainSide) in known;
    }
    var next := Round(m, known);
    assert next == {Slot("a", DomainSide), Slot("b", RangeSide)};
    assert Domains(next) == {"a"} == Domains(known);
    DeclaredInside(m);
    assert LastState(m) == known;
  }

  lemma InverseClosureCanFail(d: string, m: Properties)
    requires Resolved(ChainOfInverses(d), m)
    ensures !InverseClosed(m, RangeSide)
  {
    hide Resolved, LateRange, InverseClosed;
    ChainHasLateRange(d);
    ResolvedClosesInverseExactly(ChainOfInverses(d), m);
  }

  function Child(name: string, parents: seq<string>, range: Option<string>): OwlProperty {
    OwlProperty(name, None, ObjectProperty, None, range, parents, None)
  }

  /** Only `g` has a range; `p` is its child, `c` is a child of `p`. */
  function ThreeGenerations(r: string): Properties {
    map["g" := Child("g", [], Some(r)), "p" := Child("p", ["g"], None), "c" := Child("c", ["p"], None)]
  }

  /** Resolution of these stops after one round, in which `p` gets its range and `c` gets none. */
  lemma GenerationsInheritLate(r: string)
    ensures LateInheritance(ThreeGenerations(r), RangeSide, "c", "p")
  {
    hide KnownSlots, InheritanceRound, LastState;
    var m, known := ThreeGenerations(r), {Slot("g", RangeSide)};
    GenerationsKnown(r);
    InheritanceRoundAdds(m, known, "p", RangeSide);
  }

  lemma GenerationsKnown(r: string)
    ensures var m := ThreeGenerations(r);
      LastState(m) == {Slot("g", RangeSide)} == InverseRound(m, LastState(m))
  {
    var m, known := ThreeGenerations(r), {Slot("g", RangeSide)};
    assert KnownSlots(m) == known;
    assert InverseRound(m, known) == known;
    assert Domains(Round(m, known)) == {} == Domains(known);
    DeclaredInside(m);
  }

  lemma InheritanceClosureCanFail(r: string, m: Properties)
    requires Resolved(ThreeGenerations(r), m)
    ensures !InheritanceClosed(m, RangeSide)
  {
    hide Resolved, LateInheritance, InheritanceClosed;
    GenerationsInheritLate(r);
    ResolvedClosesInheritanceExactly(ThreeGenerations(r), m, RangeSide);
  }
}
