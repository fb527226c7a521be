/** Category-aware downgrade of a label for release into a target domain. */
module Downgrade {
  import opened Wrappers
  import opened Labeling
  import opened Sequences

  datatype DowngradeConfig = DowngradeConfig(intersectReleasability: bool, stripNonTargetCategories: bool)

  /** The values of one category that survive the intersection with the target. */
  function Intersected(c: CategoryMarking, target: SecurityDomain): CategoryMarking {
    if c.IsReleasability() then c.(values := Retain(c.values, v => target.AcceptsCountry(v))) else c
  }

  function IntersectedAll(cs: seq<CategoryMarking>, target: SecurityDomain): seq<CategoryMarking> {
    seq(|cs|, i requires 0 <= i < |cs| => Intersected(cs[i], target))
  }

  predicate KeepCategory(c: CategoryMarking) {
    c.IsReleasability() ==> c.values != []
  }

  function DowngradedCategories(cs: seq<CategoryMarking>, target: SecurityDomain, config: DowngradeConfig)
    : seq<CategoryMarking>
  {
    if !config.intersectReleasability then cs
    else
      var kept := IntersectedAll(cs, target);
      if config.stripNonTargetCategories then Retain(kept, KeepCategory) else kept
  }

  function DowngradedLabel(original: Label, target: SecurityDomain, config: DowngradeConfig)
    : Result<Label, LabelError> {
    var level := if original.classification.AtMost(target.maxClassification)
                 then original.classification else target.maxClassification;
    var effective := original.(classification := level,
                            categories := DowngradedCategories(original.categories, target, config));
    match effective.Validate()
    case Ok(_) => Ok(effective)
    case Err(e) => Err(e)
  }

  /** The edit of a copied label, category by category. */
  method DowngradedLabelForTarget(original: Label, target: SecurityDomain, config: DowngradeConfig)
    returns (r: Result<Label, LabelError>)
    ensures r == DowngradedLabel(original, target, config)
  {
    var effective := original;
    if effective.classification.Rank() > target.maxClassification.Rank() {
      effective := effective.(classification := target.maxClassification);
    }
    if config.intersectReleasability {
      var categories := effective.categories;
      for i := 0 to |categories|
        invariant |categories| == |original.categories|
        invariant forall j :: 0 <= j < i ==> categories[j] == Intersected(original.categories[j], target)
        invariant forall j :: i <= j < |categories| ==> categories[j] == original.categories[j]
      {
        if categories[i].IsReleasability() {
          var kept := Retain(categories[i].values, v => target.AcceptsCountry(v));
          categories := categories[i := categories[i].(values := kept)];
        }
      }
      assert categories == IntersectedAll(original.categories, target);
      if config.stripNonTargetCategories {
        categories := Retain(categories, KeepCategory);
      }
      effective := effective.(categories := categories);
    }
    match effective.Validate()
    case Ok(_) => r := Ok(effective);
    case Err(e) => r := Err(e);
  }

  /** When the target accepts every releasability value, the intersection removes nothing. */
  lemma IntersectionKeepsAccepted(original: Label, target: SecurityDomain, config: DowngradeConfig)
    requires original.Validate().Ok?
    requires forall v :: v in original.ReleasableCountries() ==> target.AcceptsCountry(v)
    ensures DowngradedCategories(original.categories, target, config) == original.categories
  {
    var cs := original.categories;
    forall i | 0 <= i < |cs|
      ensures Intersected(cs[i], target) == cs[i]
    {
      if cs[i].IsReleasability() {
        forall v | v in cs[i].values
          ensures target.AcceptsCountry(v)
        {
          CategoryValuesMember(cs, (c: CategoryMarking) => c.IsReleasability(), v);
        }
        RetainAll(cs[i].values, v => target.AcceptsCountry(v));
      }
    }
    assert IntersectedAll(cs, target) == cs;
    RetainAll(cs, KeepCategory);
  }

  // ---- What the edit does in general

  /** Which countries the edited categories are releasable to: with the intersection, exactly the accepted ones of
      before. */
  lemma CountriesAfter(cs: seq<CategoryMarking>, target: SecurityDomain, config: DowngradeConfig, country: string)
    ensures var after := DowngradedCategories(cs, target, config);
      country in CategoryValues(after, (c: CategoryMarking) => c.IsReleasability()) <==>
        && country in CategoryValues(cs, (c: CategoryMarking) => c.IsReleasability())
        && (config.intersectReleasability ==> target.AcceptsCountry(country))
  {
    hide Retain, CategoryMarking.IsReleasability, SecurityDomain.AcceptsCountry;
    var after := DowngradedCategories(cs, target, config);
    CategoryValuesMember(cs, (c: CategoryMarking) => c.IsReleasability(), country);
    CategoryValuesMember(after, (c: CategoryMarking) => c.IsReleasability(), country);
    if config.intersectReleasability {
      var kept := IntersectedAll(cs, target);
      forall i | 0 <= i < |cs|
        ensures kept[i].IsReleasability() == cs[i].IsReleasability()
        ensures cs[i].IsReleasability() ==>
                  (country in kept[i].values <==> country in cs[i].values && target.AcceptsCountry(country))
      {
        SameTag(cs[i], kept[i]);
      }
      if i :| 0 <= i < |cs| && cs[i].IsReleasability() && country in cs[i].values && target.AcceptsCountry(country) {
        assert kept[i] in after;
        var k :| 0 <= k < |after| && after[k] == kept[i];
      }
      if k :| 0 <= k < |after| && after[k].IsReleasability() && country in after[k].values {
        assert after[k] in kept;
        var i :| 0 <= i < |cs| && kept[i] == after[k];
      }
    }
  }

  lemma SameTag(a: CategoryMarking, b: CategoryMarking)
    requires a.tagName == b.tagName
    ensures a.IsReleasability() == b.IsReleasability()
  {
  }

  predicate NoReleasability(c: CategoryMarking) {
    !c.IsReleasability()
  }

  /** The other categories stay as they are, in their order. */
  lemma OthersStay(cs: seq<CategoryMarking>, target: SecurityDomain, strip: bool)
    ensures var kept := IntersectedAll(cs, target);
      Retain(if strip then Retain(kept, KeepCategory) else kept, (c: CategoryMarking) => !c.IsReleasability())
      == Retain(cs, (c: CategoryMarking) => !c.IsReleasability())
  {
    hide CategoryMarking.IsReleasability, IntersectedAll;
    var kept, other := IntersectedAll(cs, target), (c: CategoryMarking) => !c.IsReleasability();
    IntersectionKeepsOthers(cs, target);
    SameSelection(cs, other, NoReleasability);
    SameSelection(kept, other, NoReleasability);
    RetainTwice(kept, KeepCategory, NoReleasability, NoReleasability);
    SameSelection(Retain(kept, KeepCategory), other, NoReleasability);
  }

  lemma {:induction false} IntersectionKeepsOthers(cs: seq<CategoryMarking>, target: SecurityDomain)
    ensures Retain(IntersectedAll(cs, target), NoReleasability) == Retain(cs, NoReleasability)
  {
    hide Intersected, NoReleasability, Retain;
    if cs == [] {
      assert IntersectedAll(cs, target) == cs;
    } else {
      var kept, rest := IntersectedAll(cs, target), IntersectedAll(cs[1..], target);
      IntersectionKeepsOthers(cs[1..], target);
      assert kept == [kept[0]] + rest;
      IntersectionKeepsOther(cs[0], target);
      RetainConcat([kept[0]], rest, NoReleasability);
      RetainConcat([cs[0]], cs[1..], NoReleasability);
      assert [cs[0]] + cs[1..] == cs;
      OneRetained(kept[0], NoReleasability);
      OneRetained(cs[0], NoReleasability);
    }
  }

  lemma IntersectionKeepsOther(c: CategoryMarking, target: SecurityDomain)
    ensures NoReleasability(Intersected(c, target)) == NoReleasability(c)
    ensures NoReleasability(c) ==> Intersected(c, target) == c
  {
    SameTag(c, Intersected(c, target));
  }

  lemma OneRetained<T>(x: T, keep: T -> bool)
    ensures Retain([x], keep) == if keep(x) then [x] else []
    ensures Retain([], keep) == []
  {
  }

  /** The edited label in full: the classification lowered to the target's maximum if it exceeds it; the other
      categories untouched; releasability reduced to the accepted countries, emptied categories dropped or kept as
      configured, or nothing of that without the intersection; and everything else as it was. It is refused when the
      result is invalid. */
  lemma DowngradedLabelExactly(original: Label, target: SecurityDomain, config: DowngradeConfig, country: string)
    ensures var r := DowngradedLabel(original, target, config);
      && (r.Err? ==> r.error == Validation)
      && (r.Ok? ==> var l := r.value;
            && l == original.(classification := l.classification, categories := l.categories)
            && l.classification == (if original.classification.AtMost(target.maxClassification)
                                    then original.classification else target.maxClassification)
            && (!config.intersectReleasability ==> l.categories == original.categories)
            && (country in l.ReleasableCountries() <==>
                  && country in original.ReleasableCountries()
                  && (config.intersectReleasability ==> target.AcceptsCountry(country)))
            && Retain(l.categories, (c: CategoryMarking) => !c.IsReleasability())
               == Retain(original.categories, (c: CategoryMarking) => !c.IsReleasability())
            && (!config.stripNonTargetCategories ==> |l.categories| == |original.categories|))
  {
    hide Retain, CategoryValues, CategoryMarking.IsReleasability, SecurityDomain.AcceptsCountry, KeepCategory;
    CountriesAfter(original.categories, target, config, country);
    OthersStay(original.categories, target, config.stripNonTargetCategories);
  }

  /** When it is refused: no policy identifier, a level the label's own policy does not allow, or a category without
      name or without a value left. */
  lemma DowngradeRefusedExactly(original: Label, target: SecurityDomain, config: DowngradeConfig)
    ensures var level := if original.classification.AtMost(target.maxClassification)
                         then original.classification else target.maxClassification;
      DowngradedLabel(original, target, config).Ok? <==>
        && original.policy.identifier != "" && level in original.policy.allowed
        && forall c :: c in original.categories ==>
             if !config.intersectReleasability || !c.IsReleasability() then c.tagName != "" && c.values != []
             else if exists v :: v in c.values && target.AcceptsCountry(v) then c.tagName != ""
             else config.stripNonTargetCategories
  {
    hide CategoryMarking.IsReleasability, SecurityDomain.AcceptsCountry, Retain;
    var cs := original.categories;
    if config.intersectReleasability {
      var kept := IntersectedAll(cs, target);
      forall i | 0 <= i < |cs|
        ensures cs[i] in cs && kept[i].tagName == cs[i].tagName && kept[i].IsReleasability() == cs[i].IsReleasability()
        ensures if cs[i].IsReleasability() then kept[i].values != [] <==>
                  exists v :: v in cs[i].values && target.AcceptsCountry(v)
                else kept[i] == cs[i]
      {
        SameTag(cs[i], kept[i]);
        SomethingKept(cs[i].values, v => target.AcceptsCountry(v));
      }
      var after := DowngradedCategories(cs, target, config);
      forall k: CategoryMarking
        ensures k in after <==> k in kept && (config.stripNonTargetCategories ==> KeepCategory(k))
      {
      }
    }
    ValidExactly(original.(classification := if original.classification.AtMost(target.maxClassification)
                                             then original.classification else target.maxClassification,
                           categories := DowngradedCategories(cs, target, config)));
  }

  lemma SomethingKept<T>(s: seq<T>, keep: T -> bool)
    ensures Retain(s, keep) != [] <==> exists x :: x in s && keep(x)
  {
    hide Retain;
    if Retain(s, keep) != [] {
      assert Retain(s, keep)[0] in s;
    }
  }
}
