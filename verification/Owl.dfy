/** The imported ontology: class hierarchy closures and the resolution of property domains. */
module Owl {
  import opened Wrappers
  import opened PropertyGraph

  datatype OwlClass = OwlClass(name: string, caption: Option<string>, parents: seq<string>, isEnumeration: bool)

  type Classes = map<string, OwlClass>

  // ---- Paths in the class hierarchy

  /** Each step leads from a declared class to one of its parents. */
  ghost predicate UpwardPath(classes: Classes, path: seq<string>) {
    forall i :: 0 <= i < |path| - 1 ==> path[i] in classes && path[i + 1] in classes[path[i]].parents
  }

  ghost predicate PathBetween(classes: Classes, path: seq<string>, low: string, high: string) {
    |path| >= 2 && path[0] == low && path[|path| - 1] == high && UpwardPath(classes, path)
  }

  /** `high` is reached from `low` by at least one step upward. */
  ghost predicate Below(classes: Classes, low: string, high: string) {
    exists path :: PathBetween(classes, path, low, high)
  }

  predicate IsParent(classes: Classes, child: string, parent: string) {
    child in classes && parent in classes[child].parents
  }

  lemma OneStep(classes: Classes, child: string, parent: string)
    requires IsParent(classes, child, parent)
    ensures Below(classes, child, parent)
  {
    assert PathBetween(classes, [child, parent], child, parent);
  }

  lemma StepBelow(classes: Classes, low: string, middle: string, high: string)
    requires IsParent(classes, low, middle) && Below(classes, middle, high)
    ensures Below(classes, low, high)
  {
    var path :| PathBetween(classes, path, middle, high);
    var longer := [low] + path;
    assert UpwardPath(classes, longer) by {
      forall i | 0 <= i < |longer| - 1
        ensures longer[i] in classes && longer[i + 1] in classes[longer[i]].parents
      {
        assert i > 0 ==> longer[i] == path[i - 1] && longer[i + 1] == path[i];
      }
    }
    assert PathBetween(classes, longer, low, high);
  }

  lemma StepAbove(classes: Classes, low: string, middle: string, high: string)
    requires Below(classes, low, middle) && IsParent(classes, middle, high)
    ensures Below(classes, low, high)
  {
    var path :| PathBetween(classes, path, low, middle);
    var longer := path + [high];
    assert UpwardPath(classes, longer) by {
      forall i | 0 <= i < |longer| - 1
        ensures longer[i] in classes && longer[i + 1] in classes[longer[i]].parents
      {
        assert longer[i] == path[i];
      }
    }
    assert PathBetween(classes, longer, low, high);
  }

  /** A set of names closed under declared children of itself and of `root` holds everything below `root`. */
  lemma {:induction false} DownwardClosure(classes: Classes, closed: set<string>, root: string, path: seq<string>,
                                           low: string)
    requires PathBetween(classes, path, low, root)
    requires forall child, parent :: IsParent(classes, child, parent) && (parent == root || parent in closed) ==>
             child in closed
    ensures low in closed
    decreases |path|
  {
    if |path| == 2 {
      assert IsParent(classes, low, root);
    } else {
      var rest := path[1..];
      assert PathBetween(classes, rest, path[1], root) by {
        assert forall i :: 0 <= i < |rest| ==> rest[i] == path[i + 1];
      }
      DownwardClosure(classes, closed, root, rest, path[1]);
      assert IsParent(classes, low, path[1]);
    }
  }

  /** A set that holds `start` and is closed under parents holds everything above `start`. */
  lemma {:induction false} UpwardClosure(classes: Classes, closed: set<string>, path: seq<string>, start: string,
                                         high: string)
    requires PathBetween(classes, path, start, high)
    requires start in closed && forall child, parent :: child in closed && IsParent(classes, child, parent) ==>
             parent in closed
    ensures high in closed
    decreases |path|
  {
    assert IsParent(classes, start, path[1]);
    if |path| <= 2 {
    } else {
      var rest := path[1..];
      assert PathBetween(classes, rest, path[1], high) by {
        assert forall i :: 0 <= i < |rest| ==> rest[i] == path[i + 1];
      }
      UpwardClosure(classes, closed, rest, path[1], high);
    }
  }

  /** The keys of a map in an order of its own choosing; the program walks them in sorted order. */
  method EnumerateKeys<V>(m: map<string, V>) returns (keys: seq<string>)
    ensures forall k :: k in keys <==> k in m
    ensures forall i, j :: 0 <= i < j < |keys| ==> keys[i] != keys[j]
  {
    keys := [];
    var rest := m.Keys;
    while rest != {}
      invariant rest <= m.Keys
      invariant forall k :: k in keys <==> k in m.Keys - rest
      invariant forall i, j :: 0 <= i < j < |keys| ==> keys[i] != keys[j]
    {
      var k :| k in rest;
      assert forall x :: x in keys + [k] <==> x in keys || x == k;
      assert k !in keys;
      assert forall i :: 0 <= i < |keys| ==> keys[i] in keys;
      keys := keys + [k];
      rest := rest - {k};
    }
  }

  ghost function Children(classes: Classes, parent: string): set<string> {
    set c | c in classes && IsParent(classes, c, parent)
  }

  ghost function Parents(classes: Classes, child: string): set<string> {
    if child in classes then (set p | p in classes[child].parents) else {}
  }

  ghost function AllParents(classes: Classes): set<string> {
    set c, p | c in classes && p in classes[c].parents :: p
  }

  ghost predicate Distinct(s: seq<string>) {
    forall i, j :: 0 <= i < j < |s| ==> s[i] != s[j]
  }

  /** The longer sequence continues the shorter one with exactly the given names, each once. */
  ghost predicate Extends(s: seq<string>, longer: seq<string>, added: set<string>) {
    && s <= longer && |longer| == |s| + |added|
    && (forall x :: x in longer[|s|..] <==> x in added)
    && Distinct(longer[|s|..])
  }

  lemma ExtendsItself(s: seq<string>)
    ensures Extends(s, s, {})
  {
  }

  lemma ExtendsMore(s: seq<string>, longer: seq<string>, added: set<string>, x: string)
    requires Extends(s, longer, added) && x !in added
    ensures Extends(s, longer + [x], added + {x})
  {
    var tail := longer[|s|..];
    var tail' := (longer + [x])[|s|..];
    assert tail' == tail + [x];
    assert x !in tail;
    assert forall i :: 0 <= i < |tail| ==> tail'[i] == tail[i] && tail[i] in tail;
    assert forall y :: y in tail' <==> y in tail || y == x;
  }

  lemma ExtendsByNothing(s: seq<string>, longer: seq<string>)
    requires Extends(s, longer, {})
    ensures longer == s
  {
    assert longer == s;
  }

  /** All met names that are no longer queued have had their children met. */
  ghost predicate Explored(classes: Classes, root: string, met: set<string>, queue: seq<string>) {
    forall parent :: (parent == root || parent in met) && parent !in queue ==> Children(classes, parent) <= met
  }

  lemma NothingExplored(classes: Classes, root: string)
    ensures Explored(classes, root, {}, [root])
  {
  }

  lemma RoundExplores(classes: Classes, root: string, met: set<string>, queue: seq<string>, popped: seq<string>,
                      current: string, met': set<string>, queue': seq<string>)
    requires Explored(classes, root, met, queue) && queue != []
    requires popped == queue[..|queue| - 1] && current == queue[|queue| - 1]
    requires met' == met + Children(classes, current) && Extends(popped, queue', met' - met)
    ensures Explored(classes, root, met', queue')
    ensures forall q :: q in queue' ==> q in popped || q in met'
  {
    hide Children, Distinct;
    assert queue' == popped + queue'[|popped|..];
    forall parent | (parent == root || parent in met') && parent !in queue'
      ensures Children(classes, parent) <= met'
    {
      if parent != current {
        assert queue == popped + [current];
      }
    }
  }

  lemma ExtendsDistinct(s: seq<string>, longer: seq<string>, added: set<string>)
    requires Extends(s, longer, added) && Distinct(s) && forall x :: x in s ==> x !in added
    ensures Distinct(longer)
    ensures forall x :: x in longer <==> x in s || x in added
  {
    var tail := longer[|s|..];
    assert longer == s + tail;
    assert forall j :: 0 <= j < |tail| ==> longer[|s| + j] == tail[j] && tail[j] in added;
    assert forall i :: 0 <= i < |s| ==> longer[i] == s[i] && s[i] in s;
  }

  lemma BelowIsInDownwardClosure(classes: Classes, closed: set<string>, root: string, low: string)
    requires Below(classes, low, root)
    requires Explored(classes, root, closed, [])
    ensures low in closed
  {
    var path :| PathBetween(classes, path, low, root);
    forall child, parent | IsParent(classes, child, parent) && (parent == root || parent in closed)
      ensures child in closed
    {
      assert child in Children(classes, parent);
    }
    DownwardClosure(classes, closed, root, path, low);
  }

  lemma AboveIsInUpwardClosure(classes: Classes, closed: set<string>, start: string, high: string)
    requires Below(classes, start, high)
    requires start in closed && Climbed(classes, closed, [])
    ensures high in closed
  {
    var path :| PathBetween(classes, path, start, high);
    UpwardClosure(classes, closed, path, start, high);
  }

  lemma RoundStaysBelow(classes: Classes, root: string, met: set<string>, current: string)
    requires current == root || current in met
    requires forall c :: c in met ==> Below(classes, c, root)
    ensures forall c :: c in Children(classes, current) ==> Below(classes, c, root)
    ensures Children(classes, current) <= classes.Keys
  {
    forall c | c in Children(classes, current)
      ensures Below(classes, c, root)
    {
      if current == root {
        OneStep(classes, c, root);
      } else {
        StepBelow(classes, c, current, root);
      }
    }
  }

  /** A round either meets a new name or only shortens the queue. */
  lemma RoundProgresses(universe: set<string>, met: set<string>, met': set<string>, popped: seq<string>,
                        queue: seq<string>)
    requires met <= met' <= universe && Extends(popped, queue, met' - met)
    ensures |universe - met'| < |universe - met| || (|universe - met'| == |universe - met| && queue == popped)
  {
    SubsetCardinality(universe - met', universe - met);
    if met' == met {
      assert met' - met == {};
      ExtendsByNothing(popped, queue);
    } else {
      assert universe - met' != universe - met;
    }
  }

  ghost function ChildrenAmong(classes: Classes, keys: seq<string>, parent: string): set<string> {
    if keys == [] then {} else
      var last := keys[|keys| - 1];
      ChildrenAmong(classes, keys[..|keys| - 1], parent) + (if IsParent(classes, last, parent) then {last} else {})
  }

  lemma {:induction false} ChildrenAmongKeys(classes: Classes, keys: seq<string>, parent: string)
    ensures forall c :: c in ChildrenAmong(classes, keys, parent) <==> c in keys && IsParent(classes, c, parent)
  {
    if keys == [] {
    } else {
      ChildrenAmongKeys(classes, keys[..|keys| - 1], parent);
    }
  }

  /** One round of the downward walk: enqueues the children of `current` not met before. */
  method EnqueueChildren(classes: Classes, current: string, keys: seq<string>, met: set<string>, queue: seq<string>)
    returns (met': set<string>, queue': seq<string>)
    requires forall k :: k in keys <==> k in classes
    ensures met' == met + Children(classes, current)
    ensures Extends(queue, queue', met' - met)
  {
    hide Extends, Children;
    ExtendsItself(queue);
    met', queue' := met, queue;
    assert met' - met == {};
    for n := 0 to |keys|
      invariant met' == met + ChildrenAmong(classes, keys[..n], current)
      invariant Extends(queue, queue', met' - met)
    {
      var name := keys[n];
      assert keys[..n + 1][..n] == keys[..n];
      if current in classes[name].parents && name !in met' {
        MeetMore(met, met', queue, queue', name);
        met' := met' + {name};
        queue' := queue' + [name];
      }
    }
    assert keys[..|keys|] == keys;
    AllChildren(classes, keys, current);
  }

  lemma AllChildren(classes: Classes, keys: seq<string>, parent: string)
    requires forall k :: k in keys <==> k in classes
    ensures ChildrenAmong(classes, keys, parent) == Children(classes, parent)
  {
    ChildrenAmongKeys(classes, keys, parent);
  }

  lemma MeetMore(met: set<string>, met': set<string>, s: seq<string>, longer: seq<string>, x: string)
    requires met <= met' && Extends(s, longer, met' - met) && x !in met'
    ensures Extends(s, longer + [x], met' + {x} - met)
  {
    ExtendsMore(s, longer, met' - met, x);
    assert met' + {x} - met == met' - met + {x};
  }

  /** One round of the upward walk: enqueues the parents not met before. */
  method EnqueueParents(parents: seq<string>, enqueued: set<string>, ancestors: seq<string>, queue: seq<string>)
    returns (enqueued': set<string>, ancestors': seq<string>, queue': seq<string>)
    ensures enqueued' == enqueued + (set p | p in parents)
    ensures Extends(queue, queue', enqueued' - enqueued)
    ensures Extends(ancestors, ancestors', enqueued' - enqueued)
  {
    hide Extends;
    ExtendsItself(queue);
    ExtendsItself(ancestors);
    enqueued', ancestors', queue' := enqueued, ancestors, queue;
    assert enqueued' - enqueued == {};
    for n := 0 to |parents|
      invariant enqueued' == enqueued + (set p | p in parents[..n])
      invariant Extends(queue, queue', enqueued' - enqueued)
      invariant Extends(ancestors, ancestors', enqueued' - enqueued)
    {
      var parent := parents[n];
      assert parents[..n + 1] == parents[..n] + [parent];
      if parent !in enqueued' {
        MeetMore(enqueued, enqueued', queue, queue', parent);
        MeetMore(enqueued, enqueued', ancestors, ancestors', parent);
        enqueued' := enqueued' + {parent};
        ancestors' := ancestors' + [parent];
        queue' := queue' + [parent];
      }
    }
    assert parents[..|parents|] == parents;
  }

  /** All enqueued names that are no longer queued have had their parents enqueued. */
  ghost predicate Climbed(classes: Classes, enqueued: set<string>, queue: seq<string>) {
    forall child :: child in enqueued && child !in queue ==> Parents(classes, child) <= enqueued
  }

  /** The list holds what was enqueued, except the start, each name once. */
  ghost predicate Listed(ancestors: seq<string>, enqueued: set<string>, start: string) {
    start in enqueued && Distinct(ancestors) && forall a :: a in ancestors <==> a in enqueued && a != start
  }

  lemma NothingClimbed(classes: Classes, start: string)
    ensures Climbed(classes, {start}, [start]) && Listed([], {start}, start)
  {
  }

  lemma ListedMembers(ancestors: seq<string>, enqueued: set<string>, start: string, a: string)
    requires Listed(ancestors, enqueued, start)
    ensures start in enqueued && Distinct(ancestors)
    ensures a in ancestors <==> a in enqueued && a != start
  {
  }

  lemma RoundClimbs(classes: Classes, start: string, known: set<string>, queue: seq<string>, popped: seq<string>,
                    current: string, known': set<string>, queue': seq<string>)
    requires Climbed(classes, known, queue) && queue != [] && forall q :: q in queue ==> q in known
    requires popped == queue[..|queue| - 1] && current == queue[|queue| - 1]
    requires known' == known + Parents(classes, current) && Extends(popped, queue', known' - known)
    ensures Climbed(classes, known', queue')
    ensures forall q :: q in queue' ==> q in known'
  {
    hide Parents, Distinct;
    assert queue' == popped + queue'[|popped|..];
    forall child | child in known' && child !in queue'
      ensures Parents(classes, child) <= known'
    {
      if child != current {
        assert queue == popped + [current];
      }
    }
  }

  lemma RoundLists(classes: Classes, start: string, listed: seq<string>, known: set<string>, current: string,
                   listed': seq<string>, known': set<string>)
    requires Listed(listed, known, start) && current in known
    requires forall a :: a in listed ==> Below(classes, start, a)
    requires known' == known + Parents(classes, current) && Extends(listed, listed', known' - known)
    ensures Listed(listed', known', start)
    ensures forall a :: a in listed' ==> Below(classes, start, a)
    ensures Parents(classes, current) <= AllParents(classes)
  {
    ExtendsDistinct(listed, listed', known' - known);
    forall a | a in known' - known
      ensures Below(classes, start, a)
    {
      assert IsParent(classes, current, a);
      if current == start {
        OneStep(classes, start, a);
      } else {
        StepAbove(classes, start, current, a);
      }
    }
  }

  // ---- The model object

  class OwlModel {
    var classes: Classes
    var properties: Properties
    var enumerations: map<string, seq<string>>

    constructor (classes: Classes, properties: Properties, enumerations: map<string, seq<string>>)
      ensures this.classes == classes && this.properties == properties && this.enumerations == enumerations
    {
      this.classes := classes;
      this.properties := properties;
      this.enumerations := enumerations;
    }

    /** Every declared class from which `root` is reached upward in at least one step, on any class graph. */
    method DescendantsOf(root: string) returns (result: set<string>)
      ensures forall c :: c in result <==> c in classes && Below(classes, c, root)
    {
      hide *;
      var graph := classes;
      NothingExplored(graph, root);
      result := {};
      var queue := [root];
      var keys := EnumerateKeys(graph);
      while queue != []
        invariant result <= graph.Keys
        invariant forall c :: c in result ==> Below(graph, c, root)
        invariant forall q :: q in queue ==> q == root || q in result
        invariant Explored(graph, root, result, queue)
        decreases |graph.Keys - result|, |queue|
      {
        ghost var known, before := result, queue;
        var current := queue[|queue| - 1];
        queue := queue[..|queue| - 1];
        ghost var popped := queue;
        result, queue := EnqueueChildren(graph, current, keys, result, queue);
        RoundExplores(graph, root, known, before, popped, current, result, queue);
        RoundStaysBelow(graph, root, known, current);
        RoundProgresses(graph.Keys, known, result, popped, queue);
      }
      forall c | c in graph && Below(graph, c, root)
        ensures c in result
      {
        BelowIsInDownwardClosure(graph, result, root, c);
      }
    }

    /** Everything reached upward from `start` except itself, each name once; undeclared parents included. */
    method AncestorsOf(start: string) returns (ancestors: seq<string>)
      ensures forall a :: a in ancestors <==> a != start && Below(classes, start, a)
      ensures Distinct(ancestors)
    {
      hide Below, Extends, Distinct, Climbed, Listed, AllParents;
      var graph := classes;
      ancestors := [];
      var enqueued := {start};
      var queue := [start];
      ghost var universe := {start} + AllParents(graph);
      NothingClimbed(graph, start);
      while queue != []
        invariant enqueued <= universe
        invariant Listed(ancestors, enqueued, start)
        invariant forall q :: q in queue ==> q in enqueued
        invariant forall a :: a in ancestors ==> Below(graph, start, a)
        invariant Climbed(graph, enqueued, queue)
        decreases |universe - enqueued|, |queue|
      {
        ghost var known, listed, before := enqueued, ancestors, queue;
        var current := queue[|queue| - 1];
        queue := queue[..|queue| - 1];
        ghost var popped := queue;
        if current in graph {
          enqueued, ancestors, queue := EnqueueParents(graph[current].parents, enqueued, ancestors, queue);
        } else {
          ExtendsItself(queue);
          ExtendsItself(ancestors);
        }
        RoundClimbs(graph, start, known, before, popped, current, enqueued, queue);
        RoundLists(graph, start, listed, known, current, ancestors, enqueued);
        RoundProgresses(universe, known, enqueued, popped, queue);
      }
      forall a | a != start && Below(graph, start, a)
        ensures a in ancestors
      {
        ListedMembers(ancestors, enqueued, start, a);
        AboveIsInUpwardClosure(graph, enqueued, start, a);
      }
      ListedMembers(ancestors, enqueued, start, start);
    }

    method PropertiesWithDomainCount() returns (n: nat)
      ensures n == |KnownDomains(properties)|
    {
      var keys := EnumerateKeys(properties);
      n := 0;
      ghost var counted: set<string> := {};
      for i := 0 to |keys|
        invariant counted == (set x | x in keys[..i] && properties[x].domain.Some?) && n == |counted|
      {
        assert keys[..i + 1] == keys[..i] + [keys[i]];
        if properties[keys[i]].domain.Some? {
          assert keys[i] !in counted;
          counted := counted + {keys[i]};
          n := n + 1;
        }
      }
      assert keys[..|keys|] == keys;
      assert counted == KnownDomains(properties);
    }

    /** Offers every property's range and domain to its inverse partner, which is inserted when it is missing. */
    method ResolveInverseDomains()
      modifies this`properties
      ensures exists order :: Enumerates(order, old(properties)) && properties == InversePass(old(properties), order)
    {
      hide Apply, ApplyAll;
      var m := properties;
      var order := EnumerateKeys(m);
      var updates: seq<Update> := [];
      for n := 0 to |order|
        invariant updates == InverseUpdates(m, order[..n])
      {
        assert order[..n + 1][..n] == order[..n];
        var p := m[order[n]];
        if p.inverseOf.Some? {
          updates := updates + [Update(p.inverseOf.value, p.range, p.domain, false)];
        }
      }
      assert order[..|order|] == order;
      ApplyUpdates(updates);
      assert Enumerates(order, m);
    }

    method ApplyUpdates(updates: seq<Update>)
      modifies this`properties
      ensures properties == PropertyGraph.ApplyAll(old(properties), updates)
    {
      for n := 0 to |updates|
        invariant properties == PropertyGraph.ApplyAll(old(properties), updates[..n])
      {
        assert updates[..n + 1][..n] == updates[..n];
        var u := updates[n];
        var entry := if u.target in properties then properties[u.target] else Unknown();
        if entry.domain.None? {
          entry := entry.(domain := u.domain);
        }
        if entry.range.None? {
          entry := entry.(range := u.range);
        }
        if entry.kind == ObjectProperty && u.data {
          entry := entry.(kind := DataProperty);
        }
        properties := properties[u.target := entry];
      }
      assert updates[..|updates|] == updates;
    }

    /** Offers every declared parent's domain and range to its children. */
    method ResolveSubpropertyDomains()
      modifies this`properties
      ensures exists order :: Enumerates(order, old(properties)) &&
                properties == InheritancePass(old(properties), order)
    {
      hide Apply, ApplyAll;
      var m := properties;
      var order := EnumerateKeys(m);
      var inheritance: seq<Update> := [];
      for n := 0 to |order|
        invariant inheritance == InheritanceUpdates(m, order[..n])
      {
        assert order[..n + 1][..n] == order[..n];
        var name := order[n];
        var parents := m[name].parents;
        for k := 0 to |parents|
          invariant inheritance == InheritanceUpdates(m, order[..n]) + ParentUpdates(m, name, parents[..k])
        {
          assert parents[..k + 1][..k] == parents[..k];
          var parent := parents[k];
          if parent in m {
            inheritance := inheritance +
                [Update(name, m[parent].domain, m[parent].range, m[parent].kind == DataProperty)];
          }
        }
        assert parents[..|parents|] == parents;
      }
      assert order[..|order|] == order;
      ApplyUpdates(inheritance);
      assert Enumerates(order, m);
    }

    /** Repeats both passes until no pass adds a domain. On any property graph this ends; it overwrites nothing; all it
        adds is derivable from what was declared. What is known at the end is determined by the declarations: known
        domains have been handed on along subPropertyOf and inverseOf, and ranges and the marks of data properties
        exactly when the declarations have no late inheritance and no late range. */
    method ResolvePropertyDomains()
      modifies this`properties
      ensures Resolved(old(properties), properties)
      ensures properties.Keys <= Universe(old(properties))
      ensures Justified(old(properties), properties)
      ensures InheritanceClosed(properties, DomainSide) && InverseClosed(properties, DomainSide)
      ensures InheritanceClosed(properties, RangeSide) <==>
                !exists c, p :: LateInheritance(old(properties), RangeSide, c, p)
      ensures InheritanceClosed(properties, DataSide) <==>
                !exists c, p :: LateInheritance(old(properties), DataSide, c, p)
      ensures InverseClosed(properties, RangeSide) <==> !exists y :: LateRange(old(properties), y)
    {
      hide Preserves, Justified, InheritanceClosed, InverseClosed, LateRange, LateInheritance, KnownDomains,
           KnownSlots, Universe, Round, InversePass, InheritancePass;
      ghost var base := properties;
      NothingResolved(base);
      DeclaredInside(base);
      while true
        invariant Preserves(base, properties) && Justified(base, properties)
        invariant properties.Keys <= Universe(base)
        invariant Domains(KnownSlots(properties)) <= Universe(base)
        invariant BeforeLastRound(base, KnownSlots(properties)) == LastState(base)
        decreases |Universe(base)| - |KnownDomains(properties)|
      {
        ghost var last := properties;
        var before := PropertiesWithDomainCount();
        ResolveInverseDomains();
        ghost var between := properties;
        ghost var o1 :| Enumerates(o1, last) && between == InversePass(last, o1);
        InversePassJustified(base, last, o1);
        InversePassStaysInside(base, last, o1);
        ResolveSubpropertyDomains();
        ghost var o2 :| Enumerates(o2, between) && properties == InheritancePass(between, o2);
        InheritancePassJustified(base, between, o2);
        InheritancePassStaysInside(between, o2);
        assert Pass(last, between, properties);
        PassPreserves(last, between, properties);
        KnownDomainsGrow(last, properties);
        KnownDomainsBounded(properties, Universe(base));
        PassKnows(base, last, between, properties);
        RoundStaysInside(base, KnownSlots(last));
        DomainsOfKnownSlots(last);
        DomainsOfKnownSlots(properties);
        var after := PropertiesWithDomainCount();
        if after == before {
          ResolvedHandsOnDomains(base, properties);
          ResolvedClosesInheritanceExactly(base, properties, RangeSide);
          ResolvedClosesInheritanceExactly(base, properties, DataSide);
          ResolvedClosesInverseExactly(base, properties);
          break;
        }
      }
    }
  }

  /** Resolving this chain of inverses leaves a range that nobody takes as a domain. */
  method ResolveChain(d: string) returns (owl: OwlModel)
    ensures fresh(owl) && Resolved(ChainOfInverses(d), owl.properties) && !InverseClosed(owl.properties, RangeSide)
  {
    hide Resolved, InverseClosed, LateRange, InheritanceClosed, LateInheritance;
    owl := new OwlModel(map[], ChainOfInverses(d), map[]);
    owl.ResolvePropertyDomains();
    InverseClosureCanFail(d, owl.properties);
  }

  /** Resolving these three generations leaves the youngest without the range of the oldest. */
  method ResolveGenerations(r: string) returns (owl: OwlModel)
    ensures fresh(owl) && Resolved(ThreeGenerations(r), owl.properties)
    ensures !InheritanceClosed(owl.properties, RangeSide)
  {
    hide Resolved, InverseClosed, LateRange, InheritanceClosed, LateInheritance;
    owl := new OwlModel(map[], ThreeGenerations(r), map[]);
    owl.ResolvePropertyDomains();
    InheritanceClosureCanFail(r, owl.properties);
  }

  /** The two walks agree: a declared class is a descendant of another name exactly when that name is its ancestor. */
  method WalksAgree(owl: OwlModel, low: string, high: string) returns (descends: bool, ascends: bool)
    requires low in owl.classes && low != high
    ensures descends == ascends == Below(owl.classes, low, high)
  {
    var descendants := owl.DescendantsOf(high);
    var ancestors := owl.AncestorsOf(low);
    descends := low in descendants;
    ascends := high in ancestors;
  }
}
