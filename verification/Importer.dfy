/** Turning an ontology into object types, action types and attributes. */
module Importer {
  import opened Wrappers
  import opened Text
  import opened PropertyGraph
  import opened Owl
  import MimUri

  // ---- Names

  /** The piece after the last occurrence of a character, when there is one. */
  function AfterLast(s: string, c: char): (r: Option<string>)
    ensures r.None? <==> c !in s
    ensures r.Some? ==> |r.value| < |s| && r.value == s[|s| - |r.value|..] && s[|s| - |r.value| - 1] == c
    ensures r.Some? ==> c !in r.value
  {
    if s == [] then None
    else if s[|s| - 1] == c then Some([])
    else
      match AfterLast(s[..|s| - 1], c)
      case None => None
      case Some(t) => Some(t + [s[|s| - 1]])
  }

  /** The local name of an IRI or fragment reference. */
  function NormalizeOwlRef(value: string): string {
    var trimmed := Trim(value);
    match AfterLast(trimmed, '#')
    case Some(local) => local
    case None =>
      match AfterLast(trimmed, '/')
      case Some(local) => local
      case None => TrimStartMatches(trimmed, '#')
  }

  /** The local name is what follows the last '#' of the trimmed reference, or its last '/' when there is no '#', or all
      of it. */
  lemma NormalizeExactly(value: string, name: string)
    ensures NormalizeOwlRef(value) == name <==>
      var text := Trim(value);
      exists cut :: 0 <= cut <= |text| && name == text[cut..] &&
                      if '#' in text then cut > 0 && text[cut - 1] == '#' && '#' !in name
                      else if '/' in text then cut > 0 && text[cut - 1] == '/' && '/' !in name
                      else cut == 0
  {
    hide Trim;
    var text := Trim(value);
    if '#' in text {
      LastPieceExactly(text, '#', name);
    } else if '/' in text {
      LastPieceExactly(text, '/', name);
    } else {
      assert text[0..] == text;
      assert TrimStartMatches(text, '#') == text by {
        assert text != "" ==> text[0] in text;
      }
    }
  }

  lemma NoneBehind(s: string, c: char, cut: nat)
    requires cut <= |s| && c !in s[cut..]
    ensures forall i :: cut <= i < |s| ==> s[i] != c
  {
    forall i | cut <= i < |s|
      ensures s[i] != c
    {
      assert s[i] == s[cut..][i - cut];
    }
  }

  lemma LastPieceExactly(s: string, c: char, name: string)
    requires c in s
    ensures AfterLast(s, c) == Some(name) <==>
      exists cut :: 0 < cut <= |s| && name == s[cut..] && s[cut - 1] == c && c !in name
  {
    hide AfterLast;
    var found := AfterLast(s, c).value;
    var cut := |s| - |found|;
    assert found == s[cut..] && s[cut - 1] == c;
    NoneBehind(s, c, cut);
    if k :| 0 < k <= |s| && name == s[k..] && s[k - 1] == c && c !in name {
      NoneBehind(s, c, k);
      assert k == cut;
    }
  }

  /** `upper` is the full upper-case mapping of one character. */
  function Capitalized(part: string, upper: char -> string): string {
    var lower := ToAsciiLowercase(part);
    if lower == "" then "" else upper(lower[0]) + lower[1..]
  }

  function Joined(parts: seq<string>, upper: char -> string): string {
    if parts == [] then "" else Capitalized(parts[0], upper) + Joined(parts[1..], upper)
  }

  predicate SeparatesWords(c: char) {
    c == '-' || c == '_' || IsWhitespace(c)
  }

  function ToPascalCase(raw: string, upper: char -> string): string {
    var cleaned := TrimStartMatches(Trim(raw), '#');
    var parts := SplitNonEmpty(cleaned, SeparatesWords);
    if parts == [] then "Unknown" else Joined(parts, upper)
  }

  /** A single word is printed with its first letter in upper and the others in lower case. */
  lemma WordPrinted(word: string, upper: char -> string, lower: string)
    requires word != "" && word[0] != '#' && forall c :: c in word ==> !SeparatesWords(c)
    requires SameLetters(word, lower) && forall c :: c in lower ==> !('A' <= c <= 'Z')
    ensures ToPascalCase(word, upper) == upper(lower[0]) + lower[1..]
  {
    hide SplitNonEmpty, SeparatesWords, ToAsciiLowercase, Trim, TrimStartMatches, SameLetters;
    OnePart(word);
    LowercaseExactly(word, lower);
    assert [word][1..] == [];
    assert Joined([word], upper) == Capitalized(word, upper) + "";
  }

  lemma OnePart(word: string)
    requires word != "" && word[0] != '#' && forall c :: c in word ==> !SeparatesWords(c)
    ensures SplitNonEmpty(TrimStartMatches(Trim(word), '#'), SeparatesWords) == [word]
  {
    hide SplitNonEmpty, Trim, TrimStartMatches;
    assert word[0] in word && word[|word| - 1] in word;
    TrimFixes(word);
    Unstripped(word, '#');
    OneWord(word, SeparatesWords);
  }

  lemma Unstripped(name: string, c: char)
    requires name == "" || name[0] != c
    ensures TrimStartMatches(name, c) == name
  {
  }

  /** A word and what follows its separator are printed one after the other. */
  lemma WordsPrinted(word: string, s: char, more: string, upper: char -> string)
    requires word != "" && word[0] != '#' && SeparatesWords(s) && forall c :: c in word ==> !SeparatesWords(c)
    requires IsTrimmed(more) && more != "" && more[0] != '#' && exists c :: c in more && !SeparatesWords(c)
    ensures ToPascalCase(word + [s] + more, upper) == ToPascalCase(word, upper) + ToPascalCase(more, upper)
  {
    hide SplitNonEmpty, Capitalized, ToPascalCase, SeparatesWords;
    var all := word + [s] + more;
    assert word[0] in word && word[|word| - 1] in word;
    assert all[0] == word[0] && all[|all| - 1] == more[|more| - 1];
    OneWord(word, SeparatesWords);
    FirstOfWords(word, s, more, SeparatesWords);
    SomeWord(more, SeparatesWords);
    EndsPlain(word);
    PrintedParts(all, upper);
    PrintedParts(word, upper);
    PrintedParts(more, upper);
    var rest := SplitNonEmpty(more, SeparatesWords);
    assert ([word] + rest)[1..] == rest && [word][1..] == [];
    assert Joined([word], upper) == Capitalized(word, upper) + "";
  }

  lemma EndsPlain(word: string)
    requires word != "" && forall c :: c in word ==> !SeparatesWords(c)
    ensures !IsWhitespace(word[0]) && !IsWhitespace(word[|word| - 1])
  {
    assert word[0] in word && word[|word| - 1] in word;
  }

  /** A text with nothing to clean off is printed from its words. */
  lemma PrintedParts(raw: string, upper: char -> string)
    requires raw != "" && IsTrimmed(raw) && raw[0] != '#' && SplitNonEmpty(raw, SeparatesWords) != []
    ensures ToPascalCase(raw, upper) == Joined(SplitNonEmpty(raw, SeparatesWords), upper)
  {
    hide SplitNonEmpty, Joined, Trim, TrimStartMatches;
    TrimFixes(raw);
    Unstripped(raw, '#');
  }

  lemma SomeWord(s: string, separator: char -> bool)
    requires exists c :: c in s && !separator(c)
    ensures SplitNonEmpty(s, separator) != []
    decreases |s|
  {
    if separator(s[0]) {
      assert forall c :: c in s <==> c == s[0] || c in s[1..];
      SomeWord(s[1..], separator);
    }
  }

  /** Without any word the name printed is "Unknown". */
  lemma NothingPrinted(raw: string, upper: char -> string)
    requires forall c :: c in raw ==> SeparatesWords(c)
    ensures ToPascalCase(raw, upper) == "Unknown"
  {
    hide Trim, TrimStartMatches, SplitNonEmpty;
    var cleaned := TrimStartMatches(Trim(raw), '#');
    var parts := SplitNonEmpty(cleaned, SeparatesWords);
    forall c | c in cleaned
      ensures c in raw
    {
      var i :| 0 <= i < |cleaned| && cleaned[i] == c;
      assert Trim(raw)[|Trim(raw)| - |cleaned| + i] == c;
      TrimMembers(raw, c);
    }
    if parts != [] {
      assert parts[0] in parts && parts[0][0] in parts[0];
      WordIsInside(cleaned, SeparatesWords, parts[0]);
    }
  }

  lemma WordIsInside(s: string, separator: char -> bool, w: string)
    requires w in SplitNonEmpty(s, separator)
    ensures w != "" && w[0] in s && !separator(w[0])
  {
    SplitExactly(s, separator, w);
    var i, j :| IsWord(s, separator, i, j) && s[i..j] == w;
    assert w[0] == s[i];
  }

  predicate Contains(s: string, piece: string) {
    exists i :: 0 <= i <= |s| - |piece| && IsAt(s, piece, i)
  }

  predicate IsAt(s: string, piece: string, i: nat)
    requires i + |piece| <= |s|
  {
    s[i..i + |piece|] == piece
  }

  /** Names that may be promoted to actions. */
  predicate EventLike(name: string) {
    var upper := ToAsciiUppercase(name);
    Contains(upper, "EVENT") || Contains(upper, "TASK") || Contains(upper, "ORDER")
    || Contains(upper, "ACTION") || Contains(upper, "OPERATION") || Contains(upper, "ACTIVITY")
  }

  /** The word stands somewhere in the name, in any case. */
  ghost predicate Occurs(name: string, w: string) {
    exists i :: OccursAt(name, w, i)
  }

  ghost predicate OccursAt(name: string, w: string, i: int) {
    0 <= i <= |name| - |w| && SameLetters(name[i..i + |w|], w)
  }

  /** A name may be promoted exactly when one of these words stands in it. */
  lemma EventLikeExactly(name: string)
    ensures EventLike(name) <==>
      Occurs(name, "EVENT") || Occurs(name, "TASK") || Occurs(name, "ORDER")
      || Occurs(name, "ACTION") || Occurs(name, "OPERATION") || Occurs(name, "ACTIVITY")
  {
    hide Occurs, ToAsciiUppercase, Contains;
    ContainsExactly(name, "EVENT");
    ContainsExactly(name, "TASK");
    ContainsExactly(name, "ORDER");
    ContainsExactly(name, "ACTION");
    ContainsExactly(name, "OPERATION");
    ContainsExactly(name, "ACTIVITY");
  }

  lemma ContainsExactly(name: string, w: string)
    requires forall c :: c in w ==> !('a' <= c <= 'z')
    ensures Contains(ToAsciiUppercase(name), w) <==> Occurs(name, w)
  {
    hide SameLetters;
    var upper := ToAsciiUppercase(name);
    forall i | 0 <= i <= |name| - |w|
      ensures IsAt(upper, w, i) <==> OccursAt(name, w, i)
    {
      assert ToAsciiUppercase(name[i..i + |w|]) == upper[i..i + |w|];
      UppercaseExactly(name[i..i + |w|], w);
    }
  }

  /** `place` is where a class goes below the classifiers, as an object or as an action. */
  datatype Options = Options(
    version: string,
    actionRoot: string,
    minObjects: nat,
    minActions: nat,
    authoritative: bool,
    upper: char -> string,
    place: (string, bool) -> string)

  // ---- The partition of class names

  predicate Regular(classes: Classes, enumerations: map<string, seq<string>>, name: string) {
    name in classes && name !in enumerations && !classes[name].isEnumeration
  }

  /** Objects and actions never overlap; the action subtree stays an action; every regular class is one or the other;
      nothing else appears but the root and, among objects, enumeration names. */
  ghost predicate Partition(classes: Classes, enumerations: map<string, seq<string>>, root: string,
                            objects: set<string>, actions: set<string>)
  {
    && objects !! actions
    && root in actions && (forall c :: c in classes && Below(classes, c, root) ==> c in actions)
    && (forall c :: c in classes && c !in enumerations && !classes[c].isEnumeration ==> c in objects || c in actions)
    && actions <= classes.Keys + {root}
    && objects <= classes.Keys + enumerations.Keys
  }

  lemma AddObject(classes: Classes, enumerations: map<string, seq<string>>, root: string,
                  objects: set<string>, actions: set<string>, name: string)
    requires Partition(classes, enumerations, root, objects, actions)
    requires name !in actions && (name in classes || name in enumerations)
    ensures Partition(classes, enumerations, root, objects + {name}, actions)
  {
    hide Below, Regular;
  }

  lemma Promote(classes: Classes, enumerations: map<string, seq<string>>, root: string,
                objects: set<string>, actions: set<string>, name: string)
    requires Partition(classes, enumerations, root, objects, actions) && name in classes
    ensures Partition(classes, enumerations, root, objects - {name}, actions + {name})
  {
    hide Below, Regular;
  }

  /** The action root and its subtree. */
  ghost function RootActions(classes: Classes, root: string): set<string> {
    {root} + set c | c in classes && Below(classes, c, root)
  }

  method InitialNames(owl: OwlModel, root: string) returns (objects: set<string>, actions: set<string>)
    ensures Partition(owl.classes, owl.enumerations, root, objects, actions)
    ensures objects <= owl.classes.Keys && actions == RootActions(owl.classes, root)
    ensures forall c :: c in objects <==> Regular(owl.classes, owl.enumerations, c) && c !in actions
  {
    hide Below;
    actions := owl.DescendantsOf(root);
    actions := actions + {root};
    objects := set c | c in owl.classes && c !in actions && c !in owl.enumerations && !owl.classes[c].isEnumeration;
  }

  /** Adds names that are not actions until there are enough objects; it adds none exactly when there were enough before
      or none to add. */
  method FillObjects(names: seq<string>, enough: nat, actions: set<string>, start: set<string>,
                     ghost owl: OwlModel, ghost root: string)
    returns (objects: set<string>)
    requires Partition(owl.classes, owl.enumerations, root, start, actions)
    requires forall n :: n in names ==> n in owl.classes || n in owl.enumerations
    ensures Partition(owl.classes, owl.enumerations, root, objects, actions)
    ensures start <= objects && forall o :: o in objects ==> o in start || (o in names && o !in actions)
    ensures |objects| >= enough || forall n :: n in names ==> n in objects || n in actions
    ensures objects == start <==> |start| >= enough || forall n :: n in names ==> n in start || n in actions
    ensures objects != start ==> |objects| <= enough
  {
    hide Partition;
    objects := start;
    for i := 0 to |names|
      invariant Partition(owl.classes, owl.enumerations, root, objects, actions)
      invariant start <= objects && forall o :: o in objects ==> o in start || (o in names && o !in actions)
      invariant forall k :: 0 <= k < i ==> names[k] in objects || names[k] in actions
      invariant objects == start || |objects| <= enough
      invariant |start| >= enough ==> objects == start
    {
      if |objects| >= enough {
        return;
      }
      if names[i] !in actions {
        AddObject(owl.classes, owl.enumerations, root, objects, actions, names[i]);
        objects := objects + {names[i]};
      }
    }
  }

  /** How many actions there are after promoting further names until there are enough. */
  ghost function Promoted(actions: set<string>, further: set<string>, enough: nat): nat {
    if |actions| >= enough then |actions|
    else if |actions + further| < enough then |actions + further| else enough
  }

  /** Enough are reached exactly when there are so many names at all; what is beyond was there before, and short of it
      all names have been taken. */
  lemma PromotedExactly(actions: set<string>, further: set<string>, enough: nat)
    ensures var n := Promoted(actions, further, enough);
      && (n >= enough <==> |actions + further| >= enough)
      && (n > enough ==> n == |actions|) && (n < enough ==> n == |actions + further|)
  {
    SubsetCardinality(actions, actions + further);
  }

  /** Moves classes that pass the test into the actions until there are enough. */
  method PromoteActions(names: seq<string>, enough: nat, test: string -> bool, o: set<string>, a: set<string>,
                        ghost further: set<string>, ghost owl: OwlModel, ghost root: string)
    returns (objects: set<string>, actions: set<string>)
    requires Partition(owl.classes, owl.enumerations, root, o, a)
    requires forall n :: n in names ==> n in owl.classes
    requires forall n :: n in further <==> n in names && test(n)
    ensures Partition(owl.classes, owl.enumerations, root, objects, actions)
    ensures a <= actions && objects <= o && o + a <= objects + actions
    ensures forall c :: c in actions ==> c in a || (c in names && test(c))
    ensures |actions| >= enough || forall n :: n in names && test(n) ==> n in actions
    ensures |actions| == Promoted(a, further, enough)
  {
    hide Partition, Promoted;
    objects, actions := o, a;
    for i := 0 to |names|
      invariant Partition(owl.classes, owl.enumerations, root, objects, actions)
      invariant a <= actions && objects <= o && o + a <= objects + actions
      invariant forall c :: c in actions ==> c in a || (c in names && test(c))
      invariant forall k :: 0 <= k < i && test(names[k]) ==> names[k] in actions
      invariant if |a| >= enough then actions == a else |actions| <= enough
    {
      if |actions| >= enough {
        PromotedCount(a, further, actions, enough);
        return;
      }
      if test(names[i]) {
        Promote(owl.classes, owl.enumerations, root, objects, actions, names[i]);
        actions := actions + {names[i]};
        objects := objects - {names[i]};
      }
    }
    assert further <= actions;
    PromotedCount(a, further, actions, enough);
  }

  lemma PromotedCount(a: set<string>, further: set<string>, actions: set<string>, enough: nat)
    requires a <= actions <= a + further
    requires if |a| >= enough then actions == a else |actions| <= enough
    requires |actions| >= enough || further <= actions
    ensures |actions| == Promoted(a, further, enough)
  {
    SubsetCardinality(actions, a + further);
  }

  /** The three padding loops. Objects outside the declared classes appear exactly when some enumeration is undeclared
      and the declared classes that are not actions are too few. */
  method PadClassCoverage(owl: OwlModel, options: Options, o: set<string>, a: set<string>)
    returns (objects: set<string>, actions: set<string>)
    requires Partition(owl.classes, owl.enumerations, options.actionRoot, o, a)
    ensures Partition(owl.classes, owl.enumerations, options.actionRoot, objects, actions)
    ensures forall n :: n in objects ==> n in o || n in owl.classes || n in owl.enumerations
    ensures |actions| == Promoted(a, owl.classes.Keys, options.minActions)
    ensures |objects| <= options.minObjects || objects <= o
    ensures |objects| + |actions| >= options.minObjects + |a|
              || owl.classes.Keys + owl.enumerations.Keys <= objects + actions
    ensures |a| >= options.minActions ==>
              actions == a && (|objects| >= options.minObjects ||
                               owl.classes.Keys + owl.enumerations.Keys <= objects + actions)
    ensures o + a <= owl.classes.Keys ==>
              (objects <= owl.classes.Keys <==>
               owl.enumerations.Keys <= owl.classes.Keys || |owl.classes| - |a| >= options.minObjects)
  {
    hide Partition, Promoted;
    var names := EnumerateKeys(owl.classes);
    var enums := EnumerateKeys(owl.enumerations);
    objects, actions := o, a;
    objects := FillObjects(names, options.minObjects, actions, objects, owl, options.actionRoot);
    ghost var filled := objects;
    objects := FillObjects(enums, options.minObjects, actions, objects, owl, options.actionRoot);
    ghost var padded := objects;
    objects, actions := PromoteActions(names, options.minActions, _ => true, objects, actions, owl.classes.Keys, owl,
                                       options.actionRoot);
    PartsAreDisjoint(owl.classes, owl.enumerations, options.actionRoot, filled, a);
    PartsAreDisjoint(owl.classes, owl.enumerations, options.actionRoot, padded, a);
    PartsAreDisjoint(owl.classes, owl.enumerations, options.actionRoot, objects, actions);
    SubsetCardinality(objects, padded);
    PaddingOutcome(owl.classes.Keys, owl.enumerations.Keys, options, o, a, filled, padded, objects, actions);
  }

  lemma PaddingOutcome(classes: set<string>, enums: set<string>, options: Options, o: set<string>, a: set<string>,
                       filled: set<string>, padded: set<string>, objects: set<string>, actions: set<string>)
    requires o <= filled <= padded && padded !! a && objects !! actions
    requires forall n :: n in filled ==> n in o || n in classes
    requires |filled| >= options.minObjects || forall c :: c in classes ==> c in filled || c in a
    requires forall n :: n in padded ==> n in filled || (n in enums && n !in a)
    requires |padded| >= options.minObjects || forall n :: n in enums ==> n in padded || n in a
    requires padded == filled <==> |filled| >= options.minObjects || forall n :: n in enums ==> n in filled || n in a
    requires a <= actions && objects <= padded && padded + a <= objects + actions
    requires forall c :: c in actions ==> c in a || c in classes
    requires |actions| == Promoted(a, classes, options.minActions)
    ensures |objects| + |actions| >= options.minObjects + |a| || classes + enums <= objects + actions
    ensures |a| >= options.minActions ==>
              actions == a && (|objects| >= options.minObjects || classes + enums <= objects + actions)
    ensures o + a <= classes ==> (objects <= classes <==> enums <= classes || |classes| - |a| >= options.minObjects)
  {
    NothingIsLost(padded, a, objects, actions);
    SubsetCardinality(filled, padded);
    SubsetCardinality(a, actions);
    if o + a <= classes {
      UndeclaredObjects(classes, enums, a, filled, padded, options.minObjects);
    }
  }

  lemma PartsAreDisjoint(classes: Classes, enumerations: map<string, seq<string>>, root: string,
                         objects: set<string>, actions: set<string>)
    requires Partition(classes, enumerations, root, objects, actions)
    ensures objects !! actions
  {
  }

  lemma NothingIsLost(o: set<string>, a: set<string>, objects: set<string>, actions: set<string>)
    requires o !! a && objects !! actions && o + a <= objects + actions
    ensures |objects| + |actions| >= |o| + |a|
  {
    SubsetCardinality(o + a, objects + actions);
  }

  /** Padding runs out of declared classes exactly when those that are not actions are too few. */
  lemma UndeclaredObjects(classes: set<string>, enums: set<string>, a: set<string>, filled: set<string>,
                          padded: set<string>,
                          enough: nat)
    requires a <= classes && filled <= classes && filled !! a
    requires |filled| >= enough || forall c :: c in classes ==> c in filled || c in a
    requires filled <= padded && forall o :: o in padded ==> o in filled || (o in enums && o !in a)
    requires padded == filled <==> |filled| >= enough || forall n :: n in enums ==> n in filled || n in a
    ensures padded <= classes <==> enums <= classes || |classes| - |a| >= enough
  {
    var free := classes - a;
    assert |free| == |classes| - |a| by {
      assert classes == free + a;
    }
    SubsetCardinality(filled, free);
    assert |filled| < enough ==> filled == free;
  }

  predicate DomainDeclared(classes: Classes, p: OwlProperty) {
    p.domain.Some? && NormalizeOwlRef(p.domain.value) in classes
  }

  /** A declared class that some property names as its domain. */
  ghost predicate IsDomain(classes: Classes, properties: Properties, n: string) {
    && n in classes
    && exists p ::
         p in properties && properties[p].domain.Some? && n == NormalizeOwlRef(properties[p].domain.value)
  }

  /** Every declared class that some property names as its domain is made an object unless it is an action. */
  method EnsurePropertyDomains(owl: OwlModel, o: set<string>, actions: set<string>, ghost root: string)
    returns (objects: set<string>)
    requires Partition(owl.classes, owl.enumerations, root, o, actions)
    ensures Partition(owl.classes, owl.enumerations, root, objects, actions)
    ensures forall n :: n in objects <==> n in o || (n !in actions && IsDomain(owl.classes, owl.properties, n))
    ensures forall n :: n in objects ==> n in o || n in owl.classes
    ensures o <= objects
    ensures forall p :: p in owl.properties && DomainDeclared(owl.classes, owl.properties[p]) ==>
              NormalizeOwlRef(owl.properties[p].domain.value) in objects + actions
  {
    hide Partition, NormalizeOwlRef;
    var names := EnumerateKeys(owl.properties);
    objects := o;
    for i := 0 to |names|
      invariant Partition(owl.classes, owl.enumerations, root, objects, actions)
      invariant o <= objects
      invariant forall n :: n in objects ==> n in o || (n !in actions && IsDomain(owl.classes, owl.properties, n))
      invariant forall k :: 0 <= k < i && DomainDeclared(owl.classes, owl.properties[names[k]]) ==>
                  NormalizeOwlRef(owl.properties[names[k]].domain.value) in objects + actions
    {
      var domain := owl.properties[names[i]].domain;
      if domain.Some? {
        var normalized := NormalizeOwlRef(domain.value);
        if normalized in owl.classes && normalized !in actions {
          AddObject(owl.classes, owl.enumerations, root, objects, actions, normalized);
          assert names[i] in owl.properties && IsDomain(owl.classes, owl.properties, normalized);
          objects := objects + {normalized};
        }
      }
    }
    forall n | n !in actions && IsDomain(owl.classes, owl.properties, n)
      ensures n in objects
    {
      var p :| p in owl.properties && owl.properties[p].domain.Some? &&
          n == NormalizeOwlRef(owl.properties[p].domain.value);
      var k :| 0 <= k < |names| && names[k] == p;
    }
  }

  // ---- Attributes

  /** The domain's own printed name if the taxonomy has it, otherwise that of its local name if the taxonomy has
      that. */
  lemma TaxonomyDomainNameExactly(domain: string, taxonomy: set<string>, upper: char -> string, name: string)
    ensures TaxonomyDomainName(domain, taxonomy, upper) == Some(name) <==>
      && name in taxonomy
      && (name == ToPascalCase(domain, upper)
          || (ToPascalCase(domain, upper) !in taxonomy && name == ToPascalCase(NormalizeOwlRef(domain), upper)))
  {
    hide ToPascalCase, NormalizeOwlRef;
  }

  function TaxonomyDomainName(domain: string, taxonomy: set<string>, upper: char -> string): (r: Option<string>)
    ensures r.Some? ==> r.value in taxonomy
  {
    var direct, local := ToPascalCase(domain, upper), ToPascalCase(NormalizeOwlRef(domain), upper);
    if direct in taxonomy then Some(direct) else if local in taxonomy then Some(local) else None
  }

  /** The domain itself or some class above it has a taxonomy name. */
  ghost predicate Resolvable(classes: Classes, domain: string, taxonomy: set<string>, upper: char -> string) {
    || TaxonomyDomainName(domain, taxonomy, upper).Some?
    || exists a :: a != NormalizeOwlRef(domain) && Below(classes, NormalizeOwlRef(domain), a)
                   && TaxonomyDomainName(a, taxonomy, upper).Some?
  }

  /** The class a domain resolves to: its own taxonomy name, or without one that of something above it. */
  ghost predicate ResolvesTo(classes: Classes, domain: string, taxonomy: set<string>, upper: char -> string,
                             name: string) {
    if TaxonomyDomainName(domain, taxonomy, upper).Some? then TaxonomyDomainName(domain, taxonomy, upper) == Some(name)
    else exists a :: a != NormalizeOwlRef(domain) && Below(classes, NormalizeOwlRef(domain), a)
                       && TaxonomyDomainName(a, taxonomy, upper) == Some(name)
  }

  method ResolveTaxonomyDomain(owl: OwlModel, domain: string, taxonomy: set<string>, upper: char -> string)
    returns (r: Option<string>)
    ensures r.Some? <==> Resolvable(owl.classes, domain, taxonomy, upper)
    ensures r.Some? ==> r.value in taxonomy && ResolvesTo(owl.classes, domain, taxonomy, upper, r.value)
  {
    hide TaxonomyDomainName, Below, NormalizeOwlRef;
    r := TaxonomyDomainName(domain, taxonomy, upper);
    if r.Some? {
      return;
    }
    var ancestors := owl.AncestorsOf(NormalizeOwlRef(domain));
    for i := 0 to |ancestors|
      invariant forall k :: 0 <= k < i ==> TaxonomyDomainName(ancestors[k], taxonomy, upper).None?
    {
      r := TaxonomyDomainName(ancestors[i], taxonomy, upper);
      if r.Some? {
        assert ancestors[i] in ancestors;
        return;
      }
    }
    r := None;
  }

  /** `represented` says whether the attribute has a representation term, as data properties have. */
  datatype Attribute = Attribute(property: string, parentClass: string, uri: string, upperBound: string,
      represented: bool)

  /** A class outside the declared ones, or a URI that does not parse. */
  datatype ImportError = MissingClass | InvalidUri

  ghost predicate Importable(classes: Classes, p: OwlProperty, taxonomy: set<string>, upper: char -> string) {
    p.domain.Some? && Resolvable(classes, p.domain.value, taxonomy, upper)
  }

  ghost function ImportedNames(attributes: seq<Attribute>): set<string> {
    set a | a in attributes :: a.property
  }

  datatype AttributeBatch = AttributeBatch(attributes: seq<Attribute>, imported: nat, skipped: nat)

  /** Imports exactly the properties whose domain resolves, each once; the rest are counted as skipped. Fails exactly
      when there is one to import and the version makes no URI. */
  method ImportAttributes(owl: OwlModel, taxonomy: set<string>, options: Options)
    returns (r: Result<AttributeBatch, ImportError>)
    ensures r.Err? <==>
              && !MimUri.VersionUsable(options.version)
              && exists p :: p in owl.properties && Importable(owl.classes, owl.properties[p], taxonomy, options.upper)
    ensures r.Err? ==> r.error == InvalidUri
    ensures r.Ok? ==> var batch := r.value;
              && batch.imported == |batch.attributes| == |ImportedNames(batch.attributes)|
              && batch.imported + batch.skipped == |owl.properties|
              && (forall p :: p in ImportedNames(batch.attributes) <==>
                    p in owl.properties && Importable(owl.classes, owl.properties[p], taxonomy, options.upper))
              && forall a :: a in batch.attributes ==>
                   a.parentClass in taxonomy && IsElement(owl.classes, owl.properties, a, taxonomy, options)
  {
    hide *;
    var attributes: seq<Attribute>, imported, skipped := [], 0, 0;
    NothingImported(owl.classes, owl.properties, taxonomy, options);
    var names := EnumerateKeys(owl.properties);
    KeyCount(owl.properties, names);
    assert names[..0] == [];
    for i := 0 to |names|
      invariant imported == |attributes| && imported + skipped == i
      invariant imported > 0 ==> MimUri.VersionUsable(options.version)
      invariant Covered(owl.classes, owl.properties, names[..i], attributes, taxonomy, options)
    {
      var name := names[i];
      OneMoreName(names, i);
      var parent := ParentOf(owl, owl.properties[name], taxonomy, options.upper);
      if parent.None? {
        SkipOneMore(owl.classes, owl.properties, names[..i], name, attributes, taxonomy, options);
        skipped := skipped + 1;
      } else {
        var attribute := PropertyElement(name, owl.properties[name], parent.value, options);
        if attribute.Err? {
          return Err(attribute.error);
        }
        ElementFits(owl.classes, owl.properties, attribute.value, taxonomy, options);
        ImportOneMore(owl.classes, owl.properties, names[..i], name, attributes, attribute.value, taxonomy, options);
        attributes := attributes + [attribute.value];
        imported := imported + 1;
      }
    }
    assert names[..|names|] == names;
    AllCovered(owl.classes, owl.properties, names, attributes, taxonomy, options);
    return Ok(AttributeBatch(attributes, imported, skipped));
  }

  /** The attribute is what its property makes of it: under the class its domain resolves to, with the URI of its
      printed name there, and single with a representation term if it is a data property, otherwise unbounded without
      one. */
  ghost predicate IsElement(classes: Classes, properties: Properties, a: Attribute, taxonomy: set<string>,
                            options: Options) {
    && a.property in properties
    && var p := properties[a.property];
       && p.domain.Some? && ResolvesTo(classes, p.domain.value, taxonomy, options.upper, a.parentClass)
       && IsNamed(a, options) && HasKind(a, p.kind)
  }

  /** Of the properties done, exactly the importable ones have an attribute, each one. */
  ghost predicate Covered(classes: Classes, properties: Properties, done: seq<string>, attributes: seq<Attribute>,
                          taxonomy: set<string>, options: Options)
  {
    && (forall p :: p in done ==> p in properties)
    && |attributes| == |ImportedNames(attributes)|
    && (forall p :: p in ImportedNames(attributes) <==>
        p in done && Importable(classes, properties[p], taxonomy, options.upper))
    && (forall a :: a in attributes ==>
        a.parentClass in taxonomy && IsElement(classes, properties, a, taxonomy, options))
  }

  lemma NothingImported(classes: Classes, properties: Properties, taxonomy: set<string>, options: Options)
    ensures Covered(classes, properties, [], [], taxonomy, options)
  {
    hide Importable, IsElement;
    assert ImportedNames([]) == {};
  }

  lemma SkipOneMore(classes: Classes, properties: Properties, done: seq<string>, name: string,
                    attributes: seq<Attribute>, taxonomy: set<string>, options: Options)
    requires Covered(classes, properties, done, attributes, taxonomy, options)
    requires name in properties && !Importable(classes, properties[name], taxonomy, options.upper)
    ensures Covered(classes, properties, done + [name], attributes, taxonomy, options)
  {
    hide Importable, IsElement, ImportedNames;
    assert forall p :: p in done + [name] <==> p in done || p == name;
  }

  lemma ImportOneMore(classes: Classes, properties: Properties, done: seq<string>, name: string,
                      attributes: seq<Attribute>, a: Attribute, taxonomy: set<string>, options: Options)
    requires Covered(classes, properties, done, attributes, taxonomy, options)
    requires name in properties && name !in done && Importable(classes, properties[name], taxonomy, options.upper)
    requires a.property == name && a.parentClass in taxonomy && IsElement(classes, properties, a, taxonomy, options)
    ensures Covered(classes, properties, done + [name], attributes + [a], taxonomy, options)
  {
    hide Importable, IsElement;
    assert ImportedNames(attributes + [a]) == ImportedNames(attributes) + {name};
    assert forall p :: p in done + [name] <==> p in done || p == name;
  }

  lemma AllCovered(classes: Classes, properties: Properties, names: seq<string>, attributes: seq<Attribute>,
                   taxonomy: set<string>, options: Options)
    requires Covered(classes, properties, names, attributes, taxonomy, options)
    requires forall p :: p in names <==> p in properties
    ensures |attributes| == |ImportedNames(attributes)|
    ensures forall p :: p in ImportedNames(attributes) <==>
              p in properties && Importable(classes, properties[p], taxonomy, options.upper)
    ensures forall a :: a in attributes ==>
              a.parentClass in taxonomy && IsElement(classes, properties, a, taxonomy, options)
    ensures attributes == [] ==> forall p :: p in properties ==>
              !Importable(classes, properties[p], taxonomy, options.upper)
  {
    hide Importable, IsElement;
  }

  /** The attribute of a property below its class. */
  method PropertyElement(name: string, p: OwlProperty, parent: string, options: Options)
    returns (r: Result<Attribute, ImportError>)
    ensures r.Ok? <==> MimUri.VersionUsable(options.version)
    ensures r.Ok? ==>
              && r.value.property == name && r.value.parentClass == parent
              && IsNamed(r.value, options) && HasKind(r.value, p.kind)
    ensures r.Err? ==> r.error == InvalidUri
  {
    hide MimUri.VersionUsable, MimUri.Parse, MimUri.ElementUri;
    var place := "Object/" + parent + "/" + ToPascalCase(name, options.upper);
    var uri := MimUri.Parse(MimUri.ElementUri(options.version, place));
    MimUri.ElementUriParsesExactly(options.version, place);
    if uri.Err? {
      return Err(InvalidUri);
    }
    var data := p.kind == DataProperty;
    return Ok(Attribute(name, parent, uri.value, if data then "1" else "*", data));
  }

  ghost predicate IsNamed(a: Attribute, options: Options) {
    Ok(a.uri) == MimUri.Parse(MimUri.ElementUri(options.version,
                   "Object/" + a.parentClass + "/" + ToPascalCase(a.property, options.upper)))
  }

  ghost predicate HasKind(a: Attribute, kind: PropertyKind) {
    if kind == DataProperty then a.upperBound == "1" && a.represented else a.upperBound == "*" && !a.represented
  }

  lemma ElementFits(classes: Classes, properties: Properties, a: Attribute, taxonomy: set<string>, options: Options)
    requires a.property in properties && properties[a.property].domain.Some?
    requires ResolvesTo(classes, properties[a.property].domain.value, taxonomy, options.upper, a.parentClass)
    requires IsNamed(a, options) && HasKind(a, properties[a.property].kind)
    ensures IsElement(classes, properties, a, taxonomy, options)
  {
    hide ResolvesTo, MimUri.Parse, MimUri.ElementUri, ToPascalCase;
  }

  /** The taxonomy class of a property's domain, if it has one. */
  method ParentOf(owl: OwlModel, p: OwlProperty, taxonomy: set<string>, upper: char -> string)
    returns (r: Option<string>)
    ensures r.Some? <==> Importable(owl.classes, p, taxonomy, upper)
    ensures r.Some? ==>
              p.domain.Some? && r.value in taxonomy && ResolvesTo(owl.classes, p.domain.value, taxonomy, upper, r.value)
  {
    hide Resolvable, ResolvesTo;
    if p.domain.None? {
      return None;
    }
    r := ResolveTaxonomyDomain(owl, p.domain.value, taxonomy, upper);
  }

  lemma OneMoreName(names: seq<string>, i: nat)
    requires i < |names| && forall k, l :: 0 <= k < l < |names| ==> names[k] != names[l]
    ensures names[..i + 1] == names[..i] + [names[i]] && names[i] !in names[..i] && names[i] in names
  {
  }

  lemma {:induction false} KeyCount<V>(m: map<string, V>, keys: seq<string>)
    requires forall k :: k in keys <==> k in m
    requires forall i, j :: 0 <= i < j < |keys| ==> keys[i] != keys[j]
    ensures |keys| == |m|
    decreases |keys|
  {
    if keys == [] {
      assert m.Keys == {};
    } else {
      var last := keys[|keys| - 1];
      var rest := m - {last};
      assert m.Keys == rest.Keys + {last};
      KeyCount(rest, keys[..|keys| - 1]);
    }
  }

  // ---- The whole import

  datatype Report = Report(
    objects: set<string>,
    actions: set<string>,
    objectNames: set<string>,
    actionNames: set<string>,
    resolved: Properties,
    attributes: seq<Attribute>,
    imported: nat,
    skipped: nat)

  /** How many actions an import ends up with before its last padding: the root and its subtree, and event-like classes
      until there are enough. */
  ghost function ActionCount(classes: Classes, options: Options): nat {
    Promoted(RootActions(classes, options.actionRoot), (set c | c in classes && EventLike(c)), options.minActions)
  }

  /** Undeclared names come in when the root is undeclared, or when undeclared enumerations have to pad the objects
      because the other classes are too few. */
  ghost predicate NamesUndeclared(classes: Classes, enumerations: map<string, seq<string>>, options: Options) {
    || options.actionRoot !in classes
    || (!options.authoritative && !(enumerations.Keys <= classes.Keys)
        && |classes| - ActionCount(classes, options) < options.minObjects)
  }

  ghost predicate ImportFails(classes: Classes, enumerations: map<string, seq<string>>, options: Options) {
    NamesUndeclared(classes, enumerations, options) || !MimUri.VersionUsable(options.version)
  }

  /** One element for each name, until a class is missing or a URI does not parse. */
  method ClassElements(owl: OwlModel, names: set<string>, isObject: bool, options: Options)
    returns (r: Result<seq<string>, ImportError>)
    ensures r.Ok? <==> names <= owl.classes.Keys && (names != {} ==> MimUri.VersionUsable(options.version))
    ensures r.Ok? ==> |r.value| == |names|
    ensures r.Err? ==>
              match r.error
              case MissingClass => !(names <= owl.classes.Keys)
              case InvalidUri => !MimUri.VersionUsable(options.version)
  {
    hide MimUri.VersionUsable, MimUri.Parse, MimUri.ElementUri;
    var uris: seq<string> := [];
    var rest := names;
    while rest != {}
      invariant rest <= names && names - rest <= owl.classes.Keys && |uris| + |rest| == |names|
      invariant names - rest != {} ==> MimUri.VersionUsable(options.version)
    {
      var name :| name in rest;
      if name !in owl.classes {
        return Err(MissingClass);
      }
      var uri := MimUri.Parse(MimUri.ElementUri(options.version, options.place(name, isObject)));
      MimUri.ElementUriParsesExactly(options.version, options.place(name, isObject));
      if uri.Err? {
        return Err(InvalidUri);
      }
      assert name in names - (rest - {name});
      uris := uris + [uri.value];
      rest := rest - {name};
    }
    return Ok(uris);
  }

  /** Fails exactly when a name outside the declared classes ends up among objects or actions or the version makes no
      URI, and then for one of these reasons; otherwise objects and actions partition the regular classes, every
      property is accounted for, and every property whose resolved domain names a declared class is imported. */
  method Import(source: OwlModel, options: Options) returns (r: Result<Report, ImportError>)
    ensures r.Err? <==> ImportFails(source.classes, source.enumerations, options)
    ensures r.Err? ==>
              match r.error
              case MissingClass => NamesUndeclared(source.classes, source.enumerations, options)
              case InvalidUri => !MimUri.VersionUsable(options.version)
    ensures r.Ok? ==>
              && Partition(source.classes, source.enumerations, options.actionRoot, r.value.objects, r.value.actions)
              && r.value.objects + r.value.actions <= source.classes.Keys
              && (options.authoritative ==>
                    && (forall c :: c in r.value.actions <==>
                          c == options.actionRoot || (c in source.classes &&
                                                      Below(source.classes, c, options.actionRoot)))
                    && (forall c :: c in r.value.objects <==>
                          c !in r.value.actions &&
                          (IsDomain(source.classes, r.value.resolved, c) ||
                           (c in source.classes && c !in source.enumerations && !source.classes[c].isEnumeration))))
              && r.value.objectNames == Printed(r.value.objects, options.upper)
              && r.value.actionNames == Printed(r.value.actions, options.upper)
    ensures r.Ok? ==> Resolved(source.properties, r.value.resolved) && Justified(source.properties, r.value.resolved)
    ensures r.Ok? ==>
              && r.value.imported == |r.value.attributes| && r.value.imported + r.value.skipped == |r.value.resolved|
              && forall p ::
                   p in r.value.resolved && r.value.resolved[p].domain.Some?
                   && NormalizeOwlRef(r.value.resolved[p].domain.value) in source.classes ==>
                     p in ImportedNames(r.value.attributes)
    ensures r.Ok? ==>
              forall a :: a in r.value.attributes ==>
                IsElement(source.classes, r.value.resolved, a, r.value.objectNames + r.value.actionNames, options)
  {
    hide Partition, Resolved, Justified, InheritanceClosed, InverseClosed, LateRange, LateInheritance, Universe,
         NormalizeOwlRef, ToPascalCase, Below, ImportedNames, NamesUndeclared, Importable, IsElement, IsDomain,
             MimUri.VersionUsable;
    var owl := new OwlModel(source.classes, source.properties, source.enumerations);
    owl.ResolvePropertyDomains();
    assert owl.classes == source.classes && owl.enumerations == source.enumerations;
    var objects, actions := TaxonomyNames(owl, options);
    RootIsAction(owl.classes, owl.enumerations, options.actionRoot, objects, actions);
    var asObjects := ClassElements(owl, objects, true, options);
    if asObjects.Err? {
      return Err(asObjects.error);
    }
    var asActions := ClassElements(owl, actions, false, options);
    if asActions.Err? {
      return Err(asActions.error);
    }
    var objectNames := Printed(objects, options.upper);
    var actionNames := Printed(actions, options.upper);
    var batch := ImportAttributes(owl, objectNames + actionNames, options);
    if batch.Err? {
      return Err(InvalidUri);
    }
    DeclaredDomainsAreImportable(owl, objects, actions, options.upper);
    return Ok(Report(objects, actions, objectNames, actionNames, owl.properties, batch.value.attributes,
                     batch.value.imported, batch.value.skipped));
  }

  function Printed(names: set<string>, upper: char -> string): set<string> {
    set n | n in names :: ToPascalCase(n, upper)
  }

  /** A declared domain among the names resolves in their taxonomy. */
  lemma DeclaredDomainsAreImportable(owl: OwlModel, objects: set<string>, actions: set<string>, upper: char -> string)
    requires forall p :: p in owl.properties && DomainDeclared(owl.classes, owl.properties[p]) ==>
               NormalizeOwlRef(owl.properties[p].domain.value) in objects + actions
    ensures forall p :: p in owl.properties && DomainDeclared(owl.classes, owl.properties[p]) ==>
              Importable(owl.classes, owl.properties[p], Printed(objects, upper) + Printed(actions, upper), upper)
  {
    hide NormalizeOwlRef, ToPascalCase, Below;
    var taxonomy := Printed(objects, upper) + Printed(actions, upper);
    forall p | p in owl.properties && DomainDeclared(owl.classes, owl.properties[p])
      ensures Importable(owl.classes, owl.properties[p], taxonomy, upper)
    {
      var local := NormalizeOwlRef(owl.properties[p].domain.value);
      assert ToPascalCase(local, upper) in taxonomy;
      assert TaxonomyDomainName(owl.properties[p].domain.value, taxonomy, upper).Some?;
    }
  }

  /** The name sets, through every padding pass. */
  method TaxonomyNames(owl: OwlModel, options: Options) returns (objects: set<string>, actions: set<string>)
    ensures Partition(owl.classes, owl.enumerations, options.actionRoot, objects, actions)
    ensures objects <= owl.classes.Keys && actions <= owl.classes.Keys <==>
              !NamesUndeclared(owl.classes, owl.enumerations, options)
    ensures options.authoritative ==>
              && actions == RootActions(owl.classes, options.actionRoot)
              && (forall c :: c in objects <==>
                    c !in actions && (Regular(owl.classes, owl.enumerations, c) ||
                                      IsDomain(owl.classes, owl.properties, c)))
    ensures forall p :: p in owl.properties && DomainDeclared(owl.classes, owl.properties[p]) ==>
              NormalizeOwlRef(owl.properties[p].domain.value) in objects + actions
  {
    hide Partition, DomainDeclared, NormalizeOwlRef, Below, EventLike, Promoted, RootActions, ActionCount, IsDomain,
         Regular;
    objects, actions := InitialNames(owl, options.actionRoot);
    if !options.authoritative {
      objects, actions := PromoteEvents(owl, options, objects, actions);
      RootIsAction(owl.classes, owl.enumerations, options.actionRoot, objects, actions);
      objects, actions := PadClassCoverage(owl, options, objects, actions);
    }
    objects := EnsurePropertyDomains(owl, objects, actions, options.actionRoot);
    RootIsAction(owl.classes, owl.enumerations, options.actionRoot, objects, actions);
  }

  /** Fills up the objects with further classes, then the actions with event-like ones. */
  method PromoteEvents(owl: OwlModel, options: Options, o: set<string>, a: set<string>)
    returns (objects: set<string>, actions: set<string>)
    requires Partition(owl.classes, owl.enumerations, options.actionRoot, o, a)
    requires o <= owl.classes.Keys && a == RootActions(owl.classes, options.actionRoot)
    ensures Partition(owl.classes, owl.enumerations, options.actionRoot, objects, actions)
    ensures objects <= owl.classes.Keys && |actions| == ActionCount(owl.classes, options)
  {
    hide Partition, Below, EventLike, Promoted, RootActions;
    objects, actions := o, a;
    var names := EnumerateKeys(owl.classes);
    ghost var events := (set c | c in owl.classes && EventLike(c));
    if |objects| < options.minObjects {
      objects := FillObjects(names, options.minObjects, actions, objects, owl, options.actionRoot);
    }
    if |actions| < options.minActions {
      objects, actions := PromoteActions(names, options.minActions, EventLike, objects, actions, events, owl,
                                         options.actionRoot);
    } else {
      EnoughActions(actions, events, options.minActions);
    }
  }

  lemma EnoughActions(actions: set<string>, further: set<string>, enough: nat)
    requires |actions| >= enough
    ensures Promoted(actions, further, enough) == |actions|
  {
  }

  lemma RootIsAction(classes: Classes, enumerations: map<string, seq<string>>, root: string, objects: set<string>,
                     actions: set<string>)
    requires Partition(classes, enumerations, root, objects, actions)
    ensures root in actions && actions <= classes.Keys + {root} && objects <= classes.Keys + enumerations.Keys
  {
  }

  // ---- Imports that fail

  /** When every enumeration is a declared class, as in an ontology read from a document, only the root and the version
      can make an import fail. */
  lemma DeclaredEnumerationsFailExactly(classes: Classes, enumerations: map<string, seq<string>>, options: Options)
    requires enumerations.Keys <= classes.Keys
    ensures ImportFails(classes, enumerations, options) <==>
      options.actionRoot !in classes || !MimUri.VersionUsable(options.version)
  {
  }

  function OneClass(name: string): Classes {
    map[name := OwlClass(name, None, [], false)]
  }

  lemma OneActionCounts(options: Options)
    requires options.actionRoot == "ACTION"
    ensures ActionCount(OneClass("ACTION"), options) >= 1
  {
    hide Below, EventLike;
    var root := RootActions(OneClass("ACTION"), "ACTION");
    SubsetCardinality({"ACTION"}, root);
    SubsetCardinality(root, root + (set c | c in OneClass("ACTION") && EventLike(c)));
  }

  /** A model put together by hand, whose only object would be an enumeration that is not a class. */
  method ImportUndeclaredEnumeration(version: string, upper: char -> string, place: (string, bool) -> string)
    returns (r: Result<Report, ImportError>)
    ensures r.Err? && (MimUri.VersionUsable(version) ==> r.error == MissingClass)
  {
    hide ActionCount, Partition, Resolved, Justified, ImportedNames;
    var owl := new OwlModel(OneClass("ACTION"), map[], map["CODE" := []]);
    var options := Options(version, "ACTION", 1, 0, false, upper, place);
    OneActionCounts(options);
    assert "CODE" in owl.enumerations && "CODE" !in owl.classes;
    assert owl.classes.Keys == {"ACTION"} && |owl.classes| == 1;
    assert NamesUndeclared(owl.classes, owl.enumerations, options);
    r := Import(owl, options);
  }

  /** With an empty version even the smallest import fails, because the root's own URI does not parse. */
  method ImportWithoutVersion(upper: char -> string, place: (string, bool) -> string)
    returns (r: Result<Report, ImportError>)
    ensures r == Err(InvalidUri)
  {
    hide ActionCount, Partition, Resolved, Justified, ImportedNames;
    var owl := new OwlModel(OneClass("ACTION"), map[], map[]);
    r := Import(owl, Options("", "ACTION", 0, 0, true, upper, place));
  }

  // ---- Printed names

  /** No two of these names print alike. */
  ghost predicate PrintApart(names: set<string>, upper: char -> string) {
    forall x, y :: x in names && y in names && x != y ==> ToPascalCase(x, upper) != ToPascalCase(y, upper)
  }

  /** However the classes are divided, the printed objects and actions stay apart exactly when no two classes print
      alike. */
  lemma PrintedStayApartExactly(classes: set<string>, upper: char -> string)
    ensures (forall o, a :: o + a <= classes && o !! a ==> Printed(o, upper) !! Printed(a, upper))
      <==> PrintApart(classes, upper)
  {
    hide ToPascalCase;
    if !PrintApart(classes, upper) {
      var x, y :| x in classes && y in classes && x != y && ToPascalCase(x, upper) == ToPascalCase(y, upper);
      assert {x} + {y} <= classes && {x} !! {y};
      assert ToPascalCase(x, upper) in Printed({x}, upper) && ToPascalCase(y, upper) in Printed({y}, upper);
    }
  }

  /** Names that differ only in what separates their words print alike. */
  lemma SeparatorsAreLost(upper: char -> string)
    ensures ToPascalCase("A-B", upper) == ToPascalCase("A_B", upper)
  {
    hide ToPascalCase;
    TwoWordsPrinted("A-B", upper);
    TwoWordsPrinted("A_B", upper);
    assert "A-B"[..1] == "A_B"[..1] && "A-B"[2..] == "A_B"[2..];
  }

  lemma TwoWordsPrinted(name: string, upper: char -> string)
    requires |name| == 3 && name[0] == 'A' && (name[1] == '-' || name[1] == '_') && name[2] == 'B'
    ensures ToPascalCase(name, upper) == Joined([name[..1], name[2..]], upper)
  {
    hide Joined, SplitNonEmpty, Trim, TrimStartMatches;
    TrimFixes(name);
    NothingToStrip(name, '#');
    TwoWords(name, SeparatesWords);
  }

  lemma NothingToStrip(name: string, c: char)
    requires name == "" || name[0] != c
    ensures TrimStartMatches(name, c) == name
  {
  }

  lemma TwoWords(name: string, separator: char -> bool)
    requires |name| == 3 && separator(name[1]) && !separator(name[0]) && !separator(name[2])
    ensures SplitNonEmpty(name, separator) == [name[..1], name[2..]]
  {
    assert PieceLength(name[1..], separator) == 0;
    assert PieceLength(name, separator) == 1;
    assert name[1..][1..] == name[2..];
    assert PieceLength(name[2..][1..], separator) == 0;
    assert PieceLength(name[2..], separator) == 1;
    assert SplitNonEmpty(name[2..], separator) == [name[2..]] by {
      assert name[2..][..1] == name[2..] && name[2..][1..] == "";
    }
    assert SplitNonEmpty(name[1..], separator) == SplitNonEmpty(name[2..], separator);
  }

  /** An action and an object of such names, imported under one printed name. */
  function CollidingClasses(): Classes {
    map["ACTION" := OwlClass("ACTION", None, [], false),
        "A-B" := OwlClass("A-B", None, ["ACTION"], false),
        "A_B" := OwlClass("A_B", None, [], false)]
  }

  method ImportCollidingNames(version: string, upper: char -> string, place: (string, bool) -> string)
    returns (r: Result<Report, ImportError>)
    requires MimUri.VersionUsable(version)
    ensures r.Ok? && !(r.value.objectNames !! r.value.actionNames)
  {
    hide MimUri.VersionUsable, Resolved, Justified, ImportedNames, ToPascalCase;
    var owl := new OwlModel(CollidingClasses(), map[], map[]);
    r := Import(owl, Options(version, "ACTION", 0, 0, true, upper, place));
    OneStep(owl.classes, "A-B", "ACTION");
    BelowHasParent(owl.classes, "A_B", "ACTION");
    assert Regular(owl.classes, owl.enumerations, "A_B");
    assert "A-B" in r.value.actions && "A_B" in r.value.objects;
    SeparatorsAreLost(upper);
    assert ToPascalCase("A-B", upper) in r.value.actionNames && ToPascalCase("A_B", upper) in r.value.objectNames;
  }

  lemma BelowHasParent(classes: Classes, low: string, high: string)
    ensures Below(classes, low, high) ==> low in classes && classes[low].parents != []
  {
    if path :| PathBetween(classes, path, low, high) {
      assert path[0] in classes && path[1] in classes[path[0]].parents;
    }
  }
}
