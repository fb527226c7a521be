/** The GetByFilter expression language, a subset of XPath 1.0 predicates (section 2.4 of XPath 1.0). */
module Filter {
  import opened Wrappers
  import opened Text
  import opened Instance

  datatype FilterPredicate = FilterPredicate(name: string, value: string)

  datatype FilterExpression = FilterExpression(className: string, predicates: seq<FilterPredicate>)

  datatype FilterError =
    MissingSlashes | MissingClass | UnclosedPredicate | MissingEquals | MissingName | NotQuoted
    | Unterminated | TrailingText

  // ---- Parsing

  function ParseQuotedValue(raw: string): Result<string, FilterError> {
    if raw == "" then Err(NotQuoted)
    else if raw[0] != '\'' && raw[0] != '"' then Err(NotQuoted)
    else if |raw| < 2 || raw[|raw| - 1] != raw[0] then Err(Unterminated)
    else Ok(raw[1..|raw| - 1])
  }

  /** Parses what stands between the square brackets. */
  function ParsePredicate(inner: string): Result<FilterPredicate, FilterError> {
    ParseBinding(Trim(TrimStartMatches(Trim(inner), '@')))
  }

  /** Parses `name='value'`. */
  function ParseBinding(body: string): Result<FilterPredicate, FilterError> {
    var eq := Find(body, '=');
    if eq == |body| then Err(MissingEquals) else
      var name := Trim(body[..eq]);
      if name == "" then Err(MissingName) else
        match ParseQuotedValue(Trim(TrimStartMatches(body[eq..], '=')))
        case Err(e) => Err(e)
        case Ok(value) => Ok(FilterPredicate(name, value))
  }

  /** Parses a run of bracketed predicates followed by nothing but white space. */
  function ParsePredicates(cursor: string): Result<seq<FilterPredicate>, FilterError>
    decreases |cursor|
  {
    if cursor == "" || cursor[0] != '[' then
      if Trim(cursor) == "" then Ok([]) else Err(TrailingText)
    else
      var close := Find(cursor, ']');
      if close == |cursor| then Err(UnclosedPredicate) else
        match ParsePredicate(cursor[1..close])
        case Err(e) => Err(e)
        case Ok(p) =>
          match ParsePredicates(cursor[close + 1..])
          case Err(e) => Err(e)
          case Ok(rest) => Ok([p] + rest)
  }

  function Parse(expression: string): Result<FilterExpression, FilterError> {
    var trimmed := Trim(expression);
    if !StartsWith(trimmed, "//") then Err(MissingSlashes) else
      var body := trimmed[2..];
      var bracket := Find(body, '[');
      var className := Trim(body[..bracket]);
      if className == "" then Err(MissingClass) else
        match ParsePredicates(body[bracket..])
        case Err(e) => Err(e)
        case Ok(predicates) => Ok(FilterExpression(className, predicates))
  }

  /** The cursor loop over the predicates. */
  method ParseFilter(expression: string) returns (r: Result<FilterExpression, FilterError>)
    ensures r == Parse(expression)
  {
    hide Trim, Find, ParsePredicate;
    var trimmed := Trim(expression);
    if !StartsWith(trimmed, "//") {
      return Err(MissingSlashes);
    }
    var body := trimmed[2..];
    var bracket := Find(body, '[');
    var className := Trim(body[..bracket]);
    if className == "" {
      return Err(MissingClass);
    }
    var predicates: seq<FilterPredicate> := [];
    var cursor := body[bracket..];
    ghost var whole := ParsePredicates(cursor);
    while cursor != "" && cursor[0] == '['
      invariant whole.Err? ==> whole == ParsePredicates(cursor)
      invariant whole.Ok? ==> ParsePredicates(cursor).Ok? && whole.value == predicates + ParsePredicates(cursor).value
      decreases |cursor|
    {
      var close := Find(cursor, ']');
      if close == |cursor| {
        return Err(UnclosedPredicate);
      }
      match ParsePredicate(cursor[1..close])
      case Err(e) => return Err(e);
      case Ok(p) =>
        predicates := predicates + [p];
        cursor := cursor[close + 1..];
    }
    if Trim(cursor) != "" {
      return Err(TrailingText);
    }
    assert predicates + [] == predicates;
    return Ok(FilterExpression(className, predicates));
  }

  // ---- Printing, in the documented forms

  datatype Style = Style(withAt: bool, doubleQuoted: bool)

  function Quoted(value: string, style: Style): string {
    var quote := if style.doubleQuoted then "\"" else "'";
    quote + value + quote
  }

  function PrintPredicate(p: FilterPredicate, style: Style): string {
    (if style.withAt then ['@'] else []) + (p.name + (['='] + Quoted(p.value, style)))
  }

  function PrintPredicates(ps: seq<FilterPredicate>, styles: seq<Style>): string
    requires |styles| == |ps|
  {
    if ps == [] then "" else "[" + PrintPredicate(ps[0], styles[0]) + "]" + PrintPredicates(ps[1..], styles[1..])
  }

  function Print(f: FilterExpression, styles: seq<Style>): string
    requires |styles| == |f.predicates|
  {
    "//" + (f.className + PrintPredicates(f.predicates, styles))
  }

  /** What the grammar can express: a trimmed class name without '[', trimmed property names without '=', ']' or a
      leading '@', and values without ']'. */
  predicate PrintablePredicate(p: FilterPredicate) {
    && p.name != "" && IsTrimmed(p.name) && '=' !in p.name && ']' !in p.name && p.name[0] != '@'
    && ']' !in p.value
  }

  predicate Printable(f: FilterExpression) {
    && f.className != "" && IsTrimmed(f.className) && '[' !in f.className
    && forall i :: 0 <= i < |f.predicates| ==> PrintablePredicate(f.predicates[i])
  }

  lemma QuotedParses(value: string, style: Style)
    ensures var quoted := Quoted(value, style);
      && ParseQuotedValue(quoted) == Ok(value)
      && IsTrimmed(quoted) && |quoted| >= 2 && quoted[0] != '=' && quoted[|quoted| - 1] == quoted[0] && quoted[0] != ']'
      && (']' !in value ==> ']' !in quoted)
  {
    var quoted := Quoted(value, style);
    assert quoted[1..|quoted| - 1] == value;
  }

  lemma PrintedBindingParses(p: FilterPredicate, bare: string, quoted: string)
    requires p.name != "" && IsTrimmed(p.name) && '=' !in p.name
    requires ParseQuotedValue(quoted) == Ok(p.value) && IsTrimmed(quoted) && quoted != "" && quoted[0] != '='
    requires bare == p.name + (['='] + quoted)
    ensures ParseBinding(bare) == Ok(p)
  {
    hide Trim, Find, TrimStartMatches, ParseQuotedValue;
    assert bare[..|p.name|] == p.name && bare[|p.name|..] == ['='] + quoted;
    FindFirst(bare, '=', |p.name|);
    TrimFixes(p.name);
    StripOne(quoted, '=', true);
    TrimFixes(quoted);
  }

  /** White space around the brackets' content and the optional '@' do not matter. */
  lemma PredicateBody(bare: string, withAt: bool)
    requires bare != "" && IsTrimmed(bare) && bare[0] != '@'
    ensures ParsePredicate((if withAt then ['@'] else []) + bare) == ParseBinding(bare)
  {
    hide Trim, Find, TrimStartMatches, ParseBinding;
    var text := (if withAt then ['@'] else []) + bare;
    TrimFixes(text);
    StripOne(bare, '@', withAt);
    TrimFixes(bare);
  }

  lemma PrintedPredicateParses(p: FilterPredicate, style: Style)
    requires PrintablePredicate(p)
    ensures ParsePredicate(PrintPredicate(p, style)) == Ok(p)
    ensures ']' !in PrintPredicate(p, style)
  {
    hide Trim, Find, TrimStartMatches, ParseBinding, ParsePredicate, Quoted, ParseQuotedValue;
    var quoted := Quoted(p.value, style);
    QuotedParses(p.value, style);
    var bare := p.name + (['='] + quoted);
    PredicateBody(bare, style.withAt);
    PrintedBindingParses(p, bare, quoted);
  }

  lemma StripOne(s: string, c: char, present: bool)
    requires s != "" && s[0] != c
    ensures TrimStartMatches((if present then [c] else []) + s, c) == s
  {
    assert TrimStartMatches(s, c) == s;
    if present {
      assert ([c] + s)[1..] == s;
    } else {
      assert [] + s == s;
    }
  }

  /** One parsed predicate in front of others. */
  ghost function Prepended(first: Result<FilterPredicate, FilterError>, others: Result<seq<FilterPredicate>,
                           FilterError>)
    : Result<seq<FilterPredicate>, FilterError>
  {
    if first.Err? then Err(first.error)
    else if others.Err? then Err(others.error)
    else Ok([first.value] + others.value)
  }

  lemma ParseOpened(cursor: string, close: nat, one: string, rest: string)
    requires cursor != "" && cursor[0] == '[' && 0 < close < |cursor| && Find(cursor, ']') == close
    requires cursor[1..close] == one && cursor[close + 1..] == rest
    ensures ParsePredicates(cursor) == Prepended(ParsePredicate(one), ParsePredicates(rest))
  {
    hide Trim, Find, ParsePredicate;
  }

  /** A printed text opens with its first predicate in brackets. */
  lemma PrintedOpens(ps: seq<FilterPredicate>, styles: seq<Style>)
    requires |styles| == |ps| != 0 && ']' !in PrintPredicate(ps[0], styles[0])
    ensures var cursor, one := PrintPredicates(ps, styles), PrintPredicate(ps[0], styles[0]);
      && cursor != "" && cursor[0] == '[' && |one| + 1 < |cursor| && Find(cursor, ']') == |one| + 1
      && cursor[1..|one| + 1] == one && cursor[|one| + 2..] == PrintPredicates(ps[1..], styles[1..])
  {
    hide Find, PrintPredicate, PrintPredicates;
    var cursor, one := PrintPredicates(ps, styles), PrintPredicate(ps[0], styles[0]);
    PrintedFirst(ps, styles);
    assert cursor[..|one| + 1] == "[" + one;
    FindFirst(cursor, ']', |one| + 1);
  }

  lemma PrintedFirst(ps: seq<FilterPredicate>, styles: seq<Style>)
    requires |styles| == |ps| != 0
    ensures PrintPredicates(ps, styles) ==
      "[" + PrintPredicate(ps[0], styles[0]) + "]" + PrintPredicates(ps[1..], styles[1..])
  {
    hide PrintPredicate;
  }

  lemma {:induction false} PrintedPredicatesParse(ps: seq<FilterPredicate>, styles: seq<Style>)
    requires |styles| == |ps|
    requires forall i :: 0 <= i < |ps| ==> PrintablePredicate(ps[i])
    ensures ParsePredicates(PrintPredicates(ps, styles)) == Ok(ps)
  {
    hide Trim, Find, ParsePredicate, PrintPredicate;
    if ps == [] {
      TrimFixes("");
    } else {
      PrintedPredicateParses(ps[0], styles[0]);
      var one, rest := PrintPredicate(ps[0], styles[0]), PrintPredicates(ps[1..], styles[1..]);
      PrintedOpens(ps, styles);
      ParseOpened(PrintPredicates(ps, styles), |one| + 1, one, rest);
      PrintedPredicatesParse(ps[1..], styles[1..]);
      assert [ps[0]] + ps[1..] == ps;
    }
  }

  lemma PrintPredicatesShape(ps: seq<FilterPredicate>, styles: seq<Style>)
    requires |styles| == |ps|
    ensures var text := PrintPredicates(ps, styles);
      if ps == [] then text == "" else text != "" && text[0] == '[' && text[|text| - 1] == ']'
  {
  }

  predicate PlainClass(className: string) {
    className != "" && IsTrimmed(className) && '[' !in className
  }

  lemma PrintedFilterReduces(f: FilterExpression, styles: seq<Style>)
    requires |styles| == |f.predicates|
    requires PlainClass(f.className)
    ensures Parse(Print(f, styles)) ==
      match ParsePredicates(PrintPredicates(f.predicates, styles))
      case Err(e) => Err(e)
      case Ok(ps) => Ok(FilterExpression(f.className, ps))
  {
    hide Trim, TrimStart, TrimEnd, Find, ParsePredicates, PrintPredicates, IsTrimmed, Print;
    var text, tail := Print(f, styles), PrintPredicates(f.predicates, styles);
    var body := f.className + tail;
    PrintedFilterIsTrimmed(f, styles);
    TrimFixes(text);
    TrimFixes(f.className);
    ClassEndsAtBracket(f, styles);
    assert body[..|f.className|] == f.className && body[|f.className|..] == tail;
  }

  lemma PrintedFilterIsTrimmed(f: FilterExpression, styles: seq<Style>)
    requires |styles| == |f.predicates|
    requires PlainClass(f.className)
    ensures IsTrimmed(Print(f, styles)) && StartsWith(Print(f, styles), "//")
    ensures Print(f, styles)[2..] == f.className + PrintPredicates(f.predicates, styles)
  {
    hide PrintPredicates, Trim, Find;
    PrintPredicatesShape(f.predicates, styles);
    var text, tail := Print(f, styles), PrintPredicates(f.predicates, styles);
    assert text[0] == '/';
    assert text[|text| - 1] == (if tail == "" then f.className[|f.className| - 1] else ']');
  }

  lemma ClassEndsAtBracket(f: FilterExpression, styles: seq<Style>)
    requires |styles| == |f.predicates|
    requires PlainClass(f.className)
    ensures Find(f.className + PrintPredicates(f.predicates, styles), '[') == |f.className|
  {
    hide Find, PrintPredicates, IsTrimmed;
    PrintPredicatesShape(f.predicates, styles);
    var tail := PrintPredicates(f.predicates, styles);
    var body := f.className + tail;
    assert body[..|f.className|] == f.className;
    if tail != "" {
      FindFirst(body, '[', |f.className|);
    } else {
      assert body == f.className;
      assert Find(body, '[') == |f.className|;
    }
  }

  // ---- What the parser can return

  /** Everything the parser returns, except that a name may still start with '@' when white space follows the first
      one. */
  predicate ParseablePredicate(p: FilterPredicate) {
    p.name != "" && IsTrimmed(p.name) && '=' !in p.name && ']' !in p.name && ']' !in p.value
  }

  lemma ParsedPredicateShape(inner: string)
    requires ']' !in inner
    ensures var r := ParsePredicate(inner);
      r.Ok? ==> ParseablePredicate(r.value) && |r.value.name| < |inner|
  {
    hide Trim, Find, TrimStartMatches;
    TrimMembers(inner, ']');
    var stripped := TrimStartMatches(Trim(inner), '@');
    TrimMembers(stripped, ']');
    var body := Trim(stripped);
    var eq := Find(body, '=');
    if eq < |body| {
      TrimMembers(body[..eq], ']');
      TrimMembers(body[..eq], '=');
      var tail := TrimStartMatches(body[eq..], '=');
      TrimMembers(tail, ']');
    }
  }

  lemma {:induction false} ParsedPredicatesShape(cursor: string)
    ensures var r := ParsePredicates(cursor);
      r.Ok? ==> forall i :: 0 <= i < |r.value| ==> ParseablePredicate(r.value[i])
    decreases |cursor|
  {
    hide Trim, Find, ParsePredicate, ParseablePredicate;
    if cursor == "" || cursor[0] != '[' {
    } else {
      var close := Find(cursor, ']');
      if close == |cursor| {
        assert ParsePredicates(cursor).Err?;
      } else {
        var first, others := ParsePredicate(cursor[1..close]), ParsePredicates(cursor[close + 1..]);
        assert cursor[1..close] == cursor[..close][1..];
        ParsedPredicateShape(cursor[1..close]);
        ParsedPredicatesShape(cursor[close + 1..]);
        if first.Ok? && others.Ok? {
          var all := [first.value] + others.value;
          assert ParsePredicates(cursor) == Ok(all);
          forall i | 0 <= i < |all|
            ensures ParseablePredicate(all[i])
          {
            assert all[i] == if i == 0 then first.value else others.value[i - 1];
          }
        } else {
          assert ParsePredicates(cursor).Err?;
        }
      }
    }
  }

  lemma ParsedFilterShape(expression: string)
    ensures var r := Parse(expression);
      r.Ok? ==>
        && r.value.className != "" && IsTrimmed(r.value.className) && '[' !in r.value.className
        && forall i :: 0 <= i < |r.value.predicates| ==> ParseablePredicate(r.value.predicates[i])
  {
    var trimmed := Trim(expression);
    if StartsWith(trimmed, "//") {
      var body := trimmed[2..];
      ParsedPredicatesShape(body[Find(body, '[')..]);
    }
  }

  // ---- Exactly which filters survive printing and parsing

  lemma NoBracketInside(p: FilterPredicate, style: Style)
    requires ParseablePredicate(p)
    ensures ']' !in PrintPredicate(p, style)
  {
    hide Trim, Quoted, ParseQuotedValue;
    QuotedParses(p.value, style);
  }

  /** A name that starts with '@' loses at least that character. */
  lemma LeadingAtIsLost(p: FilterPredicate, style: Style)
    requires ParseablePredicate(p) && p.name[0] == '@'
    ensures ParsePredicate(PrintPredicate(p, style)) != Ok(p)
  {
    hide Trim, TrimStart, TrimStartMatches, ParseBinding, Quoted;
    var text := PrintPredicate(p, style);
    var a := if style.withAt then 1 else 0;
    assert IsTrimmed(text) && text[a + |p.name|] == '=' && forall i :: 0 <= i <= a ==> text[i] == '@' by {
      QuotedParses(p.value, style);
    }
    ShortenedPredicate(text, a, a + |p.name|);
  }

  lemma ShortenedPredicate(text: string, a: nat, k: nat)
    requires a < k < |text| && (forall i :: 0 <= i <= a ==> text[i] == '@') && text[k] == '='
    requires IsTrimmed(text)
    ensures var r := ParsePredicate(text);
      r.Ok? ==> |r.value.name| < k - a
  {
    hide Trim, TrimStart, TrimStartMatches, ParseBinding;
    TrimFixes(text);
    LeadingAtShortens(text, a, k);
  }

  lemma LeadingAtShortens(text: string, a: nat, k: nat)
    requires a < k < |text| && (forall i :: 0 <= i <= a ==> text[i] == '@') && text[k] == '='
    ensures var r := ParseBinding(Trim(TrimStartMatches(text, '@')));
      r.Ok? ==> |r.value.name| < k - a
  {
    hide Trim, Find, TrimStartMatches, ParseQuotedValue;
    var body := Trim(TrimStartMatches(text, '@'));
    StripsPast(text, '@', a);
    var from := EqualsStays(text, k);
    if k - from < |body| {
      FindAtMost(body, '=', k - from);
    }
  }

  /** How much is taken off in front of an equals sign, and that the sign stays unless what follows is taken off. */
  lemma EqualsStays(text: string, k: nat) returns (from: nat)
    requires k < |text| && text[k] == '='
    ensures |text| - |TrimStartMatches(text, '@')| <= from <= k
    ensures var body := Trim(TrimStartMatches(text, '@'));
      |body| <= |text| - from && (k - from < |body| ==> body[k - from] == '=')
  {
    hide Trim, TrimStart, TrimEnd, TrimStartMatches;
    var stripped := TrimStartMatches(text, '@');
    var start, front := |text| - |stripped|, TrimStart(stripped);
    assert start <= k && stripped[k - start] == '=';
    from := start + (|stripped| - |front|);
    assert from <= k;
    assert front[k - from] == '=';
    TrimIsInside(stripped);
    var body := Trim(stripped);
    assert body == front[..|body|];
  }

  lemma {:induction false} StripsPast(s: string, c: char, n: nat)
    requires n < |s| && forall i :: 0 <= i <= n ==> s[i] == c
    ensures |TrimStartMatches(s, c)| <= |s| - n - 1
  {
    if n == 0 {
    } else {
      StripsPast(s[1..], c, n - 1);
    }
  }

  lemma TrimIsInside(s: string)
    ensures |Trim(s)| <= |TrimStart(s)| && Trim(s) == TrimStart(s)[..|Trim(s)|]
  {
  }

  lemma {:induction false} OnlyPrintablePredicatesRoundTrip(ps: seq<FilterPredicate>, styles: seq<Style>)
    requires |styles| == |ps|
    requires forall i :: 0 <= i < |ps| ==> ParseablePredicate(ps[i])
    requires ParsePredicates(PrintPredicates(ps, styles)) == Ok(ps)
    ensures forall i :: 0 <= i < |ps| ==> PrintablePredicate(ps[i])
  {
    hide Trim, Find, ParsePredicate, ParsePredicates, PrintPredicate, PrintPredicates, ParseablePredicate;
    if ps == [] {
    } else {
      NoBracketInside(ps[0], styles[0]);
      var one, rest := PrintPredicate(ps[0], styles[0]), PrintPredicates(ps[1..], styles[1..]);
      PrintedOpens(ps, styles);
      ParseOpened(PrintPredicates(ps, styles), |one| + 1, one, rest);
      var first, others := ParsePredicate(one), ParsePredicates(rest);
      assert [first.value] + others.value == ps;
      assert ps[0] == first.value && ps[1..] == others.value;
      OnlyPrintablePredicatesRoundTrip(ps[1..], styles[1..]);
      PrintableWhenParsed(ps[0], styles[0]);
      assert forall i :: 0 < i < |ps| ==> ps[i] == ps[1..][i - 1];
    }
  }

  lemma PrintableWhenParsed(p: FilterPredicate, style: Style)
    requires ParseablePredicate(p) && ParsePredicate(PrintPredicate(p, style)) == Ok(p)
    ensures PrintablePredicate(p)
  {
    hide ParsePredicate, PrintPredicate;
    if p.name[0] == '@' {
      LeadingAtIsLost(p, style);
    }
  }

  /** A filter, printed in any mixture of the documented styles, parses back to itself exactly when it is printable. */
  lemma FilterRoundTripsExactly(f: FilterExpression, styles: seq<Style>)
    requires |styles| == |f.predicates|
    ensures Parse(Print(f, styles)) == Ok(f) <==> Printable(f)
  {
    hide Parse, Print, ParsePredicates, PrintPredicates;
    ParsedFilterShape(Print(f, styles));
    if PlainClass(f.className) {
      PrintedFilterReduces(f, styles);
      if Printable(f) {
        PrintedPredicatesParse(f.predicates, styles);
      } else if Parse(Print(f, styles)) == Ok(f) {
        OnlyPrintablePredicatesRoundTrip(f.predicates, styles);
      }
    }
  }

  // ---- Matching

  function ValueText(v: JsonValue): string {
    match v
    case JString(text) => text
    case JNumber(text) => text
    case JBool(flag) => if flag then "true" else "false"
    case JOther(text) => TrimEndMatches(TrimStartMatches(text, '"'), '"')
  }

  /** The predicate loop of the matcher, stopping at the first predicate that fails. */
  function AllHold(instance: MimInstance, predicates: seq<FilterPredicate>): (r: bool)
    ensures r <==> forall i :: 0 <= i < |predicates| ==> Holds(instance, predicates[i])
  {
    predicates == [] || (Holds(instance, predicates[0]) && AllHold(instance, predicates[1..]))
  }

  predicate Holds(instance: MimInstance, p: FilterPredicate) {
    var property := instance.GetProperty(p.name);
    property.Some? && property.value.value.Some? && ValueText(property.value.value.value) == p.value
  }

  // ---- Exactly what is accepted

  /** A value between two quotes of the same kind. */
  ghost predicate QuotedText(raw: string, value: string) {
    raw == ['\''] + value + ['\''] || raw == ['"'] + value + ['"']
  }

  lemma QuotedExactly(raw: string, value: string)
    ensures ParseQuotedValue(raw) == Ok(value) <==> QuotedText(raw, value)
    ensures ParseQuotedValue(raw) == Err(NotQuoted) <==> raw == "" || (raw[0] != '\'' && raw[0] != '"')
    ensures ParseQuotedValue(raw).Err? ==> ParseQuotedValue(raw).error in {NotQuoted, Unterminated}
  {
    if |raw| >= 2 {
      assert raw == [raw[0]] + raw[1..|raw| - 1] + [raw[|raw| - 1]];
    }
    if QuotedText(raw, value) {
      assert raw[1..|raw| - 1] == value;
    }
  }

  /** Up to `eq` there is no equals sign, and from there to `rest` nothing else. */
  ghost predicate SplitsAt(body: string, eq: int, rest: int) {
    && 0 <= eq < rest <= |body| && '=' !in body[..eq]
    && (forall i :: eq <= i < rest ==> body[i] == '=') && (rest < |body| ==> body[rest] != '=')
  }

  /** A name, one or more equals signs, and a quoted value, with white space around each part. */
  ghost predicate Binding(body: string, p: FilterPredicate) {
    exists eq, rest :: SplitsAt(body, eq, rest)
                         && p.name != "" && Trim(body[..eq]) == p.name && QuotedText(Trim(body[rest..]), p.value)
  }

  lemma SplitOnce(body: string, eq: int, rest: int)
    requires SplitsAt(body, eq, rest)
    ensures Find(body, '=') == eq && TrimStartMatches(body[eq..], '=') == body[rest..]
  {
    hide Find, TrimStartMatches;
    FindFirst(body, '=', eq);
    var front, stripped := body[eq..], TrimStartMatches(body[eq..], '=');
    assert forall i :: 0 <= i < |front| ==> front[i] == body[eq + i];
    assert |stripped| == |body| - rest;
    assert front[|front| - |stripped|..] == body[rest..];
  }

  lemma SplitFound(body: string)
    requires '=' in body
    ensures var eq := Find(body, '=');
      SplitsAt(body, eq, |body| - |TrimStartMatches(body[eq..], '=')|)
  {
    hide Find, TrimStartMatches;
    var eq := Find(body, '=');
    var m :| 0 <= m < |body| && body[m] == '=';
    FindAtMost(body, '=', m);
    var front, stripped := body[eq..], TrimStartMatches(body[eq..], '=');
    assert front[0] == '=';
    forall i | eq <= i < |body| - |stripped|
      ensures body[i] == '='
    {
      assert body[i] == front[i - eq];
    }
  }

  /** Where the first run of equals signs ends. */
  function ValueStart(body: string): (rest: nat)
    ensures rest <= |body|
  {
    |body| - |TrimStartMatches(body[Find(body, '=')..], '=')|
  }

  /** A binding splits at its first equals sign and nowhere else. */
  lemma SplitIsFirst(body: string, eq: int, rest: int)
    ensures SplitsAt(body, eq, rest) <==> '=' in body && eq == Find(body, '=') && rest == ValueStart(body)
  {
    hide Find, TrimStartMatches;
    if SplitsAt(body, eq, rest) {
      SplitHasEquals(body, eq, rest);
      SplitOnce(body, eq, rest);
      assert |body[eq..]| - |TrimStartMatches(body[eq..], '=')| == rest - eq;
    }
    if '=' in body {
      SplitFound(body);
    }
  }

  lemma BindingSplits(body: string, p: FilterPredicate)
    ensures Binding(body, p) <==>
      && '=' in body && p.name != "" && Trim(body[..Find(body, '=')]) == p.name
      && QuotedText(Trim(body[ValueStart(body)..]), p.value)
  {
    hide Find, Trim, QuotedText, SplitsAt, ValueStart;
    forall eq: int, rest: int
      ensures SplitsAt(body, eq, rest) <==> '=' in body && eq == Find(body, '=') && rest == ValueStart(body)
    {
      SplitIsFirst(body, eq, rest);
    }
  }

  lemma FindsExactly(s: string, c: char)
    ensures c in s <==> Find(s, c) < |s|
  {
    if c in s {
      var m :| 0 <= m < |s| && s[m] == c;
      FindAtMost(s, c, m);
    }
  }

  lemma BindingExactly(body: string, p: FilterPredicate)
    ensures ParseBinding(body) == Ok(p) <==> Binding(body, p)
    ensures ParseBinding(body) == Err(MissingEquals) <==> '=' !in body
    ensures ParseBinding(body) == Err(MissingName) <==> '=' in body && Trim(body[..Find(body, '=')]) == ""
  {
    hide Find, Trim, TrimStartMatches, ParseQuotedValue, QuotedText, Binding;
    BindingSplits(body, p);
    FindsExactly(body, '=');
    if '=' in body {
      assert body[ValueStart(body)..] == TrimStartMatches(body[Find(body, '=')..], '=');
      QuotedExactly(Trim(body[ValueStart(body)..]), p.value);
      NoOtherError(Trim(body[ValueStart(body)..]));
    }
  }

  lemma NoOtherError(raw: string)
    ensures ParseQuotedValue(raw) != Err(MissingEquals) && ParseQuotedValue(raw) != Err(MissingName)
  {
  }

  lemma SplitHasEquals(body: string, eq: int, rest: int)
    requires SplitsAt(body, eq, rest)
    ensures '=' in body && 0 <= eq < |body|
  {
    assert body[eq] == '=';
  }

  /** What stands between the brackets: optional '@' signs, then a binding. */
  ghost predicate Bracketed(inner: string, p: FilterPredicate) {
    var trimmed := Trim(inner);
    exists from :: 0 <= from <= |trimmed| && (forall i :: 0 <= i < from ==> trimmed[i] == '@')
                     && (from < |trimmed| ==> trimmed[from] != '@') && Binding(Trim(trimmed[from..]), p)
  }

  lemma BracketedExactly(inner: string, p: FilterPredicate)
    ensures ParsePredicate(inner) == Ok(p) <==> Bracketed(inner, p)
  {
    hide Trim, TrimStartMatches, Binding, ParseBinding;
    var trimmed := Trim(inner);
    var stripped := TrimStartMatches(trimmed, '@');
    BindingExactly(Trim(stripped), p);
    assert stripped == trimmed[|trimmed| - |stripped|..];
    if from :| 0 <= from <= |trimmed| && (forall i :: 0 <= i < from ==> trimmed[i] == '@')
               && (from < |trimmed| ==> trimmed[from] != '@') && Binding(Trim(trimmed[from..]), p) {
      assert from == |trimmed| - |stripped|;
    }
  }

  /** Bracketed predicates one after the other, and then nothing but white space. */
  ghost predicate BracketedAll(cursor: string, ps: seq<FilterPredicate>)
    decreases |ps|
  {
    if ps == [] then (cursor == "" || cursor[0] != '[') && Trim(cursor) == ""
    else exists close :: ClosesAt(cursor, close)
                           && Bracketed(cursor[1..close], ps[0]) && BracketedAll(cursor[close + 1..], ps[1..])
  }

  /** An opening bracket, and the first closing one. */
  ghost predicate ClosesAt(cursor: string, close: int) {
    0 < close < |cursor| && cursor[0] == '[' && cursor[close] == ']' && ']' !in cursor[..close]
  }

  lemma {:induction false} BracketedAllExactly(cursor: string, ps: seq<FilterPredicate>)
    ensures ParsePredicates(cursor) == Ok(ps) <==> BracketedAll(cursor, ps)
    decreases |cursor|
  {
    hide Find, Trim, ParsePredicate, Bracketed;
    if cursor == "" || cursor[0] != '[' {
      assert forall close :: !ClosesAt(cursor, close);
    } else {
      var close := Find(cursor, ']');
      if close < |cursor| {
        var one, more := cursor[1..close], cursor[close + 1..];
        ParseOpened(cursor, close, one, more);
        forall k | ClosesAt(cursor, k)
          ensures k == close
        {
          FindFirst(cursor, ']', k);
        }
        assert ClosesAt(cursor, close);
        if ps != [] {
          BracketedExactly(one, ps[0]);
          BracketedAllExactly(more, ps[1..]);
          PrependedExactly(ParsePredicate(one), ParsePredicates(more), ps);
        } else {
          PrependedSome(ParsePredicate(one), ParsePredicates(more));
        }
      } else {
        forall k: int
          ensures !ClosesAt(cursor, k)
        {
          NeverCloses(cursor, k);
        }
      }
    }
  }

  lemma NeverCloses(cursor: string, k: int)
    requires Find(cursor, ']') == |cursor|
    ensures !ClosesAt(cursor, k)
  {
    assert cursor[..|cursor|] == cursor;
  }

  lemma PrependedExactly(first: Result<FilterPredicate, FilterError>, others: Result<seq<FilterPredicate>, FilterError>,
                         ps: seq<FilterPredicate>)
    requires ps != []
    ensures Prepended(first, others) == Ok(ps) <==> first == Ok(ps[0]) && others == Ok(ps[1..])
  {
    if first.Ok? && others.Ok? {
      var all := [first.value] + others.value;
      assert all[0] == first.value && all[1..] == others.value;
      assert [ps[0]] + ps[1..] == ps;
    }
  }

  lemma PrependedSome(first: Result<FilterPredicate, FilterError>, others: Result<seq<FilterPredicate>, FilterError>)
    ensures Prepended(first, others) != Ok([])
  {
  }

  /** Two slashes, a class name up to the first bracket, and bracketed predicates, with white space around each part. */
  ghost predicate Accepted(expression: string, f: FilterExpression) {
    var text := Trim(expression);
    && |text| >= 2 && text[0] == '/' && text[1] == '/'
    && exists cut :: 2 <= cut <= |text| && '[' !in text[2..cut] && (cut < |text| ==> text[cut] == '[')
                       && f.className != "" && Trim(text[2..cut]) == f.className
                       && BracketedAll(text[cut..], f.predicates)
  }

  /** A filter text means a filter exactly when it is written like this. It lacks the slashes, or the class, exactly
      when that is reported. */
  lemma AcceptedExactly(expression: string, f: FilterExpression)
    ensures Parse(expression) == Ok(f) <==> Accepted(expression, f)
    ensures Parse(expression) == Err(MissingSlashes) <==> !("//" <= Trim(expression))
    ensures Parse(expression) == Err(MissingClass) <==>
              && "//" <= Trim(expression)
              && var body := Trim(expression)[2..]; Trim(body[..Find(body, '[')]) == ""
  {
    hide Find, Trim, ParsePredicates, BracketedAll;
    var text := Trim(expression);
    PredicateErrors(if |text| >= 2 then text[2..][Find(text[2..], '[')..] else "");
    if "//" <= text {
      assert text[0] == "//"[0] && text[1] == "//"[1];
      var body := text[2..];
      var bracket := Find(body, '[');
      assert text[2..2 + bracket] == body[..bracket] && text[2 + bracket..] == body[bracket..];
      BracketedAllExactly(body[bracket..], f.predicates);
      forall cut | 2 <= cut <= |text| && '[' !in text[2..cut] && (cut < |text| ==> text[cut] == '[')
        ensures cut == 2 + bracket
      {
        assert text[2..cut] == body[..cut - 2];
        if cut < |text| {
          FindFirst(body, '[', cut - 2);
        } else {
          assert body[..cut - 2] == body;
        }
      }
    }
    TwoSlashes(text);
  }

  lemma TwoSlashes(text: string)
    ensures "//" <= text <==> |text| >= 2 && text[0] == '/' && text[1] == '/'
  {
    if |text| >= 2 && text[0] == '/' && text[1] == '/' {
      assert text[..2] == "//";
    }
  }

  lemma {:induction false} PredicateErrors(cursor: string)
    ensures ParsePredicates(cursor) != Err(MissingSlashes) && ParsePredicates(cursor) != Err(MissingClass)
    decreases |cursor|
  {
    hide Find, Trim, TrimStartMatches;
    if cursor == "" || cursor[0] != '[' {
    } else {
      var close := Find(cursor, ']');
      if close < |cursor| {
        PredicateErrors(cursor[close + 1..]);
      }
    }
  }

  // ---- What a predicate asks for

  /** The text a JSON value is compared by: a string's own, a number's as written, a flag's name, and of anything else
      the text without quotes at its ends. */
  ghost predicate ComparesAs(v: JsonValue, text: string) {
    match v
    case JString(own) => own == text
    case JNumber(written) => written == text
    case JBool(flag) => (flag && text == "true") || (!flag && text == "false")
    case JOther(written) => exists from :: IsStripped(written, '"', text, from)
  }

  /** The first property of that name has a value, which compares as that text. */
  ghost predicate Carries(i: MimInstance, name: string, text: string) {
    exists k :: FirstNamed(i.properties, name, k)
                  && i.properties[k].value.Some? && ComparesAs(i.properties[k].value.value, text)
  }

  lemma HoldsExactly(i: MimInstance, p: FilterPredicate)
    ensures Holds(i, p) <==> Carries(i, p.name, p.value)
  {
    hide FindProperty, FirstNamed, TrimStartMatches, TrimEndMatches;
    SomeIsFirst(i.properties, p.name);
    forall k | FirstNamed(i.properties, p.name, k)
      ensures 0 <= k < |i.properties| && i.GetProperty(p.name) == Some(i.properties[k])
    {
      NamedInside(i.properties, p.name, k);
      FoundIsFirst(i.properties, p.name, k);
    }
    var found := i.GetProperty(p.name);
    if found.Some? && found.value.value.Some? {
      ComparesExactly(found.value.value.value, p.value);
    }
  }

  lemma NamedInside(properties: seq<Property>, name: string, k: int)
    requires FirstNamed(properties, name, k)
    ensures 0 <= k < |properties|
  {
  }

  lemma ComparesExactly(v: JsonValue, text: string)
    ensures ValueText(v) == text <==> ComparesAs(v, text)
  {
    hide TrimStartMatches, TrimEndMatches, IsStripped;
    if v.JOther? {
      StripExactly(v.text, '"', text);
    }
  }

  predicate Matches(instance: MimInstance, f: FilterExpression) {
    instance.className == f.className && AllHold(instance, f.predicates)
  }
}
