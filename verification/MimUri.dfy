/** URIs of versioned model elements. */
module MimUri {
  import opened Wrappers
  import opened Text

  const BASE_URL := "https://www.mimworld.org/mim"

  datatype QualifiedName = QualifiedName(version: string, path: string)

  datatype UriError = InvalidUri

  function JoinPath(segments: seq<string>): string {
    if segments == [] then ""
    else if |segments| == 1 then segments[0]
    else segments[0] + "/" + JoinPath(segments[1..])
  }

  /** The path without empty segments. */
  function NormalizePath(path: string): string {
    JoinPath(SplitNonEmpty(path, Slash))
  }

  predicate Slash(c: char) {
    c == '/'
  }

  /** A path without a slash in front, at the end, or after another slash. */
  ghost predicate Normal(path: string) {
    && (path != "" ==> path[0] != '/' && path[|path| - 1] != '/')
    && forall i :: 0 < i < |path| ==> path[i - 1] != '/' || path[i] != '/'
  }

  /** The normal path with the same segments. */
  lemma NormalizedExactly(path: string)
    ensures Normal(NormalizePath(path)) && SplitNonEmpty(NormalizePath(path), Slash) == SplitNonEmpty(path, Slash)
    ensures Normal(path) ==> NormalizePath(path) == path
  {
    hide SplitNonEmpty, JoinPath, Normal;
    var segments := SplitNonEmpty(path, Slash);
    SegmentsOf(path);
    JoinedSplits(segments);
    if Normal(path) {
      NormalJoins(path);
    }
  }

  lemma SegmentsOf(path: string)
    ensures forall s :: s in SplitNonEmpty(path, Slash) ==> s != "" && '/' !in s
  {
  }

  lemma {:induction false} JoinedSplits(segments: seq<string>)
    requires forall s :: s in segments ==> s != "" && '/' !in s
    ensures Normal(JoinPath(segments)) && SplitNonEmpty(JoinPath(segments), Slash) == segments
    ensures segments != [] ==> JoinPath(segments) != ""
  {
    if |segments| == 1 {
      assert segments[0] in segments;
      OneWord(segments[0], Slash);
    } else if |segments| > 1 {
      var first, rest := segments[0], segments[1..];
      assert first in segments && rest[0] in segments;
      assert forall s :: s in rest ==> s in segments;
      JoinedSplits(rest);
      assert JoinPath(segments) == first + ['/'] + JoinPath(rest);
      FirstOfWords(first, '/', JoinPath(rest), Slash);
      NormalInFront(first, JoinPath(rest));
    }
  }

  lemma NormalInFront(first: string, rest: string)
    requires first != "" && '/' !in first && rest != "" && Normal(rest)
    ensures Normal(first + ['/'] + rest)
  {
    var path := first + ['/'] + rest;
    forall i | 0 < i < |path|
      ensures path[i - 1] != '/' || path[i] != '/'
    {
      if i <= |first| {
        assert path[i - 1] in first;
      } else if i > |first| + 1 {
        assert path[i] == rest[i - |first| - 1] && path[i - 1] == rest[i - |first| - 2];
      }
    }
  }

  lemma {:induction false} NormalJoins(path: string)
    requires Normal(path)
    ensures JoinPath(SplitNonEmpty(path, Slash)) == path
    decreases |path|
  {
    hide SplitNonEmpty;
    var n := Find(path, '/');
    var first := path[..n];
    if path == "" {
      NoSegments();
    } else if n == |path| {
      assert first == path;
      OneWord(path, Slash);
    } else {
      var rest := path[n + 1..];
      assert path == first + ['/'] + rest && path[n + 1] == rest[0];
      assert Normal(rest) by {
        forall i | 0 < i < |rest|
          ensures rest[i - 1] != '/' || rest[i] != '/'
        {
          assert rest[i] == path[n + 1 + i] && rest[i - 1] == path[n + i];
        }
      }
      NormalJoins(rest);
      FirstOfWords(first, '/', rest, Slash);
      assert SplitNonEmpty(rest, Slash) != [];
      assert ([first] + SplitNonEmpty(rest, Slash))[1..] == SplitNonEmpty(rest, Slash);
    }
  }

  lemma NoSegments()
    ensures SplitNonEmpty("", Slash) == []
  {
  }

  /** The text after the base URL splits at its first slash; neither part may be empty. */
  function ParseName(value: string): Result<QualifiedName, UriError> {
    var trimmed := Trim(value);
    if !StartsWith(trimmed, BASE_URL + "/") then Err(InvalidUri) else
      var rest := trimmed[|BASE_URL| + 1..];
      var slash := Find(rest, '/');
      if slash == 0 || |rest| <= slash + 1 then Err(InvalidUri)
      else Ok(QualifiedName(rest[..slash], NormalizePath(rest[slash + 1..])))
  }

  /** A text is a name exactly when, trimmed, it is the base URL, a version, and a path, all of them with something in
      them and a slash in between; the path is read without its empty segments. */
  lemma NamedExactly(value: string, version: string, path: string)
    ensures ParseName(value) == Ok(QualifiedName(version, path)) <==> IsNameOf(value, version, path)
    ensures ParseName(value).Ok? <==> exists v, p :: IsNameOf(value, v, p)
  {
    hide ParseName, IsNameOf;
    forall v, p
      ensures ParseName(value) == Ok(QualifiedName(v, p)) <==> IsNameOf(value, v, p)
    {
      if ParseName(value) == Ok(QualifiedName(v, p)) {
        ReadAsNamed(value, v, p);
      }
      if IsNameOf(value, v, p) {
        NamedIsRead(value, v, p);
      }
    }
    if ParseName(value).Ok? {
      var name := ParseName(value).value;
      assert IsNameOf(value, name.version, name.path);
    }
  }

  lemma ReadAsNamed(value: string, version: string, path: string)
    requires ParseName(value) == Ok(QualifiedName(version, path))
    ensures IsNameOf(value, version, path)
  {
    hide Trim, Find, NormalizePath;
    var start, trimmed := "https://www.mimworld.org/mim/", Trim(value);
    assert BASE_URL + "/" == start;
    var rest := trimmed[|start|..];
    assert trimmed == start + rest && rest == version + "/" + rest[|version| + 1..];
    assert IsNamed(trimmed, version, rest[|version| + 1..]);
  }

  lemma NamedIsRead(value: string, version: string, path: string)
    requires IsNameOf(value, version, path)
    ensures ParseName(value) == Ok(QualifiedName(version, path))
  {
    hide Trim, Find, NormalizePath, IsNamed;
    var raw :| IsNamed(Trim(value), version, raw) && NormalizePath(raw) == path;
    NameSplits(Trim(value), version, raw);
  }

  ghost predicate IsNamed(text: string, version: string, rest: string) {
    version != "" && '/' !in version && rest != "" && text == "https://www.mimworld.org/mim/" + (version + "/" + rest)
  }

  ghost predicate IsNameOf(value: string, version: string, path: string) {
    exists rest :: IsNamed(Trim(value), version, rest) && NormalizePath(rest) == path
  }

  lemma NameSplits(text: string, version: string, rest: string)
    requires IsNamed(text, version, rest)
    ensures StartsWith(text, BASE_URL + "/") && version != "" && rest != ""
    ensures var after := text[|BASE_URL| + 1..];
      && |version| + 1 < |after| && Find(after, '/') == |version|
      && after[..|version|] == version && after[|version| + 1..] == rest
  {
    hide Find;
    var start := "https://www.mimworld.org/mim/";
    assert BASE_URL + "/" == start;
    var after := text[|start|..];
    assert after == version + "/" + rest;
    assert after[..|version|] == version;
    FindFirst(after, '/', |version|);
  }

  function Parse(value: string): Result<string, UriError> {
    match ParseName(value)
    case Err(e) => Err(e)
    case Ok(_) => Ok(Trim(value))
  }

  /** What the URIs of one version have in front of the classifiers. */
  function VersionUrl(version: string): string {
    BASE_URL + "/" + (version + "/")
  }

  /** The URI of an element at some place below the classifiers. */
  function ElementUri(version: string, place: string): string {
    VersionUrl(version) + ("Classifiers/" + place)
  }

  predicate VersionUsable(version: string) {
    version != "" && version[0] != '/'
  }

  /** Wherever the element is, its URI parses exactly when the version is neither empty nor begins with a slash; what
      counts as the version then is the part before its first slash. */
  lemma ElementUriParsesExactly(version: string, place: string)
    ensures Parse(ElementUri(version, place)).Ok? <==> VersionUsable(version)
    ensures VersionUsable(version) ==>
              var name := ParseName(ElementUri(version, place));
              name.Ok? && name.value.version == version[..Find(version, '/')]
  {
    hide Find, NormalizePath, Trim, IsWhitespace;
    var front, start := VersionUrl(version), BASE_URL + "/";
    var trimmed := Trim(ElementUri(version, place));
    UriStartsPlain(version, place);
    TrimKeepsFront(front, "Classifiers/" + place);
    assert front[..|start|] == start && front[|start|..] == version + "/";
    assert trimmed[..|start|] == front[..|start|];
    var rest := trimmed[|start|..];
    assert rest[..|version| + 1] == trimmed[..|front|][|start|..];
    SlashAfter(version, rest);
  }

  lemma UriStartsPlain(version: string, place: string)
    ensures !IsWhitespace(VersionUrl(version)[0]) && !IsWhitespace(("Classifiers/" + place)[0])
  {
    assert VersionUrl(version)[0] == 'h' && ("Classifiers/" + place)[0] == 'C';
  }

  /** Trimming takes nothing away in front of a text that starts with no white space. */
  lemma TrimKeepsFront(front: string, more: string)
    requires front != "" && !IsWhitespace(front[0]) && more != "" && !IsWhitespace(more[0])
    ensures |Trim(front + more)| > |front| && Trim(front + more)[..|front|] == front
  {
    hide IsWhitespace, TrimStart, TrimEnd;
    var text := front + more;
    var n := |TrimEnd(text)|;
    assert text[0] == front[0] && text[|front|] == more[0];
    assert |TrimStart(text)| == |text|;
    assert text[0..] == text;
    assert n > |front|;
    assert text[..n][..|front|] == text[..|front|] == front;
  }

  /** The first slash of a text that begins with a version and a slash. */
  lemma SlashAfter(version: string, rest: string)
    requires |rest| > |version| + 1 && rest[..|version| + 1] == version + "/"
    ensures Find(rest, '/') == Find(version, '/') && rest[..Find(rest, '/')] == version[..Find(version, '/')]
    ensures Find(rest, '/') == 0 <==> !VersionUsable(version)
  {
    var n := Find(version, '/');
    assert forall i :: 0 <= i < |version| ==> rest[i] == rest[..|version| + 1][i] == version[i];
    assert rest[|version|] == rest[..|version| + 1][|version|] == '/';
    assert rest[..n] == version[..n];
    FindFirst(rest, '/', n);
  }
}
