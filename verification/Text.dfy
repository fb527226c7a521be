/** String helpers with the meaning Rust's `str` gives them, on sequences of Unicode characters. */
module Text {

  /** The characters with the Unicode White_Space property. */
  predicate IsWhitespace(c: char) {
    var n := c as int;
    9 <= n <= 13 || n == 32 || n == 0x85 || n == 0xA0 || n == 0x1680 || 0x2000 <= n <= 0x200A
    || n == 0x2028 || n == 0x2029 || n == 0x202F || n == 0x205F || n == 0x3000
  }

  function TrimStart(s: string): (t: string)
    ensures t == [] || !IsWhitespace(t[0])
    ensures |t| <= |s| && t == s[|s| - |t|..]
    ensures forall i :: 0 <= i < |s| - |t| ==> IsWhitespace(s[i])
  {
    if s == [] || !IsWhitespace(s[0]) then s else TrimStart(s[1..])
  }

  function TrimEnd(s: string): (t: string)
    ensures t == [] || !IsWhitespace(t[|t| - 1])
    ensures |t| <= |s| && t == s[..|t|]
    ensures forall i :: |t| <= i < |s| ==> IsWhitespace(s[i])
  {
    if s == [] || !IsWhitespace(s[|s| - 1]) then s else TrimEnd(s[..|s| - 1])
  }

  function Trim(s: string): (t: string)
    ensures IsTrimmed(t)
    ensures |t| <= |s|
  {
    TrimEnd(TrimStart(s))
  }

  lemma TrimMembers(s: string, c: char)
    ensures c in Trim(s) ==> c in s
  {
    var front := TrimStart(s);
    var t := TrimEnd(front);
    if c in t {
      var i :| 0 <= i < |t| && t[i] == c;
      assert front[i] == c && s[|s| - |front| + i] == c;
    }
  }

  predicate IsTrimmed(s: string) {
    s == [] || (!IsWhitespace(s[0]) && !IsWhitespace(s[|s| - 1]))
  }

  /** A trimmed string is a fixed point of Trim. */
  lemma TrimFixes(s: string)
    requires IsTrimmed(s)
    ensures TrimStart(s) == s && Trim(s) == s
  {
  }

  function LowerChar(c: char): char {
    if 'A' <= c <= 'Z' then (c as int + 32) as char else c
  }

  function UpperChar(c: char): char {
    if 'a' <= c <= 'z' then (c as int - 32) as char else c
  }

  function ToAsciiLowercase(s: string): (t: string)
    ensures |t| == |s|
  {
    seq(|s|, i requires 0 <= i < |s| => LowerChar(s[i]))
  }

  function ToAsciiUppercase(s: string): (t: string)
    ensures |t| == |s|
  {
    seq(|s|, i requires 0 <= i < |s| => UpperChar(s[i]))
  }

  /** ASCII case-insensitive equality. */
  predicate EqIgnoreCase(s: string, t: string) {
    ToAsciiLowercase(s) == ToAsciiLowercase(t)
  }

  /** Texts of the same letters, where 'A' to 'Z' and 'a' to 'z' count as the same. */
  ghost predicate SameLetters(s: string, t: string) {
    |s| == |t| && forall i :: 0 <= i < |s| ==> SameLetter(s[i], t[i])
  }

  ghost predicate SameLetter(a: char, b: char) {
    a == b || ('A' <= a <= 'Z' && b as int == a as int + 32) || ('A' <= b <= 'Z' && a as int == b as int + 32)
  }

  lemma EqIgnoreCaseExactly(s: string, t: string)
    ensures EqIgnoreCase(s, t) <==> SameLetters(s, t)
  {
    var x, y := ToAsciiLowercase(s), ToAsciiLowercase(t);
    if |s| == |t| {
      forall i | 0 <= i < |s|
        ensures x[i] == y[i] <==> SameLetter(s[i], t[i])
      {
      }
      assert x == y <==> forall i :: 0 <= i < |s| ==> x[i] == y[i];
    }
  }

  /** The upper-case form has the same letters, none of them in lower case. */
  lemma UppercaseExactly(s: string, t: string)
    ensures ToAsciiUppercase(s) == t <==> SameLetters(s, t) && forall c :: c in t ==> !('a' <= c <= 'z')
  {
    var x := ToAsciiUppercase(s);
    assert forall i :: 0 <= i < |s| ==> x[i] == UpperChar(s[i]);
    if |s| == |t| {
      assert forall i :: 0 <= i < |t| ==> t[i] in t;
      assert x == t <==> forall i :: 0 <= i < |s| ==> x[i] == t[i];
    }
  }

  /** The lower-case form has the same letters, none of them in upper case. */
  lemma LowercaseExactly(s: string, t: string)
    ensures ToAsciiLowercase(s) == t <==> SameLetters(s, t) && forall c :: c in t ==> !('A' <= c <= 'Z')
  {
    var x := ToAsciiLowercase(s);
    assert forall i :: 0 <= i < |s| ==> x[i] == LowerChar(s[i]);
    if |s| == |t| {
      assert forall i :: 0 <= i < |t| ==> t[i] in t;
      assert x == t <==> forall i :: 0 <= i < |s| ==> x[i] == t[i];
    }
  }

  /** White space is exactly these code points. */
  lemma WhitespaceExactly(c: char)
    ensures IsWhitespace(c) <==>
      c as int in {9, 10, 11, 12, 13, 32, 0x85, 0xA0, 0x1680, 0x2000, 0x2001, 0x2002, 0x2003, 0x2004, 0x2005, 0x2006,
                   0x2007, 0x2008, 0x2009, 0x200A, 0x2028, 0x2029, 0x202F, 0x205F, 0x3000}
  {
  }

  /** Trimming takes away exactly the white space at both ends. */
  ghost predicate IsTrimmedTo(s: string, t: string, from: nat) {
    && from + |t| <= |s| && s[from..from + |t|] == t && IsTrimmed(t)
    && (forall i :: 0 <= i < from ==> IsWhitespace(s[i])) && (forall i :: from + |t| <= i < |s| ==> IsWhitespace(s[i]))
  }

  lemma TrimExactly(s: string, t: string)
    ensures Trim(s) == t <==> exists from :: IsTrimmedTo(s, t, from)
  {
    hide TrimStart, TrimEnd, IsWhitespace;
    var front := TrimStart(s);
    var from, both := |s| - |front|, TrimEnd(front);
    assert s[from..from + |both|] == both;
    assert forall i :: from + |both| <= i < |s| ==> s[i] == front[i - from];
    assert IsTrimmedTo(s, both, from) by {
      assert both != "" ==> both[0] == front[0];
    }
    if k :| IsTrimmedTo(s, t, k) {
      SameTrimmed(s, both, from, t, k);
    }
  }

  lemma SameTrimmed(s: string, t: string, i: nat, u: string, k: nat)
    requires IsTrimmedTo(s, t, i) && IsTrimmedTo(s, u, k)
    ensures t == u
  {
    hide IsWhitespace;
    BlankExactly(s, t, i);
    BlankExactly(s, u, k);
    if t != "" {
      assert s[i] == t[0] && s[k] == u[0];
      assert s[i + |t| - 1] == t[|t| - 1] && s[k + |u| - 1] == u[|u| - 1];
      assert i == k && i + |t| == k + |u|;
    }
  }

  lemma BlankExactly(s: string, t: string, from: nat)
    requires IsTrimmedTo(s, t, from)
    ensures t == "" <==> forall i :: 0 <= i < |s| ==> IsWhitespace(s[i])
  {
    hide IsWhitespace;
    assert t != "" ==> s[from] == t[0];
  }

  predicate StartsWith(s: string, prefix: string) {
    prefix <= s
  }

  /** Index of the first occurrence of a character, or the length when there is none. */
  function Find(s: string, c: char): (i: nat)
    ensures i <= |s|
    ensures i < |s| ==> s[i] == c
    ensures c !in s[..i]
  {
    if s == [] || s[0] == c then 0 else
      var rest := Find(s[1..], c);
      assert s[..rest + 1] == [s[0]] + s[1..][..rest];
      rest + 1
  }

  lemma {:induction false} FindAtMost(s: string, c: char, m: nat)
    requires m < |s| && s[m] == c
    ensures Find(s, c) <= m
  {
    if m == 0 {
    } else {
      FindAtMost(s[1..], c, m - 1);
    }
  }

  lemma {:induction false} FindFirst(s: string, c: char, i: nat)
    requires i < |s| && s[i] == c && c !in s[..i]
    ensures Find(s, c) == i
  {
    if i == 0 {
    } else {
      assert s[0] == s[..i][0] && s[1..][..i - 1] == s[..i][1..];
      FindFirst(s[1..], c, i - 1);
    }
  }

  /** Strips every leading occurrence of a character. */
  function TrimStartMatches(s: string, c: char): (t: string)
    ensures t == [] || t[0] != c
    ensures |t| <= |s| && t == s[|s| - |t|..]
    ensures forall i :: 0 <= i < |s| - |t| ==> s[i] == c
  {
    if s == [] || s[0] != c then s else TrimStartMatches(s[1..], c)
  }

  /** Strips every trailing occurrence of a character. */
  function TrimEndMatches(s: string, c: char): (t: string)
    ensures t == [] || t[|t| - 1] != c
    ensures |t| <= |s| && t == s[..|t|]
    ensures forall i :: |t| <= i < |s| ==> s[i] == c
  {
    if s == [] || s[|s| - 1] != c then s else TrimEndMatches(s[..|s| - 1], c)
  }

  /** The text between all leading and all trailing occurrences of a character. */
  ghost predicate IsStripped(s: string, c: char, t: string, from: nat) {
    && from + |t| <= |s| && s[from..from + |t|] == t
    && (forall i :: 0 <= i < from ==> s[i] == c) && (forall i :: from + |t| <= i < |s| ==> s[i] == c)
    && (t == "" || (t[0] != c && t[|t| - 1] != c))
  }

  lemma StripExactly(s: string, c: char, t: string)
    ensures TrimEndMatches(TrimStartMatches(s, c), c) == t <==> exists from :: IsStripped(s, c, t, from)
  {
    hide TrimStartMatches, TrimEndMatches;
    var front := TrimStartMatches(s, c);
    var from, both := |s| - |front|, TrimEndMatches(front, c);
    assert s[from..from + |both|] == both;
    assert forall i :: from + |both| <= i < |s| ==> s[i] == front[i - from];
    assert IsStripped(s, c, both, from) by {
      assert both != "" ==> both[0] == front[0];
    }
    if k :| IsStripped(s, c, t, k) {
      SameStripped(s, c, both, from, t, k);
    }
  }

  lemma SameStripped(s: string, c: char, t: string, i: nat, u: string, k: nat)
    requires IsStripped(s, c, t, i) && IsStripped(s, c, u, k)
    ensures t == u
  {
    NothingLeft(s, c, t, i);
    NothingLeft(s, c, u, k);
    if t != "" {
      assert s[i] == t[0] && s[k] == u[0];
      assert s[i + |t| - 1] == t[|t| - 1] && s[k + |u| - 1] == u[|u| - 1];
      assert i == k && i + |t| == k + |u|;
    }
  }

  lemma NothingLeft(s: string, c: char, t: string, from: nat)
    requires IsStripped(s, c, t, from)
    ensures t == "" <==> forall i :: 0 <= i < |s| ==> s[i] == c
  {
    assert t != "" ==> s[from] == t[0];
  }

  /** The non-empty pieces between separators. */
  function SplitNonEmpty(s: string, separator: char -> bool): (parts: seq<string>)
    ensures forall p :: p in parts ==> p != [] && forall c :: c in p ==> !separator(c)
    decreases |s|
  {
    if s == [] then []
    else if separator(s[0]) then SplitNonEmpty(s[1..], separator)
    else
      var n := PieceLength(s, separator);
      [s[..n]] + SplitNonEmpty(s[n..], separator)
  }

  function PieceLength(s: string, separator: char -> bool): (n: nat)
    ensures n <= |s|
    ensures forall i :: 0 <= i < n ==> !separator(s[i])
    ensures n < |s| ==> separator(s[n])
  {
    if s == [] || separator(s[0]) then 0 else 1 + PieceLength(s[1..], separator)
  }

  /** A longest piece without separators, as a place in the text. */
  predicate IsWord(s: string, separator: char -> bool, i: int, j: int) {
    && 0 <= i < j <= |s| && (forall k :: i <= k < j ==> !separator(s[k]))
    && (i == 0 || separator(s[i - 1])) && (j == |s| || separator(s[j]))
  }

  /** Places of words do not depend on what stands further in front. */
  lemma WordBehind(s: string, separator: char -> bool, n: nat, i: int, j: int)
    requires 0 < n <= |s| && n <= i && (i > n || separator(s[n - 1]) || (n < |s| && separator(s[n])))
    ensures IsWord(s, separator, i, j) <==> j >= n && IsWord(s[n..], separator, i - n, j - n)
  {
    if j >= n && IsWord(s[n..], separator, i - n, j - n) {
      assert s[i] == s[n..][i - n];
      forall k | i <= k < j
        ensures !separator(s[k])
      {
        assert s[k] == s[n..][k - n];
      }
    }
    if IsWord(s, separator, i, j) {
      forall k | i - n <= k < j - n
        ensures !separator(s[n..][k])
      {
        assert s[n..][k] == s[k + n];
      }
    }
  }

  ghost predicate HasWord(s: string, separator: char -> bool, w: string) {
    exists i, j :: IsWord(s, separator, i, j) && s[i..j] == w
  }

  /** Where the first piece or separator ends. */
  function FirstEnd(s: string, separator: char -> bool): (n: nat)
    requires s != []
    ensures 0 < n <= |s|
  {
    if separator(s[0]) then 1 else PieceLength(s, separator)
  }

  /** The only word that begins in the first piece is that piece. */
  lemma WordInFront(s: string, separator: char -> bool, i: int, j: int)
    requires s != [] && IsWord(s, separator, i, j) && i < FirstEnd(s, separator)
    ensures !separator(s[0]) && i == 0 && j == FirstEnd(s, separator)
  {
  }

  lemma WordGoesBehind(s: string, separator: char -> bool, i: int, j: int)
    requires s != [] && IsWord(s, separator, i, j)
    ensures var n := FirstEnd(s, separator);
      (!separator(s[0]) && s[i..j] == s[..n]) || HasWord(s[n..], separator, s[i..j])
  {
    hide PieceLength;
    var n := FirstEnd(s, separator);
    if i < n {
      WordInFront(s, separator, i, j);
    } else {
      WordBehind(s, separator, n, i, j);
      assert s[n..][i - n..j - n] == s[i..j];
    }
  }

  lemma WordComesFromBehind(s: string, separator: char -> bool, i: int, j: int)
    requires s != [] && IsWord(s[FirstEnd(s, separator)..], separator, i, j)
    ensures HasWord(s, separator, s[FirstEnd(s, separator)..][i..j])
  {
    hide PieceLength;
    var n := FirstEnd(s, separator);
    WordBehind(s, separator, n, i + n, j + n);
    assert s[n..][i..j] == s[i + n..j + n];
  }

  lemma FirstWord(s: string, separator: char -> bool)
    requires s != [] && !separator(s[0])
    ensures HasWord(s, separator, s[..FirstEnd(s, separator)])
  {
    var n := FirstEnd(s, separator);
    assert IsWord(s, separator, 0, n) && s[0..n] == s[..n];
  }

  lemma SameWords(s: string, a: char -> bool, b: char -> bool, w: string)
    requires forall c :: a(c) == b(c)
    ensures HasWord(s, a, w) == HasWord(s, b, w)
  {
    forall i, j
      ensures IsWord(s, a, i, j) == IsWord(s, b, i, j)
    {
    }
  }

  /** Splitting finds exactly the longest pieces without separators. */
  lemma {:induction false} SplitExactly(s: string, separator: char -> bool, w: string)
    ensures w in SplitNonEmpty(s, separator) <==> HasWord(s, separator, w)
    decreases |s|
  {
    hide PieceLength;
    if s == [] {
      NoWord(separator);
    } else {
      var n := FirstEnd(s, separator);
      SplitExactly(s[n..], separator, w);
      if HasWord(s, separator, w) {
        var i, j :| IsWord(s, separator, i, j) && s[i..j] == w;
        WordGoesBehind(s, separator, i, j);
      }
      if HasWord(s[n..], separator, w) {
        var i, j :| IsWord(s[n..], separator, i, j) && s[n..][i..j] == w;
        WordComesFromBehind(s, separator, i, j);
      }
      if !separator(s[0]) {
        FirstWord(s, separator);
      }
    }
  }

  lemma NoWord(separator: char -> bool)
    ensures forall i, j :: !IsWord("", separator, i, j)
  {
  }

  lemma OneWord(word: string, separator: char -> bool)
    requires word != "" && forall c :: c in word ==> !separator(c)
    ensures SplitNonEmpty(word, separator) == [word]
  {
    assert forall i :: 0 <= i < |word| ==> !separator(word[i]);
    var n := PieceLength(word, separator);
    assert word[..n] == word && word[n..] == "";
  }

  lemma FirstOfWords(word: string, s: char, more: string, separator: char -> bool)
    requires word != "" && separator(s) && forall c :: c in word ==> !separator(c)
    ensures SplitNonEmpty(word + [s] + more, separator) == [word] + SplitNonEmpty(more, separator)
  {
    var all := word + [s] + more;
    var n := PieceLength(all, separator);
    assert all[|word|] == s && forall i :: 0 <= i < |word| ==> all[i] == word[i] && word[i] in word;
    assert n == |word|;
    assert all[..n] == word && all[n..] == [s] + more;
    assert ([s] + more)[1..] == more;
  }
}
