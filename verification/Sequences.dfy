/** Order-preserving selection from a sequence. */
module Sequences {

  /** The elements that satisfy the test, in order. */
  function Retain<T>(s: seq<T>, keep: T -> bool): (r: seq<T>)
    ensures |r| <= |s|
    ensures forall i :: 0 <= i < |r| ==> r[i] in s && keep(r[i])
    ensures forall i :: 0 <= i < |s| && keep(s[i]) ==> s[i] in r
  {
    if s == [] then [] else (if keep(s[0]) then [s[0]] else []) + Retain(s[1..], keep)
  }

  lemma {:induction false} RetainConcat<T>(s: seq<T>, t: seq<T>, keep: T -> bool)
    ensures Retain(s + t, keep) == Retain(s, keep) + Retain(t, keep)
  {
    if s == [] {
      assert s + t == t;
    } else {
      assert (s + t)[1..] == s[1..] + t;
      RetainConcat(s[1..], t, keep);
    }
  }

  /** Selecting from a sequence one longer looks at its last element only. */
  lemma RetainStep<T>(s: seq<T>, i: nat, keep: T -> bool)
    requires i < |s|
    ensures Retain(s[..i + 1], keep) == Retain(s[..i], keep) + (if keep(s[i]) then [s[i]] else [])
  {
    assert s[..i + 1] == s[..i] + [s[i]];
    RetainConcat(s[..i], [s[i]], keep);
  }

  lemma {:induction false} RetainAll<T>(s: seq<T>, keep: T -> bool)
    requires forall i :: 0 <= i < |s| ==> keep(s[i])
    ensures Retain(s, keep) == s
  {
    if s == [] {
    } else {
      RetainAll(s[1..], keep);
    }
  }

  lemma {:induction false} RetainNone<T>(s: seq<T>, keep: T -> bool)
    requires forall i :: 0 <= i < |s| ==> !keep(s[i])
    ensures Retain(s, keep) == []
  {
    if s == [] {
    } else {
      RetainNone(s[1..], keep);
    }
  }

  /** `small` can be obtained from `big` by leaving elements out. */
  ghost predicate IsSubsequence<T>(small: seq<T>, big: seq<T>) {
    small == []
    || (big != [] && small[0] == big[0] && IsSubsequence(small[1..], big[1..]))
    || (big != [] && IsSubsequence(small, big[1..]))
  }

  lemma {:induction false} SameSelection<T>(s: seq<T>, a: T -> bool, b: T -> bool)
    requires forall i :: 0 <= i < |s| ==> a(s[i]) == b(s[i])
    ensures Retain(s, a) == Retain(s, b)
  {
    if s == [] {
    } else {
      SameSelection(s[1..], a, b);
    }
  }

  /** Selecting from a selection. */
  lemma {:induction false} RetainTwice<T>(s: seq<T>, first: T -> bool, second: T -> bool, both: T -> bool)
    requires forall i :: 0 <= i < |s| ==> both(s[i]) == (first(s[i]) && second(s[i]))
    ensures Retain(Retain(s, first), second) == Retain(s, both)
  {
    if s == [] {
    } else {
      RetainTwice(s[1..], first, second, both);
      var rest := Retain(s[1..], first);
      assert ([s[0]] + rest)[1..] == rest;
      assert Retain(s, first) == if first(s[0]) then [s[0]] + rest else rest;
      assert Retain(s, both) == if both(s[0]) then [s[0]] + Retain(s[1..], both) else Retain(s[1..], both);
    }
  }

  lemma SubsequenceOfLonger<T>(small: seq<T>, x: T, big: seq<T>)
    requires IsSubsequence(small, big)
    ensures IsSubsequence(small, [x] + big)
    ensures IsSubsequence([x] + small, [x] + big)
  {
    assert ([x] + big)[1..] == big && ([x] + small)[1..] == small;
  }

  /** A stricter test selects a subsequence of what a laxer test selects. */
  lemma {:induction false} RetainSubsequence<T>(s: seq<T>, strict: T -> bool, lax: T -> bool)
    requires forall i :: 0 <= i < |s| && strict(s[i]) ==> lax(s[i])
    ensures IsSubsequence(Retain(s, strict), Retain(s, lax))
  {
    hide IsSubsequence;
    if s == [] {
      NothingIsSubsequence<T>();
    } else {
      RetainSubsequence(s[1..], strict, lax);
      var few, many := Retain(s[1..], strict), Retain(s[1..], lax);
      SubsequenceOfLonger(few, s[0], many);
      assert Retain(s, strict) == if strict(s[0]) then [s[0]] + few else few;
      assert Retain(s, lax) == if lax(s[0]) then [s[0]] + many else many;
    }
  }

  lemma NothingIsSubsequence<T>()
    ensures IsSubsequence<T>([], [])
  {
  }
}
