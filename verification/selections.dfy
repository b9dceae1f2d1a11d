/** Order-preserving selections from a sequence: the combinations both searches run through. */
module Selections {

  ghost predicate NoDuplicates<T>(s: seq<T>) {
    forall i, j :: 0 <= i < j < |s| ==> s[i] != s[j]
  }

  function Elements<T(==)>(s: seq<T>): set<T> {
    set x | x in s
  }

  lemma ElementsAppend<T>(s: seq<T>, x: T)
    ensures Elements(s + [x]) == Elements(s) + {x}
  {
  }

  /** `t` is obtained from `s` by leaving elements out. */
  ghost predicate IsSelection<T>(t: seq<T>, s: seq<T>) {
    if t == [] then true
    else if s == [] then false
    else (t[0] == s[0] && IsSelection(t[1..], s[1..])) || IsSelection(t, s[1..])
  }

  function Prefixed<T>(x: T, ts: seq<seq<T>>): seq<seq<T>> {
    seq(|ts|, i requires 0 <= i < |ts| => [x] + ts[i])
  }

  /** All selections of length k, in lexicographic order of position. */
  function Combinations<T>(s: seq<T>, k: nat): seq<seq<T>> {
    if k == 0 then [[]]
    else if s == [] then []
    else Prefixed(s[0], Combinations(s[1..], k - 1)) + Combinations(s[1..], k)
  }

  /** The selections whose length lies between two bounds, shortest first. */
  function CombinationsBetween<T>(s: seq<T>, low: nat, high: nat): seq<seq<T>>
    decreases high + 1 - low
  {
    if low > high then [] else Combinations(s, low) + CombinationsBetween(s, low + 1, high)
  }

  lemma PrefixedMembers<T>(x: T, ts: seq<seq<T>>, t: seq<T>)
    ensures t in Prefixed(x, ts) <==> t != [] && t[0] == x && t[1..] in ts
  {
    if t in Prefixed(x, ts) {
      var i :| 0 <= i < |ts| && Prefixed(x, ts)[i] == t;
      assert t[1..] == ts[i];
    }
    if t != [] && t[0] == x && t[1..] in ts {
      var i :| 0 <= i < |ts| && ts[i] == t[1..];
      assert Prefixed(x, ts)[i] == t;
    }
  }

  lemma HeadAndTail<T>(t: seq<T>)
    requires t != []
    ensures forall x <- t :: x == t[0] || x in t[1..]
    ensures t[0] in t && forall x <- t[1..] :: x in t
  {
    forall x | x in t ensures x == t[0] || x in t[1..] {
      var i :| 0 <= i < |t| && t[i] == x;
      if i > 0 { assert t[1..][i - 1] == x; }
    }
  }

  lemma CombinationsStep<T>(s: seq<T>, k: nat, t: seq<T>)
    requires k > 0 && s != []
    ensures t in Combinations(s, k)
            <==> (t != [] && t[0] == s[0] && t[1..] in Combinations(s[1..], k - 1)) || t in Combinations(s[1..], k)
  {
    PrefixedMembers(s[0], Combinations(s[1..], k - 1), t);
  }

  lemma LongerSelection<T>(t: seq<T>, s: seq<T>)
    requires s != []
    requires IsSelection(t, s[1..]) || (t != [] && t[0] == s[0] && IsSelection(t[1..], s[1..]))
    ensures IsSelection(t, s)
  {
  }

  lemma {:induction false} CombinationsSound<T>(s: seq<T>, k: nat, t: seq<T>)
    requires t in Combinations(s, k)
    ensures |t| == k && IsSelection(t, s)
  {
    if k == 0 {
      assert t == [];
    } else if s != [] {
      CombinationsStep(s, k, t);
      var rest := s[1..];
      if t in Combinations(rest, k) {
        CombinationsSound(rest, k, t);
      } else {
        CombinationsSound(rest, k - 1, t[1..]);
      }
      LongerSelection(t, s);
    }
  }

  lemma {:induction false} CombinationsComplete<T>(s: seq<T>, k: nat, t: seq<T>)
    requires IsSelection(t, s) && |t| == k
    ensures t in Combinations(s, k)
  {
    if t != [] {
      if t[0] == s[0] && IsSelection(t[1..], s[1..]) {
        CombinationsComplete(s[1..], k - 1, t[1..]);
      } else {
        CombinationsComplete(s[1..], k, t);
      }
      CombinationsStep(s, k, t);
    }
  }

  lemma CombinationsMembers<T>(s: seq<T>, k: nat, t: seq<T>)
    ensures t in Combinations(s, k) <==> |t| == k && IsSelection(t, s)
  {
    if t in Combinations(s, k) {
      CombinationsSound(s, k, t);
    } else if |t| == k && IsSelection(t, s) {
      CombinationsComplete(s, k, t);
    }
  }

  lemma {:induction false} CombinationsBetweenMembers<T>(s: seq<T>, low: nat, high: nat, t: seq<T>)
    ensures t in CombinationsBetween(s, low, high) <==> low <= |t| <= high && IsSelection(t, s)
    decreases high + 1 - low
  {
    if low <= high {
      CombinationsMembers(s, low, t);
      CombinationsBetweenMembers(s, low + 1, high, t);
    }
  }

  lemma {:induction false} SelectionMembers<T>(t: seq<T>, s: seq<T>)
    requires IsSelection(t, s)
    ensures |t| <= |s|
    ensures forall x <- t :: x in s
  {
    if t != [] {
      HeadAndTail(t);
      HeadAndTail(s);
      if t[0] == s[0] && IsSelection(t[1..], s[1..]) {
        SelectionMembers(t[1..], s[1..]);
      } else {
        SelectionMembers(t, s[1..]);
      }
    }
  }

  lemma NoDuplicatesTail<T>(s: seq<T>)
    requires s != []
    ensures NoDuplicates(s) <==> NoDuplicates(s[1..]) && s[0] !in s[1..]
  {
    if NoDuplicates(s[1..]) && s[0] !in s[1..] {
      forall i, j | 0 <= i < j < |s| ensures s[i] != s[j] {
        assert s[j] == s[1..][j - 1] && s[j] in s[1..];
        if i > 0 { assert s[i] == s[1..][i - 1]; }
      }
    }
    if NoDuplicates(s) {
      forall j | 0 <= j < |s[1..]| ensures s[1..][j] != s[0] {
        assert s[0] != s[j + 1];
      }
    }
  }

  lemma {:induction false} SelectionNoDuplicates<T>(t: seq<T>, s: seq<T>)
    requires IsSelection(t, s) && NoDuplicates(s)
    ensures NoDuplicates(t)
  {
    if t != [] {
      NoDuplicatesTail(s);
      if t[0] == s[0] && IsSelection(t[1..], s[1..]) {
        SelectionNoDuplicates(t[1..], s[1..]);
        SelectionMembers(t[1..], s[1..]);
        NoDuplicatesTail(s);
        NoDuplicatesTail(t);
      } else {
        SelectionNoDuplicates(t, s[1..]);
      }
    }
  }

  lemma {:induction false} SelectionPrefix<T>(t: seq<T>, s: seq<T>, k: nat)
    requires IsSelection(t, s) && k <= |t|
    ensures IsSelection(t[..k], s)
  {
    if k > 0 {
      if t[0] == s[0] && IsSelection(t[1..], s[1..]) {
        SelectionPrefix(t[1..], s[1..], k - 1);
        assert t[..k][1..] == t[1..][..k - 1];
      } else {
        SelectionPrefix(t, s[1..], k);
      }
    }
  }

  lemma {:induction false} SelectionTransitive<T>(t: seq<T>, s: seq<T>, r: seq<T>)
    requires IsSelection(t, s) && IsSelection(s, r)
    ensures IsSelection(t, r)
  {
    if t != [] && s != [] {
      if s[0] == r[0] && IsSelection(s[1..], r[1..]) {
        if t[0] == s[0] && IsSelection(t[1..], s[1..]) {
          SelectionTransitive(t[1..], s[1..], r[1..]);
        } else {
          SelectionTransitive(t, s[1..], r[1..]);
        }
      } else {
        SelectionTransitive(t, s, r[1..]);
      }
    }
  }

  /** The elements of `s` that belong to `keep`, in the order of `s`. */
  function Restrict<T(==)>(s: seq<T>, keep: set<T>): (r: seq<T>)
    ensures forall x <- r :: x in s && x in keep
    ensures forall x <- s :: x in keep ==> x in r
  {
    if s == [] then []
    else (if s[0] in keep then [s[0]] else []) + Restrict(s[1..], keep)
  }

  lemma {:induction false} RestrictIsSelection<T>(s: seq<T>, keep: set<T>)
    ensures IsSelection(Restrict(s, keep), s)
  {
    if s != [] {
      RestrictIsSelection(s[1..], keep);
      var rest := Restrict(s[1..], keep);
      if s[0] in keep {
        assert Restrict(s, keep) == [s[0]] + rest;
        assert ([s[0]] + rest)[1..] == rest;
      } else {
        assert Restrict(s, keep) == rest;
      }
    }
  }

  lemma {:induction false} RestrictCount<T>(s: seq<T>, keep: set<T>)
    requires NoDuplicates(s)
    requires forall x <- keep :: x in s
    ensures NoDuplicates(Restrict(s, keep))
    ensures |Restrict(s, keep)| == |keep|
  {
    RestrictIsSelection(s, keep);
    SelectionNoDuplicates(Restrict(s, keep), s);
    var r := Restrict(s, keep);
    ElementCount(r);
    assert Elements(r) == keep;
  }

  lemma {:induction false} ElementCount<T>(r: seq<T>)
    requires NoDuplicates(r)
    ensures |Elements(r)| == |r|
  {
    if r != [] {
      NoDuplicatesTail(r);
      HeadAndTail(r);
      ElementCount(r[1..]);
      assert Elements(r) == {r[0]} + Elements(r[1..]);
    }
  }

  /** A selection without duplicates is the restriction to its own elements. */
  lemma {:induction false} SelectionIsRestriction<T>(t: seq<T>, s: seq<T>)
    requires IsSelection(t, s) && NoDuplicates(s)
    ensures Restrict(s, Elements(t)) == t
  {
    if s != [] {
      NoDuplicatesTail(s);
      if t != [] && t[0] == s[0] && IsSelection(t[1..], s[1..]) {
        SelectionIsRestriction(t[1..], s[1..]);
        HeadAndTail(t);
        RestrictCongruence(s[1..], Elements(t), Elements(t[1..]));
      } else {
        SelectionIsRestriction(t, s[1..]);
        if t != [] {
          SelectionMembers(t, s[1..]);
        }
      }
    }
  }

  /** Restriction depends only on which elements of `s` are kept. */
  lemma {:induction false} RestrictCongruence<T>(s: seq<T>, keep: set<T>, other: set<T>)
    requires forall x <- s :: x in keep <==> x in other
    ensures Restrict(s, keep) == Restrict(s, other)
  {
    if s != [] {
      RestrictCongruence(s[1..], keep, other);
    }
  }

  /** Restricting a selection that contains everything kept changes nothing. */
  lemma {:induction false} RestrictThroughSelection<T>(t: seq<T>, s: seq<T>, keep: set<T>)
    requires IsSelection(t, s) && NoDuplicates(s)
    requires forall x <- keep :: x in t
    ensures Restrict(t, keep) == Restrict(s, keep)
  {
    if s != [] {
      NoDuplicatesTail(s);
      if t != [] && t[0] == s[0] && IsSelection(t[1..], s[1..]) {
        var rest := keep - {s[0]};
        SelectionNoDuplicates(t, s);
        NoDuplicatesTail(t);
        HeadAndTail(t);
        RestrictThroughSelection(t[1..], s[1..], rest);
        RestrictCongruence(t[1..], keep, rest);
        RestrictCongruence(s[1..], keep, rest);
      } else {
        if t != [] { SelectionMembers(t, s[1..]); }
        RestrictThroughSelection(t, s[1..], keep);
        assert s[0] !in keep;
      }
    }
  }
}
