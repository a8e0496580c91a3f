/**
 * `Filter.filter` and `Filter.first`: selection over an iterable with a
 * condition. The iterable is a sequence and the `Condition` a total predicate;
 * elements are never null, so `first` returning null is `None`.
 */
module Filters {
  import opened Wrappers

  /** Reference definition: the elements of `s` that satisfy `c`, in their order. */
  function Selected<T>(s: seq<T>, c: T -> bool): seq<T>
  {
    if s == [] then [] else (if c(s[0]) then [s[0]] else []) + Selected(s[1..], c)
  }

  /** `sub` can be obtained from `s` by deleting elements. */
  predicate IsSubsequence<T(==)>(sub: seq<T>, s: seq<T>)
  {
    if sub == [] then true
    else if s == [] then false
    else (sub[0] == s[0] && IsSubsequence(sub[1..], s[1..])) || IsSubsequence(sub, s[1..])
  }

  lemma {:induction false} SelectedSnoc<T>(s: seq<T>, x: T, c: T -> bool)
    ensures Selected(s + [x], c) == Selected(s, c) + (if c(x) then [x] else [])
  {
    if s == [] {
      assert [x][1..] == [];
    } else {
      assert (s + [x])[0] == s[0];
      assert (s + [x])[1..] == s[1..] + [x];
      SelectedSnoc(s[1..], x, c);
      var head := if c(s[0]) then [s[0]] else [];
      assert Selected(s + [x], c) == head + Selected(s[1..] + [x], c);
      assert head + (Selected(s[1..], c) + (if c(x) then [x] else []))
          == (head + Selected(s[1..], c)) + (if c(x) then [x] else []);
    }
  }

  /** Every selected element is in the input and satisfies the condition. */
  lemma {:induction false} SelectedSound<T>(s: seq<T>, c: T -> bool)
    ensures forall x | x in Selected(s, c) :: x in s && c(x)
  {
    if s != [] {
      SelectedSound(s[1..], c);
    }
  }

  /** Every element of the input that satisfies the condition is selected. */
  lemma {:induction false} SelectedComplete<T>(s: seq<T>, c: T -> bool)
    ensures forall x | x in s && c(x) :: x in Selected(s, c)
  {
    if s != [] {
      SelectedComplete(s[1..], c);
      assert forall x | x in s :: x == s[0] || x in s[1..];
    }
  }

  /** The selection keeps the input's order: it is a subsequence, so never longer. */
  lemma {:induction false} SelectedIsSubsequence<T>(s: seq<T>, c: T -> bool)
    ensures IsSubsequence(Selected(s, c), s)
    ensures |Selected(s, c)| <= |s|
  {
    if s != [] {
      SelectedIsSubsequence(s[1..], c);
      if c(s[0]) {
        assert Selected(s, c) == [s[0]] + Selected(s[1..], c);
        assert Selected(s, c)[1..] == Selected(s[1..], c);
      } else {
        assert Selected(s, c) == Selected(s[1..], c);
      }
    }
  }

  /** Dropping the element at `i`, which fails the condition, from the front of `s[i..]` selects the same elements. */
  lemma {:induction false} SelectedSkipsRejected<T>(s: seq<T>, i: nat, c: T -> bool)
    requires i < |s| && !c(s[i])
    ensures Selected(s[i..], c) == Selected(s[i + 1..], c)
  {
    assert s[i..][1..] == s[i + 1..];
  }

  /** `filter`: a list of exactly the elements satisfying the condition, in their original order. */
  method Filter<T>(self: seq<T>, condition: T -> bool) returns (list: seq<T>)
    ensures list == Selected(self, condition)
  {
    list := [];
    for i := 0 to |self|
      invariant list == Selected(self[..i], condition)
    {
      assert self[..i + 1] == self[..i] + [self[i]];
      SelectedSnoc(self[..i], self[i], condition);
      if condition(self[i]) {
        list := list + [self[i]];
      }
    }
    assert self[..|self|] == self;
  }

  /** `first`: the earliest element satisfying the condition, or None when there is none. */
  method First<T>(self: seq<T>, condition: T -> bool) returns (r: Option<T>)
    ensures r.None? <==> forall i | 0 <= i < |self| :: !condition(self[i])
    ensures r.Some? ==> exists i :: 0 <= i < |self| && self[i] == r.value && condition(self[i]) &&
                                    forall j | 0 <= j < i :: !condition(self[j])
    ensures r.None? <==> Selected(self, condition) == []
    ensures r.Some? ==> r.value == Selected(self, condition)[0]
  {
    for i := 0 to |self|
      invariant forall j | 0 <= j < i :: !condition(self[j])
      invariant Selected(self, condition) == Selected(self[i..], condition)
    {
      if condition(self[i]) {
        assert Selected(self[i..], condition)[0] == self[i];
        return Some(self[i]);
      }
      SelectedSkipsRejected(self, i, condition);
    }
    return None;
  }
}
