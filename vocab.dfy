/** Label vocabularies: a dictionary from label names to ids, and the
    inverse dictionary built from its items (`{v: k for k, v in d.items()}`). */
module Vocab {

  /** No two labels share an id. */
  predicate Injective(m: map<string, int>) {
    forall a, b :: a in m && b in m && m[a] == m[b] ==> a == b
  }

  /** The inverse of an injective dictionary: its keys are exactly the ids,
      and it maps each id back to the one label that has it. */
  function Invert(m: map<string, int>): (inv: map<int, string>)
    requires Injective(m)
    ensures forall v :: v in inv <==> exists k :: k in m && m[k] == v
    ensures forall k :: k in m ==> m[k] in inv && inv[m[k]] == k
    ensures forall v :: v in inv ==> inv[v] in m && m[inv[v]] == v
  {
    map k | k in m :: m[k] := k
  }

  /** No label occurs twice in the list. */
  predicate Distinct(xs: seq<string>) {
    forall i, j :: 0 <= i < j < |xs| ==> xs[i] != xs[j]
  }

  /** `{x: idx for idx, x in enumerate(xs)}`: each item mapped to its
      position, a later occurrence overwriting an earlier one. */
  function Enumerate(xs: seq<string>): (m: map<string, int>)
    ensures forall k :: k in m <==> k in xs
    ensures forall k :: k in m ==> 0 <= m[k] < |xs| && xs[m[k]] == k
  {
    if xs == [] then map[]
    else Enumerate(xs[..|xs| - 1])[xs[|xs| - 1] := |xs| - 1]
  }

  /** For a list without repeats, every item's id is its position, so
      the dictionary is injective. */
  lemma {:induction false} EnumerateIndex(xs: seq<string>)
    requires Distinct(xs)
    ensures forall i :: 0 <= i < |xs| ==> Enumerate(xs)[xs[i]] == i
    ensures Injective(Enumerate(xs))
  {
    if xs != [] {
      var init := xs[..|xs| - 1];
      assert Distinct(init);
      EnumerateIndex(init);
      forall i | 0 <= i < |xs|
        ensures Enumerate(xs)[xs[i]] == i
      {
        if i < |xs| - 1 {
          assert init[i] == xs[i];
        }
      }
    }
  }

  /** The inverse of an enumeration of a list without repeats maps each
      position 0 to |xs|-1 back to its item, and has no other keys. */
  lemma EnumerateInverse(xs: seq<string>)
    requires Distinct(xs)
    ensures Injective(Enumerate(xs))
    ensures forall i :: i in Invert(Enumerate(xs)) <==> 0 <= i < |xs|
    ensures forall i :: 0 <= i < |xs| ==> Invert(Enumerate(xs))[i] == xs[i]
  {
    EnumerateIndex(xs);
    var m := Enumerate(xs);
    forall i | 0 <= i < |xs|
      ensures i in Invert(m) && Invert(m)[i] == xs[i]
    {
      assert xs[i] in m && m[xs[i]] == i;
    }
  }
}
