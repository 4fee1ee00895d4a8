/** Generic facts about sequences that are reordered: the shape of a
    permutation proof used by every order-invariance lemma of the model,
    and the loop that assigns one dictionary entry per key. */
module Seqs {

  /** Applies `f` to every element, keeping the order. */
  function Map<T, U>(f: T -> U, s: seq<T>): seq<U>
  {
    seq(|s|, i requires 0 <= i < |s| => f(s[i]))
  }

  /** Mapping distributes over concatenation. */
  lemma MapConcat<T, U>(f: T -> U, a: seq<T>, b: seq<T>)
    ensures Map(f, a + b) == Map(f, a) + Map(f, b)
  {
    assert |Map(f, a + b)| == |Map(f, a) + Map(f, b)|;
    forall i | 0 <= i < |a| + |b|
      ensures Map(f, a + b)[i] == (Map(f, a) + Map(f, b))[i]
    {
    }
  }

  /** If `b` is a permutation of `a`, the head of `a` sits somewhere in `b`,
      and removing it from both leaves permutations of each other. */
  lemma Remove<T>(a: seq<T>, b: seq<T>) returns (j: nat)
    requires multiset(a) == multiset(b)
    requires |a| > 0
    ensures j < |b| && b[j] == a[0]
    ensures multiset(a[1..]) == multiset(b[..j] + b[j+1..])
  {
    assert a == [a[0]] + a[1..];
    assert a[0] in multiset(b);
    j :| 0 <= j < |b| && b[j] == a[0];
    assert b == b[..j] + [b[j]] + b[j+1..];
    assert multiset(b) == multiset(b[..j]) + multiset{b[j]} + multiset(b[j+1..]);
    assert multiset(a) == multiset{a[0]} + multiset(a[1..]);
    assert multiset(b[..j] + b[j+1..]) == multiset(b[..j]) + multiset(b[j+1..]);
    assert multiset(a[1..]) == multiset(a) - multiset{a[0]};
  }

  /** A permutation of the input yields a permutation of the mapped output. */
  lemma {:induction false} MapPermutation<T, U>(f: T -> U, a: seq<T>, b: seq<T>)
    requires multiset(a) == multiset(b)
    ensures multiset(Map(f, a)) == multiset(Map(f, b))
    decreases |a|
  {
    if |a| == 0 {
      assert |b| == |multiset(b)| == 0;
    } else {
      var j := Remove(a, b);
      var rest := b[..j] + b[j+1..];
      MapPermutation(f, a[1..], rest);
      assert a == [a[0]] + a[1..];
      MapConcat(f, [a[0]], a[1..]);
      assert b == b[..j] + [b[j]] + b[j+1..];
      MapConcat(f, b[..j] + [b[j]], b[j+1..]);
      MapConcat(f, b[..j], [b[j]]);
      MapConcat(f, b[..j], b[j+1..]);
    }
  }

  /** Assigns `m[k] := f(k)` for every key in order, starting from an
      empty dictionary: a repeated key is overwritten with the same value. */
  function AssignEach<K, V>(f: K -> V, keys: seq<K>): (m: map<K, V>)
    ensures m.Keys == set k | k in keys
    ensures forall k :: k in m ==> m[k] == f(k)
    decreases |keys|
  {
    if |keys| == 0 then map[]
    else
      var n := |keys| - 1;
      assert keys == keys[..n] + [keys[n]];
      AssignEach(f, keys[..n])[keys[n] := f(keys[n])]
  }

  /** The assigned dictionary depends only on which keys occur, not on
      their order or repetition. */
  lemma AssignEachSetOnly<K, V>(f: K -> V, a: seq<K>, b: seq<K>)
    requires forall k :: k in a <==> k in b
    ensures AssignEach(f, a) == AssignEach(f, b)
  {
    var ma := AssignEach(f, a);
    var mb := AssignEach(f, b);
    assert ma.Keys == mb.Keys;
  }
}
