/** Sequences put together from pieces, and facts about them that proofs have to point at. */
module Sequences {
  lemma Associative<T>(a: seq<T>, b: seq<T>, c: seq<T>)
    ensures a + (b + c) == a + b + c
  {
  }

  /** What is added behind a sequence changes none of its slices. */
  lemma SliceStays<T>(a: seq<T>, more: seq<T>, i: nat, j: nat)
    requires i <= j <= |a|
    ensures (a + more)[i..j] == a[i..j] && (a + more)[|a|..|a| + |more|] == more
  {
  }

  /** Pieces put together again. */
  function Flatten<T>(pieces: seq<seq<T>>): seq<T> {
    if pieces == [] then [] else pieces[0] + Flatten(pieces[1..])
  }

  lemma {:induction false} FlattenJoins<T>(a: seq<seq<T>>, b: seq<seq<T>>)
    ensures Flatten(a + b) == Flatten(a) + Flatten(b)
  {
    if a == [] {
      assert a + b == b;
    } else {
      FlattenFirst(a);
      FlattenFirst(a + b);
      assert (a + b)[1..] == a[1..] + b;
      hide Flatten;
      FlattenJoins(a[1..], b);
      Associative(a[0], Flatten(a[1..]), Flatten(b));
    }
  }

  lemma FlattenFirst<T>(pieces: seq<seq<T>>)
    requires pieces != []
    ensures Flatten(pieces) == pieces[0] + Flatten(pieces[1..])
  {
  }

  lemma FlattenSnoc<T>(pieces: seq<seq<T>>, last: seq<T>)
    ensures Flatten(pieces + [last]) == Flatten(pieces) + last
  {
    FlattenJoins(pieces, [last]);
    assert [last][1..] == [] && last + Flatten([]) == last;
  }

  /** One piece more. */
  lemma FlattenUpTo<T>(pieces: seq<seq<T>>, n: nat)
    requires n < |pieces|
    ensures Flatten(pieces[..n + 1]) == Flatten(pieces[..n]) + pieces[n]
  {
    FlattenSnoc(pieces[..n], pieces[n]);
    assert pieces[..n + 1] == pieces[..n] + [pieces[n]];
  }
}
