/** Shared vocabulary of the model. */
module Wrappers {

  /** A value that may be absent: a null pointer, a missing attribute, a failed read. */
  datatype Option<+T> = None | Some(value: T)

  /** Concatenation of a list of lists, built from the left. */
  ghost function Flatten<T>(parts: seq<seq<T>>): seq<T>
  {
    if parts == [] then [] else Flatten(parts[..|parts| - 1]) + parts[|parts| - 1]
  }

  lemma FlattenSnoc<T>(parts: seq<seq<T>>, part: seq<T>)
    ensures Flatten(parts + [part]) == Flatten(parts) + part
  {
    assert (parts + [part])[..|parts|] == parts;
  }

  /** The values of `f` on the elements of `s`, concatenated in order. */
  ghost function FlatMap<T, U>(f: T -> seq<U>, s: seq<T>): seq<U>
  {
    if s == [] then [] else FlatMap(f, s[..|s| - 1]) + f(s[|s| - 1])
  }

  /** Membership in a FlatMap, both ways. */
  lemma {:induction false} FlatMapMember<T, U>(f: T -> seq<U>, s: seq<T>, u: U)
    ensures u in FlatMap(f, s) <==> exists t :: t in s && u in f(t)
  {
    if s != [] {
      var front, last := s[..|s| - 1], s[|s| - 1];
      FlatMapMember(f, front, u);
      assert forall t :: t in s <==> t in front || t == last;
    }
  }

  lemma {:induction false} FlatMapAppend<T, U>(f: T -> seq<U>, a: seq<T>, b: seq<T>)
    ensures FlatMap(f, a + b) == FlatMap(f, a) + FlatMap(f, b)
  {
    if b == [] {
      assert a + b == a;
    } else {
      FlatMapAppend(f, a, b[..|b| - 1]);
      assert (a + b)[..|a + b| - 1] == a + b[..|b| - 1];
    }
  }

  lemma FlatMapSingle<T, U>(f: T -> seq<U>, x: T)
    ensures FlatMap(f, [x]) == f(x)
  {
    assert [x][..0] == [];
    assert FlatMap(f, []) == [];
  }

  lemma FlatMapNext<T, U>(f: T -> seq<U>, s: seq<T>, i: nat)
    requires i < |s|
    ensures FlatMap(f, s[..i + 1]) == FlatMap(f, s[..i]) + f(s[i])
  {
    assert s[..i + 1][..i] == s[..i];
  }

  lemma FlatMapSplit<T, U>(f: T -> seq<U>, s: seq<T>, i: nat)
    requires i <= |s|
    ensures FlatMap(f, s) == FlatMap(f, s[..i]) + FlatMap(f, s[i..])
  {
    assert s == s[..i] + s[i..];
    FlatMapAppend(f, s[..i], s[i..]);
  }

  /** Going on from what each element of `s` leads to. */
  lemma {:induction false} FlatMapCompose<S, T, U>(f: S -> seq<T>, g: T -> seq<U>, h: S -> seq<U>, s: seq<S>)
    requires forall i :: 0 <= i < |s| ==> h(s[i]) == FlatMap(g, f(s[i]))
    ensures FlatMap(g, FlatMap(f, s)) == FlatMap(h, s)
  {
    if s != [] {
      var n := |s| - 1;
      assert forall i :: 0 <= i < n ==> s[..n][i] == s[i];
      FlatMapCompose(f, g, h, s[..n]);
      FlatMapAppend(g, FlatMap(f, s[..n]), f(s[n]));
    }
  }
}
