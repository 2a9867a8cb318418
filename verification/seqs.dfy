/**
 Small sequence vocabulary shared by the indexer model: an Option type,
 occurrence counting, repetition, duplicate-freedom and element sets.
 */
module Seqs {

  datatype Option<T> = None | Some(value: T)

  /** The set of elements of a sequence. */
  function Elems<T>(s: seq<T>): set<T>
  {
    set x | x in s
  }

  /** No element occurs twice. */
  predicate Distinct<T(==)>(s: seq<T>)
  {
    forall i, j :: 0 <= i < j < |s| ==> s[i] != s[j]
  }

  /** Number of occurrences of `x` in `s`. */
  function Count<T(==)>(x: T, s: seq<T>): (n: nat)
    ensures n <= |s|
  {
    if s == [] then 0
    else Count(x, s[..|s| - 1]) + (if s[|s| - 1] == x then 1 else 0)
  }

  /** An element is counted exactly when it occurs. */
  lemma {:induction false} CountZero<T>(x: T, s: seq<T>)
    ensures Count(x, s) == 0 <==> x !in s
    decreases |s|
  {
    if s != [] {
      var init := s[..|s| - 1];
      CountZero(x, init);
      assert s == init + [s[|s| - 1]];
    }
  }

  /** `n` copies of `x`. */
  function Repeat<T>(x: T, n: nat): (r: seq<T>)
    ensures |r| == n
    ensures forall z :: z in r ==> z == x
  {
    if n == 0 then [] else Repeat(x, n - 1) + [x]
  }

  lemma {:induction false} CountAppend<T>(x: T, a: seq<T>, b: seq<T>)
    ensures Count(x, a + b) == Count(x, a) + Count(x, b)
    decreases |b|
  {
    if b == [] {
      assert a + b == a;
    } else {
      var b' := b[..|b| - 1];
      assert (a + b)[..|a + b| - 1] == a + b';
      CountAppend(x, a, b');
    }
  }

  lemma {:induction false} CountRepeat<T>(x: T, y: T, n: nat)
    ensures Count(x, Repeat(y, n)) == (if x == y then n else 0)
    decreases n
  {
    if n > 0 {
      var r := Repeat(y, n - 1);
      assert Repeat(y, n) == r + [y];
      CountAppend(x, r, [y]);
      CountRepeat(x, y, n - 1);
      CountSingle(x, y);
    }
  }

  lemma CountSingle<T>(x: T, y: T)
    ensures Count(x, [y]) == (if x == y then 1 else 0)
  {
    assert [y][..0] == [];
  }

  lemma AppendEmpty<T>(x: seq<T>)
    ensures x + [] == x
  {
  }

  lemma RepeatSnoc<T>(x: T, n: nat)
    ensures Repeat(x, n + 1) == Repeat(x, n) + [x]
  {
  }

  lemma AppendAssoc<T>(x: seq<T>, y: seq<T>, z: seq<T>)
    ensures (x + y) + z == x + (y + z)
  {
  }

  /** Appending a fresh element keeps a sequence duplicate-free. */
  lemma DistinctSnoc<T>(s: seq<T>, x: T)
    requires Distinct(s) && x !in s
    ensures Distinct(s + [x])
  {
  }
}
