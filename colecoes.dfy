/** Facts about finite sequences and sets that the graph modules share. */
module Colecoes {

  /** No element occurs twice. */
  ghost predicate SemRepeticao<T>(s: seq<T>)
  {
    forall i, j :: 0 <= i < j < |s| ==> s[i] != s[j]
  }

  /** The elements of a sequence, as a set. */
  function Elementos<T>(s: seq<T>): set<T>
  {
    set x | x in s
  }

  /** Concatenating two repetition-free sequences with no element in common keeps it free. */
  lemma ConcatSemRepeticao<T>(a: seq<T>, b: seq<T>)
    requires SemRepeticao(a) && SemRepeticao(b)
    requires forall x :: x in a ==> x !in b
    ensures SemRepeticao(a + b)
  {
    forall i, j | 0 <= i < j < |a + b|
      ensures (a + b)[i] != (a + b)[j]
    {
      if j < |a| {
        assert (a + b)[i] == a[i] && (a + b)[j] == a[j];
      } else if i >= |a| {
        assert (a + b)[i] == b[i - |a|] && (a + b)[j] == b[j - |a|];
      } else {
        assert (a + b)[i] == a[i] && (a + b)[j] == b[j - |a|];
        assert a[i] in a;
      }
    }
  }

  /** A repetition-free sequence has as many distinct elements as entries. */
  lemma {:induction false} CardinalidadeSemRepeticao<T>(s: seq<T>)
    requires SemRepeticao(s)
    ensures |Elementos(s)| == |s|
  {
    if |s| > 0 {
      var t := s[..|s| - 1];
      assert SemRepeticao(t);
      CardinalidadeSemRepeticao(t);
      assert s == t + [s[|s| - 1]];
      assert Elementos(s) == Elementos(t) + {s[|s| - 1]};
      assert s[|s| - 1] !in Elementos(t);
    } else {
      assert Elementos(s) == {};
    }
  }

  /** A subset as large as its superset is the whole superset. */
  lemma {:induction false} SubconjuntoDeMesmoTamanho<T>(a: set<T>, b: set<T>)
    requires a <= b && |a| == |b|
    ensures a == b
  {
    if a != b {
      var x :| x in b && x !in a;
      assert |b - {x}| == |b| - 1;
      SubconjuntoMenor(a, b - {x});
    }
  }

  /** A subset is no larger than its superset. */
  lemma {:induction false} SubconjuntoMenor<T>(a: set<T>, b: set<T>)
    requires a <= b
    ensures |a| <= |b|
    decreases b
  {
    if a != {} {
      var x :| x in a;
      SubconjuntoMenor(a - {x}, b - {x});
    }
  }
}
