/**
 * The Python built-ins the certificate formatting leans on: `str` of a natural number,
 * `''.join` of those strings, the ordering of strings and of pairs of strings that `sorted`
 * uses, `sorted` itself, and `dict` built from a list of pairs.
 */
module Formatacao {

  import opened Colecoes

  type Texto = seq<char>
  type ParDeTextos = (Texto, Texto)

  // ---------------------------------------------------------------------------
  // Decimal digits
  // ---------------------------------------------------------------------------

  function Digito(d: nat): char
    requires d < 10
  {
    "0123456789"[d]
  }

  lemma DigitoInjetivo(a: nat, b: nat)
    requires a < 10 && b < 10 && Digito(a) == Digito(b)
    ensures a == b
  {
  }

  /** `str(n)` for a natural number: its decimal digits, most significant first. */
  function Decimal(n: nat): (s: Texto)
    ensures |s| >= 1
    ensures n < 10 ==> s == [Digito(n)]
    decreases n
  {
    if n < 10 then [Digito(n)] else Decimal(n / 10) + [Digito(n % 10)]
  }

  /** `''.join(str(el) for el in v)`. */
  function Juntar(v: seq<nat>): Texto
  {
    if |v| == 0 then "" else Decimal(v[0]) + Juntar(v[1..])
  }

  predicate DigitosSimples(v: seq<nat>)
  {
    forall i :: 0 <= i < |v| ==> v[i] < 10
  }

  /** With every coordinate below 10, each coordinate becomes exactly one character. */
  lemma {:induction false} JuntarDigitosSimples(v: seq<nat>)
    requires DigitosSimples(v)
    ensures |Juntar(v)| == |v|
    ensures forall i :: 0 <= i < |v| ==> Juntar(v)[i] == Digito(v[i])
  {
    if |v| > 0 {
      JuntarDigitosSimples(v[1..]);
    }
  }

  /** With every coordinate below 10, different tuples give different strings. */
  lemma JuntarInjetivo(v: seq<nat>, w: seq<nat>)
    requires DigitosSimples(v) && DigitosSimples(w) && Juntar(v) == Juntar(w)
    ensures v == w
  {
    JuntarDigitosSimples(v);
    JuntarDigitosSimples(w);
    forall i | 0 <= i < |v|
      ensures v[i] == w[i]
    {
      DigitoInjetivo(v[i], w[i]);
    }
  }

  /** Two coordinates above 9 can collide: (1, 11) and (11, 1) both give "111". */
  lemma JuntarColide()
    ensures Juntar([1, 11]) == Juntar([11, 1])
  {
    assert Decimal(11) == "11";
    assert Juntar([1, 11]) == "111";
    assert Juntar([11, 1]) == "111";
  }

  // ---------------------------------------------------------------------------
  // The ordering `sorted` uses
  // ---------------------------------------------------------------------------

  /** Python's `<=` on strings: lexicographic by code point, a prefix first. */
  predicate TextoAte(a: Texto, b: Texto)
  {
    if |a| == 0 then true
    else if |b| == 0 then false
    else a[0] < b[0] || (a[0] == b[0] && TextoAte(a[1..], b[1..]))
  }

  lemma {:induction false} TextoAteReflexiva(a: Texto)
    ensures TextoAte(a, a)
  {
    if |a| > 0 {
      TextoAteReflexiva(a[1..]);
    }
  }

  lemma {:induction false} TextoAteTotal(a: Texto, b: Texto)
    ensures TextoAte(a, b) || TextoAte(b, a)
  {
    if |a| > 0 && |b| > 0 && a[0] == b[0] {
      TextoAteTotal(a[1..], b[1..]);
    }
  }

  lemma {:induction false} TextoAteAntissimetrica(a: Texto, b: Texto)
    requires TextoAte(a, b) && TextoAte(b, a)
    ensures a == b
  {
    if |a| > 0 && |b| > 0 {
      TextoAteAntissimetrica(a[1..], b[1..]);
      assert a == [a[0]] + a[1..];
      assert b == [b[0]] + b[1..];
    }
  }

  lemma {:induction false} TextoAteTransitiva(a: Texto, b: Texto, c: Texto)
    requires TextoAte(a, b) && TextoAte(b, c)
    ensures TextoAte(a, c)
  {
    if |a| > 0 && |b| > 0 && |c| > 0 && a[0] == b[0] && b[0] == c[0] {
      TextoAteTransitiva(a[1..], b[1..], c[1..]);
    }
  }

  /** Python's `<=` on pairs of strings: by the first component, then by the second. */
  predicate ParAte(p: ParDeTextos, q: ParDeTextos)
  {
    if p.0 == q.0 then TextoAte(p.1, q.1) else TextoAte(p.0, q.0)
  }

  lemma ParAteReflexiva(p: ParDeTextos)
    ensures ParAte(p, p)
  {
    TextoAteReflexiva(p.1);
  }

  lemma ParAteTotal(p: ParDeTextos, q: ParDeTextos)
    ensures ParAte(p, q) || ParAte(q, p)
  {
    TextoAteTotal(p.0, q.0);
    TextoAteTotal(p.1, q.1);
  }

  lemma ParAteAntissimetrica(p: ParDeTextos, q: ParDeTextos)
    requires ParAte(p, q) && ParAte(q, p)
    ensures p == q
  {
    if p.0 == q.0 {
      TextoAteAntissimetrica(p.1, q.1);
    } else {
      TextoAteAntissimetrica(p.0, q.0);
    }
  }

  lemma ParAteTransitiva(p: ParDeTextos, q: ParDeTextos, r: ParDeTextos)
    requires ParAte(p, q) && ParAte(q, r)
    ensures ParAte(p, r)
  {
    if p.0 == q.0 && q.0 == r.0 {
      TextoAteTransitiva(p.1, q.1, r.1);
    } else if p.0 == q.0 {
      assert TextoAte(p.0, r.0);
    } else if q.0 == r.0 {
      assert TextoAte(p.0, r.0);
    } else {
      TextoAteTransitiva(p.0, q.0, r.0);
      if p.0 == r.0 {
        TextoAteAntissimetrica(p.0, q.0);
      }
    }
  }

  // ---------------------------------------------------------------------------
  // `sorted`
  // ---------------------------------------------------------------------------

  predicate Ordenada(s: seq<ParDeTextos>)
  {
    forall i, j :: 0 <= i < j < |s| ==> ParAte(s[i], s[j])
  }

  /** Inserts x before the first element it does not follow. */
  function Inserir(x: ParDeTextos, s: seq<ParDeTextos>): seq<ParDeTextos>
  {
    if |s| == 0 then [x] else if ParAte(x, s[0]) then [x] + s else [s[0]] + Inserir(x, s[1..])
  }

  /** A sorted list behind an element that comes before all of it stays sorted. */
  lemma OrdenadaComCabeca(a: ParDeTextos, t: seq<ParDeTextos>)
    requires Ordenada(t) && forall j :: 0 <= j < |t| ==> ParAte(a, t[j])
    ensures Ordenada([a] + t)
  {
    forall i, j | 0 <= i < j < |[a] + t|
      ensures ParAte(([a] + t)[i], ([a] + t)[j])
    {
      if i > 0 {
        assert ([a] + t)[i] == t[i - 1] && ([a] + t)[j] == t[j - 1];
      }
    }
  }

  /** Where x does not come before s[0], s[0] comes before every element of x inserted into
      the rest of s. */
  lemma CabecaAntesDaInsercao(x: ParDeTextos, s: seq<ParDeTextos>, t: seq<ParDeTextos>)
    requires Ordenada(s) && |s| > 0 && !ParAte(x, s[0])
    requires multiset(t) == multiset(s[1..]) + multiset{x}
    ensures forall j :: 0 <= j < |t| ==> ParAte(s[0], t[j])
  {
    ParAteTotal(x, s[0]);
    forall j | 0 <= j < |t|
      ensures ParAte(s[0], t[j])
    {
      assert t[j] in multiset(t);
      if t[j] != x {
        assert t[j] in multiset(s[1..]);
        var m :| 0 <= m < |s[1..]| && s[1..][m] == t[j];
        assert ParAte(s[0], s[m + 1]);
      }
    }
  }

  lemma {:induction false} InserirOrdenada(x: ParDeTextos, s: seq<ParDeTextos>)
    requires Ordenada(s)
    ensures Ordenada(Inserir(x, s))
    ensures multiset(Inserir(x, s)) == multiset(s) + multiset{x}
  {
    if |s| == 0 {
    } else if ParAte(x, s[0]) {
      forall j | 0 <= j < |s|
        ensures ParAte(x, s[j])
      {
        ParAteReflexiva(s[0]);
        ParAteTransitiva(x, s[0], s[j]);
      }
      OrdenadaComCabeca(x, s);
    } else {
      assert Ordenada(s[1..]);
      InserirOrdenada(x, s[1..]);
      var t := Inserir(x, s[1..]);
      CabecaAntesDaInsercao(x, s, t);
      OrdenadaComCabeca(s[0], t);
      assert s == [s[0]] + s[1..];
    }
  }

  /** `sorted(s)`, by insertion. */
  function Ordenar(s: seq<ParDeTextos>): seq<ParDeTextos>
  {
    if |s| == 0 then [] else Inserir(s[0], Ordenar(s[1..]))
  }

  /** `sorted` returns its argument's elements, each as often, in non-decreasing order. */
  lemma {:induction false} OrdenarCorreto(s: seq<ParDeTextos>)
    ensures Ordenada(Ordenar(s))
    ensures multiset(Ordenar(s)) == multiset(s)
  {
    if |s| > 0 {
      OrdenarCorreto(s[1..]);
      InserirOrdenada(s[0], Ordenar(s[1..]));
      assert s == [s[0]] + s[1..];
    }
  }

  /** The head of a sorted list comes before each of its elements. */
  lemma PrimeiroDaOrdenada(s: seq<ParDeTextos>, x: ParDeTextos)
    requires Ordenada(s) && x in s
    ensures ParAte(s[0], x)
  {
    var i :| 0 <= i < |s| && s[i] == x;
    if i == 0 {
      ParAteReflexiva(x);
    }
  }

  /** The head of a list, and its tail's multiset. */
  lemma MultisetCabecaCauda(s: seq<ParDeTextos>)
    requires |s| > 0
    ensures multiset(s[1..]) == multiset(s) - multiset{s[0]}
  {
    assert s == [s[0]] + s[1..];
  }

  /** Two sorted permutations of each other, not empty, start alike. */
  lemma MesmaCabeca(s: seq<ParDeTextos>, t: seq<ParDeTextos>)
    requires Ordenada(s) && Ordenada(t) && multiset(s) == multiset(t) && |s| > 0
    ensures |t| > 0 && s[0] == t[0]
  {
    assert s[0] in multiset(t);
    assert t[0] in multiset(s);
    PrimeiroDaOrdenada(t, s[0]);
    PrimeiroDaOrdenada(s, t[0]);
    ParAteAntissimetrica(s[0], t[0]);
  }

  /** The tail of a sorted list is sorted. */
  lemma OrdenadaCauda(s: seq<ParDeTextos>)
    requires Ordenada(s) && |s| > 0
    ensures Ordenada(s[1..])
  {
  }

  /** A sorted list has a single order: two sorted permutations of each other are equal. */
  lemma {:induction false} OrdenadaUnica(s: seq<ParDeTextos>, t: seq<ParDeTextos>)
    requires Ordenada(s) && Ordenada(t) && multiset(s) == multiset(t)
    ensures s == t
  {
    if |s| > 0 {
      MesmaCabeca(s, t);
      MultisetCabecaCauda(s);
      MultisetCabecaCauda(t);
      OrdenadaCauda(s);
      OrdenadaCauda(t);
      OrdenadaUnica(s[1..], t[1..]);
      assert s == [s[0]] + s[1..];
      assert t == [t[0]] + t[1..];
    } else {
      assert |t| == |multiset(t)| == 0;
    }
  }

  // ---------------------------------------------------------------------------
  // `dict(pairs)`
  // ---------------------------------------------------------------------------

  /** `dict(ps)`: every first component becomes a key; a later pair overwrites an earlier
      value under the same key. */
  function DictDePares(ps: seq<ParDeTextos>): map<Texto, Texto>
  {
    if |ps| == 0 then map[] else DictDePares(ps[..|ps| - 1])[ps[|ps| - 1].0 := ps[|ps| - 1].1]
  }

  /** The keys of `dict(ps)` are the first components of ps. */
  lemma {:induction false} DictDeParesChaves(ps: seq<ParDeTextos>)
    ensures forall s :: s in DictDePares(ps) <==> exists i :: 0 <= i < |ps| && ps[i].0 == s
  {
    if |ps| > 0 {
      var a := ps[..|ps| - 1];
      DictDeParesChaves(a);
      forall s
        ensures s in DictDePares(ps) <==> exists i :: 0 <= i < |ps| && ps[i].0 == s
      {
        if s in DictDePares(ps) && s != ps[|ps| - 1].0 {
          assert DictDePares(ps) == DictDePares(a)[ps[|ps| - 1].0 := ps[|ps| - 1].1];
          assert s in DictDePares(a);
          var i :| 0 <= i < |a| && a[i].0 == s;
          assert ps[i].0 == s;
        }
        if exists i :: 0 <= i < |ps| && ps[i].0 == s {
          var i :| 0 <= i < |ps| && ps[i].0 == s;
          if i < |ps| - 1 {
            assert a[i].0 == s;
          }
        }
      }
    }
  }

  /** Each key of `dict(ps)` holds the second component of a pair of ps that has it. */
  lemma {:induction false} DictDeParesValores(ps: seq<ParDeTextos>)
    ensures forall s :: s in DictDePares(ps) ==> (s, DictDePares(ps)[s]) in ps
  {
    if |ps| > 0 {
      var a := ps[..|ps| - 1];
      DictDeParesValores(a);
      forall s | s in DictDePares(ps)
        ensures (s, DictDePares(ps)[s]) in ps
      {
        if s != ps[|ps| - 1].0 {
          assert (s, DictDePares(a)[s]) in a;
          var m :| 0 <= m < |a| && a[m] == (s, DictDePares(a)[s]);
          assert ps[m] == a[m];
        } else {
          assert ps[|ps| - 1] == (s, DictDePares(ps)[s]);
        }
      }
    }
  }

  /** A key held by one pair only after index i holds that pair's second component: the last
      pair with a key wins. */
  lemma {:induction false} DictDeParesUltimo(ps: seq<ParDeTextos>)
    ensures forall i :: 0 <= i < |ps| && (forall j :: i < j < |ps| ==> ps[j].0 != ps[i].0) ==>
              ps[i].0 in DictDePares(ps) && DictDePares(ps)[ps[i].0] == ps[i].1
  {
    if |ps| > 0 {
      var a := ps[..|ps| - 1];
      DictDeParesUltimo(a);
      forall i | 0 <= i < |ps| && (forall j :: i < j < |ps| ==> ps[j].0 != ps[i].0)
        ensures ps[i].0 in DictDePares(ps) && DictDePares(ps)[ps[i].0] == ps[i].1
      {
        if i < |ps| - 1 {
          assert a[i] == ps[i];
          forall j | i < j < |a|
            ensures a[j].0 != a[i].0
          {
            assert a[j] == ps[j];
          }
        }
      }
    }
  }

  /** `dict(ps)`: the keys are the first components, each key holds the second component of
      a pair that has it, and of the last such pair. */
  lemma DictDeParesCorreto(ps: seq<ParDeTextos>)
    ensures forall s :: s in DictDePares(ps) <==> exists i :: 0 <= i < |ps| && ps[i].0 == s
    ensures forall s :: s in DictDePares(ps) ==> (s, DictDePares(ps)[s]) in ps
    ensures forall i :: 0 <= i < |ps| && (forall j :: i < j < |ps| ==> ps[j].0 != ps[i].0) ==>
              DictDePares(ps)[ps[i].0] == ps[i].1
  {
    DictDeParesChaves(ps);
    DictDeParesValores(ps);
    DictDeParesUltimo(ps);
  }

  /** In `dict(ps)` built from sorted pairs, each key holds the greatest second component of
      the pairs that have it. */
  lemma {:induction false} DictOrdenadaMaior(o: seq<ParDeTextos>)
    requires Ordenada(o)
    ensures forall q :: q in o ==> q.0 in DictDePares(o) && TextoAte(q.1, DictDePares(o)[q.0])
  {
    if |o| > 0 {
      var a := o[..|o| - 1];
      var u := o[|o| - 1];
      assert Ordenada(a);
      DictOrdenadaMaior(a);
      forall q | q in o
        ensures q.0 in DictDePares(o) && TextoAte(q.1, DictDePares(o)[q.0])
      {
        var j :| 0 <= j < |o| && o[j] == q;
        if q.0 == u.0 {
          if j < |o| - 1 {
            assert ParAte(o[j], u);
          } else {
            TextoAteReflexiva(q.1);
          }
        } else {
          assert q in a;
        }
      }
    }
  }

  /** `dict(sorted(ps))`: each key holds the image of a pair of ps that has it, the greatest
      one when several pairs share the key. */
  lemma DictOrdenadoGuardaOMaior(ps: seq<ParDeTextos>)
    ensures forall s :: s in DictDePares(Ordenar(ps)) ==> (s, DictDePares(Ordenar(ps))[s]) in ps
    ensures forall q :: q in ps ==> q.0 in DictDePares(Ordenar(ps)) && TextoAte(q.1, DictDePares(Ordenar(ps))[q.0])
  {
    var o := Ordenar(ps);
    OrdenarCorreto(ps);
    DictDeParesCorreto(o);
    DictOrdenadaMaior(o);
    forall q
      ensures q in o <==> q in ps
    {
      assert q in o <==> q in multiset(o);
      assert q in ps <==> q in multiset(ps);
    }
  }
}
