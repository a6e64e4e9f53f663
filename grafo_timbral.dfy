/**
 * The timbral-graph engine of grafo_timbral.py: vertices are the length-k tuples over
 * {0..n-1}; two of them are adjacent when they agree in exactly l coordinates.
 * Tuples are `seq<nat>`; an undirected networkx graph is a set of vertices together with a
 * set of ordered pairs holding both orientations of every edge.
 */
module GrafoTimbral {

  import opened Colecoes

  type Vertice = seq<nat>
  type Aresta = (Vertice, Vertice)

  /** An explicit graph: `(a, b) in arestas` is networkx's `has_edge(a, b)`. */
  datatype Grafo = Grafo(nos: set<Vertice>, arestas: set<Aresta>)

  predicate TemAresta(g: Grafo, a: Vertice, b: Vertice)
  {
    (a, b) in g.arestas
  }

  /** b to the power e. */
  function Pot(b: nat, e: nat): nat
  {
    if e == 0 then 1 else b * Pot(b, e - 1)
  }

  /** Binomial coefficient by Pascal's rule; it is 0 when j > m. */
  function Binom(m: nat, j: nat): nat
  {
    if j == 0 then 1 else if m == 0 then 0 else Binom(m - 1, j - 1) + Binom(m - 1, j)
  }

  /** A vertex of the graph with parameters n and k. */
  predicate EhVertice(n: nat, k: nat, v: Vertice)
  {
    |v| == k && forall i :: 0 <= i < k ==> v[i] < n
  }

  // ---------------------------------------------------------------------------
  // Coincidence and Hamming distance (grafo_timbral.py:121-142)
  // ---------------------------------------------------------------------------

  /** Number of positions at which two equally long tuples agree. */
  function Concordancias(u: Vertice, v: Vertice): (c: nat)
    requires |u| == |v|
    ensures c <= |u|
  {
    if |u| == 0 then 0 else (if u[0] == v[0] then 1 else 0) + Concordancias(u[1..], v[1..])
  }

  /** Number of positions at which two equally long tuples differ: `sum(u[i] != v[i] ...)`. */
  function Discordancias(u: Vertice, v: Vertice): nat
    requires |u| == |v|
  {
    if |u| == 0 then 0 else (if u[0] != v[0] then 1 else 0) + Discordancias(u[1..], v[1..])
  }

  /** `distancia_de_hamming`: the assertion that both tuples have length k is its precondition. */
  function DistanciaDeHamming(k: nat, u: Vertice, v: Vertice): nat
    requires |u| == k && |v| == k
  {
    Discordancias(u, v)
  }

  /** `indice_de_coincidencia`: k minus the Hamming distance. */
  function IndiceDeCoincidencia(k: nat, u: Vertice, v: Vertice): int
    requires |u| == k && |v| == k
  {
    k - DistanciaDeHamming(k, u, v)
  }

  /** Agreements and disagreements split the positions between them. */
  lemma {:induction false} ConcordanciasMaisDiscordancias(u: Vertice, v: Vertice)
    requires |u| == |v|
    ensures Concordancias(u, v) + Discordancias(u, v) == |u|
  {
    if |u| > 0 {
      ConcordanciasMaisDiscordancias(u[1..], v[1..]);
    }
  }

  /** The Hamming distance lies in [0, k] and the coincidence index is the number of agreeing
      coordinates, so coincidence plus distance is k. */
  lemma HammingLimitada(k: nat, u: Vertice, v: Vertice)
    requires |u| == k && |v| == k
    ensures 0 <= DistanciaDeHamming(k, u, v) <= k
    ensures IndiceDeCoincidencia(k, u, v) == Concordancias(u, v)
    ensures IndiceDeCoincidencia(k, u, v) + DistanciaDeHamming(k, u, v) == k
  {
    ConcordanciasMaisDiscordancias(u, v);
  }

  lemma {:induction false} DiscordanciasSimetricas(u: Vertice, v: Vertice)
    requires |u| == |v|
    ensures Discordancias(u, v) == Discordancias(v, u)
  {
    if |u| > 0 {
      DiscordanciasSimetricas(u[1..], v[1..]);
    }
  }

  lemma {:induction false} ConcordanciasSimetricas(u: Vertice, v: Vertice)
    requires |u| == |v|
    ensures Concordancias(u, v) == Concordancias(v, u)
  {
    if |u| > 0 {
      ConcordanciasSimetricas(u[1..], v[1..]);
    }
  }

  /** The Hamming distance is symmetric. */
  lemma HammingSimetrica(k: nat, u: Vertice, v: Vertice)
    requires |u| == k && |v| == k
    ensures DistanciaDeHamming(k, u, v) == DistanciaDeHamming(k, v, u)
  {
    DiscordanciasSimetricas(u, v);
  }

  lemma {:induction false} DiscordanciasZero(u: Vertice, v: Vertice)
    requires |u| == |v|
    ensures Discordancias(u, v) == 0 <==> u == v
  {
    if |u| > 0 {
      DiscordanciasZero(u[1..], v[1..]);
      if u[1..] == v[1..] && u[0] == v[0] {
        assert u == [u[0]] + u[1..] && v == [v[0]] + v[1..];
      }
    }
  }

  /** The Hamming distance is 0 exactly for equal tuples. */
  lemma HammingZeroSseIguais(k: nat, u: Vertice, v: Vertice)
    requires |u| == k && |v| == k
    ensures DistanciaDeHamming(k, u, v) == 0 <==> u == v
  {
    DiscordanciasZero(u, v);
  }

  /** Tuples that agree everywhere are equal. */
  lemma {:induction false} ConcordanciasTotais(u: Vertice, v: Vertice)
    requires |u| == |v|
    ensures Concordancias(u, v) == |u| <==> u == v
  {
    ConcordanciasMaisDiscordancias(u, v);
    DiscordanciasZero(u, v);
  }

  /** Agreements of concatenations add up. */
  lemma {:induction false} ConcordanciasConcat(p: Vertice, a: Vertice, q: Vertice, b: Vertice)
    requires |p| == |q| && |a| == |b|
    ensures Concordancias(p + a, q + b) == Concordancias(p, q) + Concordancias(a, b)
  {
    if |p| > 0 {
      assert (p + a)[1..] == p[1..] + a;
      assert (q + b)[1..] == q[1..] + b;
      ConcordanciasConcat(p[1..], a, q[1..], b);
    } else {
      assert p + a == a && q + b == b;
    }
  }

  /** Agreements of a suffix starting at i: the position i counts once more. */
  lemma ConcordanciasPasso(u: Vertice, v: Vertice, i: nat)
    requires |u| == |v| && i < |u|
    ensures Concordancias(u[i..], v[i..]) == (if u[i] == v[i] then 1 else 0) + Concordancias(u[i + 1..], v[i + 1..])
  {
    assert u[i..][1..] == u[i + 1..];
    assert v[i..][1..] == v[i + 1..];
  }

  /** The adjacency rule of the whole family. */
  predicate Adjacentes(k: nat, l: nat, a: Vertice, b: Vertice)
  {
    |a| == k && |b| == k && Concordancias(a, b) == l
  }

  /** The adjacency rule is symmetric. */
  lemma AdjacenciaSimetrica(k: nat, l: nat, a: Vertice, b: Vertice)
    ensures Adjacentes(k, l, a, b) <==> Adjacentes(k, l, b, a)
  {
    if |a| == |b| {
      ConcordanciasSimetricas(a, b);
    }
  }

  /** The hamiltonicity test of grafo_timbral.py:53, exactly as written. */
  predicate Hamiltoniano(n: nat, k: nat, l: nat)
  {
    !(n == 2 && (l == 0 || (k - l) % 2 == 0))
  }

  // ---------------------------------------------------------------------------
  // Vertex enumeration (grafo_timbral.py:71-88)
  // ---------------------------------------------------------------------------

  /** `popular_tupla(atual)`: the completed tuple when `atual` has length k, otherwise every
      extension of `atual` by a value x in range(n), in increasing x. */
  function PopularTupla(n: nat, k: nat, atual: Vertice): seq<Vertice>
    requires |atual| <= k
    decreases k - |atual|, 1, 0
  {
    if |atual| == k then [atual] else PopularDe(n, k, atual, 0)
  }

  /** The `for x in range(n)` loop of `popular_tupla`, from x on. */
  function PopularDe(n: nat, k: nat, atual: Vertice, x: nat): seq<Vertice>
    requires |atual| < k && x <= n
    decreases k - |atual|, 0, n - x
  {
    if x == n then [] else PopularTupla(n, k, atual + [x]) + PopularDe(n, k, atual, x + 1)
  }

  /** `gerar_vertices`: the generator's output, in order. */
  function GerarVertices(n: nat, k: nat): seq<Vertice>
  {
    PopularTupla(n, k, [])
  }

  /** a comes strictly before b in lexicographic order. */
  ghost predicate LexMenor(a: Vertice, b: Vertice)
  {
    |a| == |b| && exists i :: 0 <= i < |a| && a[..i] == b[..i] && a[i] < b[i]
  }

  ghost predicate EstritamenteCrescente(s: seq<Vertice>)
  {
    forall i, j :: 0 <= i < j < |s| ==> LexMenor(s[i], s[j])
  }

  lemma LexMenorDistintos(a: Vertice, b: Vertice)
    requires LexMenor(a, b)
    ensures a != b
  {
  }

  /** A strictly increasing sequence has no repetitions. */
  lemma CrescenteSemRepeticao(s: seq<Vertice>)
    requires EstritamenteCrescente(s)
    ensures SemRepeticao(s)
  {
    forall i, j | 0 <= i < j < |s|
      ensures s[i] != s[j]
    {
      LexMenorDistintos(s[i], s[j]);
    }
  }

  /** Two increasing runs, the first below the second at a shared position p, join into one. */
  lemma ConcatCrescente(a: seq<Vertice>, b: seq<Vertice>, p: nat, pre: Vertice)
    requires EstritamenteCrescente(a) && EstritamenteCrescente(b)
    requires |pre| == p
    requires forall w :: w in a + b ==> |w| > p && w[..p] == pre
    requires forall w, w' :: w in a && w' in b ==> |w| == |w'| && w[p] < w'[p]
    ensures EstritamenteCrescente(a + b)
  {
    forall i, j | 0 <= i < j < |a + b|
      ensures LexMenor((a + b)[i], (a + b)[j])
    {
      if j < |a| {
        assert (a + b)[i] == a[i] && (a + b)[j] == a[j];
      } else if i >= |a| {
        assert (a + b)[i] == b[i - |a|] && (a + b)[j] == b[j - |a|];
      } else {
        var w, w' := (a + b)[i], (a + b)[j];
        assert w == a[i] && w' == b[j - |a|];
        assert w in a && w' in b;
        assert w[..p] == pre == w'[..p];
      }
    }
  }

  /** Size, shape and order of `popular_tupla`'s output. */
  lemma {:induction false} PopularTuplaCorreto(n: nat, k: nat, atual: Vertice)
    requires |atual| <= k
    ensures |PopularTupla(n, k, atual)| == Pot(n, k - |atual|)
    ensures forall w :: w in PopularTupla(n, k, atual) ==>
              |w| == k && w[..|atual|] == atual && forall i :: |atual| <= i < k ==> w[i] < n
    ensures EstritamenteCrescente(PopularTupla(n, k, atual))
    decreases k - |atual|, 1, 0
  {
    if |atual| < k {
      PopularDeCorreto(n, k, atual, 0);
    }
  }

  /** Size, shape and order of the loop over x in `popular_tupla`. */
  lemma {:induction false} PopularDeCorreto(n: nat, k: nat, atual: Vertice, x: nat)
    requires |atual| < k && x <= n
    ensures |PopularDe(n, k, atual, x)| == (n - x) * Pot(n, k - |atual| - 1)
    ensures forall w :: w in PopularDe(n, k, atual, x) ==>
              |w| == k && w[..|atual|] == atual && x <= w[|atual|] &&
              forall i :: |atual| <= i < k ==> w[i] < n
    ensures EstritamenteCrescente(PopularDe(n, k, atual, x))
    decreases k - |atual|, 0, n - x
  {
    if x < n {
      var ext := atual + [x];
      var a := PopularTupla(n, k, ext);
      var b := PopularDe(n, k, atual, x + 1);
      PopularTuplaCorreto(n, k, ext);
      PopularDeCorreto(n, k, atual, x + 1);
      assert PopularDe(n, k, atual, x) == a + b;
      PopularDePasso(n, k, atual, x, a, b);
    }
  }

  /** The inductive step of PopularDeCorreto, given the facts about its two parts. */
  lemma PopularDePasso(n: nat, k: nat, atual: Vertice, x: nat, a: seq<Vertice>, b: seq<Vertice>)
    requires |atual| < k && x < n
    requires |a| == Pot(n, k - |atual| - 1) && |b| == (n - x - 1) * Pot(n, k - |atual| - 1)
    requires forall w :: w in a ==>
               |w| == k && w[..|atual| + 1] == atual + [x] && forall i :: |atual| + 1 <= i < k ==> w[i] < n
    requires forall w :: w in b ==>
               |w| == k && w[..|atual|] == atual && x + 1 <= w[|atual|] &&
               forall i :: |atual| <= i < k ==> w[i] < n
    requires EstritamenteCrescente(a) && EstritamenteCrescente(b)
    ensures |a + b| == (n - x) * Pot(n, k - |atual| - 1)
    ensures forall w :: w in a + b ==>
              |w| == k && w[..|atual|] == atual && x <= w[|atual|] &&
              forall i :: |atual| <= i < k ==> w[i] < n
    ensures EstritamenteCrescente(a + b)
  {
    var p := Pot(n, k - |atual| - 1);
    assert (n - x) * p == p + (n - x - 1) * p;
    forall w | w in a
      ensures w[..|atual|] == atual && w[|atual|] == x
    {
      assert w[..|atual|] == w[..|atual| + 1][..|atual|];
      assert w[|atual|] == w[..|atual| + 1][|atual|];
    }
    ConcatCrescente(a, b, |atual|, atual);
  }

  /** Every vertex extending `atual` is produced by `popular_tupla(atual)`. */
  lemma {:induction false} PopularTuplaCompleto(n: nat, k: nat, atual: Vertice, v: Vertice)
    requires |atual| <= k && EhVertice(n, k, v) && v[..|atual|] == atual
    ensures v in PopularTupla(n, k, atual)
    decreases k - |atual|, 1, 0
  {
    if |atual| == k {
      assert v == v[..k];
    } else {
      PopularDeCompleto(n, k, atual, 0, v);
    }
  }

  lemma {:induction false} PopularDeCompleto(n: nat, k: nat, atual: Vertice, x: nat, v: Vertice)
    requires |atual| < k && x <= n && EhVertice(n, k, v) && v[..|atual|] == atual && x <= v[|atual|]
    ensures v in PopularDe(n, k, atual, x)
    decreases k - |atual|, 0, n - x
  {
    if v[|atual|] == x {
      assert v[..|atual| + 1] == atual + [x];
      PopularTuplaCompleto(n, k, atual + [x], v);
    } else {
      PopularDeCompleto(n, k, atual, x + 1, v);
    }
  }

  /** The vertex generator yields exactly the n^k tuples of length k over [0, n), each once,
      in strictly increasing lexicographic order. */
  lemma GerarVerticesCorreto(n: nat, k: nat)
    ensures |GerarVertices(n, k)| == Pot(n, k)
    ensures forall v :: v in GerarVertices(n, k) <==> EhVertice(n, k, v)
    ensures EstritamenteCrescente(GerarVertices(n, k))
    ensures SemRepeticao(GerarVertices(n, k))
  {
    PopularTuplaCorreto(n, k, []);
    forall v | EhVertice(n, k, v)
      ensures v in GerarVertices(n, k)
    {
      PopularTuplaCompleto(n, k, [], v);
    }
    CrescenteSemRepeticao(GerarVertices(n, k));
  }

  /** The vertex set of the graph with parameters n and k. */
  function VerticesDe(n: nat, k: nat): set<Vertice>
  {
    Elementos(GerarVertices(n, k))
  }

  /** The vertex set holds exactly the tuples over [0, n) of length k, and there are n^k. */
  lemma VerticesDeCorreto(n: nat, k: nat)
    ensures forall v :: v in VerticesDe(n, k) <==> EhVertice(n, k, v)
    ensures |VerticesDe(n, k)| == Pot(n, k)
  {
    GerarVerticesCorreto(n, k);
    CardinalidadeSemRepeticao(GerarVertices(n, k));
  }

  // ---------------------------------------------------------------------------
  // Neighbour generation (grafo_timbral.py:90-119)
  // ---------------------------------------------------------------------------

  /** `vizinhos(vizinho, atual, l_lin)`: positions before `atual` are decided; `l_rest` is the
      agreement budget still to spend. When as many positions remain as budget, they all stay
      unchanged; while more remain, position `atual` is either changed to each other value
      (keeping the budget) or, budget permitting, kept (spending one unit). */
  function Vizinhos(n: nat, k: nat, vizinho: Vertice, atual: nat, lRest: nat): seq<Vertice>
    requires |vizinho| == k && atual <= k
    decreases k - atual, 1, 0
  {
    if k - atual == lRest then [vizinho]
    else if k - atual > lRest then
      Trocas(n, k, vizinho, atual, lRest, 0) +
      (if lRest > 0 then Vizinhos(n, k, vizinho, atual + 1, lRest - 1) else [])
    else []
  }

  /** The `for x in range(n): if x != vizinho[atual]` loop of `vizinhos`, from x on; each branch
      recurses on a copy of the tuple with position `atual` set to x. */
  function Trocas(n: nat, k: nat, vizinho: Vertice, atual: nat, lRest: nat, x: nat): seq<Vertice>
    requires |vizinho| == k && atual < k && x <= n
    decreases k - atual, 0, n - x
  {
    if x == n then []
    else
      (if x != vizinho[atual] then Vizinhos(n, k, vizinho[atual := x], atual + 1, lRest) else []) +
      Trocas(n, k, vizinho, atual, lRest, x + 1)
  }

  /** `gerar_vizinhos(u)`: the generator's output, in order. */
  function GerarVizinhos(n: nat, k: nat, l: nat, u: Vertice): seq<Vertice>
    requires |u| == k
  {
    Vizinhos(n, k, u, 0, l)
  }

  /** What every output of `vizinhos(vizinho, atual, l_rest)` satisfies. */
  ghost predicate FormaDeVizinho(n: nat, k: nat, vizinho: Vertice, atual: nat, lRest: nat, w: Vertice)
    requires |vizinho| == k && atual <= k
  {
    EhVertice(n, k, w) && w[..atual] == vizinho[..atual] &&
    Concordancias(w[atual..], vizinho[atual..]) == lRest
  }

  lemma ConcordanciasProprias(v: Vertice)
    ensures Concordancias(v, v) == |v|
  {
    ConcordanciasTotais(v, v);
  }

  /** Outputs of `vizinhos` have the announced shape and are pairwise distinct. */
  lemma {:induction false} VizinhosForma(n: nat, k: nat, vizinho: Vertice, atual: nat, lRest: nat)
    requires EhVertice(n, k, vizinho) && atual <= k
    ensures forall w :: w in Vizinhos(n, k, vizinho, atual, lRest) ==> FormaDeVizinho(n, k, vizinho, atual, lRest, w)
    ensures SemRepeticao(Vizinhos(n, k, vizinho, atual, lRest))
    decreases k - atual, 1, 0
  {
    if k - atual == lRest {
      ConcordanciasProprias(vizinho[atual..]);
    } else if k - atual > lRest {
      var t := Trocas(n, k, vizinho, atual, lRest, 0);
      var m := if lRest > 0 then Vizinhos(n, k, vizinho, atual + 1, lRest - 1) else [];
      TrocasForma(n, k, vizinho, atual, lRest, 0);
      if lRest > 0 {
        VizinhosForma(n, k, vizinho, atual + 1, lRest - 1);
        forall w | w in m
          ensures FormaDeVizinho(n, k, vizinho, atual, lRest, w) && w[atual] == vizinho[atual]
        {
          assert w[..atual + 1] == vizinho[..atual + 1];
          assert w[..atual] == w[..atual + 1][..atual] && vizinho[..atual] == vizinho[..atual + 1][..atual];
          assert w[atual] == w[..atual + 1][atual];
          ConcordanciasPasso(w, vizinho, atual);
        }
      }
      ConcatSemRepeticao(t, m);
    }
  }

  /** Outputs of the change loop from x on have the shape, change position `atual` to a value
      of at least x, and are pairwise distinct. */
  lemma {:induction false} TrocasForma(n: nat, k: nat, vizinho: Vertice, atual: nat, lRest: nat, x: nat)
    requires EhVertice(n, k, vizinho) && atual < k && x <= n
    ensures forall w :: w in Trocas(n, k, vizinho, atual, lRest, x) ==>
              FormaDeVizinho(n, k, vizinho, atual, lRest, w) && x <= w[atual] && w[atual] != vizinho[atual]
    ensures SemRepeticao(Trocas(n, k, vizinho, atual, lRest, x))
    decreases k - atual, 0, n - x
  {
    if x < n {
      var aux := vizinho[atual := x];
      var a := if x != vizinho[atual] then Vizinhos(n, k, aux, atual + 1, lRest) else [];
      var b := Trocas(n, k, vizinho, atual, lRest, x + 1);
      TrocasForma(n, k, vizinho, atual, lRest, x + 1);
      if x != vizinho[atual] {
        VizinhosForma(n, k, aux, atual + 1, lRest);
        forall w | w in a
          ensures FormaDeVizinho(n, k, vizinho, atual, lRest, w) && w[atual] == x
        {
          assert w[..atual + 1] == aux[..atual + 1];
          assert w[..atual] == w[..atual + 1][..atual] && aux[..atual] == aux[..atual + 1][..atual];
          assert aux[..atual] == vizinho[..atual];
          assert w[atual] == w[..atual + 1][atual];
          assert aux[atual + 1..] == vizinho[atual + 1..];
          ConcordanciasPasso(w, vizinho, atual);
        }
      }
      ConcatSemRepeticao(a, b);
    }
  }

  /** Every vertex of the announced shape is an output of `vizinhos`. */
  lemma {:induction false} VizinhosCompleto(n: nat, k: nat, vizinho: Vertice, atual: nat, lRest: nat, w: Vertice)
    requires |vizinho| == k && atual <= k
    requires FormaDeVizinho(n, k, vizinho, atual, lRest, w)
    ensures w in Vizinhos(n, k, vizinho, atual, lRest)
    decreases k - atual, 1, 0
  {
    if k - atual == lRest {
      ConcordanciasTotais(w[atual..], vizinho[atual..]);
      assert w == w[..atual] + w[atual..] && vizinho == vizinho[..atual] + vizinho[atual..];
    } else {
      ConcordanciasPasso(w, vizinho, atual);
      if w[atual] == vizinho[atual] {
        assert w[..atual + 1] == vizinho[..atual + 1];
        VizinhosCompleto(n, k, vizinho, atual + 1, lRest - 1, w);
      } else {
        TrocasCompleto(n, k, vizinho, atual, lRest, 0, w);
      }
    }
  }

  lemma {:induction false} TrocasCompleto(n: nat, k: nat, vizinho: Vertice, atual: nat, lRest: nat, x: nat, w: Vertice)
    requires |vizinho| == k && atual < k && x <= n
    requires EhVertice(n, k, w) && w[..atual] == vizinho[..atual]
    requires w[atual] != vizinho[atual] && x <= w[atual]
    requires Concordancias(w[atual + 1..], vizinho[atual + 1..]) == lRest
    ensures w in Trocas(n, k, vizinho, atual, lRest, x)
    decreases k - atual, 0, n - x
  {
    if w[atual] == x {
      var aux := vizinho[atual := x];
      assert w[..atual + 1] == aux[..atual + 1];
      assert aux[atual + 1..] == vizinho[atual + 1..];
      VizinhosCompleto(n, k, aux, atual + 1, lRest, w);
    } else {
      TrocasCompleto(n, k, vizinho, atual, lRest, x + 1, w);
    }
  }

  lemma {:induction false} BinomDiagonal(m: nat)
    ensures Binom(m, m) == 1
  {
    if m > 0 {
      BinomDiagonal(m - 1);
      BinomAcima(m - 1, m);
    }
  }

  lemma {:induction false} BinomAcima(m: nat, j: nat)
    requires j > m
    ensures Binom(m, j) == 0
  {
    if m > 0 {
      BinomAcima(m - 1, j - 1);
      BinomAcima(m - 1, j);
    }
  }

  /** Number of outputs of `vizinhos`: choose which of the remaining positions stay, times the
      n - 1 other values at each changed one. */
  lemma {:induction false} VizinhosContagem(n: nat, k: nat, vizinho: Vertice, atual: nat, lRest: nat)
    requires n >= 1 && EhVertice(n, k, vizinho) && atual <= k
    ensures |Vizinhos(n, k, vizinho, atual, lRest)| ==
            if lRest <= k - atual then Binom(k - atual, lRest) * Pot(n - 1, k - atual - lRest) else 0
    decreases k - atual, 1, 0
  {
    var m := k - atual;
    if m == lRest {
      BinomDiagonal(m);
    } else if m > lRest {
      TrocasContagem(n, k, vizinho, atual, lRest, 0);
      var t := |Trocas(n, k, vizinho, atual, lRest, 0)|;
      var resto := if lRest > 0 then Vizinhos(n, k, vizinho, atual + 1, lRest - 1) else [];
      var b0 := if lRest > 0 then Binom(m - 1, lRest - 1) else 0;
      if lRest > 0 {
        VizinhosContagem(n, k, vizinho, atual + 1, lRest - 1);
      }
      assert |resto| == b0 * Pot(n - 1, m - lRest);
      assert Binom(m, lRest) == b0 + Binom(m - 1, lRest);
      ContagemAritmetica(n - 1, Binom(m - 1, lRest), b0, Pot(n - 1, m - 1 - lRest), t, |resto|);
      assert Vizinhos(n, k, vizinho, atual, lRest) == Trocas(n, k, vizinho, atual, lRest, 0) + resto;
    }
  }

  /** The arithmetic of the counting step: (n-1)·B1·P' + B0·(n-1)·P' == (B1 + B0)·(n-1)·P'. */
  lemma ContagemAritmetica(a: nat, b1: nat, b0: nat, p1: nat, t: nat, r: nat)
    requires t == a * (b1 * p1) && r == b0 * (a * p1)
    ensures t + r == (b0 + b1) * (a * p1)
  {
    assert a * (b1 * p1) == b1 * (a * p1);
  }

  lemma {:induction false} TrocasContagem(n: nat, k: nat, vizinho: Vertice, atual: nat, lRest: nat, x: nat)
    requires n >= 1 && EhVertice(n, k, vizinho) && atual < k && x <= n && lRest < k - atual
    ensures |Trocas(n, k, vizinho, atual, lRest, x)| ==
            (n - x - (if x <= vizinho[atual] then 1 else 0)) * (Binom(k - atual - 1, lRest) * Pot(n - 1, k - atual - 1 - lRest))
    decreases k - atual, 0, n - x
  {
    if x < n {
      var q := Binom(k - atual - 1, lRest) * Pot(n - 1, k - atual - 1 - lRest);
      TrocasContagem(n, k, vizinho, atual, lRest, x + 1);
      var c := n - (x + 1) - (if x + 1 <= vizinho[atual] then 1 else 0);
      if x != vizinho[atual] {
        var aux := vizinho[atual := x];
        VizinhosContagem(n, k, aux, atual + 1, lRest);
        assert (c + 1) * q == q + c * q;
      }
    }
  }

  /** `gerar_vizinhos(u)` yields, each exactly once, precisely the vertices that agree with u in
      exactly l coordinates; there are C(k, l) * (n - 1)^(k - l) of them, none when l > k. */
  lemma GerarVizinhosCorreto(n: nat, k: nat, l: nat, u: Vertice)
    requires EhVertice(n, k, u)
    ensures forall w :: w in GerarVizinhos(n, k, l, u) <==> EhVertice(n, k, w) && Concordancias(u, w) == l
    ensures SemRepeticao(GerarVizinhos(n, k, l, u))
    ensures n >= 1 ==> |GerarVizinhos(n, k, l, u)| == if l <= k then Binom(k, l) * Pot(n - 1, k - l) else 0
    ensures l > k ==> GerarVizinhos(n, k, l, u) == []
  {
    VizinhosForma(n, k, u, 0, l);
    forall w | EhVertice(n, k, w)
      ensures w in GerarVizinhos(n, k, l, u) <==> Concordancias(u, w) == l
    {
      assert w[0..] == w && u[0..] == u;
      ConcordanciasSimetricas(u, w);
      if Concordancias(u, w) == l {
        VizinhosCompleto(n, k, u, 0, l, w);
      }
    }
    forall w | w in GerarVizinhos(n, k, l, u)
      ensures EhVertice(n, k, w) && Concordancias(u, w) == l
    {
      assert w[0..] == w && u[0..] == u;
      ConcordanciasSimetricas(u, w);
    }
    if n >= 1 {
      VizinhosContagem(n, k, u, 0, l);
    }
  }

  // ---------------------------------------------------------------------------
  // Graph construction (grafo_timbral.py:30-44, 55-69)
  // ---------------------------------------------------------------------------

  /** The timbral graph by its definition: all tuples over [0, n) of length k, and an edge
      between every two of them that agree in exactly l coordinates. */
  function GrafoDe(n: nat, k: nat, l: nat): Grafo
  {
    var vs := VerticesDe(n, k);
    Grafo(vs, set a, b | a in vs && b in vs && |a| == |b| && Concordancias(a, b) == l :: (a, b))
  }

  /** A vertex set and an edge set described by the adjacency rule are those of GrafoDe. */
  lemma GrafoDeCaracterizado(n: nat, k: nat, l: nat, nos: set<Vertice>, arestas: set<Aresta>)
    requires forall v :: v in nos <==> EhVertice(n, k, v)
    requires forall a, b :: (a, b) in arestas <==> EhVertice(n, k, a) && EhVertice(n, k, b) && Concordancias(a, b) == l
    ensures Grafo(nos, arestas) == GrafoDe(n, k, l)
  {
    VerticesDeCorreto(n, k);
    assert nos == VerticesDe(n, k);
    forall e: Aresta
      ensures e in arestas <==> e in GrafoDe(n, k, l).arestas
    {
      var (a, b) := e;
    }
    assert arestas == GrafoDe(n, k, l).arestas;
  }

  /** An edge the construction has added once the vertices in `feitos` have been visited. */
  ghost predicate ArestaVisitada(n: nat, k: nat, l: nat, feitos: set<Vertice>, a: Vertice, b: Vertice)
  {
    EhVertice(n, k, a) && EhVertice(n, k, b) && Concordancias(a, b) == l && (a in feitos || b in feitos)
  }

  /** The inner loop of `construir_grafo`: `g.add_edge(vertice, vizinho)` for each generated
      neighbour, which adds the neighbour as a node and the edge in both orientations. */
  method LigarVizinhos(vertice: Vertice, vizinhos: seq<Vertice>, nos0: set<Vertice>, arestas0: set<Aresta>)
    returns (nos: set<Vertice>, arestas: set<Aresta>)
    ensures nos == nos0 + Elementos(vizinhos)
    ensures forall a, b :: (a, b) in arestas <==>
              (a, b) in arestas0 || (a == vertice && b in vizinhos) || (b == vertice && a in vizinhos)
  {
    nos, arestas := nos0, arestas0;
    var j := 0;
    while j < |vizinhos|
      invariant 0 <= j <= |vizinhos|
      invariant nos == nos0 + Elementos(vizinhos[..j])
      invariant forall a, b :: (a, b) in arestas <==>
                  (a, b) in arestas0 || (a == vertice && b in vizinhos[..j]) || (b == vertice && a in vizinhos[..j])
    {
      assert vizinhos[..j + 1] == vizinhos[..j] + [vizinhos[j]];
      nos := nos + {vizinhos[j]};
      arestas := arestas + {(vertice, vizinhos[j]), (vizinhos[j], vertice)};
      j := j + 1;
    }
    assert vizinhos[..j] == vizinhos;
  }

  /** `construir_grafo`: adds every generated vertex and an (undirected) edge to each of its
      generated neighbours. The result is the timbral graph of the adjacency rule; in
      particular its adjacency is symmetric. */
  method ConstruirGrafo(n: nat, k: nat, l: nat) returns (g: Grafo)
    ensures forall v :: v in g.nos <==> EhVertice(n, k, v)
    ensures forall a, b :: TemAresta(g, a, b) <==> EhVertice(n, k, a) && EhVertice(n, k, b) && Concordancias(a, b) == l
    ensures g == GrafoDe(n, k, l)
  {
    var nos: set<Vertice> := {};
    var arestas: set<Aresta> := {};
    var vertices := GerarVertices(n, k);
    GerarVerticesCorreto(n, k);
    var i := 0;
    while i < |vertices|
      invariant 0 <= i <= |vertices|
      invariant Elementos(vertices[..i]) <= nos
      invariant forall v :: v in nos ==> EhVertice(n, k, v)
      invariant forall a, b :: (a, b) in arestas <==> ArestaVisitada(n, k, l, Elementos(vertices[..i]), a, b)
    {
      var vertice := vertices[i];
      assert vertice in vertices;
      assert EhVertice(n, k, vertice);
      ghost var feitos := Elementos(vertices[..i]);
      assert Elementos(vertices[..i + 1]) == feitos + {vertice} by {
        assert vertices[..i + 1] == vertices[..i] + [vertice];
      }
      nos := nos + {vertice};
      var vizinhos := GerarVizinhos(n, k, l, vertice);
      GerarVizinhosCorreto(n, k, l, vertice);
      nos, arestas := LigarVizinhos(vertice, vizinhos, nos, arestas);
      forall a: Vertice | |a| == |vertice|
        ensures Concordancias(a, vertice) == Concordancias(vertice, a)
      {
        ConcordanciasSimetricas(a, vertice);
      }
      i := i + 1;
    }
    assert vertices[..i] == vertices;
    assert forall v :: v in nos <==> EhVertice(n, k, v);
    assert forall a, b :: (a, b) in arestas <==> EhVertice(n, k, a) && EhVertice(n, k, b) && Concordancias(a, b) == l;
    GrafoDeCaracterizado(n, k, l, nos, arestas);
    g := Grafo(nos, arestas);
  }

  // ---------------------------------------------------------------------------
  // The hamiltonicity test on parameters with l > k
  // ---------------------------------------------------------------------------

  /** When l exceeds k no two tuples of length k agree in l coordinates: the graph has its
      vertices and no edge. */
  lemma AcimaDeKSemArestas(n: nat, k: nat, l: nat)
    requires l > k
    ensures GrafoDe(n, k, l).arestas == {}
  {
    VerticesDeCorreto(n, k);
  }

  /** The test of grafo_timbral.py:53 as written accepts (n, k, l) = (2, 1, 2), whose graph has
      two vertices and no edge, so no Hamiltonian cycle. */
  lemma HamiltonianoSemArestas()
    ensures Hamiltoniano(2, 1, 2)
    ensures |GrafoDe(2, 1, 2).nos| == 2
    ensures GrafoDe(2, 1, 2).arestas == {}
  {
    VerticesDeCorreto(2, 1);
    AcimaDeKSemArestas(2, 1, 2);
  }
}
