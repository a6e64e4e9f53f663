/**
 * automorfismos.py: the adjacency-preservation check, the search for an automorphism that
 * carries a pair of vertices onto another, the distance-transitivity driver over the tuples
 * 0^c 1^(k-c), and the string formatting of the certificates it returns.
 *
 * A Python dict is a `map`; a dict the code updates in place is a local `map` variable that
 * the method reassigns. The VF2 enumerators `nx.vf2pp_all_isomorphisms` are input sequences of
 * maps and the shortest-path length is an input function that answers `None` for 'INF'.
 */
module Automorfismos {

  import opened Wrappers
  import opened Colecoes
  import opened GrafoTimbral
  import opened Formatacao

  type Mapa = map<Vertice, Vertice>
  type Par = (Vertice, Vertice)

  // ---------------------------------------------------------------------------
  // The adjacency check (automorfismos.py:21-37)
  // ---------------------------------------------------------------------------

  /** f keeps adjacency and non-adjacency on every ordered pair of its domain. */
  predicate PreservaAdjacencia(f: Mapa, g: Grafo)
  {
    forall v1, v2 :: v1 in f && v2 in f ==> (TemAresta(g, v1, v2) <==> TemAresta(g, f[v1], f[v2]))
  }

  /** `checar_automorfismo(f, g)`: both loops run over the keys of f and the first pair whose
      edge status differs from that of its image ends the search with False. */
  method ChecarAutomorfismo(f: Mapa, g: Grafo) returns (ok: bool)
    ensures ok <==> PreservaAdjacencia(f, g)
  {
    var restam1 := f.Keys;
    while restam1 != {}
      invariant restam1 <= f.Keys
      invariant forall v1, v2 :: v1 in f && v1 !in restam1 && v2 in f ==>
                  (TemAresta(g, v1, v2) <==> TemAresta(g, f[v1], f[v2]))
      decreases restam1
    {
      var v1 :| v1 in restam1;
      var restam2 := f.Keys;
      while restam2 != {}
        invariant restam2 <= f.Keys
        invariant forall v2 :: v2 in f && v2 !in restam2 ==> (TemAresta(g, v1, v2) <==> TemAresta(g, f[v1], f[v2]))
        decreases restam2
      {
        var v2 :| v2 in restam2;
        if !((TemAresta(g, v1, v2) && TemAresta(g, f[v1], f[v2])) ||
             (!TemAresta(g, v1, v2) && !TemAresta(g, f[v1], f[v2]))) {
          return false;
        }
        restam2 := restam2 - {v2};
      }
      restam1 := restam1 - {v1};
    }
    return true;
  }

  /** The identity on any set of vertices passes the check. */
  lemma IdentidadeAceita(S: set<Vertice>, g: Grafo)
    ensures PreservaAdjacencia(map v | v in S :: v, g)
  {
  }

  /** Restricting a map that passes the check to part of its domain keeps it passing. */
  lemma RestricaoAceita(f: Mapa, S: set<Vertice>, g: Grafo)
    requires PreservaAdjacencia(f, g)
    ensures PreservaAdjacencia(map v | v in f && v in S :: f[v], g)
  {
  }

  /** Two maps that pass the check compose into one that passes it. */
  lemma ComposicaoAceita(f: Mapa, h: Mapa, g: Grafo)
    requires PreservaAdjacencia(f, g) && PreservaAdjacencia(h, g)
    requires forall v :: v in f ==> f[v] in h
    ensures PreservaAdjacencia(map v | v in f :: h[f[v]], g)
  {
    var c := map v | v in f :: h[f[v]];
    forall v1, v2 | v1 in c && v2 in c
      ensures TemAresta(g, v1, v2) <==> TemAresta(g, c[v1], c[v2])
    {
      assert TemAresta(g, v1, v2) <==> TemAresta(g, f[v1], f[v2]);
      assert TemAresta(g, f[v1], f[v2]) <==> TemAresta(g, h[f[v1]], h[f[v2]]);
    }
  }

  /** The check looks at neither injectivity nor totality: on a graph without edges, the map
      sending both of its vertices to one of them passes. */
  lemma AceitaNaoInjetiva()
    ensures var g := Grafo({[0], [1]}, {});
            var f := map[[0] := [0], [1] := [0]];
            PreservaAdjacencia(f, g) && f[[0]] == f[[1]] && [0] != [1]
  {
  }

  // ---------------------------------------------------------------------------
  // The decomposition around a pair (automorfismos.py:53-63)
  // ---------------------------------------------------------------------------

  /** The neighbours of u among the vertices of g. */
  function Vizinhanca(g: Grafo, u: Vertice): set<Vertice>
  {
    set w | w in g.nos && TemAresta(g, u, w)
  }

  /** `vizinhos_em_comum(u, v)`: the intersection of the two neighbourhoods. */
  function VizinhosEmComum(g: Grafo, u: Vertice, v: Vertice): set<Vertice>
  {
    Vizinhanca(g, u) * Vizinhanca(g, v)
  }

  /** `outros1`: the vertices that are neither common neighbours nor u or v. */
  function Outros(g: Grafo, n1: set<Vertice>, u: Vertice, v: Vertice): set<Vertice>
  {
    set w | w in g.nos && w !in n1 && w != u && w != v
  }

  /** In a timbral graph the common neighbours of u and v are the vertices agreeing with
      each of them in exactly l coordinates. */
  lemma VizinhosEmComumTimbral(n: nat, k: nat, l: nat, u: Vertice, v: Vertice)
    requires EhVertice(n, k, u) && EhVertice(n, k, v)
    ensures forall w :: w in VizinhosEmComum(GrafoDe(n, k, l), u, v) <==>
              EhVertice(n, k, w) && Concordancias(u, w) == l && Concordancias(v, w) == l
  {
    VerticesDeCorreto(n, k);
  }

  /** The vertices of g split into the common neighbours, the pair itself and `outros1`, and
      when neither u nor v carries a loop the three parts are disjoint. */
  lemma ParticaoDosVertices(g: Grafo, u: Vertice, v: Vertice)
    ensures var n1 := VizinhosEmComum(g, u, v);
            var o := Outros(g, n1, u, v);
            (forall w :: w in g.nos <==> w in n1 || w in o || (w in g.nos && (w == u || w == v))) &&
            n1 * o == {} && u !in o && v !in o &&
            (!TemAresta(g, u, u) && !TemAresta(g, v, v) ==> u !in n1 && v !in n1)
  {
  }

  /** A timbral graph has loops only when l == k. */
  lemma SemLacos(n: nat, k: nat, l: nat, v: Vertice)
    requires l != k
    ensures !TemAresta(GrafoDe(n, k, l), v, v)
  {
    ConcordanciasProprias(v);
    VerticesDeCorreto(n, k);
  }

  /** `nx.induced_subgraph(g, S)`: the vertices of S in g and the edges of g between them. */
  function SubgrafoInduzido(g: Grafo, S: set<Vertice>): Grafo
  {
    Grafo(S * g.nos, set e | e in g.arestas && e.0 in S && e.1 in S)
  }

  /** What an isomorphism the VF2 enumerator yields is: a bijection of the vertices that keeps
      edges and non-edges. */
  predicate EhIsomorfismo(h: Mapa, g1: Grafo, g2: Grafo)
  {
    h.Keys == g1.nos &&
    (forall w :: w in h ==> h[w] in g2.nos) &&
    (forall w1, w2 :: w1 in h && w2 in h && h[w1] == h[w2] ==> w1 == w2) &&
    (forall w1, w2 :: w1 in h && w2 in h ==> (TemAresta(g1, w1, w2) <==> TemAresta(g2, h[w1], h[w2])))
  }

  // ---------------------------------------------------------------------------
  // The pair search (automorfismos.py:39-94)
  // ---------------------------------------------------------------------------

  /** Lines 71-72 and 86-87: u is sent to x, then v to y. */
  function Fixar(f: Mapa, u: Vertice, v: Vertice, x: Vertice, y: Vertice): Mapa
  {
    f[u := x][v := y]
  }

  /** Lines 84-87: the neighbourhood isomorphism a, overwritten by the complement
      isomorphism h wherever h is defined, then pinned. */
  function Encaixar(a: Mapa, h: Mapa, u: Vertice, v: Vertice, x: Vertice, y: Vertice): Mapa
  {
    Fixar(a + h, u, v, x, y)
  }

  /** The candidates of the branch without common neighbours, in enumeration order. */
  function CandidatosSimples(comps: seq<Mapa>, u: Vertice, v: Vertice, x: Vertice, y: Vertice): seq<Mapa>
  {
    seq(|comps|, i requires 0 <= i < |comps| => Fixar(comps[i], u, v, x, y))
  }

  /** The candidates built from one complement isomorphism h and every neighbourhood
      isomorphism, in enumeration order. */
  function CandidatosDaLinha(h: Mapa, vizs: seq<Mapa>, u: Vertice, v: Vertice, x: Vertice, y: Vertice): seq<Mapa>
  {
    seq(|vizs|, j requires 0 <= j < |vizs| => Encaixar(vizs[j], h, u, v, x, y))
  }

  /** The candidates of the decomposed branch: the outer loop over the complement
      isomorphisms, the inner one over the neighbourhood isomorphisms. */
  function CandidatosCompostos(comps: seq<Mapa>, vizs: seq<Mapa>, u: Vertice, v: Vertice, x: Vertice, y: Vertice): seq<Mapa>
  {
    if |comps| == 0 then [] else CandidatosDaLinha(comps[0], vizs, u, v, x, y) + CandidatosCompostos(comps[1..], vizs, u, v, x, y)
  }

  /** Line 69: neither pair has a common neighbour. */
  predicate SemVizinhosEmComum(g: Grafo, u: Vertice, v: Vertice, x: Vertice, y: Vertice)
  {
    |VizinhosEmComum(g, u, v)| == 0 && |VizinhosEmComum(g, x, y)| == 0
  }

  /** Every candidate the search tries, in the order it tries them. */
  function Candidatos(g: Grafo, u: Vertice, v: Vertice, x: Vertice, y: Vertice, comps: seq<Mapa>, vizs: seq<Mapa>): seq<Mapa>
  {
    if SemVizinhosEmComum(g, u, v, x, y) then CandidatosSimples(comps, u, v, x, y)
    else CandidatosCompostos(comps, vizs, u, v, x, y)
  }

  /** The first candidate that passes the check. */
  function PrimeiroQuePassa(cs: seq<Mapa>, g: Grafo): Option<Mapa>
  {
    if |cs| == 0 then None
    else if PreservaAdjacencia(cs[0], g) then Some(cs[0])
    else PrimeiroQuePassa(cs[1..], g)
  }

  /** What `buscar_automorfismo_entre_pares` returns, False being None. */
  function ResultadoDaBusca(g: Grafo, u: Vertice, v: Vertice, x: Vertice, y: Vertice, comps: seq<Mapa>, vizs: seq<Mapa>): Option<Mapa>
  {
    PrimeiroQuePassa(Candidatos(g, u, v, x, y, comps, vizs), g)
  }

  /** None exactly when every candidate fails; otherwise the candidate that passes and that
      no passing candidate precedes. */
  lemma {:induction false} PrimeiroQuePassaCaracterizado(cs: seq<Mapa>, g: Grafo)
    ensures PrimeiroQuePassa(cs, g).None? <==> forall i :: 0 <= i < |cs| ==> !PreservaAdjacencia(cs[i], g)
    ensures PrimeiroQuePassa(cs, g).Some? ==>
              exists i :: 0 <= i < |cs| && cs[i] == PrimeiroQuePassa(cs, g).value && PreservaAdjacencia(cs[i], g) &&
                forall j :: 0 <= j < i ==> !PreservaAdjacencia(cs[j], g)
  {
    if |cs| > 0 && !PreservaAdjacencia(cs[0], g) {
      PrimeiroQuePassaCaracterizado(cs[1..], g);
      if PrimeiroQuePassa(cs, g).Some? {
        var i :| 0 <= i < |cs[1..]| && cs[1..][i] == PrimeiroQuePassa(cs, g).value && PreservaAdjacencia(cs[1..][i], g) &&
                 forall j :: 0 <= j < i ==> !PreservaAdjacencia(cs[1..][j], g);
        assert cs[i + 1] == cs[1..][i];
        forall j | 0 <= j < i + 1
          ensures !PreservaAdjacencia(cs[j], g)
        {
          if j > 0 {
            assert cs[j] == cs[1..][j - 1];
          }
        }
      } else {
        forall i | 0 <= i < |cs|
          ensures !PreservaAdjacencia(cs[i], g)
        {
          if i > 0 {
            assert cs[i] == cs[1..][i - 1];
          }
        }
      }
    }
  }

  /** The first passing candidate of a concatenation comes from its left part if that part
      has one. */
  lemma {:induction false} PrimeiroQuePassaConcat(a: seq<Mapa>, b: seq<Mapa>, g: Grafo)
    ensures PrimeiroQuePassa(a + b, g) ==
              if PrimeiroQuePassa(a, g).Some? then PrimeiroQuePassa(a, g) else PrimeiroQuePassa(b, g)
  {
    if |a| == 0 {
      assert a + b == b;
    } else {
      assert (a + b)[0] == a[0];
      assert (a + b)[1..] == a[1..] + b;
      PrimeiroQuePassaConcat(a[1..], b, g);
    }
  }

  /** The candidate at index i is returned when it passes and none before it does. */
  lemma {:induction false} PrimeiroQuePassaEm(cs: seq<Mapa>, i: nat, g: Grafo)
    requires i < |cs| && PreservaAdjacencia(cs[i], g)
    requires forall j :: 0 <= j < i ==> !PreservaAdjacencia(cs[j], g)
    ensures PrimeiroQuePassa(cs, g) == Some(cs[i])
  {
    if i > 0 {
      forall j | 0 <= j < i - 1
        ensures !PreservaAdjacencia(cs[1..][j], g)
      {
        assert cs[1..][j] == cs[j + 1];
      }
      PrimeiroQuePassaEm(cs[1..], i - 1, g);
    }
  }

  lemma {:induction false} CandidatosCompostosConcat(a: seq<Mapa>, b: seq<Mapa>, vizs: seq<Mapa>, u: Vertice, v: Vertice, x: Vertice, y: Vertice)
    ensures CandidatosCompostos(a + b, vizs, u, v, x, y) == CandidatosCompostos(a, vizs, u, v, x, y) + CandidatosCompostos(b, vizs, u, v, x, y)
  {
    if |a| == 0 {
      assert a + b == b;
    } else {
      assert (a + b)[0] == a[0];
      assert (a + b)[1..] == a[1..] + b;
      CandidatosCompostosConcat(a[1..], b, vizs, u, v, x, y);
    }
  }

  /** A decomposed-branch candidate is an encaixe of one complement isomorphism and one
      neighbourhood isomorphism, and every such encaixe is a candidate. */
  lemma {:induction false} CandidatosCompostosCaracterizados(comps: seq<Mapa>, vizs: seq<Mapa>, u: Vertice, v: Vertice, x: Vertice, y: Vertice, c: Mapa)
    ensures c in CandidatosCompostos(comps, vizs, u, v, x, y) <==>
              exists i, j :: 0 <= i < |comps| && 0 <= j < |vizs| && c == Encaixar(vizs[j], comps[i], u, v, x, y)
  {
    if |comps| > 0 {
      CandidatosCompostosCaracterizados(comps[1..], vizs, u, v, x, y, c);
      var linha := CandidatosDaLinha(comps[0], vizs, u, v, x, y);
      if c in CandidatosCompostos(comps, vizs, u, v, x, y) {
        if c in linha {
          var j :| 0 <= j < |vizs| && linha[j] == c;
          assert c == Encaixar(vizs[j], comps[0], u, v, x, y);
        } else {
          var i, j :| 0 <= i < |comps[1..]| && 0 <= j < |vizs| && c == Encaixar(vizs[j], comps[1..][i], u, v, x, y);
          assert comps[1..][i] == comps[i + 1];
        }
      }
      if exists i, j :: 0 <= i < |comps| && 0 <= j < |vizs| && c == Encaixar(vizs[j], comps[i], u, v, x, y) {
        var i, j :| 0 <= i < |comps| && 0 <= j < |vizs| && c == Encaixar(vizs[j], comps[i], u, v, x, y);
        if i == 0 {
          assert linha[j] == c;
        } else {
          assert comps[1..][i - 1] == comps[i];
        }
      }
    }
  }

  /** Any map the search returns passes the check, sends v to y and, when u and v differ,
      u to x; it is one of the candidates, and no candidate tried before it passes. None
      comes back only when every candidate fails. */
  lemma ResultadoDaBuscaCorreto(g: Grafo, u: Vertice, v: Vertice, x: Vertice, y: Vertice, comps: seq<Mapa>, vizs: seq<Mapa>)
    ensures var r := ResultadoDaBusca(g, u, v, x, y, comps, vizs);
            var cs := Candidatos(g, u, v, x, y, comps, vizs);
            (r.None? <==> forall i :: 0 <= i < |cs| ==> !PreservaAdjacencia(cs[i], g)) &&
            (r.Some? ==> PreservaAdjacencia(r.value, g) && v in r.value && r.value[v] == y &&
                         (u != v ==> u in r.value && r.value[u] == x) &&
                         exists i :: 0 <= i < |cs| && cs[i] == r.value && forall j :: 0 <= j < i ==> !PreservaAdjacencia(cs[j], g))
  {
    var cs := Candidatos(g, u, v, x, y, comps, vizs);
    PrimeiroQuePassaCaracterizado(cs, g);
    if ResultadoDaBusca(g, u, v, x, y, comps, vizs).Some? && !SemVizinhosEmComum(g, u, v, x, y) {
      var i :| 0 <= i < |cs| && cs[i] == ResultadoDaBusca(g, u, v, x, y, comps, vizs).value;
      assert cs[i] in cs;
      CandidatosCompostosCaracterizados(comps, vizs, u, v, x, y, cs[i]);
    }
  }

  /** Why the decomposed branch still checks the whole candidate: if h is an isomorphism
      between the induced subgraphs on `outros1` and `outros2`, and a one between those on
      the common neighbourhoods, and neither pair carries a loop, then the candidate keeps
      adjacency inside each part; the pairs across parts are what the check is for. */
  lemma EncaixarPreservaDentroDasPartes(g: Grafo, u: Vertice, v: Vertice, x: Vertice, y: Vertice, a: Mapa, h: Mapa)
    requires !TemAresta(g, u, u) && !TemAresta(g, v, v)
    requires var n1 := VizinhosEmComum(g, u, v);
             var n2 := VizinhosEmComum(g, x, y);
             EhIsomorfismo(h, SubgrafoInduzido(g, Outros(g, n1, u, v)), SubgrafoInduzido(g, Outros(g, n2, x, y))) &&
             EhIsomorfismo(a, SubgrafoInduzido(g, n1), SubgrafoInduzido(g, n2))
    ensures var c := Encaixar(a, h, u, v, x, y);
            var n1 := VizinhosEmComum(g, u, v);
            var o1 := Outros(g, n1, u, v);
            (forall w1, w2 :: w1 in o1 && w2 in o1 ==> (TemAresta(g, w1, w2) <==> TemAresta(g, c[w1], c[w2]))) &&
            (forall w1, w2 :: w1 in n1 && w2 in n1 ==> (TemAresta(g, w1, w2) <==> TemAresta(g, c[w1], c[w2])))
  {
    var c := Encaixar(a, h, u, v, x, y);
    var n1 := VizinhosEmComum(g, u, v);
    var n2 := VizinhosEmComum(g, x, y);
    var o1 := Outros(g, n1, u, v);
    var o2 := Outros(g, n2, x, y);
    forall w | w in o1
      ensures w in c && c[w] == h[w] && c[w] in o2
    {
    }
    forall w | w in n1
      ensures w in c && c[w] == a[w] && c[w] in n2
    {
      assert w !in o1;
    }
    forall w1, w2 | w1 in o1 && w2 in o1
      ensures TemAresta(g, w1, w2) <==> TemAresta(g, c[w1], c[w2])
    {
      assert TemAresta(g, w1, w2) <==> TemAresta(SubgrafoInduzido(g, o1), w1, w2);
      assert TemAresta(g, h[w1], h[w2]) <==> TemAresta(SubgrafoInduzido(g, o2), h[w1], h[w2]);
    }
    forall w1, w2 | w1 in n1 && w2 in n1
      ensures TemAresta(g, w1, w2) <==> TemAresta(g, c[w1], c[w2])
    {
      assert TemAresta(g, w1, w2) <==> TemAresta(SubgrafoInduzido(g, n1), w1, w2);
      assert TemAresta(g, a[w1], a[w2]) <==> TemAresta(SubgrafoInduzido(g, n2), a[w1], a[w2]);
    }
  }

  /** `for vtx in auto_comp: automorfismo[vtx] = auto_comp[vtx]` (lines 84-85): every entry
      of h is written over f. */
  method Sobrescrever(f: Mapa, h: Mapa) returns (r: Mapa)
    ensures r.Keys == f.Keys + h.Keys
    ensures forall w :: w in r ==> r[w] == if w in h then h[w] else f[w]
  {
    r := f;
    var restam := h.Keys;
    while restam != {}
      invariant restam <= h.Keys
      invariant r.Keys == f.Keys + (h.Keys - restam)
      invariant forall w :: w in r ==> r[w] == if w in h && w !in restam then h[w] else f[w]
      decreases restam
    {
      var vtx :| vtx in restam;
      r := r[vtx := h[vtx]];
      restam := restam - {vtx};
    }
  }

  /** No candidate built from the first i complement isomorphisms passes, nor any built from
      the i-th one: none built from the first i + 1 does. */
  lemma LinhaSemSucesso(comps: seq<Mapa>, vizs: seq<Mapa>, i: nat, u: Vertice, v: Vertice, x: Vertice, y: Vertice, g: Grafo)
    requires i < |comps|
    requires PrimeiroQuePassa(CandidatosCompostos(comps[..i], vizs, u, v, x, y), g) == None
    requires PrimeiroQuePassa(CandidatosDaLinha(comps[i], vizs, u, v, x, y), g) == None
    ensures PrimeiroQuePassa(CandidatosCompostos(comps[..i + 1], vizs, u, v, x, y), g) == None
  {
    var unico: seq<Mapa> := [comps[i]];
    assert comps[..i + 1] == comps[..i] + unico;
    CandidatosCompostosConcat(comps[..i], unico, vizs, u, v, x, y);
    assert |unico[1..]| == 0;
    var linha := CandidatosDaLinha(comps[i], vizs, u, v, x, y);
    assert CandidatosCompostos(unico, vizs, u, v, x, y) == linha + CandidatosCompostos(unico[1..], vizs, u, v, x, y);
    assert CandidatosCompostos(unico, vizs, u, v, x, y) == linha;
    PrimeiroQuePassaConcat(CandidatosCompostos(comps[..i], vizs, u, v, x, y), CandidatosDaLinha(comps[i], vizs, u, v, x, y), g);
  }

  /** When no candidate before complement isomorphism i passes, the search returns the first
      passing candidate built from the i-th one, if there is one. */
  lemma EncontradoNaLinha(comps: seq<Mapa>, vizs: seq<Mapa>, i: nat, u: Vertice, v: Vertice, x: Vertice, y: Vertice, g: Grafo)
    requires i < |comps|
    requires PrimeiroQuePassa(CandidatosCompostos(comps[..i], vizs, u, v, x, y), g) == None
    requires PrimeiroQuePassa(CandidatosDaLinha(comps[i], vizs, u, v, x, y), g).Some?
    ensures PrimeiroQuePassa(CandidatosCompostos(comps, vizs, u, v, x, y), g) ==
              PrimeiroQuePassa(CandidatosDaLinha(comps[i], vizs, u, v, x, y), g)
  {
    var antes := CandidatosCompostos(comps[..i], vizs, u, v, x, y);
    var linha := CandidatosDaLinha(comps[i], vizs, u, v, x, y);
    var depois := CandidatosCompostos(comps[i + 1..], vizs, u, v, x, y);
    assert comps == comps[..i] + ([comps[i]] + comps[i + 1..]);
    CandidatosCompostosConcat(comps[..i], [comps[i]] + comps[i + 1..], vizs, u, v, x, y);
    assert ([comps[i]] + comps[i + 1..])[1..] == comps[i + 1..];
    assert CandidatosCompostos([comps[i]] + comps[i + 1..], vizs, u, v, x, y) == linha + depois;
    PrimeiroQuePassaConcat(antes, linha + depois, g);
    PrimeiroQuePassaConcat(linha, depois, g);
  }

  /** The branch without common neighbours (lines 69-76): each complement isomorphism is
      pinned and checked in turn. */
  method BuscarNosComplementos(g: Grafo, u: Vertice, v: Vertice, x: Vertice, y: Vertice, comps: seq<Mapa>)
    returns (r: Option<Mapa>)
    ensures r == PrimeiroQuePassa(CandidatosSimples(comps, u, v, x, y), g)
  {
    var i := 0;
    while i < |comps|
      invariant 0 <= i <= |comps|
      invariant forall t :: 0 <= t < i ==> !PreservaAdjacencia(Fixar(comps[t], u, v, x, y), g)
    {
      var automorfismo := comps[i];
      automorfismo := automorfismo[u := x];
      automorfismo := automorfismo[v := y];
      var ok := ChecarAutomorfismo(automorfismo, g);
      if ok {
        PrimeiroQuePassaEm(CandidatosSimples(comps, u, v, x, y), i, g);
        return Some(automorfismo);
      }
      i := i + 1;
    }
    PrimeiroQuePassaCaracterizado(CandidatosSimples(comps, u, v, x, y), g);
    return None;
  }

  /** The inner loop of the decomposed branch (lines 82-92) for one complement
      isomorphism: each neighbourhood isomorphism is overwritten by it, pinned and checked. */
  method BuscarNaLinha(g: Grafo, u: Vertice, v: Vertice, x: Vertice, y: Vertice, autoComp: Mapa, vizs: seq<Mapa>)
    returns (r: Option<Mapa>)
    ensures r == PrimeiroQuePassa(CandidatosDaLinha(autoComp, vizs, u, v, x, y), g)
  {
    var j := 0;
    while j < |vizs|
      invariant 0 <= j <= |vizs|
      invariant forall t :: 0 <= t < j ==> !PreservaAdjacencia(Encaixar(vizs[t], autoComp, u, v, x, y), g)
    {
      var automorfismo := vizs[j];
      automorfismo := Sobrescrever(automorfismo, autoComp);
      assert automorfismo == vizs[j] + autoComp;
      automorfismo := automorfismo[u := x];
      automorfismo := automorfismo[v := y];
      var ok := ChecarAutomorfismo(automorfismo, g);
      if ok {
        PrimeiroQuePassaEm(CandidatosDaLinha(autoComp, vizs, u, v, x, y), j, g);
        return Some(automorfismo);
      }
      j := j + 1;
    }
    PrimeiroQuePassaCaracterizado(CandidatosDaLinha(autoComp, vizs, u, v, x, y), g);
    return None;
  }

  /** The decomposed branch (lines 78-94): the outer loop over the complement isomorphisms. */
  method BuscarEncaixando(g: Grafo, u: Vertice, v: Vertice, x: Vertice, y: Vertice, comps: seq<Mapa>, vizs: seq<Mapa>)
    returns (r: Option<Mapa>)
    ensures r == PrimeiroQuePassa(CandidatosCompostos(comps, vizs, u, v, x, y), g)
  {
    var i := 0;
    while i < |comps|
      invariant 0 <= i <= |comps|
      invariant PrimeiroQuePassa(CandidatosCompostos(comps[..i], vizs, u, v, x, y), g) == None
    {
      var achado := BuscarNaLinha(g, u, v, x, y, comps[i], vizs);
      if achado.Some? {
        EncontradoNaLinha(comps, vizs, i, u, v, x, y, g);
        return achado;
      }
      LinhaSemSucesso(comps, vizs, i, u, v, x, y, g);
      i := i + 1;
    }
    assert comps[..i] == comps;
    return None;
  }

  /** `buscar_automorfismo_entre_pares(g, u, v, x, y)`, with the two VF2 enumerations given:
      `comps` for the subgraphs induced on `outros1` and `outros2`, `vizs` for those induced
      on the common neighbourhoods. */
  method BuscarAutomorfismoEntrePares(g: Grafo, u: Vertice, v: Vertice, x: Vertice, y: Vertice, comps: seq<Mapa>, vizs: seq<Mapa>)
    returns (r: Option<Mapa>)
    ensures r == ResultadoDaBusca(g, u, v, x, y, comps, vizs)
    ensures r.Some? ==> PreservaAdjacencia(r.value, g) && v in r.value && r.value[v] == y &&
                        (u != v ==> u in r.value && r.value[u] == x)
  {
    ResultadoDaBuscaCorreto(g, u, v, x, y, comps, vizs);
    var n1 := VizinhosEmComum(g, u, v);
    var n2 := VizinhosEmComum(g, x, y);
    if |n1| == 0 && |n2| == 0 {
      r := BuscarNosComplementos(g, u, v, x, y, comps);
    } else {
      r := BuscarEncaixando(g, u, v, x, y, comps, vizs);
    }
  }

  // ---------------------------------------------------------------------------
  // The candidate pairs (automorfismos.py:128-131)
  // ---------------------------------------------------------------------------

  /** `tuple(0 for _ in range(k))`: the basepoint 0^k. */
  function Zeros(k: nat): Vertice
  {
    seq(k, _ => 0)
  }

  /** The tuple 0^c 1^(k-c). */
  function Alvo(k: nat, c: nat): Vertice
    requires c <= k
  {
    seq(c, _ => 0) + seq(k - c, _ => 1)
  }

  /** The entries of `v_vec` from c on: 0^c' 1^(k-c') for c' from c up to k - 1, skipping l. */
  function AlvosDesde(k: nat, l: nat, c: nat): seq<Vertice>
    requires c <= k
    decreases k - c
  {
    if c == k then [] else (if c == l then [] else [Alvo(k, c)]) + AlvosDesde(k, l, c + 1)
  }

  /** `v_vec`. */
  function Alvos(k: nat, l: nat): seq<Vertice>
  {
    AlvosDesde(k, l, 0)
  }

  /** The number of zeros of the i-th entry of `v_vec`: the indices below l, then those above. */
  function ZerosDoAlvo(l: nat, i: nat): nat
  {
    if i < l then i else i + 1
  }

  lemma {:induction false} AlvosDesdeIndices(k: nat, l: nat, c: nat)
    requires c <= k
    ensures |AlvosDesde(k, l, c)| == k - c - (if c <= l < k then 1 else 0)
    ensures forall i :: 0 <= i < |AlvosDesde(k, l, c)| ==>
              c + i + (if c <= l <= c + i then 1 else 0) < k &&
              AlvosDesde(k, l, c)[i] == Alvo(k, c + i + (if c <= l <= c + i then 1 else 0))
    decreases k - c
  {
    if c < k {
      AlvosDesdeIndices(k, l, c + 1);
      var resto := AlvosDesde(k, l, c + 1);
      if c != l {
        forall i | 1 <= i < |AlvosDesde(k, l, c)|
          ensures AlvosDesde(k, l, c)[i] == resto[i - 1]
        {
        }
      }
    }
  }

  /** Tuples of zeros and ones that agree nowhere. */
  lemma {:induction false} ConcordanciasNulas(u: Vertice, v: Vertice)
    requires |u| == |v| && forall i :: 0 <= i < |u| ==> u[i] != v[i]
    ensures Concordancias(u, v) == 0
  {
    if |u| > 0 {
      ConcordanciasNulas(u[1..], v[1..]);
    }
  }

  /** 0^c 1^(k-c) is a binary vertex agreeing with the basepoint in exactly c coordinates. */
  lemma AlvoCorreto(k: nat, c: nat)
    requires c <= k
    ensures EhVertice(2, k, Alvo(k, c))
    ensures Concordancias(Zeros(k), Alvo(k, c)) == c
  {
    var zc: Vertice := seq(c, _ => 0);
    var zr: Vertice := seq(k - c, _ => 0);
    var ur: Vertice := seq(k - c, _ => 1);
    assert Zeros(k) == zc + zr;
    ConcordanciasConcat(zc, zr, zc, ur);
    ConcordanciasProprias(zc);
    ConcordanciasNulas(zr, ur);
  }

  /** `v_vec` holds k - 1 tuples when l < k and k otherwise; its i-th entry is 0^c 1^(k-c) for
      the i-th value c of range(k) other than l. They are pairwise distinct binary vertices,
      none of them the basepoint, each agreeing with it in its own number c of coordinates,
      never l, so none is adjacent to it. */
  lemma AlvosCorretos(k: nat, l: nat)
    ensures |Alvos(k, l)| == if l < k then k - 1 else k
    ensures forall i :: 0 <= i < |Alvos(k, l)| ==>
              ZerosDoAlvo(l, i) < k && Alvos(k, l)[i] == Alvo(k, ZerosDoAlvo(l, i))
    ensures forall i :: 0 <= i < |Alvos(k, l)| ==>
              EhVertice(2, k, Alvos(k, l)[i]) && Alvos(k, l)[i] != Zeros(k) &&
              Concordancias(Zeros(k), Alvos(k, l)[i]) == ZerosDoAlvo(l, i) != l
    ensures SemRepeticao(Alvos(k, l))
  {
    AlvosDesdeIndices(k, l, 0);
    var vs := Alvos(k, l);
    forall i | 0 <= i < |vs|
      ensures EhVertice(2, k, vs[i]) && vs[i] != Zeros(k) &&
              Concordancias(Zeros(k), vs[i]) == ZerosDoAlvo(l, i) != l
    {
      AlvoCorreto(k, ZerosDoAlvo(l, i));
      ConcordanciasProprias(Zeros(k));
    }
    forall i, j | 0 <= i < j < |vs|
      ensures vs[i] != vs[j]
    {
    }
  }

  // ---------------------------------------------------------------------------
  // The distance-transitivity driver (automorfismos.py:113-150)
  // ---------------------------------------------------------------------------

  /** The search the driver runs for the pairs (u, a) and (u, b), with the enumerations of
      that pair. */
  function BuscaDoPar(g: Grafo, u: Vertice, a: Vertice, b: Vertice, comps: Par -> seq<Mapa>, vizs: Par -> seq<Mapa>): Option<Mapa>
  {
    ResultadoDaBusca(g, u, a, u, b, comps((a, b)), vizs((a, b)))
  }

  /** The keys (v_a, v_b), a < b, of the pairs at equal distance from the basepoint that the
      double loop has reached before the step (i, j). */
  ghost function ParesAte(vs: seq<Vertice>, dist: Vertice -> Option<nat>, i: nat, j: nat): set<Par>
  {
    set a, b | 0 <= a < b < |vs| && (a < i || (a == i && b < j)) && dist(vs[a]) == dist(vs[b]) :: (vs[a], vs[b])
  }

  /** All the keys (v_a, v_b), a < b, of pairs at equal distance. */
  ghost function ParesEquidistantes(vs: seq<Vertice>, dist: Vertice -> Option<nat>): set<Par>
  {
    ParesAte(vs, dist, |vs|, 0)
  }

  /** The certificate as it stands before the step (i, j): the right keys, each holding what
      the search returned for it, and no search so far has failed. */
  ghost predicate CertificadoAte(cert: map<Par, Mapa>, g: Grafo, u: Vertice, vs: seq<Vertice>, dist: Vertice -> Option<nat>,
                                 comps: Par -> seq<Mapa>, vizs: Par -> seq<Mapa>, i: nat, j: nat)
  {
    cert.Keys == ParesAte(vs, dist, i, j) &&
    (forall p :: p in cert ==> BuscaDoPar(g, u, p.0, p.1, comps, vizs) == Some(cert[p])) &&
    (forall a, b :: 0 <= a < b < |vs| && (a < i || (a == i && b < j)) && dist(vs[a]) == dist(vs[b]) ==>
       BuscaDoPar(g, u, vs[a], vs[b], comps, vizs).Some?)
  }

  lemma ParesAteAvanca(vs: seq<Vertice>, dist: Vertice -> Option<nat>, i: nat, j: nat)
    requires i < j < |vs|
    ensures ParesAte(vs, dist, i, j + 1) ==
              ParesAte(vs, dist, i, j) + (if dist(vs[i]) == dist(vs[j]) then {(vs[i], vs[j])} else {})
  {
    var antes := ParesAte(vs, dist, i, j);
    var depois := ParesAte(vs, dist, i, j + 1);
    forall p | p in depois
      ensures p in antes || (dist(vs[i]) == dist(vs[j]) && p == (vs[i], vs[j]))
    {
      var a, b :| 0 <= a < b < |vs| && (a < i || (a == i && b < j + 1)) && dist(vs[a]) == dist(vs[b]) && p == (vs[a], vs[b]);
      if !(a == i && b == j) {
        assert p in antes;
      }
    }
    if dist(vs[i]) == dist(vs[j]) {
      assert (vs[i], vs[j]) in depois;
    }
  }

  lemma ParesAteLinha(vs: seq<Vertice>, dist: Vertice -> Option<nat>, i: nat)
    ensures ParesAte(vs, dist, i, 0) == ParesAte(vs, dist, i, i + 1)
    ensures ParesAte(vs, dist, i, |vs|) == ParesAte(vs, dist, i + 1, 0)
  {
  }

  /** A key of the certificate is a pair of entries of `v_vec`, the first one earlier. */
  lemma ParesEquidistantesMembros(vs: seq<Vertice>, dist: Vertice -> Option<nat>, p: Par)
    requires p in ParesEquidistantes(vs, dist)
    ensures exists a, b :: 0 <= a < b < |vs| && p == (vs[a], vs[b]) && dist(vs[a]) == dist(vs[b])
  {
  }

  /** Step (i, j) when v_i and v_j are at different distances: nothing is recorded. */
  lemma CertificadoSemPar(cert: map<Par, Mapa>, g: Grafo, u: Vertice, vs: seq<Vertice>, dist: Vertice -> Option<nat>,
                          comps: Par -> seq<Mapa>, vizs: Par -> seq<Mapa>, i: nat, j: nat)
    requires i < j < |vs| && dist(vs[i]) != dist(vs[j])
    requires CertificadoAte(cert, g, u, vs, dist, comps, vizs, i, j)
    ensures CertificadoAte(cert, g, u, vs, dist, comps, vizs, i, j + 1)
  {
    ParesAteAvanca(vs, dist, i, j);
  }

  /** Step (i, j) when v_i and v_j are at the same distance and the search found f: the
      certificate records f under (v_i, v_j). */
  lemma CertificadoComPar(cert: map<Par, Mapa>, g: Grafo, u: Vertice, vs: seq<Vertice>, dist: Vertice -> Option<nat>,
                          comps: Par -> seq<Mapa>, vizs: Par -> seq<Mapa>, i: nat, j: nat, f: Mapa)
    requires i < j < |vs| && dist(vs[i]) == dist(vs[j])
    requires BuscaDoPar(g, u, vs[i], vs[j], comps, vizs) == Some(f)
    requires CertificadoAte(cert, g, u, vs, dist, comps, vizs, i, j)
    ensures CertificadoAte(cert[(vs[i], vs[j]) := f], g, u, vs, dist, comps, vizs, i, j + 1)
  {
    ComParChaves(cert, vs, dist, i, j, f);
    ComParValores(cert, g, u, vs[i], vs[j], comps, vizs, f);
    ComParBuscas(g, u, vs, dist, comps, vizs, i, j);
  }

  /** Recording (v_i, v_j) at step (i, j) gives the keys up to step (i, j + 1). */
  lemma ComParChaves(cert: map<Par, Mapa>, vs: seq<Vertice>, dist: Vertice -> Option<nat>, i: nat, j: nat, f: Mapa)
    requires i < j < |vs| && dist(vs[i]) == dist(vs[j])
    requires cert.Keys == ParesAte(vs, dist, i, j)
    ensures cert[(vs[i], vs[j]) := f].Keys == ParesAte(vs, dist, i, j + 1)
  {
    ParesAteAvanca(vs, dist, i, j);
    assert cert[(vs[i], vs[j]) := f].Keys == cert.Keys + {(vs[i], vs[j])};
  }

  /** Recording f under (a, b) keeps every entry equal to its search result. */
  lemma ComParValores(cert: map<Par, Mapa>, g: Grafo, u: Vertice, a: Vertice, b: Vertice,
                      comps: Par -> seq<Mapa>, vizs: Par -> seq<Mapa>, f: Mapa)
    requires BuscaDoPar(g, u, a, b, comps, vizs) == Some(f)
    requires forall p :: p in cert ==> BuscaDoPar(g, u, p.0, p.1, comps, vizs) == Some(cert[p])
    ensures forall p :: p in cert[(a, b) := f] ==> BuscaDoPar(g, u, p.0, p.1, comps, vizs) == Some(cert[(a, b) := f][p])
  {
    var novo := cert[(a, b) := f];
    forall p | p in novo
      ensures BuscaDoPar(g, u, p.0, p.1, comps, vizs) == Some(novo[p])
    {
      if p != (a, b) {
        assert p in cert && novo[p] == cert[p];
      }
    }
  }

  /** When the search for (v_i, v_j) succeeds, every search up to step (i, j + 1) has. */
  lemma ComParBuscas(g: Grafo, u: Vertice, vs: seq<Vertice>, dist: Vertice -> Option<nat>,
                     comps: Par -> seq<Mapa>, vizs: Par -> seq<Mapa>, i: nat, j: nat)
    requires i < j < |vs|
    requires BuscaDoPar(g, u, vs[i], vs[j], comps, vizs).Some?
    requires forall a, b :: 0 <= a < b < |vs| && (a < i || (a == i && b < j)) && dist(vs[a]) == dist(vs[b]) ==>
               BuscaDoPar(g, u, vs[a], vs[b], comps, vizs).Some?
    ensures forall a, b :: 0 <= a < b < |vs| && (a < i || (a == i && b < j + 1)) && dist(vs[a]) == dist(vs[b]) ==>
              BuscaDoPar(g, u, vs[a], vs[b], comps, vizs).Some?
  {
    forall a, b | 0 <= a < b < |vs| && (a < i || (a == i && b < j + 1)) && dist(vs[a]) == dist(vs[b])
      ensures BuscaDoPar(g, u, vs[a], vs[b], comps, vizs).Some?
    {
      if !(a == i && b == j) {
        assert a < i || (a == i && b < j);
      }
    }
  }

  /** Line 140: the search for the pairs (u, a) and (u, b). */
  method BuscarPar(g: Grafo, u: Vertice, a: Vertice, b: Vertice, comps: Par -> seq<Mapa>, vizs: Par -> seq<Mapa>)
    returns (r: Option<Mapa>)
    ensures r == BuscaDoPar(g, u, a, b, comps, vizs)
  {
    r := BuscarAutomorfismoEntrePares(g, u, a, u, b, comps((a, b)), vizs((a, b)));
  }

  /** The inner loop (lines 136-148) for row i: the pairs (v_i, v_j), j > i, in turn. */
  method CompararComOsSeguintes(g: Grafo, u: Vertice, vs: seq<Vertice>, dist: Vertice -> Option<nat>,
                                comps: Par -> seq<Mapa>, vizs: Par -> seq<Mapa>, i: nat, cert0: map<Par, Mapa>)
    returns (r: Option<map<Par, Mapa>>)
    requires i < |vs|
    requires CertificadoAte(cert0, g, u, vs, dist, comps, vizs, i, i + 1)
    ensures r.None? ==> exists b :: i < b < |vs| && dist(vs[i]) == dist(vs[b]) && BuscaDoPar(g, u, vs[i], vs[b], comps, vizs).None?
    ensures r.Some? ==> CertificadoAte(r.value, g, u, vs, dist, comps, vizs, i + 1, 0)
  {
    var certificado := cert0;
    var j := i + 1;
    while j < |vs|
      invariant i + 1 <= j <= |vs|
      invariant CertificadoAte(certificado, g, u, vs, dist, comps, vizs, i, j)
    {
      var dI := dist(vs[i]);
      var dJ := dist(vs[j]);
      if dI == dJ {
        var automorfismo := BuscarPar(g, u, vs[i], vs[j], comps, vizs);
        if automorfismo.None? {
          assert i < j < |vs| && dist(vs[i]) == dist(vs[j]) && BuscaDoPar(g, u, vs[i], vs[j], comps, vizs).None?;
          return None;
        }
        CertificadoComPar(certificado, g, u, vs, dist, comps, vizs, i, j, automorfismo.value);
        certificado := certificado[(vs[i], vs[j]) := automorfismo.value];
      } else {
        CertificadoSemPar(certificado, g, u, vs, dist, comps, vizs, i, j);
      }
      j := j + 1;
    }
    ParesAteLinha(vs, dist, i);
    return Some(certificado);
  }

  /** The double loop of lines 135-150 over `vs` with basepoint u: None (False) as soon as a
      pair at equal distance has no automorphism; otherwise the certificate. */
  method CompararPares(g: Grafo, u: Vertice, vs: seq<Vertice>, dist: Vertice -> Option<nat>,
                       comps: Par -> seq<Mapa>, vizs: Par -> seq<Mapa>)
    returns (r: Option<map<Par, Mapa>>)
    ensures r.None? <==> exists a, b :: 0 <= a < b < |vs| && dist(vs[a]) == dist(vs[b]) &&
                                        BuscaDoPar(g, u, vs[a], vs[b], comps, vizs).None?
    ensures r.Some? ==> r.value.Keys == ParesEquidistantes(vs, dist)
    ensures r.Some? ==> forall p :: p in r.value ==> BuscaDoPar(g, u, p.0, p.1, comps, vizs) == Some(r.value[p])
  {
    var certificado: map<Par, Mapa> := map[];
    var i := 0;
    while i < |vs|
      invariant 0 <= i <= |vs|
      invariant CertificadoAte(certificado, g, u, vs, dist, comps, vizs, i, 0)
    {
      ParesAteLinha(vs, dist, i);
      var linha := CompararComOsSeguintes(g, u, vs, dist, comps, vizs, i, certificado);
      if linha.None? {
        return None;
      }
      certificado := linha.value;
      i := i + 1;
    }
    return Some(certificado);
  }

  /** `checar_distancia_transitividade(n, k, l)`: the graph (n, k, l), the basepoint 0^k and
      the tuples of `v_vec`; `dist` gives the shortest-path length from the basepoint, `None`
      for 'INF', so two unreachable tuples count as being at the same distance. Every map in
      the certificate passes the check on the graph, fixes the basepoint and sends v_i to v_j. */
  method ChecarDistanciaTransitividade(n: nat, k: nat, l: nat, dist: Vertice -> Option<nat>,
                                       comps: Par -> seq<Mapa>, vizs: Par -> seq<Mapa>)
    returns (r: Option<map<Par, Mapa>>)
    ensures r.None? <==> exists a, b :: 0 <= a < b < |Alvos(k, l)| && dist(Alvos(k, l)[a]) == dist(Alvos(k, l)[b]) &&
                                        BuscaDoPar(GrafoDe(n, k, l), Zeros(k), Alvos(k, l)[a], Alvos(k, l)[b], comps, vizs).None?
    ensures r.Some? ==> r.value.Keys == ParesEquidistantes(Alvos(k, l), dist)
    ensures r.Some? ==> forall p :: p in r.value ==>
              BuscaDoPar(GrafoDe(n, k, l), Zeros(k), p.0, p.1, comps, vizs) == Some(r.value[p]) &&
              PreservaAdjacencia(r.value[p], GrafoDe(n, k, l)) &&
              Zeros(k) in r.value[p] && r.value[p][Zeros(k)] == Zeros(k) && p.0 in r.value[p] && r.value[p][p.0] == p.1
  {
    var g := ConstruirGrafo(n, k, l);
    var u := Zeros(k);
    var vs := Alvos(k, l);
    r := CompararPares(g, u, vs, dist, comps, vizs);
    if r.Some? {
      forall p | p in r.value
        ensures PreservaAdjacencia(r.value[p], g) && u in r.value[p] && r.value[p][u] == u &&
                p.0 in r.value[p] && r.value[p][p.0] == p.1
      {
        ParesEquidistantesMembros(vs, dist, p);
        var a, b :| 0 <= a < b < |vs| && p == (vs[a], vs[b]) && dist(vs[a]) == dist(vs[b]);
        AlvosCorretos(k, l);
        ResultadoDaBuscaCorreto(g, u, p.0, u, p.1, comps(p), vizs(p));
      }
    }
  }

  // ---------------------------------------------------------------------------
  // Formatting a certificate (automorfismos.py:152-171)
  // ---------------------------------------------------------------------------

  /** The pairs (str_u, str_v) of one automorphism (lines 164-168), one per vertex. */
  method ParesDeTexto(f: Mapa) returns (pares: seq<ParDeTextos>)
    ensures |pares| == |f.Keys|
    ensures ParesDe(f, pares)
  {
    pares := [];
    var restam := f.Keys;
    while restam != {}
      invariant restam <= f.Keys
      invariant |pares| + |restam| == |f.Keys|
      invariant forall p :: p in pares <==> exists w :: w in f && w !in restam && p == (Juntar(w), Juntar(f[w]))
      decreases restam
    {
      var w :| w in restam;
      var strU := Juntar(w);
      var strV := Juntar(f[w]);
      pares := pares + [(strU, strV)];
      restam := restam - {w};
    }
  }

  /** d is the formatted form of f: its keys are the strings of the keys of f, and each key
      holds the string of the image of a vertex whose string it is. */
  ghost predicate FormatoDe(f: Mapa, d: map<Texto, Texto>)
  {
    (forall s :: s in d <==> exists w :: w in f && Juntar(w) == s) &&
    (forall s :: s in d ==> exists w :: w in f && Juntar(w) == s && d[s] == Juntar(f[w]))
  }

  /** The pairs of one automorphism, in any order, as the formatted form needs them. */
  ghost predicate ParesDe(f: Mapa, ps: seq<ParDeTextos>)
  {
    forall p :: p in ps <==> exists w :: w in f && p == (Juntar(w), Juntar(f[w]))
  }

  /** A dict built from the pairs of f, in whatever order, is the formatted form of f. */
  lemma FormatoDePares(f: Mapa, ps: seq<ParDeTextos>)
    requires ParesDe(f, ps)
    ensures FormatoDe(f, DictDePares(ps))
  {
    var d := DictDePares(ps);
    DictDeParesCorreto(ps);
    forall s
      ensures s in d <==> exists w :: w in f && Juntar(w) == s
    {
      if s in d {
        var i :| 0 <= i < |ps| && ps[i].0 == s;
        assert ps[i] in ps;
      }
      if exists w :: w in f && Juntar(w) == s {
        var w :| w in f && Juntar(w) == s;
        assert (Juntar(w), Juntar(f[w])) in ps;
        var i :| 0 <= i < |ps| && ps[i] == (Juntar(w), Juntar(f[w]));
      }
    }
    forall s | s in d
      ensures exists w :: w in f && Juntar(w) == s && d[s] == Juntar(f[w])
    {
      assert (s, d[s]) in ps;
    }
  }

  /** Sorting keeps the pairs of f. */
  lemma OrdenarMantemPares(f: Mapa, pares: seq<ParDeTextos>)
    requires ParesDe(f, pares)
    ensures ParesDe(f, Ordenar(pares))
  {
    OrdenarCorreto(pares);
    forall p
      ensures p in Ordenar(pares) <==> p in pares
    {
      assert p in Ordenar(pares) <==> p in multiset(Ordenar(pares));
      assert p in pares <==> p in multiset(pares);
    }
  }

  /** `dict(sorted(pares))` is the formatted form of the automorphism. */
  lemma FormatoDoDict(f: Mapa, pares: seq<ParDeTextos>)
    requires ParesDe(f, pares)
    ensures FormatoDe(f, DictDePares(Ordenar(pares)))
  {
    OrdenarMantemPares(f, pares);
    FormatoDePares(f, Ordenar(pares));
  }

  /** With every coordinate below 10 the formatted dict has one entry per vertex: the string
      of each vertex is a key holding the string of its image, and no two vertices share one. */
  lemma FormatoDigitosSimples(f: Mapa, d: map<Texto, Texto>)
    requires FormatoDe(f, d)
    requires forall w :: w in f ==> DigitosSimples(w)
    ensures forall w :: w in f ==> Juntar(w) in d && d[Juntar(w)] == Juntar(f[w])
    ensures forall w1, w2 :: w1 in f && w2 in f && Juntar(w1) == Juntar(w2) ==> w1 == w2
  {
    forall w1, w2 | w1 in f && w2 in f && Juntar(w1) == Juntar(w2)
      ensures w1 == w2
    {
      JuntarInjetivo(w1, w2);
    }
  }

  /** `formatar_automorfismos(certificado)`: the same keys, each automorphism turned into a
      dict of digit strings built from its pairs in sorted order (so that, where two vertices
      give the same string, the greatest image string stays; see DictOrdenadoGuardaOMaior). */
  method FormatarAutomorfismos(certificado: map<Par, Mapa>) returns (fmt: map<Par, map<Texto, Texto>>)
    ensures fmt.Keys == certificado.Keys
    ensures forall par :: par in fmt ==> FormatoDe(certificado[par], fmt[par])
    ensures forall par :: par in fmt ==>
              exists ps :: ParesDe(certificado[par], ps) && |ps| == |certificado[par].Keys| &&
                fmt[par] == DictDePares(Ordenar(ps))
  {
    fmt := map[];
    var restam := certificado.Keys;
    while restam != {}
      invariant restam <= certificado.Keys
      invariant fmt.Keys == certificado.Keys - restam
      invariant forall par :: par in fmt ==> FormatoDe(certificado[par], fmt[par])
      invariant forall par :: par in fmt ==>
                  exists ps :: ParesDe(certificado[par], ps) && |ps| == |certificado[par].Keys| &&
                    fmt[par] == DictDePares(Ordenar(ps))
      decreases restam
    {
      var par :| par in restam;
      var pares := ParesDeTexto(certificado[par]);
      var ords := Ordenar(pares);
      FormatoDoDict(certificado[par], pares);
      fmt := fmt[par := DictDePares(ords)];
      restam := restam - {par};
    }
  }

  /** The outcome of the search as automorfismos.py:39-94 is written. */
  datatype Desfecho = Devolve(resultado: Option<Mapa>) | ErroDeAtributo

  /** As written, line 89 checks the candidate against `g.graph`, an attribute a GrafoTimbral
      does not have (its graph is `g.grafo`): the decomposed branch raises AttributeError at
      its first candidate and returns False only when it has none. */
  function BuscaComoEscrita(g: Grafo, u: Vertice, v: Vertice, x: Vertice, y: Vertice, comps: seq<Mapa>, vizs: seq<Mapa>): Desfecho
  {
    if SemVizinhosEmComum(g, u, v, x, y) then Devolve(ResultadoDaBusca(g, u, v, x, y, comps, vizs))
    else if |CandidatosCompostos(comps, vizs, u, v, x, y)| == 0 then Devolve(None)
    else ErroDeAtributo
  }

  /** Whenever the pair has a common neighbour and an automorphism is there to be found, the
      search as written raises instead of returning it. */
  lemma BuscaComoEscritaFalha(g: Grafo, u: Vertice, v: Vertice, x: Vertice, y: Vertice, comps: seq<Mapa>, vizs: seq<Mapa>)
    requires !SemVizinhosEmComum(g, u, v, x, y)
    requires ResultadoDaBusca(g, u, v, x, y, comps, vizs).Some?
    ensures BuscaComoEscrita(g, u, v, x, y, comps, vizs) == ErroDeAtributo
    ensures BuscaComoEscrita(g, u, v, x, y, comps, vizs) != Devolve(ResultadoDaBusca(g, u, v, x, y, comps, vizs))
  {
  }
}
