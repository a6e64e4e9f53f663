/**
 * automorphisms.py, the English twin of automorfismos.py: the same check, pair search,
 * driver and formatting, with one difference: the pair search always builds the graph from
 * the module constants N, K, L, whatever parameters the driver was called with.
 */
module Automorphisms {

  import opened Wrappers
  import opened GrafoTimbral
  import opened Formatacao
  import opened Automorfismos

  /** The module constants of automorphisms.py:6-8. */
  const N: nat := 4
  const K: nat := 3
  const L: nat := 1

  /** `check_iso(iso, g)`: the same loops as `checar_automorfismo`. */
  method CheckIso(iso: Mapa, g: Grafo) returns (ok: bool)
    ensures ok <==> PreservaAdjacencia(iso, g)
  {
    ok := ChecarAutomorfismo(iso, g);
  }

  /** `test_dist_trans_pairs(u, v, x, y)`: the pair search on the graph (N, K, L), with its
      two VF2 enumerations given; `get_common_neighbors` is taken to be the intersection of
      the two neighbourhoods. */
  method TestDistTransPairs(u: Vertice, v: Vertice, x: Vertice, y: Vertice, comps: seq<Mapa>, vizs: seq<Mapa>)
    returns (r: Option<Mapa>)
    ensures r == ResultadoDaBusca(GrafoDe(N, K, L), u, v, x, y, comps, vizs)
    ensures r.Some? ==> PreservaAdjacencia(r.value, GrafoDe(N, K, L)) && v in r.value && r.value[v] == y &&
                        (u != v ==> u in r.value && r.value[u] == x)
  {
    var g := ConstruirGrafo(N, K, L);
    r := BuscarAutomorfismoEntrePares(g, u, v, x, y, comps, vizs);
  }

  /** `test_dist_trans(n, k, l)`: the basepoint 0^k and the tuples of `v_vec` come from k and l
      and the distances from the graph (n, k, l), but every pair is searched for in the graph
      (N, K, L). */
  method TestDistTrans(n: nat, k: nat, l: nat, dist: Vertice -> Option<nat>,
                       comps: Par -> seq<Mapa>, vizs: Par -> seq<Mapa>)
    returns (r: Option<map<Par, Mapa>>)
    ensures r.None? <==> exists a, b :: 0 <= a < b < |Alvos(k, l)| && dist(Alvos(k, l)[a]) == dist(Alvos(k, l)[b]) &&
                                        BuscaDoPar(GrafoDe(N, K, L), Zeros(k), Alvos(k, l)[a], Alvos(k, l)[b], comps, vizs).None?
    ensures r.Some? ==> r.value.Keys == ParesEquidistantes(Alvos(k, l), dist)
    ensures r.Some? ==> forall p :: p in r.value ==>
              BuscaDoPar(GrafoDe(N, K, L), Zeros(k), p.0, p.1, comps, vizs) == Some(r.value[p]) &&
              PreservaAdjacencia(r.value[p], GrafoDe(N, K, L))
  {
    var g := ConstruirGrafo(N, K, L);
    var u := Zeros(k);
    var vs := Alvos(k, l);
    r := CompararPares(g, u, vs, dist, comps, vizs);
    if r.Some? {
      forall p | p in r.value
        ensures PreservaAdjacencia(r.value[p], g)
      {
        ResultadoDaBuscaCorreto(g, u, p.0, u, p.1, comps(p), vizs(p));
      }
    }
  }

  /** Called with (n, k, l) = (2, 3, 1), `test_dist_trans` takes its pairs and distances from
      the binary graph but searches in the graph (4, 3, 1): the two differ, (3, 3, 3) being a
      vertex of the second only. */
  lemma GrafoDaBuscaDifere()
    ensures [3, 3, 3] in GrafoDe(N, K, L).nos
    ensures [3, 3, 3] !in GrafoDe(2, 3, 1).nos
    ensures GrafoDe(N, K, L) != GrafoDe(2, 3, 1)
  {
    VerticesDeCorreto(N, K);
    VerticesDeCorreto(2, 3);
    assert EhVertice(N, K, [3, 3, 3]);
    assert [3, 3, 3][0] == 3;
    assert !EhVertice(2, 3, [3, 3, 3]);
  }

  /** `format_isos(isos)`: the same loops as `formatar_automorfismos`. */
  method FormatIsos(isos: map<Par, Mapa>) returns (fmt: map<Par, map<Texto, Texto>>)
    ensures fmt.Keys == isos.Keys
    ensures forall par :: par in fmt ==> FormatoDe(isos[par], fmt[par])
    ensures forall par :: par in fmt ==>
              exists ps :: ParesDe(isos[par], ps) && |ps| == |isos[par].Keys| &&
                fmt[par] == DictDePares(Ordenar(ps))
  {
    fmt := FormatarAutomorfismos(isos);
  }
}
