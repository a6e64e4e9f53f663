# GrafosTimbrais in Dafny

This project models GrafosTimbrais, a small Python library for **timbral graphs**. Each
vertex of the timbral graph (n, k, l) is a tuple of length k over 0..n-1. Two vertices are
adjacent exactly when they agree in exactly l coordinates.

The model covers four source files:

- `grafo_timbral.py`: the `GrafoTimbral` class. It covers:
  - the Hamming distance and the coincidence index;
  - the vertex generator and the neighbour generator;
  - the construction of the graph;
  - the `hamiltoniano` test;
  - the recursive construction of a Hamiltonian cycle in the binary graphs (2, k, l).
- `automorfismos.py`: the automorphism check and the search for an automorphism sending a
  pair of vertices to another. It also covers the driver that checks distance-transitivity
  on the pairs (0^k, 0^c 1^(k-c)), and the formatting of the certificate into strings.
- `automorphisms.py`: the English twin of `automorfismos.py`. Its pair search always uses
  the graph built from its module constants.
- `clique_number.py`: the backtracking search for a matrix of k - 1 rows of tuples in which
  every tuple agrees in exactly one coordinate with every tuple of every earlier row.
  The search takes a `Reading` of line 60: `AsWritten` follows the code, `Guarded` is the
  corrected set of forbidden pairs described under "## Findings".

How the source maps onto Dafny:

- Vertices are `seq<nat>`.
- A graph is the value `Grafo(nos, arestas)`, a set of vertices and a set of ordered edge
  pairs (a networkx `Graph` is undirected, so both orientations are present).
- Python dicts are `map`s.
- Generators are functions that return the sequence of what they yield, in order.
- Loops that update variables are methods with loop invariants, each proved against the
  function or predicate that specifies it.

Modules and files:

| file | module | models |
|---|---|---|
| `wrappers.dfy` | `Wrappers` | `Option` |
| `colecoes.dfy` | `Colecoes` | sequences without repetition, their element sets |
| `grafo_timbral.dfy` | `GrafoTimbral` | `grafo_timbral.py:30-142` |
| `ciclo_hamiltoniano.dfy` | `CicloHamiltoniano` | `grafo_timbral.py:144-237` |
| `formatacao.dfy` | `Formatacao` | `str`, `''.join`, `sorted` and `dict` as `formatar_automorfismos` uses them |
| `automorfismos.dfy` | `Automorfismos` | `automorfismos.py:21-171` |
| `automorphisms.dfy` | `Automorphisms` | `automorphisms.py:6-129` |
| `clique_number.dfy` | `CliqueNumber` | `clique_number.py:2-81` |

## Model

| member | source | states |
|---|---|---|
| GrafoTimbral.DistanciaDeHamming | grafo_timbral.py:121-131 | computes the number of coordinates at which two tuples of length k differ; its properties are the lemma rows below |
| GrafoTimbral.IndiceDeCoincidencia | grafo_timbral.py:133-142 | computes k minus the Hamming distance; `HammingLimitada` proves it counts the agreeing coordinates |
| GrafoTimbral.ConcordanciasMaisDiscordancias | grafo_timbral.py:131 | agreements plus disagreements of two tuples of equal length make up their length |
| GrafoTimbral.HammingLimitada | grafo_timbral.py:121-142 | the Hamming distance lies in 0..k; the coincidence index is the number of agreeing coordinates; index plus distance is k |
| GrafoTimbral.HammingSimetrica | grafo_timbral.py:121-131 | the Hamming distance is symmetric |
| GrafoTimbral.HammingZeroSseIguais | grafo_timbral.py:121-131 | the Hamming distance is 0 exactly when the two vertices are equal |
| GrafoTimbral.ConcordanciasTotais | grafo_timbral.py:133-142 | the coincidence index is k exactly when the two vertices are equal |
| GrafoTimbral.AdjacenciaSimetrica | grafo_timbral.py:103-119 | the adjacency rule (exactly l agreements) is symmetric |
| GrafoTimbral.GerarVertices | grafo_timbral.py:71-88 | computes the sequence `gerar_vertices` yields, by the same recursion over the tuple's prefix; `GerarVerticesCorreto` states what it holds |
| GrafoTimbral.GerarVerticesCorreto | grafo_timbral.py:71-88 | `gerar_vertices` yields n^k tuples, exactly the tuples of length k over 0..n-1, in strictly increasing lexicographic order and without repetition |
| GrafoTimbral.VerticesDeCorreto | grafo_timbral.py:71-88 | the vertex set holds exactly the tuples of length k over 0..n-1, and there are n^k of them |
| GrafoTimbral.GerarVizinhos | grafo_timbral.py:90-119 | computes the sequence `gerar_vizinhos(u)` yields, choosing the agreeing positions and the changed values in the source's order; `GerarVizinhosCorreto` states what it holds |
| GrafoTimbral.GerarVizinhosCorreto | grafo_timbral.py:90-119 | `gerar_vizinhos(u)` yields exactly the vertices agreeing with u in l coordinates, without repetition; there are C(k, l)·(n-1)^(k-l) of them, and none when l > k |
| GrafoTimbral.LigarVizinhos | grafo_timbral.py:64-67 | the inner loop adds the neighbours as nodes and adds an edge between the vertex and each neighbour, in both orientations, keeping the earlier edges |
| GrafoTimbral.ConstruirGrafo | grafo_timbral.py:55-69 | the built graph has as nodes exactly the vertices, and as edges exactly the pairs of vertices agreeing in l coordinates |
| GrafoTimbral.GrafoDe | grafo_timbral.py:55-69 | computes the graph (n, k, l) as a comprehension: the vertices, and the ordered pairs of them agreeing in l coordinates; `ConstruirGrafo` is proved equal to it |
| GrafoTimbral.GrafoDeCaracterizado | grafo_timbral.py:55-69 | any node and edge sets with these memberships are the graph (n, k, l) |
| GrafoTimbral.AcimaDeKSemArestas | grafo_timbral.py:103-119 | for l > k the graph has no edges |
| GrafoTimbral.Hamiltoniano | grafo_timbral.py:46-53 | computes `hamiltoniano` as written: false exactly when n = 2 and l = 0 or k - l is even |
| GrafoTimbral.HamiltonianoSemArestas | grafo_timbral.py:46-53 | `hamiltoniano` as written holds for (2, 1, 2), whose graph has two vertices and no edge |
| CicloHamiltoniano.CicloComplementar | grafo_timbral.py:153-162 | `ciclo_complementar` flips the first `limit` coordinates of both ends of every edge and keeps the others |
| CicloHamiltoniano.ComplementoBinario | grafo_timbral.py:158-159 | the complement of a binary vertex is a binary vertex |
| CicloHamiltoniano.ComplementoInvolutivo | grafo_timbral.py:158-159 | complementing twice gives back the vertex |
| CicloHamiltoniano.ComplementoDoCicloInvolutivo | grafo_timbral.py:153-162 | complementing a cycle twice gives back the cycle |
| CicloHamiltoniano.ComplementoPreservaConcordancias | grafo_timbral.py:158-159 | complementing both vertices keeps their number of agreements, so a cycle of the graph is mapped to a cycle of the graph |
| CicloHamiltoniano.ConcordanciasComComplemento | grafo_timbral.py:158-159 | a vertex and its complement up to `limit` agree in \|v\| - limit coordinates |
| CicloHamiltoniano.ParidadeOposta | grafo_timbral.py:187 | for even length, adjacent binary vertices with one agreement have coordinate sums of opposite parity |
| CicloHamiltoniano.CicloCobreTodosOsVertices | grafo_timbral.py:144-148 | the edges of a Hamiltonian cycle start at every binary vertex exactly once |
| CicloHamiltoniano.CicloQuatroHamiltoniano | grafo_timbral.py:166-167 | for k = 2 the 4-cycle 00, 01, 11, 10 is a Hamiltonian cycle of the graph (2, 2, 1) |
| CicloHamiltoniano.PonteEntreBlocos | grafo_timbral.py:200-201 | the joining edge runs from the last vertex of one path to the first vertex of the next |
| CicloHamiltoniano.CaminhosBase | grafo_timbral.py:182-197 | the loop builds the paths P1, P2', P3 and P4' of \|C\| - 1 edges each, edge by edge, as the rule prescribes for the parity of w |
| CicloHamiltoniano.MontagemBase | grafo_timbral.py:200-201 | the four paths joined by their bridges form a Hamiltonian cycle of (2, k, 1) |
| CicloHamiltoniano.ConstruirCicloBase | grafo_timbral.py:164-203 | for l = 1 and even k, the result is a Hamiltonian cycle of (2, k, 1) |
| CicloHamiltoniano.CaminhosGerais | grafo_timbral.py:219-225 | the loop builds the paths P1 and P2' of \|C\| - 1 edges each, as the rule prescribes |
| CicloHamiltoniano.MontagemGeral | grafo_timbral.py:228 | the two paths joined by their bridges form a Hamiltonian cycle of (2, k, l) |
| CicloHamiltoniano.ConstruirCicloGeral | grafo_timbral.py:205-230 | for 2 <= l < k, the result is a Hamiltonian cycle of (2, k, l) |
| CicloHamiltoniano.ConstruirCicloHamiltonianoBinario | grafo_timbral.py:144-237 | when the graph is binary and the corrected `hamiltoniano` holds, the result is a Hamiltonian cycle: 2^k edges, consecutive edges chained, every edge joining vertices with l agreements, every vertex visited once |
| CicloHamiltoniano.CicloExigeHamiltonianoCorrigido | grafo_timbral.py:53 | wherever `hamiltoniano` holds and a Hamiltonian cycle exists, l < k also holds |
| CicloHamiltoniano.CortesNulosValidos | grafo_timbral.py:174 | for every corrected-Hamiltonian binary graph, cutting the first edge at every level is a valid choice of cuts |
| Formatacao.DigitoInjetivo | automorfismos.py:166-167 | distinct digits print distinct characters |
| Formatacao.JuntarInjetivo | automorfismos.py:166-167 | `''.join(str(el) ...)` is injective on tuples of single-digit values |
| Formatacao.JuntarColide | automorfismos.py:166-167 | with two-digit values it is not: (1, 11) and (11, 1) give the same string |
| Formatacao.TextoAteTotal | automorfismos.py:169 | the string order is total |
| Formatacao.TextoAteAntissimetrica | automorfismos.py:169 | the string order is antisymmetric |
| Formatacao.TextoAteTransitiva | automorfismos.py:169 | the string order is transitive |
| Formatacao.ParAteTotal | automorfismos.py:169 | the order on pairs of strings is total |
| Formatacao.ParAteAntissimetrica | automorfismos.py:169 | the order on pairs of strings is antisymmetric |
| Formatacao.ParAteTransitiva | automorfismos.py:169 | the order on pairs of strings is transitive |
| Formatacao.Ordenar | automorfismos.py:169 | computes `sorted(pares)`, by insertion; `OrdenarCorreto` and `OrdenadaUnica` state what it returns |
| Formatacao.OrdenarCorreto | automorfismos.py:169 | `sorted` returns an ordered permutation of its input |
| Formatacao.OrdenadaUnica | automorfismos.py:169 | two ordered permutations of the same pairs are equal, so the sort's result does not depend on how it sorts |
| Formatacao.DictDePares | automorfismos.py:170 | computes `dict(pares)`, adding the pairs in order; `DictDeParesCorreto` states what it holds |
| Formatacao.DictDeParesCorreto | automorfismos.py:170 | `dict(pairs)` has as keys the first components, maps each to a second component paired with it, and the last pair wins |
| Automorfismos.ChecarAutomorfismo | automorfismos.py:21-37 | returns True exactly when every ordered pair of keys is adjacent in g exactly when its image is |
| Automorfismos.IdentidadeAceita | automorfismos.py:21-37 | the identity on any vertex set passes the check |
| Automorfismos.RestricaoAceita | automorfismos.py:21-37 | a restriction of a map that passes the check also passes it |
| Automorfismos.ComposicaoAceita | automorfismos.py:21-37 | the composition of two maps that pass the check passes it |
| Automorfismos.AceitaNaoInjetiva | automorfismos.py:21-37 | the check also accepts a map that is not injective |
| Automorfismos.VizinhosEmComumTimbral | automorfismos.py:53-54 | in a timbral graph the common neighbours of u and v are the vertices agreeing with each of them in l coordinates |
| Automorfismos.ParticaoDosVertices | automorfismos.py:53-57 | common neighbours, other vertices and {u, v} cover the vertices; the first two are disjoint and the others exclude u and v |
| Automorfismos.SemLacos | grafo_timbral.py:103-119 | for l != k the timbral graph has no loops |
| Automorfismos.PrimeiroQuePassaCaracterizado | automorfismos.py:70-76 | the candidate loop returns None exactly when no candidate passes, and otherwise the first candidate that does |
| Automorfismos.CandidatosCompostosCaracterizados | automorfismos.py:81-87 | the nested loops try exactly the maps obtained by overwriting an isomorphism of the common neighbourhoods with one of the complements and pinning u, v |
| Automorfismos.ResultadoDaBusca | automorfismos.py:39-94 | computes the search's result as the first passing map among the candidates of the branch the common neighbourhood selects; `ResultadoDaBuscaCorreto` states what it returns |
| Automorfismos.ResultadoDaBuscaCorreto | automorfismos.py:39-94 | the search returns None exactly when no candidate passes; otherwise a map that passes the check, sends v to y and, when u != v, u to x, and is the first passing candidate |
| Automorfismos.EncaixarPreservaDentroDasPartes | automorfismos.py:78-88 | a stitched map keeps adjacency within the complement and within the common neighbourhood |
| Automorfismos.Sobrescrever | automorfismos.py:84-85 | the overwrite loop gives a map whose keys are the union, with the values of the overwriting map where it has them |
| Automorfismos.BuscarAutomorfismoEntrePares | automorfismos.py:39-94 | the search loop returns the search result; any map it returns passes the check and sends v to y and, when u != v, u to x |
| Automorfismos.BuscaComoEscritaFalha | automorfismos.py:89 | as written, the stitching branch raises `AttributeError` on its first candidate, so no map is returned |
| Automorfismos.AlvoCorreto | automorfismos.py:129-131 | 0^c 1^(k-c) is a binary vertex agreeing with 0^k in c coordinates |
| Automorfismos.AlvosCorretos | automorfismos.py:131 | `v_vec` has one vertex per c in 0..k-1 other than l, in order; each one is binary, differs from 0^k and agrees with it in c coordinates, and there are no repeats |
| Automorfismos.ParesEquidistantesMembros | automorfismos.py:135-139 | every certified pair is a pair (v_vec[i], v_vec[j]) with i < j at equal distance from 0^k |
| Automorfismos.CompararPares | automorfismos.py:133-150 | the pair loops return None exactly when some equidistant pair has no automorphism; otherwise the certificate's keys are exactly the equidistant pairs, each mapped to its search result |
| Automorfismos.ChecarDistanciaTransitividade | automorfismos.py:113-150 | on the graph (n, k, l), every certified map passes the check, fixes 0^k and sends the first vertex of its pair to the second |
| Automorfismos.ParesDeTexto | automorfismos.py:164-168 | the inner loop produces one pair of strings per key of the map |
| Automorfismos.FormatoDoDict | automorfismos.py:169-170 | the dict of the sorted pairs is the string form of the map |
| Automorfismos.FormatoDigitosSimples | automorfismos.py:166-170 | with single-digit values every vertex has its own string key, mapped to the string of its image |
| Formatacao.DictOrdenadoGuardaOMaior | automorfismos.py:169-170 | in `dict(sorted(pares))` each key holds the image of one of its pairs, and the greatest image string when several vertices give the same key |
| Automorfismos.FormatarAutomorfismos | automorfismos.py:152-171 | the result has the certificate's keys; each is mapped to the string form of its map, and that form is `dict(sorted(pares))` for the map's pairs, one per vertex |
| Automorphisms.CheckIso | automorphisms.py:11-19 | returns True exactly when every ordered pair of keys is adjacent exactly when its image is |
| Automorphisms.TestDistTransPairs | automorphisms.py:21-64 | the pair search on the graph (N, K, L) = (4, 3, 1); any map it returns passes the check there and sends v to y and, when u != v, u to x |
| Automorphisms.TestDistTrans | automorphisms.py:74-99 | takes the pairs and distances in (n, k, l), searches in (4, 3, 1), and certifies maps that pass the check in (4, 3, 1) |
| Automorphisms.GrafoDaBuscaDifere | automorphisms.py:23 | the graph searched, (4, 3, 1), differs from the graph the pairs come from, e.g. (2, 3, 1) |
| Automorphisms.FormatIsos | automorphisms.py:119-129 | the result has the keys of its input; each is mapped to the string form of its map, and that form is `dict(sorted(pares))` for the map's pairs, one per vertex |
| CliqueNumber.AdjToAll | clique_number.py:2-8 | returns True exactly when every tuple of the list agrees with u in l of the first \|u\| positions |
| CliqueNumber.AdjacentToAllConcat | clique_number.py:2-8 | being adjacent to all of a concatenation is being adjacent to all of each part |
| CliqueNumber.AdjacentToAllTimbral | clique_number.py:2-8 | for tuples of one length, this is adjacency in the timbral graph to each of them |
| CliqueNumber.FlattenMembers | clique_number.py:29 | the flattened rows hold exactly the tuples of the rows |
| CliqueNumber.Forbidden | clique_number.py:14-23 | returns exactly the pairs (a, b), a < i, b < k - 1, whose tuple holds el at position pos |
| CliqueNumber.ForbiddenInRow | clique_number.py:19-21 | the inner loop adds exactly the matching pairs of row i_lin |
| CliqueNumber.TupleOkStep | clique_number.py:41-46 | extending tup by an admissible value keeps the per-position constraints |
| CliqueNumber.RecBuildTup | clique_number.py:26-46 | computes, in order, the tuples `rec_build_tup` yields, the free values taken in increasing order; `RecBuildTupOk` states what they satisfy |
| CliqueNumber.RecBuildTupOk | clique_number.py:26-46 | every tuple `rec_build_tup` yields extends its prefix to length k - 1 and agrees in one coordinate with every tuple of the complete rows. Each appended value lies in 1..k-1, is new in the tuple, differs from that position of the row's tuples and of the forbidden tuples, and never agrees again with a tuple it already agreed with |
| CliqueNumber.NewTupleFromTupleOk | clique_number.py:57-62 | the tuple yielded for position j of a row starts with `init_tup`, agrees in one coordinate with every earlier tuple of the matrix, and differs past its prefix from the row's earlier tuples |
| CliqueNumber.RowOkStep | clique_number.py:62-64 | extending the row by a yielded tuple keeps the row constraints |
| CliqueNumber.RecBuildLin | clique_number.py:49-64 | computes, in order, the rows `rec_build_lin` yields, with line 60 read as given; `RecBuildLinOk` states what they satisfy |
| CliqueNumber.RecBuildLinOk | clique_number.py:49-64 | every row `rec_build_lin` yields extends its prefix to k - 1 tuples of length k - 1, each new tuple fit for the earlier rows and the row so far |
| CliqueNumber.CompleteRowsExtend | clique_number.py:74 | a yielded row completes the matrix by one row |
| CliqueNumber.RecBuildMtx | clique_number.py:67-78 | computes `rec_build_mtx(m)`: m once it has k - 1 rows, otherwise the first result reached through a yielded row, or None; `RecBuildMtxOk` and `FirstCompleteBacktracks` state what it returns |
| CliqueNumber.RecBuildMtxOk | clique_number.py:67-78 | a result of `rec_build_mtx(m)` extends m to k - 1 complete rows, each new row fit for the rows before it |
| CliqueNumber.FirstCompleteOk | clique_number.py:73-78 | the same, for the loop over the yielded rows |
| CliqueNumber.FirstCompleteBacktracks | clique_number.py:73-78 | the loop returns None exactly when every yielded row leads to None; otherwise the result reached through the first row that leads to one |
| CliqueNumber.FindL1Clique | clique_number.py:10-81 | computes `find_l1_clique(k)` from the first row `[(i,)*(k-1) for i in 1..k-1]`; `FindL1CliqueOk` states what it returns |
| CliqueNumber.FindL1CliqueOk | clique_number.py:11-12 | a result has k - 1 rows; the first is `[(i,)*(k-1) for i in 1..k-1]` and every later row is fit for the rows before it |
| CliqueNumber.CliqueAcrossRows | clique_number.py:29-31 | in such a matrix any two tuples from different rows agree in exactly one coordinate, that is, they are adjacent in the timbral graph with l = 1 |
| CliqueNumber.FindL1CliqueTwo | clique_number.py:67-70 | for k = 2 the result is the first row alone, [[(1,)]], whichever way line 60 is read |
| CliqueNumber.FindL1CliqueThree | clique_number.py:57-60 | for k = 3 the search as written finds no second row, so the result is None |
| CliqueNumber.InitForbiddenAsWritten | clique_number.py:57-60 | as written, `frb` for row 1 with k = 3 is {(0, 0), (0, 1)}; the tuple (2, 2) at (0, 1) agrees with `init_tup` = (1,) nowhere |
| CliqueNumber.InitForbiddenGuarded | clique_number.py:57-60 | read as guarded, `frb` holds exactly the pairs whose tuple agrees with `init_tup` at position 0, or at position 1 where `init_tup` has one |
| CliqueNumber.CliqueThreeExists | clique_number.py:29-31 | for k = 3 the matrix with second row ((1, 2), (2, 1)) is fit row by row |
| CliqueNumber.FindL1CliqueThreeGuarded | clique_number.py:57-81 | read as guarded, the search for k = 3 returns that matrix |

## Left out

- networkx is not modelled; its calls become inputs or literals:
  - A graph is the value `Grafo`; node order and adjacency views are not modelled.
  - `nx.find_cycle` for k = 2 (`grafo_timbral.py:167`) is the literal 4-cycle 00, 01, 11, 10. Any 4-cycle of that graph serves the construction.
  - `nx.vf2pp_all_isomorphisms` (`automorfismos.py:66`, `:82`) becomes input sequences of maps. The results hold for any enumeration; that the maps are isomorphisms is not assumed.
  - `nx.shortest_path_length` (`automorfismos.py:97-111`) becomes an input oracle `Vertice -> Option<nat>`, where None stands for `'INF'`.
- `rd.randint` (`grafo_timbral.py:174`, `:213`) becomes the input sequence `cortes`, one cut per recursion level.
- `vizinhos_em_comum` (`automorfismos.py:53`) is not defined by the `GrafoTimbral` class in `grafo_timbral.py`. `get_common_neighbors` lives in `timbral_graph`, which is not part of this model. Both are taken to be the intersection of the two neighbourhoods. `TimbralGraph(N, K, L)` is taken to be the graph `GrafoDe(4, 3, 1)`.
- The `print` calls are left out, along with the CSV and file export:
  - `exportar_automorfismos_para_planilha`, `output_iso_to_file` and `output_isos_to_excel`;
  - the `__main__` blocks.
- Dict and set order: maps are unordered.
  - The order in which `checar_automorfismo` visits keys does not change its result.
  - `checar_distancia_transitividade` visits the pairs in the source's order.
  - `rec_build_tup` iterates the free values of `set(range(1, k)) - fbd_elems` in increasing order.
- CicloHamiltoniano.ConstruirCicloHamiltonianoBinario requires the corrected `hamiltoniano` (see Findings). It also requires `cortes` to be valid random cuts (`CortesValidos`), which `randint` always meets.
- Automorfismos.BuscarAutomorfismoEntrePares, Automorfismos.CompararPares and CicloHamiltoniano.ConstruirCicloBase: their inner loops are separate methods in the model. The source's loop order is kept.
- CliqueNumber.FindL1Clique: requires k >= 2. For k = 1, `rec_build_lin` yields an empty row at every level and `rec_build_mtx` recurses without end. For k = 0 the search yields no row and returns None; that case is not modelled.
- Automorfismos.FormatarAutomorfismos and Automorphisms.FormatIsos: a `map` has no order, so the insertion order of each inner dict (sorted, as automorfismos.py:159 promises) is not represented. Which image stays when two vertices give the same string is stated (`DictOrdenadoGuardaOMaior`).
- CliqueNumber.RecBuildTupOk, CliqueNumber.RecBuildLinOk and CliqueNumber.RecBuildMtxOk state what every yielded result satisfies (soundness). They do not state that every tuple, row or matrix satisfying these constraints is yielded.
- Automorfismos.ChecarDistanciaTransitividade: the source's `if not automorfismo` would also treat an empty dict as failure. The search never returns one, because it always sets u and v.

## Findings

| source | as written | input that shows it | evidently intended | confidence | as-written member | corrected member |
|---|---|---|---|---|---|---|
| grafo_timbral.py:53 | `hamiltoniano` is `not (n == 2 and (l == 0 or (k - l) % 2 == 0))`, which holds for n = 2 with l > k and k - l odd | (n, k, l) = (2, 1, 2): `hamiltoniano` is True, the graph has two vertices and no edge, and `construir_ciclo_hamiltoniano_binario` passes its assert and recurses into `GrafoTimbral(2, 0, 1)` | also require l < k | not executed | GrafoTimbral.HamiltonianoSemArestas | CicloHamiltoniano.ConstruirCicloHamiltonianoBinario |
| automorfismos.py:89 | the stitching branch checks against `g.graph`, which `GrafoTimbral` does not define (its graph is `g.grafo`, line 44) | any pairs with common neighbours and one candidate, e.g. u = x, v = y in a graph where they share a neighbour: `AttributeError` before any map is returned | check against `g.grafo` | not executed | Automorfismos.BuscaComoEscrita | Automorfismos.BuscarAutomorfismoEntrePares |
| automorphisms.py:23 | `test_dist_trans_pairs` builds `TimbralGraph(N, K, L)` from the module constants, not from the n, k, l of `test_dist_trans` | `test_dist_trans(2, 3, 1)` takes its pairs and distances in (2, 3, 1) but searches and checks in (4, 3, 1), which has the vertex (3, 3, 3) | search in `TimbralGraph(n, k, l)` | not executed | Automorphisms.TestDistTrans | Automorfismos.ChecarDistanciaTransitividade |
| clique_number.py:60 | for the first tuple of every row, `frb` also gets the pairs holding i + 1 at position 1, as if `init_tup` always fixed position 1 to i + 1 | k = 3: for row 1 `init_tup` is (1,), the union adds (0, 1) (the tuple (2, 2)), 2 is barred at position 1, and (1, 2), the only possible first tuple, is never tried; `find_l1_clique(3)` returns None although ((1, 1), (2, 2)), ((1, 2), (2, 1)) is a valid matrix | add those pairs only when `init_tup` has a position 1 | not executed | CliqueNumber.FindL1CliqueThree | CliqueNumber.InitForbiddenGuarded |
