/**
 * The recursive Hamiltonian-cycle builder for binary timbral graphs
 * (`construir_ciclo_hamiltoniano_binario` of grafo_timbral.py). A cycle is a sequence of
 * directed edges; the random cut index of each recursion level is a parameter.
 */
module CicloHamiltoniano {

  import opened Colecoes
  import opened GrafoTimbral

  type Ciclo = seq<Aresta>

  /** The position after i around a cycle of n edges: `(i + 1) % n` for i < n. */
  function Seguinte(i: nat, n: nat): nat
  {
    if i + 1 < n then i + 1 else 0
  }

  // ---------------------------------------------------------------------------
  // What a Hamiltonian cycle of the binary graph (2, k, l) is
  // ---------------------------------------------------------------------------

  /** C is a closed walk through 2^k distinct binary tuples of length k whose every edge joins
      tuples agreeing in exactly l coordinates. */
  ghost predicate EhCicloHamiltoniano(C: Ciclo, k: nat, l: nat)
  {
    |C| == Pot(2, k) &&
    (forall i, j :: 0 <= i < |C| && 0 <= j < |C| && j == Seguinte(i, |C|) ==> C[i].1 == C[j].0) &&
    (forall i {:trigger C[i].0} :: 0 <= i < |C| ==> EhVertice(2, k, C[i].0)) &&
    (forall i {:trigger C[i].1} :: 0 <= i < |C| ==> |C[i].1| == |C[i].0| && Concordancias(C[i].0, C[i].1) == l) &&
    (forall i, j :: 0 <= i < j < |C| ==> C[i].0 != C[j].0)
  }

  /** The vertices where the edges of C start, in order. */
  function Inicios(C: Ciclo): seq<Vertice>
  {
    seq(|C|, i requires 0 <= i < |C| => C[i].0)
  }

  /** A Hamiltonian cycle passes through every vertex of the binary graph exactly once. */
  lemma CicloCobreTodosOsVertices(C: Ciclo, k: nat, l: nat)
    requires EhCicloHamiltoniano(C, k, l)
    ensures Elementos(Inicios(C)) == VerticesDe(2, k)
    ensures SemRepeticao(Inicios(C))
  {
    var s := Inicios(C);
    assert SemRepeticao(s);
    CardinalidadeSemRepeticao(s);
    VerticesDeCorreto(2, k);
    forall v | v in Elementos(s)
      ensures v in VerticesDe(2, k)
    {
      var i :| 0 <= i < |s| && s[i] == v;
    }
    SubconjuntoDeMesmoTamanho(Elementos(s), VerticesDe(2, k));
  }

  /** Every edge of Q joins binary tuples of length k agreeing in exactly l coordinates. */
  ghost predicate ArestasValidas(Q: Ciclo, k: nat, l: nat)
  {
    forall e :: e in Q ==> EhVertice(2, k, e.0) && EhVertice(2, k, e.1) && Concordancias(e.0, e.1) == l
  }

  /** Q walks through the tuples of S in order and then steps to x. */
  ghost predicate CaminhoSobre(Q: Ciclo, S: seq<Vertice>, x: Vertice)
  {
    |Q| == |S| && forall t :: 0 <= t < |S| ==> Q[t] == (S[t], (S + [x])[t + 1])
  }

  /** A path P through S, closed off by a bridge from its last vertex to x. */
  lemma CaminhoComPonte(P: Ciclo, S: seq<Vertice>, x: Vertice)
    requires |S| >= 2 && |P| == |S| - 1
    requires forall t :: 0 <= t < |P| ==> P[t] == (S[t], S[t + 1])
    ensures CaminhoSobre(P + [(P[|P| - 1].1, x)], S, x)
  {
    var Q := P + [(P[|P| - 1].1, x)];
    forall t | 0 <= t < |S|
      ensures Q[t] == (S[t], (S + [x])[t + 1])
    {
      if t < |P| {
        assert Q[t] == P[t];
      }
    }
  }

  /** Two paths, the first stepping onto the start of the second, make one path. */
  lemma CaminhoConcat(Q1: Ciclo, S1: seq<Vertice>, Q2: Ciclo, S2: seq<Vertice>, x: Vertice)
    requires |S2| > 0 && CaminhoSobre(Q1, S1, S2[0]) && CaminhoSobre(Q2, S2, x)
    ensures CaminhoSobre(Q1 + Q2, S1 + S2, x)
  {
    var Q, S := Q1 + Q2, S1 + S2;
    forall t | 0 <= t < |S|
      ensures Q[t] == (S[t], (S + [x])[t + 1])
    {
      if t < |S1| {
        assert Q[t] == Q1[t] && S[t] == S1[t];
        if t + 1 < |S1| {
          assert (S + [x])[t + 1] == S1[t + 1] == (S1 + [S2[0]])[t + 1];
        } else {
          assert (S + [x])[t + 1] == S2[0] == (S1 + [S2[0]])[t + 1];
        }
      } else {
        assert Q[t] == Q2[t - |S1|] && S[t] == S2[t - |S1|];
        assert (S + [x])[t + 1] == (S2 + [x])[t - |S1| + 1];
      }
    }
  }

  /** A path through S that returns to S[0], as a closed walk. */
  lemma CaminhoFechado(Q: Ciclo, S: seq<Vertice>)
    requires |S| > 0 && CaminhoSobre(Q, S, S[0])
    ensures |Q| == |S| && forall t :: 0 <= t < |S| ==> Q[t] == (S[t], S[Seguinte(t, |S|)])
  {
  }

  /** A closed walk through 2^k distinct tuples with valid edges is a Hamiltonian cycle. */
  lemma {:induction false} HamiltonianoPorVertices(C: Ciclo, S: seq<Vertice>, k: nat, l: nat)
    requires |S| > 0 && CaminhoSobre(C, S, S[0])
    requires |S| == Pot(2, k) && SemRepeticao(S) && ArestasValidas(C, k, l)
    ensures EhCicloHamiltoniano(C, k, l)
  {
    CaminhoFechado(C, S);
    assert forall i :: 0 <= i < |C| ==> C[i].0 == S[i];
    forall i | 0 <= i < |C|
      ensures EhVertice(2, k, C[i].0) && EhVertice(2, k, C[i].1) && Concordancias(C[i].0, C[i].1) == l
    {
      assert C[i] in C;
    }
    forall i, j | 0 <= i < j < |C|
      ensures C[i].0 != C[j].0
    {
      assert S[i] != S[j];
    }
  }

  // ---------------------------------------------------------------------------
  // Complementing a cycle (grafo_timbral.py:153-162)
  // ---------------------------------------------------------------------------

  /** `1 if x == 0 else 0` */
  function Inverte(x: nat): nat
  {
    if x == 0 then 1 else 0
  }

  function InverterTodos(v: Vertice): (r: Vertice)
    ensures |r| == |v| && forall i :: 0 <= i < |v| ==> r[i] == Inverte(v[i])
  {
    if |v| == 0 then [] else [Inverte(v[0])] + InverterTodos(v[1..])
  }

  /** The tuple with its first `limit` coordinates flipped and the rest kept. */
  function Complemento(v: Vertice, limit: nat): (r: Vertice)
    ensures |r| == |v|
    ensures forall i :: 0 <= i < |v| ==> r[i] == if i < limit then Inverte(v[i]) else v[i]
  {
    var c := if limit < |v| then limit else |v|;
    InverterTodos(v[..c]) + v[c..]
  }

  /** `ciclo_complementar(C, limit)` as a value: every endpoint of every edge complemented. */
  function ComplementoDoCiclo(C: Ciclo, limit: nat): Ciclo
  {
    seq(|C|, i requires 0 <= i < |C| => (Complemento(C[i].0, limit), Complemento(C[i].1, limit)))
  }

  /** `ciclo_complementar`: appends the complemented image of each edge, in order. */
  method CicloComplementar(C: Ciclo, limit: nat) returns (Cneg: Ciclo)
    ensures |Cneg| == |C|
    ensures forall i :: 0 <= i < |C| ==> Cneg[i] == (Complemento(C[i].0, limit), Complemento(C[i].1, limit))
    ensures Cneg == ComplementoDoCiclo(C, limit)
  {
    Cneg := [];
    var i := 0;
    while i < |C|
      invariant 0 <= i <= |C|
      invariant |Cneg| == i
      invariant forall j :: 0 <= j < i ==> Cneg[j] == (Complemento(C[j].0, limit), Complemento(C[j].1, limit))
    {
      var (u, v) := C[i];
      var uNeg := Complemento(u, limit);
      var vNeg := Complemento(v, limit);
      Cneg := Cneg + [(uNeg, vNeg)];
      i := i + 1;
    }
  }

  lemma ComplementoBinario(v: Vertice, limit: nat)
    requires EhVertice(2, |v|, v)
    ensures EhVertice(2, |v|, Complemento(v, limit))
  {
  }

  /** Complementing a binary tuple twice gives it back. */
  lemma ComplementoInvolutivo(v: Vertice, limit: nat)
    requires EhVertice(2, |v|, v)
    ensures Complemento(Complemento(v, limit), limit) == v
  {
    var r := Complemento(Complemento(v, limit), limit);
    forall i | 0 <= i < |v|
      ensures r[i] == v[i]
    {
    }
  }

  /** Complementing a cycle of binary tuples twice returns the cycle, and keeps its length. */
  lemma ComplementoDoCicloInvolutivo(C: Ciclo, limit: nat)
    requires forall i :: 0 <= i < |C| ==> EhVertice(2, |C[i].0|, C[i].0) && EhVertice(2, |C[i].1|, C[i].1)
    ensures |ComplementoDoCiclo(C, limit)| == |C|
    ensures ComplementoDoCiclo(ComplementoDoCiclo(C, limit), limit) == C
  {
    var D := ComplementoDoCiclo(ComplementoDoCiclo(C, limit), limit);
    forall i | 0 <= i < |C|
      ensures D[i] == C[i]
    {
      ComplementoInvolutivo(C[i].0, limit);
      ComplementoInvolutivo(C[i].1, limit);
    }
  }

  /** Tuples whose positions agree exactly where those of another pair agree have equally many
      agreements. */
  lemma {:induction false} ConcordanciasMesmoPadrao(a: Vertice, b: Vertice, c: Vertice, d: Vertice)
    requires |a| == |b| == |c| == |d|
    requires forall i :: 0 <= i < |a| ==> (a[i] == b[i] <==> c[i] == d[i])
    ensures Concordancias(a, b) == Concordancias(c, d)
  {
    if |a| > 0 {
      ConcordanciasMesmoPadrao(a[1..], b[1..], c[1..], d[1..]);
    }
  }

  /** Agreements of two pairs, position by position. */
  lemma {:induction false} ConcordanciasDePar(p: Vertice, q: Vertice)
    requires |p| == 2 && |q| == 2
    ensures Concordancias(p, q) == (if p[0] == q[0] then 1 else 0) + (if p[1] == q[1] then 1 else 0)
  {
    assert p[1..][1..] == [] && q[1..][1..] == [];
  }

  /** Tuples differing exactly in their first m positions agree in |a| - m. */
  lemma {:induction false} ConcordanciasDiferemNoInicio(a: Vertice, b: Vertice, m: nat)
    requires |a| == |b| && m <= |a|
    requires forall i :: 0 <= i < |a| ==> (a[i] == b[i] <==> i >= m)
    ensures Concordancias(a, b) == |a| - m
  {
    if |a| > 0 {
      ConcordanciasDiferemNoInicio(a[1..], b[1..], if m > 0 then m - 1 else 0);
    }
  }

  /** The same complement applied to two binary tuples keeps their agreements. */
  lemma {:induction false} ComplementoPreservaConcordancias(u: Vertice, v: Vertice, limit: nat)
    requires |u| == |v| && EhVertice(2, |u|, u) && EhVertice(2, |v|, v)
    ensures Concordancias(Complemento(u, limit), Complemento(v, limit)) == Concordancias(u, v)
  {
    ConcordanciasMesmoPadrao(Complemento(u, limit), Complemento(v, limit), u, v);
  }

  /** A binary tuple and its complement agree exactly outside the flipped prefix. */
  lemma {:induction false} ConcordanciasComComplemento(v: Vertice, limit: nat)
    requires EhVertice(2, |v|, v)
    ensures Concordancias(v, Complemento(v, limit)) == if limit <= |v| then |v| - limit else 0
  {
    var c := Complemento(v, limit);
    var m := if limit <= |v| then limit else |v|;
    forall i | 0 <= i < |v|
      ensures v[i] == c[i] <==> i >= m
    {
      assert v[i] < 2;
    }
    ConcordanciasDiferemNoInicio(v, c, m);
  }

  // ---------------------------------------------------------------------------
  // Parity of the coordinate sum
  // ---------------------------------------------------------------------------

  /** `sum(w)` */
  function Soma(v: Vertice): nat
  {
    if |v| == 0 then 0 else v[0] + Soma(v[1..])
  }

  /** `sum(w) % 2 == 1` */
  predicate Impar(v: Vertice)
  {
    Soma(v) % 2 == 1
  }

  /** For binary tuples, the two sums and the number of disagreements add up to an even number. */
  lemma {:induction false} SomaParidade(u: Vertice, v: Vertice)
    requires |u| == |v| && EhVertice(2, |u|, u) && EhVertice(2, |v|, v)
    ensures (Soma(u) + Soma(v) + Discordancias(u, v)) % 2 == 0
  {
    if |u| > 0 {
      SomaParidade(u[1..], v[1..]);
    }
  }

  /** Binary tuples of even length agreeing in exactly one coordinate (so at odd Hamming
      distance) have sums of opposite parity. */
  lemma {:induction false} ParidadeOposta(u: Vertice, v: Vertice)
    requires |u| == |v| && EhVertice(2, |u|, u) && EhVertice(2, |v|, v)
    requires |u| % 2 == 0 && Concordancias(u, v) == 1
    ensures Impar(u) != Impar(v)
  {
    SomaParidade(u, v);
    ConcordanciasMaisDiscordancias(u, v);
    AntecessorDePar(|u|);
    ParidadeDaSoma(Soma(u), Soma(v), Discordancias(u, v));
  }

  lemma ParidadeDaSoma(a: nat, b: nat, d: nat)
    requires (a + b + d) % 2 == 0 && d % 2 == 1
    ensures (a % 2 == 1) != (b % 2 == 1)
  {
  }

  // ---------------------------------------------------------------------------
  // Index arithmetic of the cut (indices modulo the cycle length)
  // ---------------------------------------------------------------------------

  /** Index of the t-th edge after the cut: `(indice_aresta + 1 + t) % len(C)`. */
  function Adiante(idx: nat, t: nat, L: nat): nat
    requires idx < L && t < L
  {
    if idx + 1 + t < L then idx + 1 + t else idx + 1 + t - L
  }

  /** Index of the t-th edge before the cut: `(indice_aresta - t) % len(C)`. */
  function Atras(idx: nat, t: nat, L: nat): nat
    requires idx < L && t < L
  {
    if t <= idx then idx - t else idx + L - t
  }

  /** Python's and Dafny's `%` agree for a positive modulus; near the range it is one wrap. */
  lemma ModUmaVolta(x: int, L: int)
    requires L > 0 && -L <= x < 2 * L
    ensures x % L == if x < 0 then x + L else if x < L then x else x - L
  {
    if x < 0 {
      assert x == (-1) * L + (x + L);
    } else if x >= L {
      assert x == 1 * L + (x - L);
    }
  }

  /** The indices the loop of the source computes with `%`, at its step i = idx + 1 + t. */
  lemma IndicesDoLaco(idx: nat, t: nat, L: nat)
    requires idx < L && t + 1 < L
    ensures (idx + 1 + t) % L == Adiante(idx, t, L)
    ensures (2 * idx - (idx + 1 + t)) % L == Atras(idx, t + 1, L)
  {
    ModUmaVolta(idx + 1 + t, L);
    ModUmaVolta(2 * idx - (idx + 1 + t), L);
  }

  lemma AdianteProximo(idx: nat, t: nat, L: nat)
    requires idx < L && t + 1 < L
    ensures Seguinte(Adiante(idx, t, L), L) == Adiante(idx, t + 1, L)
  {
  }

  lemma AtrasProximo(idx: nat, t: nat, L: nat)
    requires idx < L && t + 1 < L
    ensures Seguinte(Atras(idx, t + 1, L), L) == Atras(idx, t, L)
  {
  }

  lemma ExtremosDoCorte(idx: nat, L: nat)
    requires idx < L
    ensures Adiante(idx, L - 1, L) == idx && Atras(idx, 0, L) == idx
    ensures Atras(idx, L - 1, L) == Adiante(idx, 0, L) == Seguinte(idx, L)
  {
  }

  /** Distinct steps after the cut reach distinct edges, in both directions. */
  lemma IndicesInjetivos(idx: nat, t1: nat, t2: nat, L: nat)
    requires idx < L && t1 < L && t2 < L && t1 != t2
    ensures Adiante(idx, t1, L) != Adiante(idx, t2, L)
    ensures Atras(idx, t1, L) != Atras(idx, t2, L)
  {
  }

  // ---------------------------------------------------------------------------
  // The k == 2 base cycle (grafo_timbral.py:166-167)
  // ---------------------------------------------------------------------------

  /** The 4-cycle 00 -> 01 -> 11 -> 10 -> 00 of the graph (2, 2, 1). */
  function CicloQuatro(): Ciclo
  {
    [([0, 0], [0, 1]), ([0, 1], [1, 1]), ([1, 1], [1, 0]), ([1, 0], [0, 0])]
  }

  lemma CicloQuatroHamiltoniano()
    ensures EhCicloHamiltoniano(CicloQuatro(), 2, 1)
  {
    var C := CicloQuatro();
    assert |C| == 4 == Pot(2, 2);
    CicloQuatroFechado(C);
    CicloQuatroArestas(C);
    CicloQuatroDistinto(C);
  }

  lemma CicloQuatroFechado(C: Ciclo)
    requires C == CicloQuatro()
    ensures forall i, j :: 0 <= i < |C| && 0 <= j < |C| && j == Seguinte(i, |C|) ==> C[i].1 == C[j].0
  {
  }

  lemma CicloQuatroArestas(C: Ciclo)
    requires C == CicloQuatro()
    ensures forall i :: 0 <= i < |C| ==> EhVertice(2, 2, C[i].0) && EhVertice(2, 2, C[i].1)
    ensures forall i :: 0 <= i < |C| ==> Concordancias(C[i].0, C[i].1) == 1
  {
    ConcordanciasDePar([0, 0], [0, 1]);
    ConcordanciasDePar([0, 1], [1, 1]);
    ConcordanciasDePar([1, 1], [1, 0]);
    ConcordanciasDePar([1, 0], [0, 0]);
  }

  lemma CicloQuatroDistinto(C: Ciclo)
    requires C == CicloQuatro()
    ensures forall i, j :: 0 <= i < j < |C| ==> C[i].0 != C[j].0
  {
    assert C[0].0[1] != C[1].0[1] && C[0].0[0] != C[2].0[0] && C[0].0[0] != C[3].0[0];
    assert C[1].0[0] != C[2].0[0] && C[1].0[0] != C[3].0[0] && C[2].0[1] != C[3].0[1];
  }

  // ---------------------------------------------------------------------------
  // Shared glue: paths laid out block by block
  // ---------------------------------------------------------------------------

  /** P walks through the block S of vertices, one edge per consecutive pair. */
  ghost predicate PercorreBloco(P: Ciclo, S: seq<Vertice>)
  {
    |S| >= 2 && |P| == |S| - 1 && forall t :: 0 <= t < |P| ==> P[t] == (S[t], S[t + 1])
  }

  /** The bridge `(P[-1][1], Q[0][0])` of the source, between a block and the next. */
  function Ponte(P: Ciclo, Q: Ciclo): Aresta
    requires |P| > 0 && |Q| > 0
  {
    (P[|P| - 1].1, Q[0].0)
  }

  lemma PonteEntreBlocos(P: Ciclo, S: seq<Vertice>, Q: Ciclo, T: seq<Vertice>)
    requires PercorreBloco(P, S) && PercorreBloco(Q, T)
    ensures Ponte(P, Q) == (S[|S| - 1], T[0])
    ensures CaminhoSobre(P + [Ponte(P, Q)], S, T[0])
  {
    assert P[|P| - 1] == (S[|P| - 1], S[|P|]);
    assert Q[0] == (T[0], T[1]);
    CaminhoComPonte(P, S, T[0]);
  }

  // ---------------------------------------------------------------------------
  // construir_ciclo_base: l == 1 (grafo_timbral.py:164-203)
  // ---------------------------------------------------------------------------

  /** The two-coordinate prefixes the source chooses by the parity of `sum(w)`. */
  function Par(w: Vertice): Vertice { if Impar(w) then [1, 1] else [0, 0] }
  function ParOposto(w: Vertice): Vertice { if Impar(w) then [0, 0] else [1, 1] }
  function Misto(w: Vertice): Vertice { if Impar(w) then [1, 0] else [0, 1] }
  function MistoOposto(w: Vertice): Vertice { if Impar(w) then [0, 1] else [1, 0] }

  /** The edge the loop appends to path P1, P2_lin, P3 or P4_lin (b = 0..3) at step t. */
  function BlocoBase(C: Ciclo, Cneg: Ciclo, idx: nat, b: nat, t: nat): Aresta
    requires idx < |C| && t + 1 < |C| && |Cneg| == |C|
  {
    var (w, z) := C[Adiante(idx, t, |C|)];
    var (wn, zn) := Cneg[Atras(idx, t + 1, |C|)];
    if b == 0 then (Par(w) + w, ParOposto(w) + z)
    else if b == 1 then (Misto(w) + zn, MistoOposto(w) + wn)
    else if b == 2 then (ParOposto(w) + w, Par(w) + z)
    else (MistoOposto(w) + zn, Misto(w) + wn)
  }

  /** A vertex of block b: the block's parity prefix of f, followed by f itself (even blocks) or
      by r (odd blocks). */
  function VerticeDeBloco(b: nat, f: Vertice, r: Vertice): (v: Vertice)
    ensures |r| == |f| ==> |v| == |f| + 2
  {
    if b == 0 then Par(f) + f
    else if b == 1 then Misto(f) + r
    else if b == 2 then ParOposto(f) + f
    else MistoOposto(f) + r
  }

  /** The t-th vertex of block b of the new cycle: a parity prefix followed by the t-th vertex
      after the cut (even blocks) or the complement of the t-th vertex before it (odd blocks). */
  ghost function VerticeBase(C: Ciclo, k: nat, idx: nat, b: nat, t: nat): Vertice
    requires idx < |C| && t < |C|
  {
    VerticeDeBloco(b, C[Adiante(idx, t, |C|)].0, Complemento(C[Atras(idx, t, |C|)].0, k))
  }

  ghost function BlocoDeVertices(C: Ciclo, k: nat, idx: nat, b: nat): seq<Vertice>
    requires idx < |C|
  {
    seq(|C|, t requires 0 <= t < |C| => VerticeBase(C, k, idx, b, t))
  }

  /** What the recursive call and the complement give the l == 1 step. */
  ghost predicate ContextoBase(C: Ciclo, Cneg: Ciclo, k: nat, idx: nat)
  {
    k >= 4 && k % 2 == 0 && EhCicloHamiltoniano(C, k - 2, 1) && idx < |C| && |Cneg| == |C| &&
    forall j :: 0 <= j < |C| ==> Cneg[j] == (Complemento(C[j].0, k), Complemento(C[j].1, k))
  }

  lemma {:induction false} PotPositiva(m: nat)
    ensures Pot(2, m) >= 1 && (m >= 1 ==> Pot(2, m) >= 2)
  {
    if m > 0 {
      PotPositiva(m - 1);
    }
  }

  lemma AntecessorDePar(m: nat)
    requires m % 2 == 0 && m >= 1
    ensures (m - 1) % 2 == 1
  {
  }

  lemma PrefixoBinario(w: Vertice)
    ensures EhVertice(2, 2, Par(w)) && EhVertice(2, 2, ParOposto(w))
    ensures EhVertice(2, 2, Misto(w)) && EhVertice(2, 2, MistoOposto(w))
  {
  }

  lemma ConcatBinaria(p: Vertice, a: Vertice)
    requires EhVertice(2, |p|, p) && EhVertice(2, |a|, a)
    ensures EhVertice(2, |p| + |a|, p + a)
  {
  }

  /** Each vertex of the new cycle is a binary tuple of length k. */
  lemma VerticeBaseBinario(C: Ciclo, k: nat, idx: nat, b: nat, t: nat)
    requires k >= 2 && idx < |C| && t < |C|
    requires EhVertice(2, k - 2, C[Adiante(idx, t, |C|)].0) && EhVertice(2, k - 2, C[Atras(idx, t, |C|)].0)
    ensures EhVertice(2, k, VerticeBase(C, k, idx, b, t))
  {
    var f := C[Adiante(idx, t, |C|)].0;
    var g := C[Atras(idx, t, |C|)].0;
    ComplementoBinario(g, k);
    VerticeDeBlocoBinario(b, f, Complemento(g, k));
  }

  lemma VerticeDeBlocoBinario(b: nat, f: Vertice, r: Vertice)
    requires EhVertice(2, |f|, f) && EhVertice(2, |f|, r) && |r| == |f|
    ensures EhVertice(2, |f| + 2, VerticeDeBloco(b, f, r))
  {
    PrefixoBinario(f);
    ConcatBinaria(Par(f), f);
    ConcatBinaria(ParOposto(f), f);
    ConcatBinaria(Misto(f), r);
    ConcatBinaria(MistoOposto(f), r);
  }

  /** The facts a Hamiltonian cycle gives about its i-th edge. */
  ghost predicate PassoValido(C: Ciclo, m: nat, l: nat, i: nat)
    requires i < |C|
  {
    C[i].1 == C[Seguinte(i, |C|)].0 && EhVertice(2, m, C[i].0) && EhVertice(2, m, C[i].1) &&
    Concordancias(C[i].0, C[i].1) == l
  }

  lemma PassoDoCiclo(C: Ciclo, m: nat, l: nat, i: nat)
    requires EhCicloHamiltoniano(C, m, l) && i < |C|
    ensures PassoValido(C, m, l, i)
  {
    var j := Seguinte(i, |C|);
    assert C[i].1 == C[j].0;
    assert EhVertice(2, m, C[j].0);
  }

  /** The prefixes of the four paths, for two tuples of opposite parity. */
  lemma PrefixosConcordancias(w: Vertice, f: Vertice)
    requires Impar(f) != Impar(w)
    ensures Par(f) == ParOposto(w) && ParOposto(f) == Par(w)
    ensures Misto(f) == MistoOposto(w) && MistoOposto(f) == Misto(w)
    ensures Concordancias(Par(w), ParOposto(w)) == 0 && Concordancias(ParOposto(w), Par(w)) == 0
    ensures Concordancias(Misto(w), MistoOposto(w)) == 0 && Concordancias(MistoOposto(w), Misto(w)) == 0
    ensures Concordancias(Par(w), Misto(f)) == 1 && Concordancias(Misto(w), ParOposto(f)) == 1
    ensures Concordancias(ParOposto(w), MistoOposto(f)) == 1 && Concordancias(MistoOposto(w), Par(f)) == 1
  {
    ConcordanciasDePar(Par(w), ParOposto(w));
    ConcordanciasDePar(ParOposto(w), Par(w));
    ConcordanciasDePar(Misto(w), MistoOposto(w));
    ConcordanciasDePar(MistoOposto(w), Misto(w));
    ConcordanciasDePar(Par(w), Misto(f));
    ConcordanciasDePar(Misto(w), ParOposto(f));
    ConcordanciasDePar(ParOposto(w), MistoOposto(f));
    ConcordanciasDePar(MistoOposto(w), Par(f));
  }

  /** Steps along an even block: the appended edge joins vertex t to vertex t + 1 of the block,
      and the two agree in exactly one coordinate. */
  lemma ArestaBlocoBasePar(C: Ciclo, Cneg: Ciclo, k: nat, idx: nat, b: nat, t: nat)
    requires k >= 4 && k % 2 == 0 && idx < |C| && |Cneg| == |C| && (b == 0 || b == 2) && t + 1 < |C|
    requires PassoValido(C, k - 2, 1, Adiante(idx, t, |C|))
    ensures BlocoBase(C, Cneg, idx, b, t) == (VerticeBase(C, k, idx, b, t), VerticeBase(C, k, idx, b, t + 1))
    ensures Concordancias(VerticeBase(C, k, idx, b, t), VerticeBase(C, k, idx, b, t + 1)) == 1
  {
    var L := |C|;
    var i := Adiante(idx, t, L);
    AdianteProximo(idx, t, L);
    var w, z := C[i].0, C[i].1;
    ParidadeOposta(w, z);
    PrefixosConcordancias(w, z);
    var p, q := if b == 0 then Par(w) else ParOposto(w), if b == 0 then ParOposto(w) else Par(w);
    assert BlocoBase(C, Cneg, idx, b, t) == (p + w, q + z);
    assert VerticeBase(C, k, idx, b, t) == p + w;
    assert VerticeBase(C, k, idx, b, t + 1) == q + z;
    ConcordanciasConcat(p, w, q, z);
  }

  /** Steps along an odd block: as for the even blocks, through the complemented cycle walked
      backwards. */
  lemma ArestaBlocoBaseImpar(C: Ciclo, Cneg: Ciclo, k: nat, idx: nat, b: nat, t: nat)
    requires k >= 4 && k % 2 == 0 && idx < |C| && |Cneg| == |C| && (b == 1 || b == 3) && t + 1 < |C|
    requires PassoValido(C, k - 2, 1, Adiante(idx, t, |C|))
    requires PassoValido(C, k - 2, 1, Atras(idx, t + 1, |C|))
    requires Cneg[Atras(idx, t + 1, |C|)] ==
             (Complemento(C[Atras(idx, t + 1, |C|)].0, k), Complemento(C[Atras(idx, t + 1, |C|)].1, k))
    ensures BlocoBase(C, Cneg, idx, b, t) == (VerticeBase(C, k, idx, b, t), VerticeBase(C, k, idx, b, t + 1))
    ensures Concordancias(VerticeBase(C, k, idx, b, t), VerticeBase(C, k, idx, b, t + 1)) == 1
  {
    var L := |C|;
    var i := Adiante(idx, t, L);
    AdianteProximo(idx, t, L);
    AtrasProximo(idx, t, L);
    var w, z := C[i].0, C[i].1;
    var j := Atras(idx, t + 1, L);
    var u, v := C[j].0, C[j].1;
    ParidadeOposta(w, z);
    PrefixosConcordancias(w, z);
    ComplementoPreservaConcordancias(v, u, k);
    ConcordanciasSimetricas(u, v);
    var zn, wn := Complemento(v, k), Complemento(u, k);
    assert v == C[Atras(idx, t, L)].0;
    assert Cneg[j] == (wn, zn);
    if b == 1 {
      assert BlocoBase(C, Cneg, idx, b, t) == (Misto(w) + zn, MistoOposto(w) + wn);
      assert VerticeBase(C, k, idx, b, t) == Misto(w) + zn;
      assert VerticeBase(C, k, idx, b, t + 1) == Misto(z) + wn;
      ConcordanciasConcat(Misto(w), zn, MistoOposto(w), wn);
    } else {
      assert BlocoBase(C, Cneg, idx, b, t) == (MistoOposto(w) + zn, Misto(w) + wn);
      assert VerticeBase(C, k, idx, b, t) == MistoOposto(w) + zn;
      assert VerticeBase(C, k, idx, b, t + 1) == MistoOposto(z) + wn;
      ConcordanciasConcat(MistoOposto(w), zn, Misto(w), wn);
    }
  }

  /** What step t of the loop needs from the recursive cycle and its complement. */
  ghost predicate LocalBase(C: Ciclo, Cneg: Ciclo, k: nat, idx: nat, t: nat)
  {
    k >= 4 && k % 2 == 0 && idx < |C| && t + 1 < |C| && |Cneg| == |C| &&
    PassoValido(C, k - 2, 1, Adiante(idx, t, |C|)) && PassoValido(C, k - 2, 1, Atras(idx, t + 1, |C|)) &&
    Cneg[Atras(idx, t + 1, |C|)] ==
      (Complemento(C[Atras(idx, t + 1, |C|)].0, k), Complemento(C[Atras(idx, t + 1, |C|)].1, k))
  }

  lemma LocalBaseDoContexto(C: Ciclo, Cneg: Ciclo, k: nat, idx: nat, t: nat)
    requires ContextoBase(C, Cneg, k, idx) && t + 1 < |C|
    ensures LocalBase(C, Cneg, k, idx, t)
  {
    PassoDoCiclo(C, k - 2, 1, Adiante(idx, t, |C|));
    PassoDoCiclo(C, k - 2, 1, Atras(idx, t + 1, |C|));
  }

  lemma ArestaBlocoBase(C: Ciclo, Cneg: Ciclo, k: nat, idx: nat, b: nat, t: nat)
    requires LocalBase(C, Cneg, k, idx, t) && b < 4
    ensures BlocoBase(C, Cneg, idx, b, t) == (VerticeBase(C, k, idx, b, t), VerticeBase(C, k, idx, b, t + 1))
    ensures EhVertice(2, k, VerticeBase(C, k, idx, b, t)) && EhVertice(2, k, VerticeBase(C, k, idx, b, t + 1))
    ensures Concordancias(VerticeBase(C, k, idx, b, t), VerticeBase(C, k, idx, b, t + 1)) == 1
  {
    var L := |C|;
    AdianteProximo(idx, t, L);
    AtrasProximo(idx, t, L);
    if b == 0 || b == 2 {
      ArestaBlocoBasePar(C, Cneg, k, idx, b, t);
    } else {
      ArestaBlocoBaseImpar(C, Cneg, k, idx, b, t);
    }
    VerticeBaseBinario(C, k, idx, b, t);
    VerticeBaseBinario(C, k, idx, b, t + 1);
  }

  /** The bridge out of block b, written on the two ends a -> f of the removed edge: the last
      vertex of block b and the first of block b + 1 (cyclically) agree in one coordinate. */
  lemma PonteDeVertices(a: Vertice, f: Vertice, k: nat, b: nat)
    requires k >= 4 && k % 2 == 0 && |a| == k - 2 && |f| == k - 2 && b < 4
    requires EhVertice(2, k - 2, a) && EhVertice(2, k - 2, f) && Concordancias(a, f) == 1
    ensures Concordancias(VerticeDeBloco(b, a, Complemento(f, k)), VerticeDeBloco((b + 1) % 4, f, Complemento(a, k))) == 1
  {
    ParidadeOposta(a, f);
    PrefixosConcordancias(a, f);
    ConcordanciasComComplemento(a, k);
    ConcordanciasComComplemento(f, k);
    ConcordanciasSimetricas(f, Complemento(f, k));
    var ca, cf := Complemento(a, k), Complemento(f, k);
    if b == 0 {
      assert VerticeDeBloco(b, a, cf) == Par(a) + a && VerticeDeBloco(1, f, ca) == Misto(f) + ca;
      ConcordanciasConcat(Par(a), a, Misto(f), ca);
      assert (b + 1) % 4 == 1 && Concordancias(Par(a) + a, Misto(f) + ca) == 1;
    } else if b == 1 {
      assert VerticeDeBloco(b, a, cf) == Misto(a) + cf && VerticeDeBloco(2, f, ca) == ParOposto(f) + f;
      ConcordanciasConcat(Misto(a), cf, ParOposto(f), f);
      assert (b + 1) % 4 == 2 && Concordancias(Misto(a) + cf, ParOposto(f) + f) == 1;
    } else if b == 2 {
      assert VerticeDeBloco(b, a, cf) == ParOposto(a) + a && VerticeDeBloco(3, f, ca) == MistoOposto(f) + ca;
      ConcordanciasConcat(ParOposto(a), a, MistoOposto(f), ca);
      assert (b + 1) % 4 == 3 && Concordancias(ParOposto(a) + a, MistoOposto(f) + ca) == 1;
    } else {
      assert VerticeDeBloco(b, a, cf) == MistoOposto(a) + cf && VerticeDeBloco(0, f, ca) == Par(f) + f;
      ConcordanciasConcat(MistoOposto(a), cf, Par(f), f);
      assert (b + 1) % 4 == 0 && Concordancias(MistoOposto(a) + cf, Par(f) + f) == 1;
    }
  }

  /** The four bridges join the last vertex of a block to the first of the next, cyclically,
      and each pair agrees in exactly one coordinate. */
  lemma PonteBase(C: Ciclo, k: nat, idx: nat, b: nat)
    requires k >= 4 && k % 2 == 0 && idx < |C| && |C| >= 2 && b < 4
    requires PassoValido(C, k - 2, 1, idx)
    ensures Concordancias(VerticeBase(C, k, idx, b, |C| - 1), VerticeBase(C, k, idx, (b + 1) % 4, 0)) == 1
  {
    var L := |C|;
    ExtremosDoCorte(idx, L);
    var a, f := C[idx].0, C[idx].1;
    assert VerticeBase(C, k, idx, b, L - 1) == VerticeDeBloco(b, a, Complemento(f, k));
    assert VerticeBase(C, k, idx, (b + 1) % 4, 0) == VerticeDeBloco((b + 1) % 4, f, Complemento(a, k));
    PonteDeVertices(a, f, k, b);
  }

  lemma PrefixoDaConcat(p: Vertice, a: Vertice, q: Vertice, b: Vertice)
    requires |p| == |q| && p + a == q + b
    ensures p == q && a == b
  {
    assert p == (p + a)[..|p|] && q == (q + b)[..|p|];
    assert a == (p + a)[|p|..] && b == (q + b)[|p|..];
  }

  /** No two edges of C start at the same vertex. */
  ghost predicate IniciosDistintos(C: Ciclo)
  {
    forall i, j :: 0 <= i < j < |C| ==> C[i].0 != C[j].0
  }

  /** Equal block vertices come from blocks of the same parity with the same suffix, and equal
      after-cut tuples force the same block. */
  lemma VerticeDeBlocoInjetivo(b1: nat, f1: Vertice, r1: Vertice, b2: nat, f2: Vertice, r2: Vertice)
    requires b1 < 4 && b2 < 4 && |f1| == |f2| == |r1| == |r2|
    requires VerticeDeBloco(b1, f1, r1) == VerticeDeBloco(b2, f2, r2)
    ensures b1 % 2 == b2 % 2
    ensures b1 % 2 == 0 ==> f1 == f2
    ensures b1 % 2 == 1 ==> r1 == r2
    ensures f1 == f2 ==> b1 == b2
  {
    var p1 := if b1 == 0 then Par(f1) else if b1 == 1 then Misto(f1) else if b1 == 2 then ParOposto(f1) else MistoOposto(f1);
    var p2 := if b2 == 0 then Par(f2) else if b2 == 1 then Misto(f2) else if b2 == 2 then ParOposto(f2) else MistoOposto(f2);
    var s1 := if b1 % 2 == 0 then f1 else r1;
    var s2 := if b2 % 2 == 0 then f2 else r2;
    assert VerticeDeBloco(b1, f1, r1) == p1 + s1;
    assert VerticeDeBloco(b2, f2, r2) == p2 + s2;
    PrefixoDaConcat(p1, s1, p2, s2);
    assert (p1[0] == p1[1]) == (b1 % 2 == 0);
    assert (p2[0] == p2[1]) == (b2 % 2 == 0);
  }

  /** No two positions of the four blocks hold the same vertex. */
  lemma VerticeBaseInjetivo(C: Ciclo, k: nat, idx: nat, b1: nat, t1: nat, b2: nat, t2: nat)
    requires k >= 2 && idx < |C| && b1 < 4 && b2 < 4 && t1 < |C| && t2 < |C| && IniciosDistintos(C)
    requires forall i {:trigger C[i].0} :: 0 <= i < |C| ==> EhVertice(2, k - 2, C[i].0)
    requires VerticeBase(C, k, idx, b1, t1) == VerticeBase(C, k, idx, b2, t2)
    ensures b1 == b2 && t1 == t2
  {
    var L := |C|;
    var f1, f2 := C[Adiante(idx, t1, L)].0, C[Adiante(idx, t2, L)].0;
    var g1, g2 := C[Atras(idx, t1, L)].0, C[Atras(idx, t2, L)].0;
    VerticeDeBlocoInjetivo(b1, f1, Complemento(g1, k), b2, f2, Complemento(g2, k));
    if t1 != t2 {
      IndicesInjetivos(idx, t1, t2, L);
      if b1 % 2 == 1 {
        ComplementoInvolutivo(g1, k);
        ComplementoInvolutivo(g2, k);
      }
      assert false;
    }
  }

  /** Every edge of a concatenation of valid edge lists is valid. */
  lemma ArestasValidasConcat(A: Ciclo, B: Ciclo, k: nat, l: nat)
    requires ArestasValidas(A, k, l) && ArestasValidas(B, k, l)
    ensures ArestasValidas(A + B, k, l)
  {
  }

  /** A path through a block, followed by the bridge to the next block, is a path through the
      block that steps onto the next one. */
  lemma BlocoComPonte(P: Ciclo, S: seq<Vertice>, Q: Ciclo, T: seq<Vertice>, k: nat, l: nat)
    requires PercorreBloco(P, S) && PercorreBloco(Q, T)
    requires ArestasValidas(P, k, l) && ArestasValidas([Ponte(P, Q)], k, l)
    ensures CaminhoSobre(P + [Ponte(P, Q)], S, T[0]) && ArestasValidas(P + [Ponte(P, Q)], k, l)
  {
    PonteEntreBlocos(P, S, Q, T);
    ArestasValidasConcat(P, [Ponte(P, Q)], k, l);
  }

  /** Concatenation of two paths with valid edges, the first stepping onto the second. */
  lemma JuntarCaminhos(Q1: Ciclo, S1: seq<Vertice>, Q2: Ciclo, S2: seq<Vertice>, x: Vertice, k: nat, l: nat)
    requires |S2| > 0 && CaminhoSobre(Q1, S1, S2[0]) && CaminhoSobre(Q2, S2, x)
    requires ArestasValidas(Q1, k, l) && ArestasValidas(Q2, k, l)
    ensures CaminhoSobre(Q1 + Q2, S1 + S2, x) && ArestasValidas(Q1 + Q2, k, l)
  {
    CaminhoConcat(Q1, S1, Q2, S2, x);
    ArestasValidasConcat(Q1, Q2, k, l);
  }

  lemma AnexarComPonte(A: Ciclo, P: Ciclo, x: Aresta)
    ensures A + P + [x] == A + (P + [x])
  {
  }

  /** Four paths through four blocks of vertices, joined by the bridges from each block to the
      next, form a Hamiltonian cycle when the blocks together list every vertex exactly once. */
  lemma JuntarQuatroBlocos(P1: Ciclo, S1: seq<Vertice>, P2: Ciclo, S2: seq<Vertice>,
                           P3: Ciclo, S3: seq<Vertice>, P4: Ciclo, S4: seq<Vertice>, k: nat, l: nat)
    requires PercorreBloco(P1, S1) && PercorreBloco(P2, S2) && PercorreBloco(P3, S3) && PercorreBloco(P4, S4)
    requires ArestasValidas(P1, k, l) && ArestasValidas(P2, k, l) && ArestasValidas(P3, k, l) && ArestasValidas(P4, k, l)
    requires ArestasValidas([Ponte(P1, P2)], k, l) && ArestasValidas([Ponte(P2, P3)], k, l)
    requires ArestasValidas([Ponte(P3, P4)], k, l) && ArestasValidas([Ponte(P4, P1)], k, l)
    requires SemRepeticao(S1 + S2 + S3 + S4) && |S1 + S2 + S3 + S4| == Pot(2, k)
    ensures EhCicloHamiltoniano(P1 + [Ponte(P1, P2)] + P2 + [Ponte(P2, P3)] + P3 + [Ponte(P3, P4)] + P4 + [Ponte(P4, P1)], k, l)
  {
    BlocoComPonte(P1, S1, P2, S2, k, l);
    BlocoComPonte(P2, S2, P3, S3, k, l);
    BlocoComPonte(P3, S3, P4, S4, k, l);
    BlocoComPonte(P4, S4, P1, S1, k, l);
    var Q1, Q2, Q3, Q4 := P1 + [Ponte(P1, P2)], P2 + [Ponte(P2, P3)], P3 + [Ponte(P3, P4)], P4 + [Ponte(P4, P1)];
    JuntarCaminhos(Q1, S1, Q2, S2, S3[0], k, l);
    JuntarCaminhos(Q1 + Q2, S1 + S2, Q3, S3, S4[0], k, l);
    JuntarCaminhos(Q1 + Q2 + Q3, S1 + S2 + S3, Q4, S4, S1[0], k, l);
    AnexarComPonte(Q1, P2, Ponte(P2, P3));
    AnexarComPonte(Q1 + Q2, P3, Ponte(P3, P4));
    AnexarComPonte(Q1 + Q2 + Q3, P4, Ponte(P4, P1));
    assert (S1 + S2 + S3 + S4)[0] == S1[0];
    HamiltonianoPorVertices(Q1 + Q2 + Q3 + Q4, S1 + S2 + S3 + S4, k, l);
  }

  /** Whatever a method fills P1, P2_lin, P3 and P4_lin with as the loop prescribes, joining them
      with the four bridges gives a Hamiltonian cycle of (2, k, 1). */
  lemma MontagemBase(C: Ciclo, Cneg: Ciclo, k: nat, idx: nat, P1: Ciclo, P2: Ciclo, P3: Ciclo, P4: Ciclo)
    requires ContextoBase(C, Cneg, k, idx)
    requires |P1| == |P2| == |P3| == |P4| == |C| - 1
    requires SegueBlocoBase(P1, C, Cneg, idx, 0) && SegueBlocoBase(P2, C, Cneg, idx, 1)
    requires SegueBlocoBase(P3, C, Cneg, idx, 2) && SegueBlocoBase(P4, C, Cneg, idx, 3)
    ensures |P1| > 0 && |P2| > 0 && |P3| > 0 && |P4| > 0
    ensures EhCicloHamiltoniano(P1 + [Ponte(P1, P2)] + P2 + [Ponte(P2, P3)] + P3 + [Ponte(P3, P4)] + P4 + [Ponte(P4, P1)], k, 1)
  {
    var L := |C|;
    PotPositiva(k - 2);
    assert Pot(2, k) == 4 * L;
    forall t | 0 <= t < L - 1
      ensures LocalBase(C, Cneg, k, idx, t)
    {
      LocalBaseDoContexto(C, Cneg, k, idx, t);
    }
    PassoDoCiclo(C, k - 2, 1, idx);
    VerticesBaseDistintos(C, Cneg, k, idx);
    MontagemBaseLocal(C, Cneg, k, idx, P1, P2, P3, P4);
  }

  /** The assembly of the l == 1 step from the facts each step and each bridge needs. */
  lemma MontagemBaseLocal(C: Ciclo, Cneg: Ciclo, k: nat, idx: nat, P1: Ciclo, P2: Ciclo, P3: Ciclo, P4: Ciclo)
    requires k >= 4 && k % 2 == 0 && idx < |C| && |C| >= 2 && |Cneg| == |C| && Pot(2, k) == 4 * |C|
    requires |P1| == |P2| == |P3| == |P4| == |C| - 1
    requires forall t :: 0 <= t < |C| - 1 ==> LocalBase(C, Cneg, k, idx, t)
    requires PassoValido(C, k - 2, 1, idx)
    requires SemRepeticao(BlocoDeVertices(C, k, idx, 0) + BlocoDeVertices(C, k, idx, 1) +
                          BlocoDeVertices(C, k, idx, 2) + BlocoDeVertices(C, k, idx, 3))
    requires forall t :: 0 <= t < |P1| ==> P1[t] == BlocoBase(C, Cneg, idx, 0, t)
    requires forall t :: 0 <= t < |P2| ==> P2[t] == BlocoBase(C, Cneg, idx, 1, t)
    requires forall t :: 0 <= t < |P3| ==> P3[t] == BlocoBase(C, Cneg, idx, 2, t)
    requires forall t :: 0 <= t < |P4| ==> P4[t] == BlocoBase(C, Cneg, idx, 3, t)
    ensures EhCicloHamiltoniano(P1 + [Ponte(P1, P2)] + P2 + [Ponte(P2, P3)] + P3 + [Ponte(P3, P4)] + P4 + [Ponte(P4, P1)], k, 1)
  {
    var S1, S2, S3, S4 := BlocoDeVertices(C, k, idx, 0), BlocoDeVertices(C, k, idx, 1),
                          BlocoDeVertices(C, k, idx, 2), BlocoDeVertices(C, k, idx, 3);
    BlocoBasePercorrido(C, Cneg, k, idx, 0, P1, S1);
    BlocoBasePercorrido(C, Cneg, k, idx, 1, P2, S2);
    BlocoBasePercorrido(C, Cneg, k, idx, 2, P3, S3);
    BlocoBasePercorrido(C, Cneg, k, idx, 3, P4, S4);
    PonteBaseValida(C, k, idx, 0, 1, P1, S1, P2, S2);
    PonteBaseValida(C, k, idx, 1, 2, P2, S2, P3, S3);
    PonteBaseValida(C, k, idx, 2, 3, P3, S3, P4, S4);
    PonteBaseValida(C, k, idx, 3, 0, P4, S4, P1, S1);
    JuntarQuatroBlocos(P1, S1, P2, S2, P3, S3, P4, S4, k, 1);
  }

  /** Step t of path b joins vertices t and t + 1 of block b by an edge of (2, k, 1). */
  lemma PassoDoBloco(C: Ciclo, Cneg: Ciclo, k: nat, idx: nat, b: nat, P: Ciclo, S: seq<Vertice>, t: nat)
    requires LocalBase(C, Cneg, k, idx, t) && b < 4 && |P| == |C| - 1 && t < |P|
    requires P[t] == BlocoBase(C, Cneg, idx, b, t) && S == BlocoDeVertices(C, k, idx, b)
    ensures P[t] == (S[t], S[t + 1])
    ensures EhVertice(2, k, P[t].0) && EhVertice(2, k, P[t].1) && Concordancias(P[t].0, P[t].1) == 1
  {
    ArestaBlocoBase(C, Cneg, k, idx, b, t);
  }

  /** Path b walks through block b of vertices, and its edges are edges of (2, k, 1). */
  lemma BlocoBasePercorrido(C: Ciclo, Cneg: Ciclo, k: nat, idx: nat, b: nat, P: Ciclo, S: seq<Vertice>)
    requires b < 4 && |P| == |C| - 1 && |C| >= 2 && idx < |C| && |Cneg| == |C|
    requires forall t :: 0 <= t < |P| ==> LocalBase(C, Cneg, k, idx, t)
    requires forall t :: 0 <= t < |P| ==> P[t] == BlocoBase(C, Cneg, idx, b, t)
    requires S == BlocoDeVertices(C, k, idx, b)
    ensures PercorreBloco(P, S)
    ensures ArestasValidas(P, k, 1)
  {
    forall t | 0 <= t < |P|
      ensures P[t] == (S[t], S[t + 1])
      ensures EhVertice(2, k, P[t].0) && EhVertice(2, k, P[t].1) && Concordancias(P[t].0, P[t].1) == 1
    {
      PassoDoBloco(C, Cneg, k, idx, b, P, S, t);
    }
    forall e | e in P
      ensures EhVertice(2, k, e.0) && EhVertice(2, k, e.1) && Concordancias(e.0, e.1) == 1
    {
      var t :| 0 <= t < |P| && P[t] == e;
    }
  }

  /** The bridge from block b to block b + 1 (cyclically) is an edge of (2, k, 1). */
  lemma PonteBaseValida(C: Ciclo, k: nat, idx: nat, b: nat, b2: nat, P: Ciclo, S: seq<Vertice>, Q: Ciclo, T: seq<Vertice>)
    requires k >= 4 && k % 2 == 0 && idx < |C| && |C| >= 2 && b < 4 && b2 == (b + 1) % 4
    requires PassoValido(C, k - 2, 1, idx)
    requires S == BlocoDeVertices(C, k, idx, b) && T == BlocoDeVertices(C, k, idx, b2)
    requires PercorreBloco(P, S) && PercorreBloco(Q, T)
    ensures ArestasValidas([Ponte(P, Q)], k, 1)
  {
    var L := |C|;
    PonteBase(C, k, idx, b);
    ExtremosDoCorte(idx, L);
    PonteEntreBlocos(P, S, Q, T);
    VerticeBaseBinario(C, k, idx, b, L - 1);
    VerticeBaseBinario(C, k, idx, b2, 0);
  }

  /** The 4 * 2^(k-2) vertices of the new cycle are pairwise distinct. */
  lemma VerticesBaseDistintos(C: Ciclo, Cneg: Ciclo, k: nat, idx: nat)
    requires ContextoBase(C, Cneg, k, idx)
    ensures SemRepeticao(BlocoDeVertices(C, k, idx, 0) + BlocoDeVertices(C, k, idx, 1) +
                         BlocoDeVertices(C, k, idx, 2) + BlocoDeVertices(C, k, idx, 3))
  {
    var S1, S2, S3, S4 := BlocoDeVertices(C, k, idx, 0), BlocoDeVertices(C, k, idx, 1),
                          BlocoDeVertices(C, k, idx, 2), BlocoDeVertices(C, k, idx, 3);
    BlocoBaseSemRepeticao(C, Cneg, k, idx, 0);
    BlocoBaseSemRepeticao(C, Cneg, k, idx, 1);
    BlocoBaseSemRepeticao(C, Cneg, k, idx, 2);
    BlocoBaseSemRepeticao(C, Cneg, k, idx, 3);
    BlocosBaseDisjuntos(C, Cneg, k, idx, 0, 1);
    ConcatSemRepeticao(S1, S2);
    BlocosBaseDisjuntos(C, Cneg, k, idx, 0, 2);
    BlocosBaseDisjuntos(C, Cneg, k, idx, 1, 2);
    ConcatSemRepeticao(S1 + S2, S3);
    BlocosBaseDisjuntos(C, Cneg, k, idx, 0, 3);
    BlocosBaseDisjuntos(C, Cneg, k, idx, 1, 3);
    BlocosBaseDisjuntos(C, Cneg, k, idx, 2, 3);
    ConcatSemRepeticao(S1 + S2 + S3, S4);
  }

  lemma BlocoBaseSemRepeticao(C: Ciclo, Cneg: Ciclo, k: nat, idx: nat, b: nat)
    requires ContextoBase(C, Cneg, k, idx) && b < 4
    ensures SemRepeticao(BlocoDeVertices(C, k, idx, b))
  {
    var S := BlocoDeVertices(C, k, idx, b);
    forall i, j | 0 <= i < j < |S|
      ensures S[i] != S[j]
    {
      if S[i] == S[j] {
        VerticeBaseInjetivo(C, k, idx, b, i, b, j);
      }
    }
  }

  lemma BlocosBaseDisjuntos(C: Ciclo, Cneg: Ciclo, k: nat, idx: nat, b1: nat, b2: nat)
    requires ContextoBase(C, Cneg, k, idx) && b1 < b2 < 4
    ensures forall x :: x in BlocoDeVertices(C, k, idx, b1) ==> x !in BlocoDeVertices(C, k, idx, b2)
  {
    var S, T := BlocoDeVertices(C, k, idx, b1), BlocoDeVertices(C, k, idx, b2);
    forall x | x in S
      ensures x !in T
    {
      var i :| 0 <= i < |S| && S[i] == x;
      if x in T {
        var j :| 0 <= j < |T| && T[j] == x;
        VerticeBaseInjetivo(C, k, idx, b1, i, b2, j);
      }
    }
  }

  // ---------------------------------------------------------------------------
  // construir_ciclo_geral: l >= 2 (grafo_timbral.py:205-230)
  // ---------------------------------------------------------------------------

  /** A vertex of block b of the general step: `0` followed by f (b == 0) or `1` followed by r. */
  function VerticeDeBlocoGeral(b: nat, f: Vertice, r: Vertice): Vertice
  {
    if b == 0 then [0] + f else [1] + r
  }

  /** The edge the loop appends to P1 (b == 0) or P2_lin (b == 1) at step t. */
  function BlocoGeral(C: Ciclo, Cneg: Ciclo, idx: nat, b: nat, t: nat): Aresta
    requires idx < |C| && t + 1 < |C| && |Cneg| == |C|
  {
    var (w, z) := C[Adiante(idx, t, |C|)];
    var (wn, zn) := Cneg[Atras(idx, t + 1, |C|)];
    if b == 0 then ([0] + w, [0] + z) else ([1] + zn, [1] + wn)
  }

  /** The t-th vertex of block b: the t-th vertex after the cut behind a 0, or the complement of
      the t-th vertex before the cut behind a 1. */
  ghost function VerticeGeral(C: Ciclo, m: nat, idx: nat, b: nat, t: nat): Vertice
    requires idx < |C| && t < |C|
  {
    VerticeDeBlocoGeral(b, C[Adiante(idx, t, |C|)].0, Complemento(C[Atras(idx, t, |C|)].0, m))
  }

  ghost function BlocoGeralDeVertices(C: Ciclo, m: nat, idx: nat, b: nat): seq<Vertice>
    requires idx < |C|
  {
    seq(|C|, t requires 0 <= t < |C| => VerticeGeral(C, m, idx, b, t))
  }

  /** What the recursive call and the complement give the general step. */
  ghost predicate ContextoGeral(C: Ciclo, Cneg: Ciclo, k: nat, l: nat, idx: nat)
  {
    2 <= l < k && EhCicloHamiltoniano(C, k - 1, l - 1) && idx < |C| && |Cneg| == |C| &&
    forall j :: 0 <= j < |C| ==> Cneg[j] == (Complemento(C[j].0, k - 1 - l), Complemento(C[j].1, k - 1 - l))
  }

  /** What step t of the general loop needs. */
  ghost predicate LocalGeral(C: Ciclo, Cneg: Ciclo, k: nat, l: nat, idx: nat, t: nat)
  {
    2 <= l < k && idx < |C| && t + 1 < |C| && |Cneg| == |C| &&
    PassoValido(C, k - 1, l - 1, Adiante(idx, t, |C|)) && PassoValido(C, k - 1, l - 1, Atras(idx, t + 1, |C|)) &&
    Cneg[Atras(idx, t + 1, |C|)] ==
      (Complemento(C[Atras(idx, t + 1, |C|)].0, k - 1 - l), Complemento(C[Atras(idx, t + 1, |C|)].1, k - 1 - l))
  }

  lemma LocalGeralDoContexto(C: Ciclo, Cneg: Ciclo, k: nat, l: nat, idx: nat, t: nat)
    requires ContextoGeral(C, Cneg, k, l, idx) && t + 1 < |C|
    ensures LocalGeral(C, Cneg, k, l, idx, t)
  {
    PassoDoCiclo(C, k - 1, l - 1, Adiante(idx, t, |C|));
    PassoDoCiclo(C, k - 1, l - 1, Atras(idx, t + 1, |C|));
  }

  lemma ConcordanciasComPrefixo(x: nat, y: nat, u: Vertice, v: Vertice)
    requires |u| == |v|
    ensures Concordancias([x] + u, [y] + v) == (if x == y then 1 else 0) + Concordancias(u, v)
  {
    assert ([x] + u)[1..] == u && ([y] + v)[1..] == v;
  }

  lemma VerticeDeBlocoGeralBinario(b: nat, f: Vertice, r: Vertice)
    requires EhVertice(2, |f|, f) && EhVertice(2, |f|, r) && |r| == |f|
    ensures EhVertice(2, |f| + 1, VerticeDeBlocoGeral(b, f, r))
  {
  }

  lemma VerticeGeralBinario(C: Ciclo, k: nat, l: nat, idx: nat, b: nat, t: nat)
    requires 2 <= l < k && idx < |C| && t < |C|
    requires EhVertice(2, k - 1, C[Adiante(idx, t, |C|)].0) && EhVertice(2, k - 1, C[Atras(idx, t, |C|)].0)
    ensures EhVertice(2, k, VerticeGeral(C, k - 1 - l, idx, b, t))
  {
    var g := C[Atras(idx, t, |C|)].0;
    ComplementoBinario(g, k - 1 - l);
    VerticeDeBlocoGeralBinario(b, C[Adiante(idx, t, |C|)].0, Complemento(g, k - 1 - l));
  }

  /** Step t of P1 or P2_lin joins vertices t and t + 1 of its block, agreeing in l coordinates. */
  lemma ArestaBlocoGeral(C: Ciclo, Cneg: Ciclo, k: nat, l: nat, idx: nat, b: nat, t: nat)
    requires LocalGeral(C, Cneg, k, l, idx, t) && b < 2
    ensures BlocoGeral(C, Cneg, idx, b, t) == (VerticeGeral(C, k - 1 - l, idx, b, t), VerticeGeral(C, k - 1 - l, idx, b, t + 1))
    ensures EhVertice(2, k, VerticeGeral(C, k - 1 - l, idx, b, t)) && EhVertice(2, k, VerticeGeral(C, k - 1 - l, idx, b, t + 1))
    ensures Concordancias(VerticeGeral(C, k - 1 - l, idx, b, t), VerticeGeral(C, k - 1 - l, idx, b, t + 1)) == l
  {
    var L, m := |C|, k - 1 - l;
    AdianteProximo(idx, t, L);
    AtrasProximo(idx, t, L);
    var w, z := C[Adiante(idx, t, L)].0, C[Adiante(idx, t, L)].1;
    var j := Atras(idx, t + 1, L);
    var u, v := C[j].0, C[j].1;
    assert v == C[Atras(idx, t, L)].0;
    assert z == C[Adiante(idx, t + 1, L)].0;
    if b == 0 {
      ConcordanciasComPrefixo(0, 0, w, z);
    } else {
      ComplementoPreservaConcordancias(v, u, m);
      ConcordanciasSimetricas(u, v);
      ConcordanciasComPrefixo(1, 1, Complemento(v, m), Complemento(u, m));
    }
    VerticeGeralBinario(C, k, l, idx, b, t);
    VerticeGeralBinario(C, k, l, idx, b, t + 1);
  }

  /** The bridge out of block b of the general step, on the two ends a -> f of the removed edge. */
  lemma PonteGeralDeVertices(a: Vertice, f: Vertice, k: nat, l: nat, b: nat)
    requires 2 <= l < k && |a| == k - 1 && |f| == k - 1 && b < 2
    requires EhVertice(2, k - 1, a) && EhVertice(2, k - 1, f)
    ensures Concordancias(VerticeDeBlocoGeral(b, a, Complemento(f, k - 1 - l)),
                          VerticeDeBlocoGeral(1 - b, f, Complemento(a, k - 1 - l))) == l
  {
    var m := k - 1 - l;
    if b == 0 {
      ConcordanciasComComplemento(a, m);
      ConcordanciasComPrefixo(0, 1, a, Complemento(a, m));
    } else {
      ConcordanciasComComplemento(f, m);
      ConcordanciasSimetricas(f, Complemento(f, m));
      ConcordanciasComPrefixo(1, 0, Complemento(f, m), f);
    }
  }

  /** The two bridges of the general step agree in l coordinates. */
  lemma PonteGeral(C: Ciclo, k: nat, l: nat, idx: nat, b: nat)
    requires 2 <= l < k && idx < |C| && |C| >= 2 && b < 2
    requires PassoValido(C, k - 1, l - 1, idx)
    ensures Concordancias(VerticeGeral(C, k - 1 - l, idx, b, |C| - 1), VerticeGeral(C, k - 1 - l, idx, 1 - b, 0)) == l
  {
    var L, m := |C|, k - 1 - l;
    ExtremosDoCorte(idx, L);
    var a, f := C[idx].0, C[idx].1;
    assert VerticeGeral(C, m, idx, b, L - 1) == VerticeDeBlocoGeral(b, a, Complemento(f, m));
    assert VerticeGeral(C, m, idx, 1 - b, 0) == VerticeDeBlocoGeral(1 - b, f, Complemento(a, m));
    PonteGeralDeVertices(a, f, k, l, b);
  }

  lemma PonteGeralValida(C: Ciclo, k: nat, l: nat, idx: nat, b: nat, P: Ciclo, S: seq<Vertice>, Q: Ciclo, T: seq<Vertice>)
    requires 2 <= l < k && idx < |C| && |C| >= 2 && b < 2
    requires PassoValido(C, k - 1, l - 1, idx)
    requires S == BlocoGeralDeVertices(C, k - 1 - l, idx, b) && T == BlocoGeralDeVertices(C, k - 1 - l, idx, 1 - b)
    requires PercorreBloco(P, S) && PercorreBloco(Q, T)
    ensures ArestasValidas([Ponte(P, Q)], k, l)
  {
    var L := |C|;
    PonteGeral(C, k, l, idx, b);
    ExtremosDoCorte(idx, L);
    PonteEntreBlocos(P, S, Q, T);
    VerticeGeralBinario(C, k, l, idx, b, L - 1);
    VerticeGeralBinario(C, k, l, idx, 1 - b, 0);
  }

  lemma PassoDoBlocoGeral(C: Ciclo, Cneg: Ciclo, k: nat, l: nat, idx: nat, b: nat, P: Ciclo, S: seq<Vertice>, t: nat)
    requires LocalGeral(C, Cneg, k, l, idx, t) && b < 2 && |P| == |C| - 1 && t < |P|
    requires P[t] == BlocoGeral(C, Cneg, idx, b, t) && S == BlocoGeralDeVertices(C, k - 1 - l, idx, b)
    ensures P[t] == (S[t], S[t + 1])
    ensures EhVertice(2, k, P[t].0) && EhVertice(2, k, P[t].1) && Concordancias(P[t].0, P[t].1) == l
  {
    ArestaBlocoGeral(C, Cneg, k, l, idx, b, t);
  }

  /** P1 (b == 0) or P2_lin (b == 1) walks through its block along edges of (2, k, l). */
  lemma BlocoGeralPercorrido(C: Ciclo, Cneg: Ciclo, k: nat, l: nat, idx: nat, b: nat, P: Ciclo, S: seq<Vertice>)
    requires 2 <= l < k && b < 2 && |P| == |C| - 1 && |C| >= 2 && idx < |C| && |Cneg| == |C|
    requires forall t :: 0 <= t < |P| ==> LocalGeral(C, Cneg, k, l, idx, t)
    requires forall t :: 0 <= t < |P| ==> P[t] == BlocoGeral(C, Cneg, idx, b, t)
    requires S == BlocoGeralDeVertices(C, k - 1 - l, idx, b)
    ensures PercorreBloco(P, S)
    ensures ArestasValidas(P, k, l)
  {
    forall t | 0 <= t < |P|
      ensures P[t] == (S[t], S[t + 1])
      ensures EhVertice(2, k, P[t].0) && EhVertice(2, k, P[t].1) && Concordancias(P[t].0, P[t].1) == l
    {
      PassoDoBlocoGeral(C, Cneg, k, l, idx, b, P, S, t);
    }
    forall e | e in P
      ensures EhVertice(2, k, e.0) && EhVertice(2, k, e.1) && Concordancias(e.0, e.1) == l
    {
      var t :| 0 <= t < |P| && P[t] == e;
    }
  }

  /** Equal vertices of the general blocks come from the same block and the same tuple. */
  lemma VerticeDeBlocoGeralInjetivo(b1: nat, f1: Vertice, r1: Vertice, b2: nat, f2: Vertice, r2: Vertice)
    requires b1 < 2 && b2 < 2
    requires VerticeDeBlocoGeral(b1, f1, r1) == VerticeDeBlocoGeral(b2, f2, r2)
    ensures b1 == b2
    ensures b1 == 0 ==> f1 == f2
    ensures b1 == 1 ==> r1 == r2
  {
    var p1, p2 := if b1 == 0 then [0] else [1], if b2 == 0 then [0] else [1];
    var s1, s2 := if b1 == 0 then f1 else r1, if b2 == 0 then f2 else r2;
    assert VerticeDeBlocoGeral(b1, f1, r1) == p1 + s1;
    assert VerticeDeBlocoGeral(b2, f2, r2) == p2 + s2;
    PrefixoDaConcat(p1, s1, p2, s2);
  }

  lemma VerticeGeralInjetivo(C: Ciclo, k: nat, l: nat, idx: nat, b1: nat, t1: nat, b2: nat, t2: nat)
    requires 2 <= l < k && idx < |C| && b1 < 2 && b2 < 2 && t1 < |C| && t2 < |C| && IniciosDistintos(C)
    requires forall i {:trigger C[i].0} :: 0 <= i < |C| ==> EhVertice(2, k - 1, C[i].0)
    requires VerticeGeral(C, k - 1 - l, idx, b1, t1) == VerticeGeral(C, k - 1 - l, idx, b2, t2)
    ensures b1 == b2 && t1 == t2
  {
    var L, m := |C|, k - 1 - l;
    var f1, f2 := C[Adiante(idx, t1, L)].0, C[Adiante(idx, t2, L)].0;
    var g1, g2 := C[Atras(idx, t1, L)].0, C[Atras(idx, t2, L)].0;
    VerticeDeBlocoGeralInjetivo(b1, f1, Complemento(g1, m), b2, f2, Complemento(g2, m));
    if t1 != t2 {
      IndicesInjetivos(idx, t1, t2, L);
      if b1 == 1 {
        ComplementoInvolutivo(g1, m);
        ComplementoInvolutivo(g2, m);
      }
      assert false;
    }
  }

  lemma BlocoGeralSemRepeticao(C: Ciclo, Cneg: Ciclo, k: nat, l: nat, idx: nat, b: nat)
    requires ContextoGeral(C, Cneg, k, l, idx) && b < 2
    ensures SemRepeticao(BlocoGeralDeVertices(C, k - 1 - l, idx, b))
  {
    var S := BlocoGeralDeVertices(C, k - 1 - l, idx, b);
    forall i, j | 0 <= i < j < |S|
      ensures S[i] != S[j]
    {
      if S[i] == S[j] {
        VerticeGeralInjetivo(C, k, l, idx, b, i, b, j);
      }
    }
  }

  /** The 2 * 2^(k-1) vertices of the new cycle are pairwise distinct. */
  lemma VerticesGeralDistintos(C: Ciclo, Cneg: Ciclo, k: nat, l: nat, idx: nat)
    requires ContextoGeral(C, Cneg, k, l, idx)
    ensures SemRepeticao(BlocoGeralDeVertices(C, k - 1 - l, idx, 0) + BlocoGeralDeVertices(C, k - 1 - l, idx, 1))
  {
    var S, T := BlocoGeralDeVertices(C, k - 1 - l, idx, 0), BlocoGeralDeVertices(C, k - 1 - l, idx, 1);
    BlocoGeralSemRepeticao(C, Cneg, k, l, idx, 0);
    BlocoGeralSemRepeticao(C, Cneg, k, l, idx, 1);
    forall x | x in S
      ensures x !in T
    {
      var i :| 0 <= i < |S| && S[i] == x;
      if x in T {
        var j :| 0 <= j < |T| && T[j] == x;
        VerticeGeralInjetivo(C, k, l, idx, 0, i, 1, j);
      }
    }
    ConcatSemRepeticao(S, T);
  }

  /** Two paths through two blocks of vertices, joined by the two bridges, form a Hamiltonian
      cycle when the blocks together list every vertex exactly once. */
  lemma JuntarDoisBlocos(P1: Ciclo, S1: seq<Vertice>, P2: Ciclo, S2: seq<Vertice>, k: nat, l: nat)
    requires PercorreBloco(P1, S1) && PercorreBloco(P2, S2)
    requires ArestasValidas(P1, k, l) && ArestasValidas(P2, k, l)
    requires ArestasValidas([Ponte(P1, P2)], k, l) && ArestasValidas([Ponte(P2, P1)], k, l)
    requires SemRepeticao(S1 + S2) && |S1 + S2| == Pot(2, k)
    ensures EhCicloHamiltoniano(P1 + [Ponte(P1, P2)] + P2 + [Ponte(P2, P1)], k, l)
  {
    BlocoComPonte(P1, S1, P2, S2, k, l);
    BlocoComPonte(P2, S2, P1, S1, k, l);
    var Q1, Q2 := P1 + [Ponte(P1, P2)], P2 + [Ponte(P2, P1)];
    JuntarCaminhos(Q1, S1, Q2, S2, S1[0], k, l);
    AnexarComPonte(Q1, P2, Ponte(P2, P1));
    assert (S1 + S2)[0] == S1[0];
    HamiltonianoPorVertices(Q1 + Q2, S1 + S2, k, l);
  }

  /** Whatever a method fills P1 and P2_lin with as the loop prescribes, joining them with the two
      bridges gives a Hamiltonian cycle of (2, k, l). */
  lemma MontagemGeral(C: Ciclo, Cneg: Ciclo, k: nat, l: nat, idx: nat, P1: Ciclo, P2: Ciclo)
    requires ContextoGeral(C, Cneg, k, l, idx)
    requires |P1| == |P2| == |C| - 1
    requires SegueBlocoGeral(P1, C, Cneg, idx, 0) && SegueBlocoGeral(P2, C, Cneg, idx, 1)
    ensures |P1| > 0 && |P2| > 0
    ensures EhCicloHamiltoniano(P1 + [Ponte(P1, P2)] + P2 + [Ponte(P2, P1)], k, l)
  {
    var L := |C|;
    PotPositiva(k - 1);
    assert Pot(2, k) == 2 * L;
    forall t | 0 <= t < L - 1
      ensures LocalGeral(C, Cneg, k, l, idx, t)
    {
      LocalGeralDoContexto(C, Cneg, k, l, idx, t);
    }
    PassoDoCiclo(C, k - 1, l - 1, idx);
    VerticesGeralDistintos(C, Cneg, k, l, idx);
    MontagemGeralLocal(C, Cneg, k, l, idx, P1, P2);
  }

  /** The assembly of the general step from the facts each step and each bridge needs. */
  lemma MontagemGeralLocal(C: Ciclo, Cneg: Ciclo, k: nat, l: nat, idx: nat, P1: Ciclo, P2: Ciclo)
    requires 2 <= l < k && idx < |C| && |C| >= 2 && |Cneg| == |C| && Pot(2, k) == 2 * |C|
    requires |P1| == |P2| == |C| - 1
    requires forall t :: 0 <= t < |C| - 1 ==> LocalGeral(C, Cneg, k, l, idx, t)
    requires PassoValido(C, k - 1, l - 1, idx)
    requires SemRepeticao(BlocoGeralDeVertices(C, k - 1 - l, idx, 0) + BlocoGeralDeVertices(C, k - 1 - l, idx, 1))
    requires forall t :: 0 <= t < |P1| ==> P1[t] == BlocoGeral(C, Cneg, idx, 0, t)
    requires forall t :: 0 <= t < |P2| ==> P2[t] == BlocoGeral(C, Cneg, idx, 1, t)
    ensures EhCicloHamiltoniano(P1 + [Ponte(P1, P2)] + P2 + [Ponte(P2, P1)], k, l)
  {
    var m := k - 1 - l;
    var S1, S2 := BlocoGeralDeVertices(C, m, idx, 0), BlocoGeralDeVertices(C, m, idx, 1);
    BlocoGeralPercorrido(C, Cneg, k, l, idx, 0, P1, S1);
    BlocoGeralPercorrido(C, Cneg, k, l, idx, 1, P2, S2);
    PonteGeralValida(C, k, l, idx, 0, P1, S1, P2, S2);
    PonteGeralValida(C, k, l, idx, 1, P2, S2, P1, S1);
    JuntarDoisBlocos(P1, S1, P2, S2, k, l);
  }

  // ---------------------------------------------------------------------------
  // The builder (grafo_timbral.py:144-237)
  // ---------------------------------------------------------------------------

  /** The cut indices `rd.randint(0, len(C) - 1)` drawn on the way down the recursion: the first
      one for this level (below the length 2^(k-2) or 2^(k-1) of the smaller cycle), the rest for
      the deeper levels. */
  predicate CortesValidos(k: nat, l: nat, cortes: seq<nat>)
    decreases k
  {
    if l == 1 then
      k <= 2 || (|cortes| > 0 && cortes[0] < Pot(2, k - 2) && CortesValidos(k - 2, 1, cortes[1..]))
    else
      l > 1 && k > 0 && |cortes| > 0 && cortes[0] < Pot(2, k - 1) && CortesValidos(k - 1, l - 1, cortes[1..])
  }

  // ---------------------------------------------------------------------------
  // The hamiltonicity test, corrected
  // ---------------------------------------------------------------------------

  /** The test of grafo_timbral.py:53 together with l < k, which it leaves out: the condition
      under which the binary builder terminates with a Hamiltonian cycle. */
  predicate HamiltonianoCorrigido(n: nat, k: nat, l: nat)
  {
    Hamiltoniano(n, k, l) && l < k
  }

  /** A Hamiltonian cycle of a binary graph accepted by the test as written exists only when
      the corrected test accepts it too. */
  lemma CicloExigeHamiltonianoCorrigido(C: Ciclo, k: nat, l: nat)
    requires Hamiltoniano(2, k, l) && EhCicloHamiltoniano(C, k, l)
    ensures HamiltonianoCorrigido(2, k, l)
  {
    PotPositiva(k);
    assert EhVertice(2, k, C[0].0);
    assert Concordancias(C[0].0, C[0].1) == l;
  }

  /** Under the corrected test, cuts that are all zero are valid cuts, so the builder's
      precondition can be met. */
  lemma {:induction false} CortesNulosValidos(k: nat, l: nat, cortes: seq<nat>)
    requires HamiltonianoCorrigido(2, k, l)
    requires |cortes| >= k && forall i :: 0 <= i < |cortes| ==> cortes[i] == 0
    ensures CortesValidos(k, l, cortes)
    decreases k
  {
    if l == 1 {
      if k > 2 {
        PotPositiva(k - 2);
        CortesNulosValidos(k - 2, 1, cortes[1..]);
      }
    } else {
      PotPositiva(k - 1);
      CortesNulosValidos(k - 1, l - 1, cortes[1..]);
    }
  }

  /** P holds the first |P| edges the loop appends to path b. */
  ghost predicate SegueBlocoBase(P: Ciclo, C: Ciclo, Cneg: Ciclo, idx: nat, b: nat)
  {
    idx < |C| && |Cneg| == |C| && |P| < |C| && forall t :: 0 <= t < |P| ==> P[t] == BlocoBase(C, Cneg, idx, b, t)
  }

  lemma SegueBlocoBaseAnexar(P: Ciclo, C: Ciclo, Cneg: Ciclo, idx: nat, b: nat)
    requires SegueBlocoBase(P, C, Cneg, idx, b) && |P| + 1 < |C|
    ensures SegueBlocoBase(P + [BlocoBase(C, Cneg, idx, b, |P|)], C, Cneg, idx, b)
  {
  }

  ghost predicate SegueBlocoGeral(P: Ciclo, C: Ciclo, Cneg: Ciclo, idx: nat, b: nat)
  {
    idx < |C| && |Cneg| == |C| && |P| < |C| && forall t :: 0 <= t < |P| ==> P[t] == BlocoGeral(C, Cneg, idx, b, t)
  }

  lemma SegueBlocoGeralAnexar(P: Ciclo, C: Ciclo, Cneg: Ciclo, idx: nat, b: nat)
    requires SegueBlocoGeral(P, C, Cneg, idx, b) && |P| + 1 < |C|
    ensures SegueBlocoGeral(P + [BlocoGeral(C, Cneg, idx, b, |P|)], C, Cneg, idx, b)
  {
  }

  /** Iteration i of the l == 1 loop appends, to each of the four paths, the edge of step
      i - idx - 1 of its block. */
  lemma PassoDoLacoBase(C: Ciclo, Cneg: Ciclo, idx: nat, i: nat, w: Vertice, z: Vertice, wn: Vertice, zn: Vertice)
    requires idx < |C| && idx + 1 <= i < idx + |C| && |Cneg| == |C|
    requires (w, z) == C[i % |C|] && (wn, zn) == Cneg[(2 * idx - i) % |C|]
    ensures Soma(w) % 2 == 1 ==>
      BlocoBase(C, Cneg, idx, 0, i - idx - 1) == ([1, 1] + w, [0, 0] + z) &&
      BlocoBase(C, Cneg, idx, 1, i - idx - 1) == ([1, 0] + zn, [0, 1] + wn) &&
      BlocoBase(C, Cneg, idx, 2, i - idx - 1) == ([0, 0] + w, [1, 1] + z) &&
      BlocoBase(C, Cneg, idx, 3, i - idx - 1) == ([0, 1] + zn, [1, 0] + wn)
    ensures Soma(w) % 2 == 0 ==>
      BlocoBase(C, Cneg, idx, 0, i - idx - 1) == ([0, 0] + w, [1, 1] + z) &&
      BlocoBase(C, Cneg, idx, 1, i - idx - 1) == ([0, 1] + zn, [1, 0] + wn) &&
      BlocoBase(C, Cneg, idx, 2, i - idx - 1) == ([1, 1] + w, [0, 0] + z) &&
      BlocoBase(C, Cneg, idx, 3, i - idx - 1) == ([1, 0] + zn, [0, 1] + wn)
  {
    IndicesDoLaco(idx, i - idx - 1, |C|);
  }

  /** Iteration i of the general loop appends, to P1 and P2_lin, the edge of step i - idx - 1 of
      their blocks. */
  lemma PassoDoLacoGeral(C: Ciclo, Cneg: Ciclo, idx: nat, i: nat, w: Vertice, z: Vertice, wn: Vertice, zn: Vertice)
    requires idx < |C| && idx + 1 <= i < idx + |C| && |Cneg| == |C|
    requires (w, z) == C[i % |C|] && (wn, zn) == Cneg[(2 * idx - i) % |C|]
    ensures BlocoGeral(C, Cneg, idx, 0, i - idx - 1) == ([0] + w, [0] + z)
    ensures BlocoGeral(C, Cneg, idx, 1, i - idx - 1) == ([1] + zn, [1] + wn)
  {
    IndicesDoLaco(idx, i - idx - 1, |C|);
  }

  /** The loop of `construir_ciclo_base` (grafo_timbral.py:182-197): walks the recursive cycle from
      the edge after the cut, appending one edge to each of P1, P2_lin, P3 and P4_lin. */
  method CaminhosBase(C: Ciclo, Cneg: Ciclo, idx: nat) returns (P1: Ciclo, P2: Ciclo, P3: Ciclo, P4: Ciclo)
    requires idx < |C| && |Cneg| == |C|
    ensures |P1| == |P2| == |P3| == |P4| == |C| - 1
    ensures SegueBlocoBase(P1, C, Cneg, idx, 0) && SegueBlocoBase(P2, C, Cneg, idx, 1)
    ensures SegueBlocoBase(P3, C, Cneg, idx, 2) && SegueBlocoBase(P4, C, Cneg, idx, 3)
  {
    var L := |C|;
    P1, P2, P3, P4 := [], [], [], [];
    var i := idx + 1;
    while i < idx + L
      invariant idx + 1 <= i <= idx + L
      invariant |P1| == |P2| == |P3| == |P4| == i - idx - 1
      invariant SegueBlocoBase(P1, C, Cneg, idx, 0) && SegueBlocoBase(P2, C, Cneg, idx, 1)
      invariant SegueBlocoBase(P3, C, Cneg, idx, 2) && SegueBlocoBase(P4, C, Cneg, idx, 3)
    {
      var (w, z) := C[i % L];
      var (wn, zn) := Cneg[(2 * idx - i) % L];
      PassoDoLacoBase(C, Cneg, idx, i, w, z, wn, zn);
      SegueBlocoBaseAnexar(P1, C, Cneg, idx, 0);
      SegueBlocoBaseAnexar(P2, C, Cneg, idx, 1);
      SegueBlocoBaseAnexar(P3, C, Cneg, idx, 2);
      SegueBlocoBaseAnexar(P4, C, Cneg, idx, 3);
      if Soma(w) % 2 == 1 {
        P1 := P1 + [([1, 1] + w, [0, 0] + z)];
        P2 := P2 + [([1, 0] + zn, [0, 1] + wn)];
        P3 := P3 + [([0, 0] + w, [1, 1] + z)];
        P4 := P4 + [([0, 1] + zn, [1, 0] + wn)];
      } else {
        P1 := P1 + [([0, 0] + w, [1, 1] + z)];
        P2 := P2 + [([0, 1] + zn, [1, 0] + wn)];
        P3 := P3 + [([1, 1] + w, [0, 0] + z)];
        P4 := P4 + [([1, 0] + zn, [0, 1] + wn)];
      }
      i := i + 1;
    }
  }

  /** The loop of `construir_ciclo_geral` (grafo_timbral.py:219-225). */
  method CaminhosGerais(C: Ciclo, Cneg: Ciclo, idx: nat) returns (P1: Ciclo, P2: Ciclo)
    requires idx < |C| && |Cneg| == |C|
    ensures |P1| == |P2| == |C| - 1
    ensures SegueBlocoGeral(P1, C, Cneg, idx, 0) && SegueBlocoGeral(P2, C, Cneg, idx, 1)
  {
    var L := |C|;
    P1, P2 := [], [];
    var i := idx + 1;
    while i < idx + L
      invariant idx + 1 <= i <= idx + L
      invariant |P1| == |P2| == i - idx - 1
      invariant SegueBlocoGeral(P1, C, Cneg, idx, 0) && SegueBlocoGeral(P2, C, Cneg, idx, 1)
    {
      var (w, z) := C[i % L];
      var (wn, zn) := Cneg[(2 * idx - i) % L];
      PassoDoLacoGeral(C, Cneg, idx, i, w, z, wn, zn);
      SegueBlocoGeralAnexar(P1, C, Cneg, idx, 0);
      SegueBlocoGeralAnexar(P2, C, Cneg, idx, 1);
      P1 := P1 + [([0] + w, [0] + z)];
      P2 := P2 + [([1] + zn, [1] + wn)];
      i := i + 1;
    }
  }

  /** `construir_ciclo_hamiltoniano_binario`, for a graph the hamiltonicity test accepts with
      l < k (the guard `assert self.hamiltoniano and self.n == 2` of the source). */
  method ConstruirCicloHamiltonianoBinario(k: nat, l: nat, cortes: seq<nat>) returns (Cl: Ciclo)
    requires HamiltonianoCorrigido(2, k, l) && CortesValidos(k, l, cortes)
    ensures EhCicloHamiltoniano(Cl, k, l)
    decreases k, 1
  {
    if l == 1 {
      Cl := ConstruirCicloBase(k, cortes);
    } else {
      Cl := ConstruirCicloGeral(k, l, cortes);
    }
  }

  /** `construir_ciclo_base`: the l == 1 step, from a Hamiltonian cycle of (2, k - 2, 1). */
  method ConstruirCicloBase(k: nat, cortes: seq<nat>) returns (Cl: Ciclo)
    requires k >= 2 && k % 2 == 0 && CortesValidos(k, 1, cortes)
    ensures EhCicloHamiltoniano(Cl, k, 1)
    decreases k, 0
  {
    if k == 2 {
      Cl := CicloQuatro();
      CicloQuatroHamiltoniano();
      return;
    }
    var C := ConstruirCicloHamiltonianoBinario(k - 2, 1, cortes[1..]);
    var Cneg := CicloComplementar(C, k);
    var idx := cortes[0];
    var L := |C|;
    PotPositiva(k - 2);
    var P1, P2, P3, P4 := CaminhosBase(C, Cneg, idx);
    MontagemBase(C, Cneg, k, idx, P1, P2, P3, P4);
    Cl := P1 + [(P1[|P1| - 1].1, P2[0].0)] + P2 + [(P2[|P2| - 1].1, P3[0].0)] +
          P3 + [(P3[|P3| - 1].1, P4[0].0)] + P4 + [(P4[|P4| - 1].1, P1[0].0)];
  }

  /** `construir_ciclo_geral`: the l >= 2 step, from a Hamiltonian cycle of (2, k - 1, l - 1). */
  method ConstruirCicloGeral(k: nat, l: nat, cortes: seq<nat>) returns (Cl: Ciclo)
    requires Hamiltoniano(2, k, l) && 2 <= l < k && CortesValidos(k, l, cortes)
    ensures EhCicloHamiltoniano(Cl, k, l)
    decreases k, 0
  {
    var C := ConstruirCicloHamiltonianoBinario(k - 1, l - 1, cortes[1..]);
    var Cneg := CicloComplementar(C, k - 1 - l);
    var idx := cortes[0];
    var L := |C|;
    PotPositiva(k - 1);
    var P1, P2 := CaminhosGerais(C, Cneg, idx);
    MontagemGeral(C, Cneg, k, l, idx, P1, P2);
    Cl := P1 + [(P1[|P1| - 1].1, P2[0].0)] + P2 + [(P2[|P2| - 1].1, P1[0].0)];
  }
}
