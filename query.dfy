/**
 * The read side of the BEM table: the LEFT JOINs to the location tables,
 * SQLite's LIKE, the WHERE clauses of `searchBens` and `getBensFiltrados`,
 * ORDER BY `numero_patrimonio`, LIMIT/OFFSET, and the counters of
 * `getInventarioStats`.
 */
module Query {
  import opened Wrappers
  import opened Seqs
  import opened Numbers
  import opened Models
  import opened Store
  import Text

  /** An AMBIENTE row: its name and its BLOCO. */
  datatype Ambiente = Ambiente(nome: string, idBloco: int)

  /** A BLOCO row: its name and its CAMPUS. */
  datatype Bloco = Bloco(nome: string, idCampus: int)

  /** The tables the listing queries join BEM with, keyed by primary key. */
  datatype Locations = Locations(
    servidores: map<int, string>,
    ambientes: map<int, Ambiente>,
    blocos: map<int, Bloco>,
    campi: map<int, string>)

  /**
   * A listed asset: the BEM row with the names the LEFT JOINs add, and the
   * joined `bl.id_bloco` and `c.id_campus` the filters compare against.
   */
  datatype ListedBem = ListedBem(
    row: BemRow,
    servidorNome: Option<string>,
    ambienteNome: Option<string>,
    blocoNome: Option<string>,
    campusNome: Option<string>,
    idBloco: Option<int>,
    idCampus: Option<int>)

  /** `IBensResult`. */
  datatype BensResult = BensResult(bens: seq<ListedBem>, total: int, hasMore: bool)

  /** The row of `m` under a nullable key, as a LEFT JOIN finds it. */
  function JoinKey<V>(m: map<int, V>, key: Option<int>): Option<V> {
    if key.Some? && key.value in m then Some(m[key.value]) else None
  }

  /** The LEFT JOIN chain BEM → SERVIDOR, BEM → AMBIENTE → BLOCO → CAMPUS. */
  function Joined(locs: Locations, r: BemRow): (b: ListedBem)
    ensures b.row == r
    ensures b.ambienteNome.Some? <==> r.idAmbienteAtual.Some? && r.idAmbienteAtual.value in locs.ambientes
    ensures b.idCampus.Some? ==> b.idBloco.Some? && b.ambienteNome.Some?
  {
    var s := JoinKey(locs.servidores, r.idServidorResponsavel);
    var a := JoinKey(locs.ambientes, r.idAmbienteAtual);
    var blKey := if a.Some? then Some(a.value.idBloco) else None;
    var bl := JoinKey(locs.blocos, blKey);
    var cKey := if bl.Some? then Some(bl.value.idCampus) else None;
    var c := JoinKey(locs.campi, cKey);
    ListedBem(r, s,
      if a.Some? then Some(a.value.nome) else None,
      if bl.Some? then Some(bl.value.nome) else None,
      c,
      if bl.Some? then blKey else None,
      if c.Some? then cKey else None)
  }

  // ---------------------------------------------------------------- LIKE

  /** SQLite's default LIKE folds only the ASCII letters. */
  function AsciiFold(c: char): char {
    if 'A' <= c <= 'Z' then (c as int + 32) as char else c
  }

  function AsciiFoldAll(s: string): (r: string)
    ensures |r| == |s|
    ensures forall i :: 0 <= i < |s| ==> r[i] == AsciiFold(s[i])
  {
    if s == [] then [] else [AsciiFold(s[0])] + AsciiFoldAll(s[1..])
  }

  /** `s LIKE p`: `%` matches any run, `_` any one character, other characters match up to ASCII case. */
  predicate Like(p: string, s: string)
    decreases |p| + |s|
  {
    if p == [] then s == []
    else if p[0] == '%' then Like(p[1..], s) || (s != [] && Like(p, s[1..]))
    else s != [] && (p[0] == '_' || AsciiFold(p[0]) == AsciiFold(s[0])) && Like(p[1..], s[1..])
  }

  /** Text with no LIKE wildcard in it. */
  predicate NoWildcard(t: string) {
    '%' !in t && '_' !in t
  }

  /** A leading `%` lets the rest match at any position. */
  lemma {:induction false} LikeLeadingPercent(q: string, s: string)
    ensures Like("%" + q, s) <==> exists i :: 0 <= i <= |s| && Like(q, s[i..])
  {
    var p := "%" + q;
    assert p[0] == '%' && p[1..] == q;
    assert Like(p, s) == (Like(q, s) || (s != [] && Like(p, s[1..])));
    assert s[0..] == s;
    if s != [] {
      LikeLeadingPercent(q, s[1..]);
      if Like(p, s[1..]) {
        var i :| 0 <= i <= |s[1..]| && Like(q, s[1..][i..]);
        assert s[1..][i..] == s[i + 1..];
      }
      if exists i :: 1 <= i <= |s| && Like(q, s[i..]) {
        var i :| 1 <= i <= |s| && Like(q, s[i..]);
        assert s[1..][i - 1..] == s[i..];
        assert Like(p, s[1..]);
      }
    }
  }

  /** `%` alone matches everything. */
  lemma {:induction false} LikePercent(s: string)
    ensures Like("%", s)
  {
    assert "%"[1..] == [];
    if s != [] {
      LikePercent(s[1..]);
    }
  }

  /** With no wildcard in `t`, `s LIKE 't%'` is an ASCII case-insensitive prefix test. */
  lemma {:induction false} LikePrefix(t: string, s: string)
    requires NoWildcard(t)
    ensures Like(t + "%", s) <==> AsciiFoldAll(t) <= AsciiFoldAll(s)
  {
    if t == [] {
      assert t + "%" == "%";
      LikePercent(s);
    } else {
      var p := t + "%";
      assert p[0] == t[0] && p[1..] == t[1..] + "%";
      assert t[0] in t;
      if s != [] {
        LikePrefix(t[1..], s[1..]);
        assert AsciiFoldAll(t) == [AsciiFold(t[0])] + AsciiFoldAll(t[1..]);
        assert AsciiFoldAll(s) == [AsciiFold(s[0])] + AsciiFoldAll(s[1..]);
      }
    }
  }

  /** Folding commutes with taking a suffix. */
  lemma FoldSuffix(s: string, i: nat)
    requires i <= |s|
    ensures AsciiFoldAll(s[i..]) == AsciiFoldAll(s)[i..]
  {
  }

  /** With no wildcard in `t`, `s LIKE '%t%'` is an ASCII case-insensitive substring test. */
  lemma LikeContains(t: string, s: string)
    requires NoWildcard(t)
    ensures Like("%" + t + "%", s) <==> Text.Contains(AsciiFoldAll(s), AsciiFoldAll(t))
  {
    assert "%" + t + "%" == "%" + (t + "%");
    LikeLeadingPercent(t + "%", s);
    Text.ContainsIff(AsciiFoldAll(s), AsciiFoldAll(t));
    if Like("%" + t + "%", s) {
      var i :| 0 <= i <= |s| && Like(t + "%", s[i..]);
      LikePrefix(t, s[i..]);
      FoldSuffix(s, i);
    }
    if Text.Contains(AsciiFoldAll(s), AsciiFoldAll(t)) {
      var i :| 0 <= i <= |AsciiFoldAll(s)| && AsciiFoldAll(t) <= AsciiFoldAll(s)[i..];
      LikePrefix(t, s[i..]);
      FoldSuffix(s, i);
    }
  }

  /** `v LIKE p` on a nullable column; NULL never matches. */
  predicate LikeNullable(p: string, v: Option<string>) {
    v.Some? && Like(p, v.value)
  }

  // ---------------------------------------------------------------- WHERE

  /** The two listing queries, whose WHERE clauses differ. */
  datatype QueryKind = SearchBens | BensFiltrados

  /** An id filter is applied when it is set and not 0. */
  predicate IdActive(n: Option<int>) {
    n.Some? && n.value != 0
  }

  /** The search condition: `%search%` against the query's columns. */
  predicate SearchHit(q: QueryKind, pattern: string, b: ListedBem) {
    match q
    case SearchBens =>
      || Like(pattern, b.row.descricaoBem)
      || Like(pattern, b.row.numeroPatrimonio)
      || LikeNullable(pattern, b.row.brCode)
      || Like(pattern, b.row.classificacao)
    case BensFiltrados =>
      || Like(pattern, b.row.numeroPatrimonio)
      || Like(pattern, b.row.descricaoBem)
      || Like(pattern, b.row.classificacao)
      || LikeNullable(pattern, b.ambienteNome)
      || LikeNullable(pattern, b.row.brCode)
  }

  /** The classification condition: a prefix LIKE in `searchBens`, equality in `getBensFiltrados`. */
  predicate ClassHit(q: QueryKind, c: string, b: ListedBem) {
    match q
    case SearchBens => Like(c + "%", b.row.classificacao)
    case BensFiltrados => b.row.classificacao == c
  }

  /** Whether a listed row satisfies every filter that is set (the WHERE clause, as meant). */
  predicate Matches(q: QueryKind, f: Filtro, b: ListedBem) {
    && (TruthyText(f.search) ==> SearchHit(q, "%" + f.search.value + "%", b))
    && (TruthyText(f.classificacao) ==> ClassHit(q, f.classificacao.value, b))
    && (f.estadoConservacao.Some? ==> b.row.estadoConservacao == f.estadoConservacao.value)
    && (IdActive(f.idCampus) ==> b.idCampus == f.idCampus)
    && (IdActive(f.idBloco) ==> b.idBloco == f.idBloco)
    && (IdActive(f.idAmbiente) ==> b.row.idAmbienteAtual == f.idAmbiente)
    && (IdActive(f.idServidorResponsavel) ==> b.row.idServidorResponsavel == f.idServidorResponsavel)
  }

  /** With nothing set, every row matches. */
  lemma NoFilterMatchesAll(q: QueryKind, b: ListedBem)
    ensures Matches(q, NoFilter, b)
  {
  }

  /**
   * With a wildcard-free search text, `searchBens`' search is an ASCII
   * case-insensitive substring test on description, code, scan code or
   * classification.
   */
  lemma SearchIsSubstring(t: string, b: ListedBem)
    requires NoWildcard(t)
    ensures var k := AsciiFoldAll(t);
      SearchHit(SearchBens, "%" + t + "%", b) <==>
      || Text.Contains(AsciiFoldAll(b.row.descricaoBem), k)
      || Text.Contains(AsciiFoldAll(b.row.numeroPatrimonio), k)
      || (b.row.brCode.Some? && Text.Contains(AsciiFoldAll(b.row.brCode.value), k))
      || Text.Contains(AsciiFoldAll(b.row.classificacao), k)
  {
    LikeContains(t, b.row.descricaoBem);
    LikeContains(t, b.row.numeroPatrimonio);
    if b.row.brCode.Some? { LikeContains(t, b.row.brCode.value); }
    LikeContains(t, b.row.classificacao);
  }

  /** `getBensFiltrados` searches one column more than `searchBens`: the environment name. */
  lemma FiltradosSearchWider(pattern: string, b: ListedBem)
    ensures SearchHit(SearchBens, pattern, b) ==> SearchHit(BensFiltrados, pattern, b)
    ensures SearchHit(BensFiltrados, pattern, b) ==>
      SearchHit(SearchBens, pattern, b) || LikeNullable(pattern, b.ambienteNome)
  {
  }

  /** A wildcard-free classification filter: prefix in `searchBens`, exact in `getBensFiltrados`. */
  lemma ClassFilterMeaning(c: string, b: ListedBem)
    requires NoWildcard(c)
    ensures ClassHit(SearchBens, c, b) <==> AsciiFoldAll(c) <= AsciiFoldAll(b.row.classificacao)
    ensures ClassHit(BensFiltrados, c, b) <==> b.row.classificacao == c
    ensures ClassHit(BensFiltrados, c, b) ==> ClassHit(SearchBens, c, b)
  {
    LikePrefix(c, b.row.classificacao);
  }

  /** The WHERE clause of `q` as a test on one joined row. */
  function Where(q: QueryKind, f: Filtro): ListedBem -> bool {
    b => Matches(q, f, b)
  }

  /** The joined rows of the table that satisfy the query's WHERE clause, in table order. */
  function Select(rows: seq<BemRow>, locs: Locations, q: QueryKind, f: Filtro): (r: seq<ListedBem>)
    ensures |r| <= |rows|
    ensures forall i :: 0 <= i < |r| ==> Matches(q, f, r[i]) && r[i].row in rows
    ensures forall i :: 0 <= i < |rows| && Matches(q, f, Joined(locs, rows[i])) ==> Joined(locs, rows[i]) in r
  {
    var all := JoinAll(rows, locs);
    FilterMembers(all, Where(q, f));
    var r := Filter(all, Where(q, f));
    assert forall i :: 0 <= i < |r| ==> r[i].row in rows by {
      forall i | 0 <= i < |r| ensures r[i].row in rows {
        assert r[i] in all;
        var j :| 0 <= j < |all| && all[j] == r[i];
      }
    }
    assert forall i :: 0 <= i < |rows| && Matches(q, f, Joined(locs, rows[i])) ==> Joined(locs, rows[i]) in r by {
      forall i | 0 <= i < |rows| && Matches(q, f, Joined(locs, rows[i])) ensures Joined(locs, rows[i]) in r {
        assert all[i] in all;
      }
    }
    r
  }

  /** The joined rows of the whole table (no WHERE clause), in table order. */
  function JoinAll(rows: seq<BemRow>, locs: Locations): (r: seq<ListedBem>)
    ensures |r| == |rows|
    ensures forall i :: 0 <= i < |rows| ==> r[i] == Joined(locs, rows[i])
  {
    if rows == [] then [] else JoinAll(rows[..|rows| - 1], locs) + [Joined(locs, rows[|rows| - 1])]
  }

  /**
   * The selection holds the joined table rows that satisfy the WHERE clause,
   * in table order and one entry per matching row; the rows it leaves out
   * are exactly those that fail it.
   */
  lemma SelectMeaning(rows: seq<BemRow>, locs: Locations, q: QueryKind, f: Filtro)
    ensures var all := JoinAll(rows, locs);
      && Subsequence(Select(rows, locs, q, f), all)
      && (forall b :: multiset(Select(rows, locs, q, f))[b] == if Matches(q, f, b) then multiset(all)[b] else 0)
      && |Select(rows, locs, q, f)| + |Filter(all, Not(Where(q, f)))| == |rows|
  {
    var all := JoinAll(rows, locs);
    FilterSubsequence(all, Where(q, f));
    FilterMultiset(all, Where(q, f));
    FilterSplit(all, Where(q, f));
  }

  /** One more table row adds its joined row at the end exactly when it matches. */
  lemma SelectSnoc(rows: seq<BemRow>, locs: Locations, q: QueryKind, f: Filtro)
    requires rows != []
    ensures var b := Joined(locs, rows[|rows| - 1]);
      Select(rows, locs, q, f) == Select(rows[..|rows| - 1], locs, q, f) + if Matches(q, f, b) then [b] else []
  {
    var front := rows[..|rows| - 1];
    var b := Joined(locs, rows[|rows| - 1]);
    FilterAppend(JoinAll(front, locs), [b], Where(q, f));
    assert Filter([b], Where(q, f)) == (if Matches(q, f, b) then [b] else []) + Filter([b][1..], Where(q, f));
  }

  /** With no filter set, the selection is the whole joined table. */
  lemma SelectNoFilter(rows: seq<BemRow>, locs: Locations, q: QueryKind)
    ensures Select(rows, locs, q, NoFilter) == JoinAll(rows, locs)
  {
    FilterAll(JoinAll(rows, locs), Where(q, NoFilter));
  }

  // ---------------------------------------------------------------- ORDER BY

  /** Code-point order on text, as SQLite's BINARY collation compares UTF-8. */
  predicate LexLess(a: string, b: string) {
    if a == [] then b != []
    else b != [] && (a[0] < b[0] || (a[0] == b[0] && LexLess(a[1..], b[1..])))
  }

  predicate LexLe(a: string, b: string) {
    a == b || LexLess(a, b)
  }

  /** The order is total. */
  lemma {:induction false} LexTotal(a: string, b: string)
    ensures LexLe(a, b) || LexLe(b, a)
  {
    if a != [] && b != [] && a[0] == b[0] {
      LexTotal(a[1..], b[1..]);
      if a[1..] == b[1..] {
        assert a == [a[0]] + a[1..] && b == [b[0]] + b[1..];
      }
    }
  }

  /** The order is antisymmetric. */
  lemma {:induction false} LexAntisymmetric(a: string, b: string)
    requires LexLess(a, b)
    ensures !LexLess(b, a) && a != b
  {
    if a != [] && a[0] == b[0] {
      LexAntisymmetric(a[1..], b[1..]);
    }
  }

  predicate SortedByNumero(s: seq<ListedBem>) {
    forall i :: 0 < i < |s| ==> LexLe(s[i - 1].row.numeroPatrimonio, s[i].row.numeroPatrimonio)
  }

  /** Insert `x` into a list sorted by code. */
  function InsertByNumero(x: ListedBem, s: seq<ListedBem>): (r: seq<ListedBem>)
    requires SortedByNumero(s)
    ensures SortedByNumero(r)
    ensures multiset(r) == multiset(s) + multiset{x}
    ensures r[0] == x || (s != [] && r[0] == s[0])
  {
    if s == [] then [x]
    else if LexLe(x.row.numeroPatrimonio, s[0].row.numeroPatrimonio) then [x] + s
    else
      LexTotal(x.row.numeroPatrimonio, s[0].row.numeroPatrimonio);
      var rest := InsertByNumero(x, s[1..]);
      assert s == [s[0]] + s[1..];
      [s[0]] + rest
  }

  /** ORDER BY `numero_patrimonio`: a sorted permutation. */
  function SortByNumero(s: seq<ListedBem>): (r: seq<ListedBem>)
    ensures SortedByNumero(r)
    ensures multiset(r) == multiset(s)
    ensures |r| == |s|
  {
    if s == [] then []
    else
      assert s == [s[0]] + s[1..];
      InsertByNumero(s[0], SortByNumero(s[1..]))
  }

  // ---------------------------------------------------------------- LIMIT / OFFSET

  /** The first row SQLite returns for OFFSET `offset`: a negative offset counts as 0. */
  function WindowStart(n: nat, offset: int): (k: nat)
    ensures k <= n
  {
    if offset <= 0 then 0 else if offset > n then n else offset
  }

  /** One past the last row returned for LIMIT `limit`: a negative limit means no limit. */
  function WindowEnd(n: nat, offset: int, limit: int): (k: nat)
    ensures WindowStart(n, offset) <= k <= n
    ensures limit >= 0 ==> k - WindowStart(n, offset) <= limit
  {
    var start := WindowStart(n, offset);
    if limit < 0 || start + limit > n then n else start + limit
  }

  /** `LIMIT limit OFFSET offset` over an ordered result. */
  function Window<T>(s: seq<T>, offset: int, limit: int): (r: seq<T>)
    ensures limit >= 0 ==> |r| <= limit
    ensures |r| == WindowEnd(|s|, offset, limit) - WindowStart(|s|, offset)
    ensures forall i :: 0 <= i < |r| ==> r[i] == s[WindowStart(|s|, offset) + i]
  {
    s[WindowStart(|s|, offset)..WindowEnd(|s|, offset, limit)]
  }

  /** Two consecutive windows of sizes `a` and `b` make up the window of size `a + b`. */
  lemma WindowConsecutive<T>(s: seq<T>, offset: nat, a: nat, b: nat)
    ensures Window(s, offset, a) + Window(s, offset + a, b) == Window(s, offset, a + b)
  {
  }

  /** `(page - 1) * pageSize`. */
  function Offset(pg: Paginacao): int {
    (pg.page - 1) * pg.pageSize
  }

  /** One page of an ordered result: the window, the full count, and whether rows remain past it. */
  function PageOf(sorted: seq<ListedBem>, pg: Paginacao): (r: BensResult)
    ensures pg.pageSize >= 0 ==> |r.bens| <= pg.pageSize
    ensures r.total == |sorted|
    ensures WindowStart(|sorted|, Offset(pg)) + |r.bens| <= |sorted|
    ensures forall i :: 0 <= i < |r.bens| ==> r.bens[i] == sorted[WindowStart(|sorted|, Offset(pg)) + i]
  {
    var bens := Window(sorted, Offset(pg), pg.pageSize);
    BensResult(bens, |sorted|, Offset(pg) + |bens| < |sorted|)
  }

  /** A page of a code-ordered result is itself in code order. */
  lemma PageOfSorted(sorted: seq<ListedBem>, pg: Paginacao)
    requires SortedByNumero(sorted)
    ensures SortedByNumero(PageOf(sorted, pg).bens)
  {
    var r := PageOf(sorted, pg).bens;
    var k := WindowStart(|sorted|, Offset(pg));
    forall i | 0 < i < |r|
      ensures LexLe(r[i - 1].row.numeroPatrimonio, r[i].row.numeroPatrimonio)
    {
      assert r[i - 1] == sorted[k + i - 1] && r[i] == sorted[k + i];
    }
  }

  /** For a real page (page >= 1, size > 0), `hasMore` holds exactly when rows remain past this page. */
  lemma HasMoreMeaning(sorted: seq<ListedBem>, pg: Paginacao)
    requires pg.page >= 1 && pg.pageSize > 0
    ensures PageOf(sorted, pg).hasMore <==> pg.page * pg.pageSize < |sorted|
  {
    var off := Offset(pg);
    assert off >= 0 by { assert pg.page - 1 >= 0; }
    assert pg.page * pg.pageSize == off + pg.pageSize;
  }

  /** The result of `searchBens` or `getBensFiltrados` on the table. */
  function ListPage(rows: seq<BemRow>, locs: Locations, q: QueryKind, f: Filtro, pg: Paginacao): BensResult {
    PageOf(SortByNumero(Select(rows, locs, q, f)), pg)
  }

  /**
   * What a listing page holds: at most `pageSize` rows, all matching and all
   * from the table, in code order; `total` counts every matching row: it
   * is the number of table rows less those that fail the WHERE clause.
   */
  lemma ListPageContents(rows: seq<BemRow>, locs: Locations, q: QueryKind, f: Filtro, pg: Paginacao)
    ensures var r := ListPage(rows, locs, q, f, pg);
      && (pg.pageSize >= 0 ==> |r.bens| <= pg.pageSize)
      && (forall i :: 0 <= i < |r.bens| ==> Matches(q, f, r.bens[i]) && r.bens[i].row in rows)
      && SortedByNumero(r.bens)
      && r.total == |Select(rows, locs, q, f)|
      && r.total + |Filter(JoinAll(rows, locs), Not(Where(q, f)))| == |rows|
      && r.total <= |rows|
  {
    SelectMeaning(rows, locs, q, f);
    var matching := Select(rows, locs, q, f);
    var sorted := SortByNumero(matching);
    var r := PageOf(sorted, pg);
    PageOfSorted(sorted, pg);
    PageRowsMatch(rows, locs, q, f, pg);
  }

  /** Every row on a listed page is a stored row that matches the filters. */
  lemma PageRowsMatch(rows: seq<BemRow>, locs: Locations, q: QueryKind, f: Filtro, pg: Paginacao)
    ensures var r := ListPage(rows, locs, q, f, pg);
      forall i :: 0 <= i < |r.bens| ==> Matches(q, f, r.bens[i]) && r.bens[i].row in rows
  {
    var matching := Select(rows, locs, q, f);
    var sorted := SortByNumero(matching);
    var r := PageOf(sorted, pg);
    forall i | 0 <= i < |r.bens|
      ensures Matches(q, f, r.bens[i]) && r.bens[i].row in rows
    {
      var k := WindowStart(|sorted|, Offset(pg)) + i;
      assert r.bens[i] == sorted[k];
      assert sorted[k] in multiset(matching);
    }
  }

  /** `getBens(offset, limit)`: every row, joined, in code order, windowed. */
  function AllPage(rows: seq<BemRow>, locs: Locations, offset: int, limit: int): BensResult {
    var bens := Window(SortByNumero(JoinAll(rows, locs)), offset, limit);
    BensResult(bens, |rows|, offset + |bens| < |rows|)
  }

  /** `getBens` is the unfiltered listing. */
  lemma AllPageIsUnfiltered(rows: seq<BemRow>, locs: Locations, q: QueryKind, pg: Paginacao)
    ensures AllPage(rows, locs, Offset(pg), pg.pageSize) == ListPage(rows, locs, q, NoFilter, pg)
  {
    SelectNoFilter(rows, locs, q);
  }

  // ---------------------------------------------------------------- statistics

  /** The result of `getInventarioStats`; `conferidos` is NULL over an empty table (SUM of no rows). */
  datatype Stats = Stats(total: nat, conferidos: Option<nat>, valorTotal: real, percentualConferido: int)

  function CountConferidos(rows: seq<BemRow>): (n: nat)
    ensures n <= |rows|
  {
    if rows == [] then 0 else CountConferidos(rows[..|rows| - 1]) + (if rows[|rows| - 1].conferido == 1 then 1 else 0)
  }

  function SumValor(rows: seq<BemRow>): real {
    if rows == [] then 0.0 else SumValor(rows[..|rows| - 1]) + rows[|rows| - 1].valorAquisicao
  }

  /** `getInventarioStats` over the table. */
  function InventarioStats(rows: seq<BemRow>): Stats {
    var n := |rows|;
    var c := CountConferidos(rows);
    Stats(n, if n == 0 then None else Some(c), SumValor(rows),
          if n > 0 then RoundPercent(c, n) else 0)
  }

  /** The percentage: 0 for an empty table, otherwise 100·conferidos/total rounded half up, within 0 to 100. */
  lemma StatsPercent(rows: seq<BemRow>)
    ensures var s := InventarioStats(rows);
      && 0 <= s.percentualConferido <= 100
      && (s.total == 0 ==> s.percentualConferido == 0 && s.conferidos.None?)
      && (s.total > 0 ==>
            && s.conferidos.Some?
            && 2 * s.percentualConferido * s.total - s.total <= 200 * s.conferidos.value
            && 200 * s.conferidos.value < 2 * s.percentualConferido * s.total + s.total)
  {
    if |rows| > 0 {
      RoundPercentRange(CountConferidos(rows), |rows|);
    }
  }

  /** Every row checked gives 100%, none checked gives 0%. */
  lemma StatsExtremes(rows: seq<BemRow>)
    requires |rows| > 0
    ensures CountConferidos(rows) == |rows| ==> InventarioStats(rows).percentualConferido == 100
    ensures CountConferidos(rows) == 0 ==> InventarioStats(rows).percentualConferido == 0
  {
    RoundPercentEnds(|rows|);
  }
}
