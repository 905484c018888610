// The in-memory search of the inventory screen (`filtrarBens` in
// InventarioPage.tsx): the loaded assets are narrowed to those whose
// description, scan code, code or room name contains the search text,
// letter case aside.

module Inventario {
  import opened Wrappers
  import opened Seqs
  import opened Text
  import opened Models

  /** The search test of one asset; `q` is the search text already lower-cased. */
  predicate Matches(bem: Bem, q: string) {
    || Contains(Lower(bem.descricaoBem), q)
    || Contains(Lower(bem.brCode), q)
    || (bem.numeroPatrimonio != "" && Contains(Lower(bem.numeroPatrimonio), q))
    || (TruthyText(bem.ambienteNome) && Contains(Lower(bem.ambienteNome.value), q))
  }

  /** The search test with the lower-cased search text `q`, as the `filter` callback. */
  function Hits(q: string): Bem -> bool {
    b => Matches(b, q)
  }

  /** `filtrarBens`: an empty search keeps the list; otherwise the matching assets are kept. */
  function FiltrarBens(bens: seq<Bem>, searchText: string): seq<Bem> {
    if searchText == "" then bens else Filter(bens, Hits(Lower(searchText)))
  }

  /**
   * The search, stated as the screen promises it: an empty text returns
   * the list as loaded; any other text returns, in their order and once per
   * occurrence, exactly the loaded assets in which its lower-cased form
   * occurs, so the list is kept whole exactly when every asset matches.
   */
  lemma FiltrarBensMeaning(bens: seq<Bem>, searchText: string)
    ensures searchText == "" ==> FiltrarBens(bens, searchText) == bens
    ensures searchText != "" ==>
      var q := Lower(searchText);
      && Subsequence(FiltrarBens(bens, searchText), bens)
      && (forall b :: b in FiltrarBens(bens, searchText) <==> b in bens && Matches(b, q))
      && (forall b :: multiset(FiltrarBens(bens, searchText))[b] == if Matches(b, q) then multiset(bens)[b] else 0)
      && (FiltrarBens(bens, searchText) == bens <==> forall i :: 0 <= i < |bens| ==> Matches(bens[i], q))
  {
    if searchText != "" {
      var q := Lower(searchText);
      FilterSubsequence(bens, Hits(q));
      FilterMembers(bens, Hits(q));
      FilterMultiset(bens, Hits(q));
      FilterAll(bens, Hits(q));
    }
  }
}
