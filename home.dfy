// The inventory list of the home screen (HomePage2.tsx): campaigns grouped
// by year, the groups newest year first, each group newest start first;
// the year search; the completion percentage and the status badge.

module Home {
  import opened Wrappers
  import opened Text
  import opened Numbers
  import opened Models

  /** One entry of the rendered list: a year and its campaigns. */
  datatype Grupo = Grupo(ano: int, inventarios: seq<Inventario>)

  // ---------------------------------------------------------------------
  // Grouping by year
  // ---------------------------------------------------------------------

  /** The campaigns of year `y`, in the order they were loaded. */
  function ByYear(data: seq<Inventario>, y: int): (r: seq<Inventario>)
    ensures forall i :: 0 <= i < |r| ==> r[i].ano == y
  {
    if data == [] then []
    else ByYear(data[..|data| - 1], y) + (if data[|data| - 1].ano == y then [data[|data| - 1]] else [])
  }

  /** The years that occur, each once, in the order they first occur. */
  function FirstYears(data: seq<Inventario>): seq<int> {
    if data == [] then []
    else
      var prev := FirstYears(data[..|data| - 1]);
      if data[|data| - 1].ano in prev then prev else prev + [data[|data| - 1].ano]
  }

  /** No element occurs twice. */
  predicate NoDup(s: seq<int>) {
    forall i, j :: 0 <= i < j < |s| ==> s[i] != s[j]
  }

  /** The years of the campaigns. */
  function YearSet(data: seq<Inventario>): set<int> {
    set i | 0 <= i < |data| :: data[i].ano
  }

  /** The first-occurrence list holds each year of the campaigns exactly once. */
  lemma {:induction false} FirstYearsMeaning(data: seq<Inventario>)
    ensures NoDup(FirstYears(data))
    ensures forall y :: y in FirstYears(data) <==> y in YearSet(data)
  {
    if data != [] {
      var init := data[..|data| - 1];
      FirstYearsMeaning(init);
      forall y ensures y in YearSet(data) <==> y in YearSet(init) || y == data[|data| - 1].ano {
        if y in YearSet(data) {
          var i :| 0 <= i < |data| && data[i].ano == y;
          if i < |data| - 1 { assert init[i].ano == y; }
        }
        if y in YearSet(init) {
          var i :| 0 <= i < |init| && init[i].ano == y;
          assert data[i].ano == y;
        }
      }
    }
  }

  /** A year that does not occur has no campaigns. */
  lemma {:induction false} ByYearAbsent(data: seq<Inventario>, y: int)
    requires y !in FirstYears(data)
    ensures ByYear(data, y) == []
  {
    if data != [] {
      var init := data[..|data| - 1];
      var prev := FirstYears(init);
      assert y !in prev;
      ByYearAbsent(init, y);
    }
  }

  /** A campaign is in its year's list exactly when it was loaded. */
  lemma {:induction false} ByYearMembers(data: seq<Inventario>, y: int)
    ensures forall inv :: inv in ByYear(data, y) <==> inv in data && inv.ano == y
  {
    if data != [] {
      var init := data[..|data| - 1];
      ByYearMembers(init, y);
      assert data == init + [data[|data| - 1]];
    }
  }

  /**
   * The `reduce` of `loadInventarios`: one list per year, each campaign
   * pushed onto its year's list; `anos` keeps the years in the order
   * their lists were created.
   */
  method GroupByYear(data: seq<Inventario>) returns (acc: map<int, seq<Inventario>>, anos: seq<int>)
    ensures anos == FirstYears(data)
    ensures forall y :: y in acc <==> y in anos
    ensures forall y :: y in acc ==> acc[y] == ByYear(data, y)
  {
    acc := map[];
    anos := [];
    var i := 0;
    while i < |data|
      invariant 0 <= i <= |data|
      invariant anos == FirstYears(data[..i])
      invariant forall y :: y in acc <==> y in anos
      invariant forall y :: y in acc ==> acc[y] == ByYear(data[..i], y)
    {
      var ano := data[i].ano;
      if ano !in acc {
        ByYearAbsent(data[..i], ano);
        acc := acc[ano := []];
        anos := anos + [ano];
      }
      acc := acc[ano := acc[ano] + [data[i]]];
      assert data[..i + 1][..i] == data[..i];
      i := i + 1;
    }
    assert data[..i] == data;
  }

  /** Years listed strictly newest first. */
  predicate StrictDesc(s: seq<int>) {
    forall i, j :: 0 <= i < j < |s| ==> s[i] > s[j]
  }

  /** Inserts a year into a list sorted newest first. */
  function InsertDesc(y: int, s: seq<int>): seq<int> {
    if s == [] || y > s[0] then [y] + s else [s[0]] + InsertDesc(y, s[1..])
  }

  /** `sort(([anoA], [anoB]) => anoB - anoA)` on the years. */
  function SortDesc(s: seq<int>): seq<int> {
    if s == [] then [] else InsertDesc(s[0], SortDesc(s[1..]))
  }

  /** Every year listed is before `b`. */
  predicate Below(s: seq<int>, b: int) {
    forall k :: 0 <= k < |s| ==> s[k] < b
  }

  /** A year after every year of a sorted list can head it. */
  lemma StrictDescCons(x: int, s: seq<int>)
    requires StrictDesc(s) && Below(s, x)
    ensures StrictDesc([x] + s)
  {
  }

  /** Inserting a year before `b` into years before `b` keeps them before `b`. */
  lemma {:induction false} InsertDescBelow(y: int, s: seq<int>, b: int)
    requires Below(s, b) && y < b
    ensures Below(InsertDesc(y, s), b)
  {
    if s != [] && y <= s[0] {
      InsertDescBelow(y, s[1..], b);
    }
  }

  /** Inserting a new year keeps the list strictly sorted and adds just that year. */
  lemma {:induction false} InsertDescMeaning(y: int, s: seq<int>)
    requires StrictDesc(s) && y !in s
    ensures StrictDesc(InsertDesc(y, s)) && |InsertDesc(y, s)| == |s| + 1
    ensures forall z :: z in InsertDesc(y, s) <==> z == y || z in s
  {
    if s == [] || y > s[0] {
      assert Below(s, y) by {
        forall k | 0 <= k < |s| ensures s[k] < y {
          if k > 0 { assert s[0] > s[k]; }
        }
      }
      StrictDescCons(y, s);
    } else {
      var t := s[1..];
      assert s == [s[0]] + t;
      InsertDescMeaning(y, t);
      assert Below(t, s[0]);
      InsertDescBelow(y, t, s[0]);
      StrictDescCons(s[0], InsertDesc(y, t));
    }
  }

  /** Sorting distinct years lists them strictly newest first, each once. */
  lemma {:induction false} SortDescMeaning(s: seq<int>)
    requires NoDup(s)
    ensures StrictDesc(SortDesc(s)) && |SortDesc(s)| == |s|
    ensures forall z :: z in SortDesc(s) <==> z in s
  {
    if s != [] {
      assert NoDup(s[1..]) by {
        forall i, j | 0 <= i < j < |s[1..]| ensures s[1..][i] != s[1..][j] {
          assert s[1..][i] == s[i + 1] && s[1..][j] == s[j + 1];
        }
      }
      SortDescMeaning(s[1..]);
      assert s[0] !in s[1..] by {
        forall k | 0 <= k < |s[1..]| ensures s[1..][k] != s[0] { assert s[1..][k] == s[k + 1]; }
      }
      InsertDescMeaning(s[0], SortDesc(s[1..]));
      assert s == [s[0]] + s[1..];
    }
  }

  /** Campaigns whose start times never increase along the list. */
  predicate NewestFirst(s: seq<Inventario>, time: string -> int) {
    forall i, j :: 0 <= i < j < |s| ==> time(s[i].dataInicio) >= time(s[j].dataInicio)
  }

  /** Inserts a campaign before the first one that did not start later. */
  function InsertByTime(x: Inventario, s: seq<Inventario>, time: string -> int): seq<Inventario> {
    if s == [] || time(x.dataInicio) >= time(s[0].dataInicio) then [x] + s
    else [s[0]] + InsertByTime(x, s[1..], time)
  }

  /** `sort((a, b) => time(b.data_inicio) - time(a.data_inicio))`: newest start first. */
  function SortByTime(s: seq<Inventario>, time: string -> int): seq<Inventario> {
    if s == [] then [] else InsertByTime(s[0], SortByTime(s[1..], time), time)
  }

  /** No campaign listed started after `b`. */
  predicate StartsBy(s: seq<Inventario>, b: int, time: string -> int) {
    forall k :: 0 <= k < |s| ==> time(s[k].dataInicio) <= b
  }

  /** A campaign that started no earlier than the whole sorted list can head it. */
  lemma NewestFirstCons(x: Inventario, s: seq<Inventario>, time: string -> int)
    requires NewestFirst(s, time) && StartsBy(s, time(x.dataInicio), time)
    ensures NewestFirst([x] + s, time)
  {
  }

  /** Inserting keeps every start no later than `b`. */
  lemma {:induction false} InsertByTimeBound(x: Inventario, s: seq<Inventario>, b: int, time: string -> int)
    requires StartsBy(s, b, time) && time(x.dataInicio) <= b
    ensures StartsBy(InsertByTime(x, s, time), b, time)
  {
    if s != [] && time(x.dataInicio) < time(s[0].dataInicio) {
      InsertByTimeBound(x, s[1..], b, time);
    }
  }

  /** Inserting keeps the order and the contents. */
  lemma {:induction false} InsertByTimeMeaning(x: Inventario, s: seq<Inventario>, time: string -> int)
    requires NewestFirst(s, time)
    ensures NewestFirst(InsertByTime(x, s, time), time)
    ensures multiset(InsertByTime(x, s, time)) == multiset(s) + multiset{x}
  {
    InsertByTimeContents(x, s, time);
    if s == [] || time(x.dataInicio) >= time(s[0].dataInicio) {
      assert StartsBy(s, time(x.dataInicio), time) by {
        forall k | 0 <= k < |s| ensures time(s[k].dataInicio) <= time(x.dataInicio) {
          if k > 0 { assert time(s[0].dataInicio) >= time(s[k].dataInicio); }
        }
      }
      NewestFirstCons(x, s, time);
    } else {
      var t := s[1..];
      InsertByTimeMeaning(x, t, time);
      assert StartsBy(t, time(s[0].dataInicio), time);
      InsertByTimeBound(x, t, time(s[0].dataInicio), time);
      NewestFirstCons(s[0], InsertByTime(x, t, time), time);
    }
  }

  /** Inserting adds the one campaign and keeps all the others. */
  lemma {:induction false} InsertByTimeContents(x: Inventario, s: seq<Inventario>, time: string -> int)
    ensures multiset(InsertByTime(x, s, time)) == multiset(s) + multiset{x}
  {
    if s != [] && time(x.dataInicio) < time(s[0].dataInicio) {
      var t := s[1..];
      assert s == [s[0]] + t;
      InsertByTimeContents(x, t, time);
    }
  }

  /** The sort lists the campaigns newest start first and keeps every one of them. */
  lemma {:induction false} SortByTimeMeaning(s: seq<Inventario>, time: string -> int)
    ensures NewestFirst(SortByTime(s, time), time)
    ensures multiset(SortByTime(s, time)) == multiset(s)
  {
    if s != [] {
      SortByTimeMeaning(s[1..], time);
      InsertByTimeMeaning(s[0], SortByTime(s[1..], time), time);
      assert s == [s[0]] + s[1..];
    }
  }

  /** The groups for the given years, in that order. */
  function GroupsOf(anos: seq<int>, data: seq<Inventario>, time: string -> int): (g: seq<Grupo>)
    ensures |g| == |anos|
    ensures forall k :: 0 <= k < |g| ==> g[k] == Grupo(anos[k], SortByTime(ByYear(data, anos[k]), time))
  {
    if anos == [] then []
    else GroupsOf(anos[..|anos| - 1], data, time) + [Grupo(anos[|anos| - 1], SortByTime(ByYear(data, anos[|anos| - 1]), time))]
  }

  /** What `loadInventarios` stores: the groups, newest year first. */
  function Agrupar(data: seq<Inventario>, time: string -> int): seq<Grupo> {
    GroupsOf(SortDesc(FirstYears(data)), data, time)
  }

  /**
   * `loadInventarios` on the loaded campaigns: group them, sort the years
   * and sort each group. `time(d)` stands for `new Date(d).getTime()`.
   */
  method LoadInventarios(data: seq<Inventario>, time: string -> int) returns (grupos: seq<Grupo>)
    ensures grupos == Agrupar(data, time)
  {
    var acc, anos := GroupByYear(data);
    var ordem := SortDesc(anos);
    OrderedYearsKeyed(data, acc, anos);
    grupos := BuildGroups(ordem, acc, data, time);
  }

  /** Every year of the sorted list is a key of the map, holding that year's campaigns. */
  lemma OrderedYearsKeyed(data: seq<Inventario>, acc: map<int, seq<Inventario>>, anos: seq<int>)
    requires anos == FirstYears(data)
    requires forall y :: y in acc <==> y in anos
    requires forall y :: y in acc ==> acc[y] == ByYear(data, y)
    ensures forall k :: 0 <= k < |SortDesc(anos)| ==> SortDesc(anos)[k] in acc && acc[SortDesc(anos)[k]] == ByYear(data, SortDesc(anos)[k])
  {
    FirstYearsMeaning(data);
    SortDescMeaning(anos);
    var ordem := SortDesc(anos);
    forall k | 0 <= k < |ordem| ensures ordem[k] in acc {
      assert ordem[k] in ordem;
    }
  }

  /** The groups in the order of `ordem`, each sorted newest first. */
  method BuildGroups(ordem: seq<int>, acc: map<int, seq<Inventario>>, data: seq<Inventario>, time: string -> int)
    returns (grupos: seq<Grupo>)
    requires forall k :: 0 <= k < |ordem| ==> ordem[k] in acc && acc[ordem[k]] == ByYear(data, ordem[k])
    ensures grupos == GroupsOf(ordem, data, time)
  {
    grupos := [];
    var k := 0;
    while k < |ordem|
      invariant 0 <= k <= |ordem|
      invariant grupos == GroupsOf(ordem[..k], data, time)
    {
      grupos := grupos + [Grupo(ordem[k], SortByTime(acc[ordem[k]], time))];
      assert ordem[..k + 1][..k] == ordem[..k];
      k := k + 1;
    }
    assert ordem[..k] == ordem;
  }

  /**
   * The groups are listed strictly newest year first; there is one group
   * per year that occurs, and no other.
   */
  lemma AgruparYears(data: seq<Inventario>, time: string -> int)
    ensures var g := Agrupar(data, time);
      && (forall i, j :: 0 <= i < j < |g| ==> g[i].ano > g[j].ano)
      && (forall y :: (exists k :: 0 <= k < |g| && g[k].ano == y) <==> y in YearSet(data))
      && |g| == |YearSet(data)|
  {
    var ordem := SortDesc(FirstYears(data));
    var g := Agrupar(data, time);
    OrderedYears(data);
    assert forall k :: 0 <= k < |g| ==> g[k].ano == ordem[k];
    forall y ensures (exists k :: 0 <= k < |g| && g[k].ano == y) <==> y in YearSet(data) {
      if y in YearSet(data) {
        var k :| 0 <= k < |ordem| && ordem[k] == y;
        assert g[k].ano == y;
      }
    }
  }

  /** The sorted years: strictly descending, each year of the campaigns once. */
  lemma OrderedYears(data: seq<Inventario>)
    ensures StrictDesc(SortDesc(FirstYears(data)))
    ensures forall y :: y in SortDesc(FirstYears(data)) <==> y in YearSet(data)
    ensures |SortDesc(FirstYears(data))| == |YearSet(data)|
  {
    var anos := FirstYears(data);
    FirstYearsMeaning(data);
    SortDescMeaning(anos);
    NoDupCard(anos, YearSet(data));
  }

  /** A list without repetitions has as many elements as the set it lists. */
  lemma {:induction false} NoDupCard(s: seq<int>, t: set<int>)
    requires NoDup(s) && forall y :: y in s <==> y in t
    ensures |t| == |s|
  {
    if s != [] {
      var rest := s[1..];
      assert s == [s[0]] + rest;
      assert NoDup(rest) by {
        forall i, j | 0 <= i < j < |rest| ensures rest[i] != rest[j] {
          assert rest[i] == s[i + 1] && rest[j] == s[j + 1];
        }
      }
      assert s[0] !in rest by {
        forall k | 0 <= k < |rest| ensures rest[k] != s[0] { assert rest[k] == s[k + 1]; }
      }
      var t' := t - {s[0]};
      assert forall y :: y in rest <==> y in t';
      NoDupCard(rest, t');
      assert s[0] in t;
      assert t == t' + {s[0]};
      assert |t' + {s[0]}| == |t'| + 1;
    } else {
      assert forall y :: y !in t;
      assert t == {};
    }
  }

  /**
   * Every group lists, newest start first, exactly the campaigns of its
   * year, each as often as it was loaded.
   */
  lemma AgruparGroups(data: seq<Inventario>, time: string -> int)
    ensures var g := Agrupar(data, time);
      forall k :: 0 <= k < |g| ==>
        && NewestFirst(g[k].inventarios, time)
        && multiset(g[k].inventarios) == multiset(ByYear(data, g[k].ano))
  {
    var g := Agrupar(data, time);
    forall k | 0 <= k < |g|
      ensures NewestFirst(g[k].inventarios, time) && multiset(g[k].inventarios) == multiset(ByYear(data, g[k].ano))
    {
      SortByTimeMeaning(ByYear(data, g[k].ano), time);
    }
  }

  /** A group holds exactly the loaded campaigns of its year. */
  lemma GroupMembers(data: seq<Inventario>, time: string -> int, k: int)
    requires 0 <= k < |Agrupar(data, time)|
    ensures var g := Agrupar(data, time);
      forall inv :: inv in g[k].inventarios <==> inv in data && inv.ano == g[k].ano
  {
    var g := Agrupar(data, time);
    var byYear := ByYear(data, g[k].ano);
    SortByTimeMeaning(byYear, time);
    ByYearMembers(data, g[k].ano);
    forall inv ensures inv in g[k].inventarios <==> inv in byYear {
      assert inv in g[k].inventarios <==> inv in multiset(g[k].inventarios);
      assert inv in byYear <==> inv in multiset(byYear);
    }
  }

  /** Every loaded campaign is in exactly one group, the one of its own year. */
  lemma EveryInventoryOnce(data: seq<Inventario>, time: string -> int, inv: Inventario)
    requires inv in data
    ensures var g := Agrupar(data, time);
      && (exists k :: 0 <= k < |g| && g[k].ano == inv.ano && inv in g[k].inventarios)
      && (forall k, k' :: 0 <= k < |g| && 0 <= k' < |g| && inv in g[k].inventarios && inv in g[k'].inventarios ==> k == k')
  {
    var g := Agrupar(data, time);
    AgruparYears(data, time);
    var i :| 0 <= i < |data| && data[i] == inv;
    assert inv.ano in YearSet(data);
    var k :| 0 <= k < |g| && g[k].ano == inv.ano;
    GroupMembers(data, time, k);
    forall k1, k2 | 0 <= k1 < |g| && 0 <= k2 < |g| && inv in g[k1].inventarios && inv in g[k2].inventarios
      ensures k1 == k2
    {
      GroupMembers(data, time, k1);
      GroupMembers(data, time, k2);
    }
  }

  // ---------------------------------------------------------------------
  // The year search
  // ---------------------------------------------------------------------

  /** The campaigns whose year, written out, contains the search text. */
  function YearMatches(invs: seq<Inventario>, searchText: string): (r: seq<Inventario>)
    ensures |r| <= |invs|
  {
    if invs == [] then []
    else (if Contains(IntToString(invs[0].ano), searchText) then [invs[0]] else []) + YearMatches(invs[1..], searchText)
  }

  /** Each group narrowed to the matching campaigns; groups left empty are dropped. */
  function FilterGroups(grupos: seq<Grupo>, searchText: string): (r: seq<Grupo>)
    ensures |r| <= |grupos|
  {
    if grupos == [] then []
    else
      var kept := YearMatches(grupos[0].inventarios, searchText);
      (if kept != [] then [Grupo(grupos[0].ano, kept)] else []) + FilterGroups(grupos[1..], searchText)
  }

  /** The effect on `searchText`: an empty text shows every group. */
  function FiltrarPorAno(grupos: seq<Grupo>, searchText: string): seq<Grupo> {
    if searchText == "" then grupos else FilterGroups(grupos, searchText)
  }

  /** A campaign survives the narrowing exactly when it was there and its year matches. */
  lemma {:induction false} YearMatchesMembers(invs: seq<Inventario>, searchText: string)
    ensures forall inv :: inv in YearMatches(invs, searchText) <==> inv in invs && Contains(IntToString(inv.ano), searchText)
  {
    if invs != [] {
      YearMatchesMembers(invs[1..], searchText);
      assert invs == [invs[0]] + invs[1..];
    }
  }

  /** `g` is the narrowing of some group of the same year in `grupos`. */
  predicate NarrowedFrom(g: Grupo, grupos: seq<Grupo>, searchText: string) {
    exists j :: 0 <= j < |grupos| && grupos[j].ano == g.ano
      && g.inventarios == YearMatches(grupos[j].inventarios, searchText)
  }

  /** A narrowing of a later group is a narrowing of a group of the whole list. */
  lemma NarrowedTail(g: Grupo, grupos: seq<Grupo>, searchText: string)
    requires grupos != [] && NarrowedFrom(g, grupos[1..], searchText)
    ensures NarrowedFrom(g, grupos, searchText)
  {
    var j :| 0 <= j < |grupos[1..]| && grupos[1..][j].ano == g.ano
      && g.inventarios == YearMatches(grupos[1..][j].inventarios, searchText);
    assert grupos[j + 1] == grupos[1..][j];
  }

  /** `inv` is shown in a group of year `y`. */
  predicate Shown(inv: Inventario, y: int, r: seq<Grupo>) {
    exists k :: 0 <= k < |r| && r[k].ano == y && inv in r[k].inventarios
  }

  /** A campaign shown stays shown when a group is put in front. */
  lemma ShownCons(inv: Inventario, y: int, g: Grupo, r: seq<Grupo>)
    requires Shown(inv, y, r)
    ensures Shown(inv, y, [g] + r)
  {
    var k :| 0 <= k < |r| && r[k].ano == y && inv in r[k].inventarios;
    assert ([g] + r)[k + 1] == r[k];
  }

  /** After a search no group shown is empty. */
  lemma {:induction false} FilterGroupsNonEmpty(grupos: seq<Grupo>, searchText: string)
    ensures forall k :: 0 <= k < |FilterGroups(grupos, searchText)| ==> FilterGroups(grupos, searchText)[k].inventarios != []
  {
    if grupos != [] {
      var rr := FilterGroups(grupos[1..], searchText);
      FilterGroupsNonEmpty(grupos[1..], searchText);
      var kept := YearMatches(grupos[0].inventarios, searchText);
      if kept != [] {
        assert FilterGroups(grupos, searchText) == [Grupo(grupos[0].ano, kept)] + rr;
      } else {
        assert FilterGroups(grupos, searchText) == rr;
      }
    }
  }

  /** Every group shown is a group of the same year narrowed to the campaigns whose year matches. */
  lemma {:induction false} FilterGroupsFrom(grupos: seq<Grupo>, searchText: string)
    ensures forall k :: 0 <= k < |FilterGroups(grupos, searchText)| ==>
      NarrowedFrom(FilterGroups(grupos, searchText)[k], grupos, searchText)
  {
    if grupos != [] {
      var rest := grupos[1..];
      FilterGroupsFrom(rest, searchText);
      var rr := FilterGroups(rest, searchText);
      forall k | 0 <= k < |rr| ensures NarrowedFrom(rr[k], grupos, searchText) {
        assert NarrowedFrom(rr[k], rest, searchText);
        NarrowedTail(rr[k], grupos, searchText);
      }
      var kept := YearMatches(grupos[0].inventarios, searchText);
      if kept != [] {
        assert NarrowedFrom(Grupo(grupos[0].ano, kept), grupos, searchText) by {
          assert grupos[0].ano == Grupo(grupos[0].ano, kept).ano;
        }
        assert FilterGroups(grupos, searchText) == [Grupo(grupos[0].ano, kept)] + rr;
      } else {
        assert FilterGroups(grupos, searchText) == rr;
      }
    }
  }

  /** A campaign whose year matches is shown, in the group of its group's year. */
  lemma {:induction false} FilterGroupsKeeps(grupos: seq<Grupo>, searchText: string)
    ensures var r := FilterGroups(grupos, searchText);
      forall j, inv :: 0 <= j < |grupos| && inv in grupos[j].inventarios && Contains(IntToString(inv.ano), searchText) ==>
        Shown(inv, grupos[j].ano, r)
  {
    if grupos != [] {
      var rest := grupos[1..];
      FilterGroupsKeeps(rest, searchText);
      YearMatchesMembers(grupos[0].inventarios, searchText);
      var rr := FilterGroups(rest, searchText);
      var kept := YearMatches(grupos[0].inventarios, searchText);
      var r := FilterGroups(grupos, searchText);
      assert kept != [] ==> r == [Grupo(grupos[0].ano, kept)] + rr;
      assert kept == [] ==> r == rr;
      forall j, inv | 0 <= j < |grupos| && inv in grupos[j].inventarios && Contains(IntToString(inv.ano), searchText)
        ensures Shown(inv, grupos[j].ano, r)
      {
        if j == 0 {
          assert inv in kept;
          assert r[0].ano == grupos[0].ano && inv in r[0].inventarios;
        } else {
          assert rest[j - 1] == grupos[j];
          assert Shown(inv, rest[j - 1].ano, rr);
          if kept != [] { ShownCons(inv, grupos[j].ano, Grupo(grupos[0].ano, kept), rr); }
        }
      }
    }
  }

  /** The years of a list of groups, in order. */
  function Anos(grupos: seq<Grupo>): (r: seq<int>)
    ensures |r| == |grupos| && forall k :: 0 <= k < |grupos| ==> r[k] == grupos[k].ano
  {
    if grupos == [] then [] else [grupos[0].ano] + Anos(grupos[1..])
  }

  /** Groups all before year `b` are still all before `b` after the search. */
  lemma {:induction false} FilterGroupsBelow(grupos: seq<Grupo>, searchText: string, b: int)
    requires Below(Anos(grupos), b)
    ensures Below(Anos(FilterGroups(grupos, searchText)), b)
  {
    if grupos != [] {
      FilterGroupsBelow(grupos[1..], searchText, b);
    }
  }

  /** The search keeps the groups' order: newest year first stays newest year first. */
  lemma {:induction false} FilterGroupsOrder(grupos: seq<Grupo>, searchText: string)
    requires StrictDesc(Anos(grupos))
    ensures StrictDesc(Anos(FilterGroups(grupos, searchText)))
  {
    if grupos != [] {
      var rest := grupos[1..];
      FilterGroupsOrder(rest, searchText);
      assert Below(Anos(rest), grupos[0].ano) by {
        forall k | 0 <= k < |rest| ensures Anos(rest)[k] < grupos[0].ano {
          assert Anos(grupos)[0] > Anos(grupos)[k + 1];
        }
      }
      FilterGroupsBelow(rest, searchText, grupos[0].ano);
      var rr := FilterGroups(rest, searchText);
      var kept := YearMatches(grupos[0].inventarios, searchText);
      if kept != [] {
        assert Anos(FilterGroups(grupos, searchText)) == [grupos[0].ano] + Anos(rr);
        StrictDescCons(grupos[0].ano, Anos(rr));
      }
    }
  }

  /**
   * The year search as the screen shows it: an empty text shows the groups
   * as loaded; any other text shows, in the loaded order, only non-empty
   * groups, each a loaded group of the same year narrowed to the campaigns
   * whose year contains the text, and loses no such campaign.
   */
  lemma FiltrarPorAnoMeaning(grupos: seq<Grupo>, searchText: string)
    ensures searchText == "" ==> FiltrarPorAno(grupos, searchText) == grupos
    ensures searchText != "" ==>
      var r := FiltrarPorAno(grupos, searchText);
      && (forall k :: 0 <= k < |r| ==> r[k].inventarios != [] && NarrowedFrom(r[k], grupos, searchText))
      && (forall j, inv :: 0 <= j < |grupos| && inv in grupos[j].inventarios && Contains(IntToString(inv.ano), searchText) ==>
            Shown(inv, grupos[j].ano, r))
      && (StrictDesc(Anos(grupos)) ==> StrictDesc(Anos(r)))
  {
    if searchText != "" {
      assert FiltrarPorAno(grupos, searchText) == FilterGroups(grupos, searchText);
      FilterGroupsNonEmpty(grupos, searchText);
      FilterGroupsFrom(grupos, searchText);
      FilterGroupsKeeps(grupos, searchText);
      if StrictDesc(Anos(grupos)) { FilterGroupsOrder(grupos, searchText); }
    }
  }

  // ---------------------------------------------------------------------
  // Progress and status
  // ---------------------------------------------------------------------

  /** `calcularPercentualConclusao`: `Math.round(conferidos / total * 100)`, 0 without a positive total or a count. */
  function CalcularPercentual(inv: Inventario): int {
    if inv.totalBens.Some? && inv.totalBens.value != 0 && inv.bensConferidos.Some? then
      if inv.totalBens.value > 0 then RoundPercent(inv.bensConferidos.value, inv.totalBens.value) else 0
    else 0
  }

  /**
   * The percentage is 0 without a positive total or without a count, and
   * otherwise the count over the total times 100, rounded half up; a count
   * within the total gives 0 to 100, the full count 100.
   */
  lemma PercentualMeaning(inv: Inventario)
    ensures inv.totalBens.None? || inv.totalBens.value <= 0 || inv.bensConferidos.None? ==> CalcularPercentual(inv) == 0
    ensures inv.totalBens.Some? && inv.totalBens.value > 0 && inv.bensConferidos.Some? ==>
      var p := CalcularPercentual(inv);
      var c := inv.bensConferidos.value;
      var t := inv.totalBens.value;
      && 2 * p * t - t <= 200 * c < 2 * p * t + t
      && (0 <= c <= t ==> 0 <= p <= 100)
      && (c == t ==> p == 100)
  {
    if inv.totalBens.Some? && inv.totalBens.value > 0 && inv.bensConferidos.Some? {
      var c := inv.bensConferidos.value;
      var t := inv.totalBens.value;
      if 0 <= c <= t { RoundPercentRange(c, t); }
      RoundPercentEnds(t);
    }
  }

  /** The badge of a campaign: its text and its colour. */
  datatype Status = Status(texto: string, cor: string)

  /** `getStatusInventario`. `time(d)` stands for `new Date(d).getTime()`, `None` for an invalid date. */
  function StatusInventario(inv: Inventario, today: int, time: string -> Option<int>): Status {
    var ended := TruthyText(inv.dataFim) && time(inv.dataFim.value).Some? && today > time(inv.dataFim.value).value;
    if ended then Status("Concluído", "success") else Status("Em Andamento", "warning")
  }

  /**
   * "Concluído" in green exactly when the campaign has an end date that is
   * a valid date and today is after it; "Em Andamento" in amber in every
   * other case, including an end date that is not a date. Over time the
   * badge changes at most once: a finished campaign stays finished on every
   * later day, one without an end date or with an unparsable one is in
   * progress on every day, and one with a valid end date is in progress on
   * that day and finished from the next one on.
   */
  lemma StatusMeaning(inv: Inventario, today: int, time: string -> Option<int>)
    ensures var s := StatusInventario(inv, today, time);
      && (s == Status("Concluído", "success") || s == Status("Em Andamento", "warning"))
      && (s.texto == "Concluído" <==>
            inv.dataFim.Some? && inv.dataFim.value != ""
            && time(inv.dataFim.value).Some? && time(inv.dataFim.value).value < today)
    ensures StatusInventario(inv, today, time).texto == "Concluído" ==>
      forall later :: later >= today ==> StatusInventario(inv, later, time) == StatusInventario(inv, today, time)
    ensures inv.dataFim.None? || inv.dataFim.value == "" || time(inv.dataFim.value).None? ==>
      forall d :: StatusInventario(inv, d, time) == Status("Em Andamento", "warning")
    ensures inv.dataFim.Some? && inv.dataFim.value != "" && time(inv.dataFim.value).Some? ==>
      var end := time(inv.dataFim.value).value;
      && StatusInventario(inv, end, time).texto == "Em Andamento"
      && forall d :: d > end ==> StatusInventario(inv, d, time).texto == "Concluído"
  {
    assert "Concluído"[0] != "Em Andamento"[0];
  }
}
