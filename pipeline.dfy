/** How the three tools fit together: a list that `guardar_lista_compras`
    saved always resolves to located records, and `gerar_rota_otimizada`
    over it always produces a route that names every matched product. */
module Pipeline {
  import opened Text
  import opened Catalog
  import opened ShoppingList
  import opened Locations
  import opened Route

  /** Every token kept in a saved list is matched by some catalog entry
      when the list is resolved: validation and resolution use the same
      substring test. */
  lemma SavedItemResolves(text: string, catalog: seq<Entry>, t: string)
    requires t in KnownTokens(Tokenise(text), LowerNames(catalog))
    ensures MatchingEntries(t, catalog) != []
    ensures forall r :: r in Group(t, catalog) ==> r.Located?
  {
    var tokens, names := Tokenise(text), LowerNames(catalog);
    PartitionMembers(tokens, names, t);
    KnownInCatalog(catalog, t);
    var e :| e in catalog && IsSubstring(t, Lower(e.name));
    LowerOfLower(t);
    assert Matches(t, e);
    MatchingMembers(t, catalog, e);
  }

  /** A saved list resolves to located records only. */
  lemma SavedListAllLocated(text: string, catalog: seq<Entry>)
    ensures forall r :: r in Resolution(KnownTokens(Tokenise(text), LowerNames(catalog)), catalog) ==> r.Located?
  {
    var valid := KnownTokens(Tokenise(text), LowerNames(catalog));
    forall r | r in Resolution(valid, catalog)
      ensures r.Located?
    {
      ResolutionMembers(valid, catalog, r);
      var item :| item in valid && r in Group(item, catalog);
      SavedItemResolves(text, catalog, item);
    }
  }

  /** End to end: when the list was saved (some token is valid), building
      the route over its resolution succeeds, and every catalog entry that
      matches a saved item has its product name on the route. */
  lemma SavedListHasRoute(text: string, catalog: seq<Entry>)
    requires KnownTokens(Tokenise(text), LowerNames(catalog)) != []
    ensures var valid := KnownTokens(Tokenise(text), LowerNames(catalog));
      var outcome := PlanRoute(Resolution(valid, catalog));
      && outcome.Planned?
      && forall item, e :: item in valid && e in catalog && Matches(item, e) ==> e.name in NameSet(outcome.route)
  {
    var valid := KnownTokens(Tokenise(text), LowerNames(catalog));
    var records := Resolution(valid, catalog);
    var ps := LocatedOnly(records);
    var t := valid[0];
    SavedItemResolves(text, catalog, t);
    var m := MatchingEntries(t, catalog);
    MatchingMembers(t, catalog, m[0]);
    GroupMembers(t, catalog, ToStop(m[0]));
    ResolutionMembers(valid, catalog, ToStop(m[0]));
    LocatedOnlyMembers(records, ToStop(m[0]));
    assert ps != [];
    GreedyRouteStops(ps);
    forall item, e | item in valid && e in catalog && Matches(item, e)
      ensures e.name in NameSet(GreedyRoute(ps))
    {
      GroupMembers(item, catalog, ToStop(e));
      ResolutionMembers(valid, catalog, ToStop(e));
      LocatedOnlyMembers(records, ToStop(e));
      assert ToStop(e).name in NameSet(ps);
    }
  }
}
