/** Resolving the saved list against the catalog
    (`obter_localizacoes_lista`): every list item becomes the location
    records of all catalog entries whose name contains it, or one error
    record when none does. */
module Locations {
  import opened Text
  import opened Seqs
  import opened Catalog

  /** One entry of `resultados`. Both kinds carry `produto` as `name`: the
      catalog's product name for a located record, the list item itself for
      an error record. */
  datatype Record =
    | Located(name: string, aisle: string, section: string, shelf: string, bin: string, x: int, y: int)
    | NotFound(name: string)

  /** A record that has a place in the store. */
  type Stop = r: Record | r.Located? witness Located("", "", "", "", "", 0, 0)

  /** `item.lower() in p["nome_produto"].lower()`. */
  predicate Matches(item: string, e: Entry) {
    IsSubstring(Lower(item), Lower(e.name))
  }

  function MatchesItem(item: string): Entry -> bool {
    e => Matches(item, e)
  }

  /** `correspondencias`: the catalog entries that match the item, in
      catalog order. */
  function MatchingEntries(item: string, catalog: seq<Entry>): seq<Entry> {
    Filter(MatchesItem(item), catalog)
  }

  /** The location record built from a catalog entry. */
  function ToStop(e: Entry): Stop {
    Located(e.name, e.aisle, e.section, e.shelf, e.bin, e.x, e.y)
  }

  function ToStops(es: seq<Entry>): (r: seq<Record>)
    ensures |r| == |es|
  {
    seq(|es|, i requires 0 <= i < |es| => ToStop(es[i]))
  }

  /** The records one list item contributes. */
  function Group(item: string, catalog: seq<Entry>): seq<Record> {
    var m := MatchingEntries(item, catalog);
    if m == [] then [NotFound(item)] else ToStops(m)
  }

  function GroupOf(catalog: seq<Entry>): string -> seq<Record> {
    item => Group(item, catalog)
  }

  /** `resultados` for the list `items`: the groups of the items, in list
      order. */
  function Resolution(items: seq<string>, catalog: seq<Entry>): seq<Record> {
    FlatMap(GroupOf(catalog), items)
  }

  /** The resolution loop: for each item, append a record per matching
      entry, or one error record. */
  method ResolveLocations(items: seq<string>, catalog: seq<Entry>) returns (results: seq<Record>)
    ensures results == Resolution(items, catalog)
  {
    results := [];
    for i := 0 to |items|
      invariant results == Resolution(items[..i], catalog)
    {
      var item := items[i];
      assert items[..i + 1] == items[..i] + [item];
      FlatMapSnoc(GroupOf(catalog), items[..i], item);
      var matches := MatchingEntries(item, catalog);
      if matches != [] {
        ghost var before := results;
        for j := 0 to |matches|
          invariant results == before + ToStops(matches[..j])
        {
          assert ToStops(matches[..j + 1]) == ToStops(matches[..j]) + [ToStop(matches[j])];
          results := results + [ToStop(matches[j])];
        }
        assert matches[..|matches|] == matches;
      } else {
        results := results + [NotFound(item)];
      }
    }
    assert items[..|items|] == items;
  }

  /** An entry is among the matches of an item exactly when it is in the
      catalog and its lower-cased name contains the lower-cased item. */
  lemma MatchingMembers(item: string, catalog: seq<Entry>, e: Entry)
    ensures e in MatchingEntries(item, catalog) <==> e in catalog && Matches(item, e)
  {
    FilterMembers(MatchesItem(item), catalog, e);
  }

  /** The records of one item: an error record carrying the item when no
      entry matches, else one located record per matching entry. */
  lemma GroupMembers(item: string, catalog: seq<Entry>, r: Record)
    ensures r in Group(item, catalog) <==>
      || (r == NotFound(item) && MatchingEntries(item, catalog) == [])
      || (exists e :: e in catalog && Matches(item, e) && r == ToStop(e))
  {
    var m := MatchingEntries(item, catalog);
    if exists e :: e in catalog && Matches(item, e) && r == ToStop(e) {
      var e :| e in catalog && Matches(item, e) && r == ToStop(e);
      MatchingMembers(item, catalog, e);
      var k :| 0 <= k < |m| && m[k] == e;
      assert ToStops(m)[k] == r;
    }
    if r in Group(item, catalog) && m != [] {
      var k :| 0 <= k < |m| && ToStops(m)[k] == r;
      MatchingMembers(item, catalog, m[k]);
    }
  }

  /** Resolution keeps list order: the records of `a + b` are those of `a`
      followed by those of `b`. */
  lemma ResolutionConcat(a: seq<string>, b: seq<string>, catalog: seq<Entry>)
    ensures Resolution(a + b, catalog) == Resolution(a, catalog) + Resolution(b, catalog)
  {
    FlatMapConcat(GroupOf(catalog), a, b);
  }

  /** `max(1, #matches)`: how many records an item contributes. */
  function GroupSize(item: string, catalog: seq<Entry>): nat {
    var n := |MatchingEntries(item, catalog)|;
    if n == 0 then 1 else n
  }

  function TotalGroupSize(items: seq<string>, catalog: seq<Entry>): nat {
    if items == [] then 0
    else TotalGroupSize(items[1..], catalog) + GroupSize(items[0], catalog)
  }

  /** The number of records is the sum over the items of
      `max(1, #matches)`; in particular no item is dropped. */
  lemma {:induction false} ResolutionSize(items: seq<string>, catalog: seq<Entry>)
    ensures |Resolution(items, catalog)| == TotalGroupSize(items, catalog)
    ensures |Resolution(items, catalog)| >= |items|
  {
    if items != [] {
      ResolutionSize(items[1..], catalog);
      ResolutionConcat([items[0]], items[1..], catalog);
      assert [items[0]] + items[1..] == items;
      FlatMapSnoc(GroupOf(catalog), [], items[0]);
      assert [] + [items[0]] == [items[0]];
    }
  }

  /** A record is in the resolution exactly when it is a record of one of
      the items: so every located record comes from a matching entry, every
      error record from an unmatched item, and every match is reported. */
  lemma ResolutionMembers(items: seq<string>, catalog: seq<Entry>, r: Record)
    ensures r in Resolution(items, catalog) <==> exists item :: item in items && r in Group(item, catalog)
  {
    FlatMapMembers(GroupOf(catalog), items, r);
  }

  /** Against an empty catalog every item yields its error record. */
  lemma {:induction false} ResolutionEmptyCatalog(items: seq<string>)
    ensures Resolution(items, []) == seq(|items|, i requires 0 <= i < |items| => NotFound(items[i]))
  {
    if items != [] {
      var init := items[..|items| - 1];
      ResolutionEmptyCatalog(init);
      assert items == init + [items[|items| - 1]];
      FlatMapSnoc(GroupOf([]), init, items[|items| - 1]);
    }
  }
}
