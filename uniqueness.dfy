/**
 * The id/name uniqueness check run on the node list and on the edge list.
 * Each item is seen through its `(id, name)` pair; the check groups the pairs
 * by id and by name and reports every group with more than one member.
 */
module Uniqueness {
  import opened Wrappers
  import opened Seqs
  import opened Entities

  /** The duplicated-id and duplicated-name groups of a failed check. */
  datatype Duplicates = Duplicates(ids: map<int, seq<IdName>>, names: map<string, seq<IdName>>)

  /** No two items share an id, and no two share a name. */
  ghost predicate AllUnique(items: seq<IdName>) {
    forall i, j :: 0 <= i < j < |items| ==> items[i].id != items[j].id && items[i].name != items[j].name
  }

  function IdsOf(items: seq<IdName>): set<int> {
    set x | x in items :: x.id
  }

  function NamesOf(items: seq<IdName>): set<string> {
    set x | x in items :: x.name
  }

  /** The pairs carrying id `k`, in input order. */
  function WithId(items: seq<IdName>, k: int): seq<IdName> {
    Filter(items, (x: IdName) => x.id == k)
  }

  /** The pairs carrying name `k`, in input order. */
  function WithName(items: seq<IdName>, k: string): seq<IdName> {
    Filter(items, (x: IdName) => x.name == k)
  }

  lemma WithIdSnoc(items: seq<IdName>, i: nat, k: int)
    requires i < |items|
    ensures WithId(items[..i + 1], k) == WithId(items[..i], k) + (if items[i].id == k then [items[i]] else [])
  {
    assert items[..i + 1][..i] == items[..i];
  }

  lemma WithNameSnoc(items: seq<IdName>, i: nat, k: string)
    requires i < |items|
    ensures WithName(items[..i + 1], k) == WithName(items[..i], k) + (if items[i].name == k then [items[i]] else [])
  {
    assert items[..i + 1][..i] == items[..i];
  }

  /** Every id carried by more than one pair, with all the pairs carrying it. */
  function DuplicatedIds(items: seq<IdName>): map<int, seq<IdName>> {
    map k | k in IdsOf(items) && |WithId(items, k)| > 1 :: WithId(items, k)
  }

  /** Every name carried by more than one pair, with all the pairs carrying it. */
  function DuplicatedNames(items: seq<IdName>): map<string, seq<IdName>> {
    map k | k in NamesOf(items) && |WithName(items, k)| > 1 :: WithName(items, k)
  }

  /** An id is reported exactly when two different positions carry it. */
  lemma DuplicatedIdsExact(items: seq<IdName>, k: int)
    ensures k in DuplicatedIds(items) <==>
            exists i, j :: 0 <= i < j < |items| && items[i].id == k && items[j].id == k
  {
    var p := (x: IdName) => x.id == k;
    FilterHasTwo(items, p);
    if exists i, j :: 0 <= i < j < |items| && items[i].id == k && items[j].id == k {
      var i, j :| 0 <= i < j < |items| && items[i].id == k && items[j].id == k;
      assert items[i] in items;
    }
  }

  /** A name is reported exactly when two different positions carry it. */
  lemma DuplicatedNamesExact(items: seq<IdName>, k: string)
    ensures k in DuplicatedNames(items) <==>
            exists i, j :: 0 <= i < j < |items| && items[i].name == k && items[j].name == k
  {
    var p := (x: IdName) => x.name == k;
    FilterHasTwo(items, p);
    if exists i, j :: 0 <= i < j < |items| && items[i].name == k && items[j].name == k {
      var i, j :| 0 <= i < j < |items| && items[i].name == k && items[j].name == k;
      assert items[i] in items;
    }
  }

  /** The check reports nothing exactly when every id and every name is unique. */
  lemma NoDuplicatesIffUnique(items: seq<IdName>)
    ensures DuplicatedIds(items) == map[] && DuplicatedNames(items) == map[] <==> AllUnique(items)
  {
    if !AllUnique(items) {
      var i, j :| 0 <= i < j < |items| && !(items[i].id != items[j].id && items[i].name != items[j].name);
      if items[i].id == items[j].id {
        DuplicatedIdsExact(items, items[i].id);
        assert items[i].id in DuplicatedIds(items);
      } else {
        DuplicatedNamesExact(items, items[i].name);
        assert items[i].name in DuplicatedNames(items);
      }
    } else {
      if DuplicatedIds(items) != map[] {
        var k :| k in DuplicatedIds(items);
        DuplicatedIdsExact(items, k);
      }
      if DuplicatedNames(items) != map[] {
        var k :| k in DuplicatedNames(items);
        DuplicatedNamesExact(items, k);
      }
    }
  }

  lemma IdGroupsGiveDuplicates(items: seq<IdName>, groups: map<int, seq<IdName>>)
    requires groups.Keys == IdsOf(items)
    requires forall k :: k in groups ==> groups[k] == WithId(items, k)
    ensures (map k | k in groups && |groups[k]| > 1 :: groups[k]) == DuplicatedIds(items)
  {
  }

  lemma NameGroupsGiveDuplicates(items: seq<IdName>, groups: map<string, seq<IdName>>)
    requires groups.Keys == NamesOf(items)
    requires forall k :: k in groups ==> groups[k] == WithName(items, k)
    ensures (map k | k in groups && |groups[k]| > 1 :: groups[k]) == DuplicatedNames(items)
  {
  }

  /** The source's `id_v_dict`: every id mapped to the pairs carrying it, in input order. */
  method GroupById(items: seq<IdName>) returns (groups: map<int, seq<IdName>>)
    ensures groups.Keys == IdsOf(items)
    ensures forall k :: k in groups ==> groups[k] == WithId(items, k)
  {
    groups := map k | k in IdsOf(items) :: [];
    for i := 0 to |items|
      invariant groups.Keys == IdsOf(items)
      invariant forall k :: k in groups ==> groups[k] == WithId(items[..i], k)
    {
      var v := items[i];
      forall k | k in groups {
        WithIdSnoc(items, i, k);
      }
      groups := groups[v.id := groups[v.id] + [v]];
    }
    assert items[..|items|] == items;
  }

  /** The source's `name_v_dict`: every name mapped to the pairs carrying it, in input order. */
  method GroupByName(items: seq<IdName>) returns (groups: map<string, seq<IdName>>)
    ensures groups.Keys == NamesOf(items)
    ensures forall k :: k in groups ==> groups[k] == WithName(items, k)
  {
    groups := map k | k in NamesOf(items) :: [];
    for i := 0 to |items|
      invariant groups.Keys == NamesOf(items)
      invariant forall k :: k in groups ==> groups[k] == WithName(items[..i], k)
    {
      var v := items[i];
      forall k | k in groups {
        WithNameSnoc(items, i, k);
      }
      groups := groups[v.name := groups[v.name] + [v]];
    }
    assert items[..|items|] == items;
  }

  /**
   * The uniqueness check: groups the pairs by id, then by name, and fails with
   * both groupings' duplicates when either has a group of two or more.
   */
  method ValidateIdAndNameUnique(items: seq<IdName>) returns (r: Outcome<Duplicates>)
    ensures r.Pass? <==> AllUnique(items)
    ensures r.Fail? ==> r.error == Duplicates(DuplicatedIds(items), DuplicatedNames(items))
  {
    var idGroups := GroupById(items);
    var dupIds := map k | k in idGroups && |idGroups[k]| > 1 :: idGroups[k];
    var nameGroups := GroupByName(items);
    var dupNames := map k | k in nameGroups && |nameGroups[k]| > 1 :: nameGroups[k];
    IdGroupsGiveDuplicates(items, idGroups);
    NameGroupsGiveDuplicates(items, nameGroups);
    NoDuplicatesIffUnique(items);
    if dupIds != map[] || dupNames != map[] {
      r := Fail(Duplicates(dupIds, dupNames));
    } else {
      r := Pass;
    }
  }
}
