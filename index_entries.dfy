/**
 * What the index stores for each visited region: the normalised name, the
 * normalised acronym, the id and the composite search key, the lists of
 * these in visiting order, and the dictionaries built from those lists.
 */
module IndexEntries {
  import opened StringOps
  import opened Regions
  import opened KeyedIndex

  /** The search key of a region: `${name} ${acronym} ${id}` over the normalised name and acronym. */
  function CompositeKey(r: IndexedRegion): string {
    FullIndex(Normalize(r.name), Normalize(r.acronym), r.id)
  }

  /** The id part of a composite key determines the id, since the id's text holds no space. */
  lemma CompositeKeyDeterminesId(r1: IndexedRegion, r2: IndexedRegion)
    ensures CompositeKey(r1) == CompositeKey(r2) ==> r1.id == r2.id
  {
    if CompositeKey(r1) == CompositeKey(r2) {
      IntToStringPlain(r1.id);
      IntToStringPlain(r2.id);
      LastPartUnique(Normalize(r1.name) + " " + Normalize(r1.acronym), IntToString(r1.id),
                     Normalize(r2.name) + " " + Normalize(r2.acronym), IntToString(r2.id));
      IntToStringInjective(r1.id, r2.id);
    }
  }

  /** The template literal `${name} ${acronym} ${id}`. */
  function FullIndex(name: string, acronym: string, id: int): string {
    name + " " + acronym + " " + IntToString(id)
  }

  /** The composite key of a region holds its normalised name, its normalised acronym and its id. */
  lemma KeyContainsParts(r: IndexedRegion)
    ensures Contains(CompositeKey(r), Normalize(r.name))
    ensures Contains(CompositeKey(r), Normalize(r.acronym))
    ensures Contains(CompositeKey(r), IntToString(r.id))
  {
    SpacedPartsOccur(Normalize(r.name), Normalize(r.acronym), IntToString(r.id));
  }

  /** The composite keys of `rs`, in order. */
  function KeysOf(rs: seq<IndexedRegion>): (keys: seq<string>)
    ensures |keys| == |rs|
    ensures forall i :: 0 <= i < |rs| ==> keys[i] == CompositeKey(rs[i])
  {
    seq(|rs|, i requires 0 <= i < |rs| => CompositeKey(rs[i]))
  }

  /** The normalised names of `rs`, in order. */
  function NamesOf(rs: seq<IndexedRegion>): (names: seq<string>)
    ensures |names| == |rs|
    ensures forall i :: 0 <= i < |rs| ==> names[i] == Normalize(rs[i].name)
  {
    seq(|rs|, i requires 0 <= i < |rs| => Normalize(rs[i].name))
  }

  /** The normalised acronyms of `rs`, in order. */
  function AcronymsOf(rs: seq<IndexedRegion>): (acronyms: seq<string>)
    ensures |acronyms| == |rs|
    ensures forall i :: 0 <= i < |rs| ==> acronyms[i] == Normalize(rs[i].acronym)
  {
    seq(|rs|, i requires 0 <= i < |rs| => Normalize(rs[i].acronym))
  }

  /** The ids of `rs`, in order (for input nodes, `Regions.ChildIds`). */
  function IdsOf(rs: seq<IndexedRegion>): (ids: seq<int>)
    ensures |ids| == |rs|
    ensures forall i :: 0 <= i < |rs| ==> ids[i] == rs[i].id
  {
    seq(|rs|, i requires 0 <= i < |rs| => rs[i].id)
  }

  lemma NamesAppend(rs: seq<IndexedRegion>, r: IndexedRegion)
    ensures NamesOf(rs + [r]) == NamesOf(rs) + [Normalize(r.name)]
  {
  }

  lemma AcronymsAppend(rs: seq<IndexedRegion>, r: IndexedRegion)
    ensures AcronymsOf(rs + [r]) == AcronymsOf(rs) + [Normalize(r.acronym)]
  {
  }

  lemma IdsAppend(rs: seq<IndexedRegion>, r: IndexedRegion)
    ensures IdsOf(rs + [r]) == IdsOf(rs) + [r.id]
  {
  }

  lemma KeysAppend(rs: seq<IndexedRegion>, r: IndexedRegion)
    ensures KeysOf(rs + [r]) == KeysOf(rs) + [CompositeKey(r)]
  {
  }

  /**
   * The state of the index is consistent: the four lists are the names,
   * acronyms, ids and keys of `flatList` entry by entry, and each dictionary
   * is what writing its list's entries, paired with the regions, in order produces.
   */
  ghost predicate Consistent(flatList: seq<IndexedRegion>, listOfNames: seq<string>, listOfAcronyms: seq<string>,
                             listOfIds: seq<int>, listOfFullIndex: seq<string>, indexPerId: map<int, IndexedRegion>,
                             indexPerName: map<string, IndexedRegion>, indexPerAcronym: map<string, IndexedRegion>,
                             indexPerAll: map<string, IndexedRegion>)
  {
    && listOfNames == NamesOf(flatList)
    && listOfAcronyms == AcronymsOf(flatList)
    && listOfIds == IdsOf(flatList)
    && listOfFullIndex == KeysOf(flatList)
    && indexPerId == LastWins(listOfIds, flatList)
    && indexPerName == LastWins(listOfNames, flatList)
    && indexPerAcronym == LastWins(listOfAcronyms, flatList)
    && indexPerAll == LastWins(listOfFullIndex, flatList)
  }

  /** The writes of one visit of `buildIndex` keep the state consistent. */
  lemma ConsistentAppend(flatList: seq<IndexedRegion>, listOfNames: seq<string>, listOfAcronyms: seq<string>,
                         listOfIds: seq<int>, listOfFullIndex: seq<string>, indexPerId: map<int, IndexedRegion>,
                         indexPerName: map<string, IndexedRegion>, indexPerAcronym: map<string, IndexedRegion>,
                         indexPerAll: map<string, IndexedRegion>,
                         record: IndexedRegion, name: string, acronym: string, fullIndex: string)
    requires Consistent(flatList, listOfNames, listOfAcronyms, listOfIds, listOfFullIndex,
                        indexPerId, indexPerName, indexPerAcronym, indexPerAll)
    requires name == Normalize(record.name) && acronym == Normalize(record.acronym)
    requires fullIndex == FullIndex(name, acronym, record.id)
    ensures Consistent(flatList + [record], listOfNames + [name], listOfAcronyms + [acronym],
                       listOfIds + [record.id], listOfFullIndex + [fullIndex],
                       indexPerId[record.id := record], indexPerName[name := record],
                       indexPerAcronym[acronym := record], indexPerAll[fullIndex := record])
  {
    NamesAppend(flatList, record);
    AcronymsAppend(flatList, record);
    IdsAppend(flatList, record);
    KeysAppend(flatList, record);
    LastWinsAppend(listOfIds, flatList, record.id, record);
    LastWinsAppend(listOfNames, flatList, name, record);
    LastWinsAppend(listOfAcronyms, flatList, acronym, record);
    LastWinsAppend(listOfFullIndex, flatList, fullIndex, record);
  }

  /**
   * The name dictionary holds `key` exactly when some region has that
   * normalised name, and then maps it to the last such region.
   */
  lemma {:induction false} NameLookup(rs: seq<IndexedRegion>, key: string)
    ensures key in LastWins(NamesOf(rs), rs) <==> exists i :: 0 <= i < |rs| && Normalize(rs[i].name) == key
    ensures key in LastWins(NamesOf(rs), rs) ==>
              && key in NamesOf(rs)
              && var r := LastWins(NamesOf(rs), rs)[key];
              && r == rs[LastIndex(NamesOf(rs), key)]
              && Normalize(r.name) == key
              && forall j :: LastIndex(NamesOf(rs), key) < j < |rs| ==> Normalize(rs[j].name) != key
  {
    var names := NamesOf(rs);
    LastWinsLookup(names, rs, key);
    if exists i :: 0 <= i < |rs| && Normalize(rs[i].name) == key {
      var i :| 0 <= i < |rs| && Normalize(rs[i].name) == key;
      assert names[i] == key;
    }
    if key in names {
      var i := LastIndex(names, key);
      assert Normalize(rs[i].name) == key;
    }
  }

  /**
   * The acronym dictionary holds `key` exactly when some region has that
   * normalised acronym, and then maps it to the last such region.
   */
  lemma {:induction false} AcronymLookup(rs: seq<IndexedRegion>, key: string)
    ensures key in LastWins(AcronymsOf(rs), rs) <==> exists i :: 0 <= i < |rs| && Normalize(rs[i].acronym) == key
    ensures key in LastWins(AcronymsOf(rs), rs) ==>
              && key in AcronymsOf(rs)
              && var r := LastWins(AcronymsOf(rs), rs)[key];
              && r == rs[LastIndex(AcronymsOf(rs), key)]
              && Normalize(r.acronym) == key
              && forall j :: LastIndex(AcronymsOf(rs), key) < j < |rs| ==> Normalize(rs[j].acronym) != key
  {
    var acronyms := AcronymsOf(rs);
    LastWinsLookup(acronyms, rs, key);
    if exists i :: 0 <= i < |rs| && Normalize(rs[i].acronym) == key {
      var i :| 0 <= i < |rs| && Normalize(rs[i].acronym) == key;
      assert acronyms[i] == key;
    }
    if key in acronyms {
      var i := LastIndex(acronyms, key);
      assert Normalize(rs[i].acronym) == key;
    }
  }

  /** The id dictionary holds `id` exactly when some region has it, and then maps it to the last such region. */
  lemma {:induction false} IdLookup(rs: seq<IndexedRegion>, id: int)
    ensures id in LastWins(IdsOf(rs), rs) <==> exists i :: 0 <= i < |rs| && rs[i].id == id
    ensures id in LastWins(IdsOf(rs), rs) ==>
              && id in IdsOf(rs)
              && var r := LastWins(IdsOf(rs), rs)[id];
              && r == rs[LastIndex(IdsOf(rs), id)]
              && r.id == id
              && forall j :: LastIndex(IdsOf(rs), id) < j < |rs| ==> rs[j].id != id
  {
    var ids := IdsOf(rs);
    LastWinsLookup(ids, rs, id);
    if exists i :: 0 <= i < |rs| && rs[i].id == id {
      var i :| 0 <= i < |rs| && rs[i].id == id;
      assert ids[i] == id;
    }
  }

  /** Every composite key of `rs` is in the key dictionary and names the last region indexed under it. */
  lemma KeyLookup(rs: seq<IndexedRegion>, key: string)
    requires key in KeysOf(rs)
    ensures key in LastWins(KeysOf(rs), rs)
    ensures LastWins(KeysOf(rs), rs)[key] == rs[LastIndex(KeysOf(rs), key)]
    ensures CompositeKey(LastWins(KeysOf(rs), rs)[key]) == key
  {
    LastWinsLookup(KeysOf(rs), rs, key);
  }
}
