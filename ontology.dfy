/**
 * The ontology module: the flat list, the key lists and the dictionaries
 * that `buildIndex` fills from the nested tree of regions, and the
 * queries served from them.
 */
module Ontology {
  import opened StringOps
  import opened Sorting
  import opened Regions
  import opened KeyedIndex
  import opened IndexEntries
  import opened Search

  datatype Option<T> = None | Some(value: T)

  /** What `key in dict ? dict[key] : null` yields on a plain JavaScript object. */
  datatype JsLookup = Null | Own(region: IndexedRegion) | Inherited(member: string)

  /** The own property names of `Object.prototype`, which `in` also finds on every plain object. */
  const ObjectPrototypeMembers: set<string> := {
    "constructor", "__defineGetter__", "__defineSetter__", "hasOwnProperty",
    "__lookupGetter__", "__lookupSetter__", "isPrototypeOf", "propertyIsEnumerable",
    "toString", "valueOf", "__proto__", "toLocaleString"
  }

  /** `key in dict` on a plain object also holds for the inherited members of `Object.prototype`. */
  function PlainObjectLookup(dict: map<string, IndexedRegion>, key: string): (r: JsLookup)
    ensures r.Own? <==> key in dict
    ensures r.Own? ==> r.region == dict[key]
    ensures r.Inherited? <==> key !in dict && key in ObjectPrototypeMembers
  {
    if key in dict then Own(dict[key])
    else if key in ObjectPrototypeMembers then Inherited(key)
    else Null
  }

  /** The inner loop of a visit: the ids of `children` collected and every child pushed on the work-list, in order. */
  method PushChildren(children: seq<Region>, stack: seq<Region>) returns (ids: seq<int>, pushed: seq<Region>)
    ensures ids == ChildIds(children)
    ensures pushed == stack + children
  {
    ids, pushed := [], stack;
    var i := 0;
    while i < |children|
      invariant 0 <= i <= |children|
      invariant ids == ChildIds(children[..i])
      invariant pushed == stack + children[..i]
    {
      assert children[..i + 1] == children[..i] + [children[i]];
      ids := ids + [children[i].id];
      pushed := pushed + [children[i]];
      i := i + 1;
    }
    assert children[..i] == children;
  }

  /** "constructor" is its own normalised key. */
  lemma NormalizeConstructorWord()
    ensures Normalize("constructor") == "constructor"
  {
    LowerOfNoUpper("constructor");
    TrimOfUnpadded("constructor");
  }

  /** The name query of the plain-object finding normalises to "constructor". */
  lemma NormalizeCapitalConstructor()
    ensures Normalize("Constructor") == "constructor"
  {
    assert "Constructor" == "C" + "onstructor";
    LowerAppend("C", "onstructor");
    assert Lower("C") == "c";
    LowerOfNoUpper("onstructor");
    assert Lower("Constructor") == "constructor";
    TrimOfUnpadded("constructor");
  }

  /** The acronym query of the plain-object finding normalises to "constructor". */
  lemma NormalizePaddedConstructor()
    ensures Normalize(" constructor") == "constructor"
  {
    assert " constructor" == " " + "constructor" + "";
    assert AllWhitespace(" ") && AllWhitespace("");
    NormalizeIgnoresPadding(" ", "constructor", "");
    NormalizeConstructorWord();
  }

  /** The module-level state of the ontology: the flat list of visited regions and what is derived from it. */
  class OntologyIndex {
    var flatList: seq<IndexedRegion>
    var listOfNames: seq<string>
    var listOfAcronyms: seq<string>
    var listOfIds: seq<int>
    var listOfFullIndex: seq<string>
    var indexPerId: map<int, IndexedRegion>
    var indexPerName: map<string, IndexedRegion>
    var indexPerAcronym: map<string, IndexedRegion>
    var indexPerAll: map<string, IndexedRegion>

    ghost predicate Valid()
      reads this
    {
      Consistent(flatList, listOfNames, listOfAcronyms, listOfIds, listOfFullIndex,
                 indexPerId, indexPerName, indexPerAcronym, indexPerAll)
    }

    /** The state before `buildIndex` runs: empty lists and dictionaries. */
    constructor ()
      ensures Valid() && flatList == []
    {
      flatList, listOfNames, listOfAcronyms, listOfIds, listOfFullIndex := [], [], [], [], [];
      indexPerId, indexPerName, indexPerAcronym, indexPerAll := map[], map[], map[], map[];
    }

    /**
     * Walks the tree `one` with a LIFO work-list and appends every node, in
     * pop order, to the flat list, the four key lists and the four dictionaries.
     */
    method BuildIndex(one: Region)
      requires Valid()
      modifies this
      ensures Valid()
      ensures flatList == old(flatList) + Records(Flatten(one))
    {
      var nodesToExplore := [one];
      ghost var visited: seq<Region> := [];
      assert [one][..0] == [];
      while |nodesToExplore| > 0
        invariant Valid()
        invariant visited + FlattenStack(nodesToExplore) == Flatten(one)
        invariant flatList == old(flatList) + Records(visited)
        decreases |FlattenStack(nodesToExplore)|
      {
        var node := nodesToExplore[|nodesToExplore| - 1];
        ghost var stack := nodesToExplore;
        nodesToExplore := nodesToExplore[..|nodesToExplore| - 1];
        var name := Normalize(node.name);
        var acronym := Normalize(node.acronym);
        var childrenStructureId;
        childrenStructureId, nodesToExplore := PushChildren(node.children, nodesToExplore);
        var record := IndexedRegion(node.id, node.name, node.acronym, childrenStructureId, |node.children| == 0);
        assert record == Record(node);
        ghost var before := flatList;
        AddToIndex(record, name, acronym);
        PopStep(visited, stack, one);
        RecordsExtend(old(flatList), visited, node, before);
        visited := visited + [node];
      }
      assert visited == Flatten(one);
    }

    /**
     * The writes of one visit: `record` appended to the flat list and to the
     * key lists, and stored in each dictionary under its key.
     */
    method AddToIndex(record: IndexedRegion, name: string, acronym: string)
      requires Valid()
      requires name == Normalize(record.name) && acronym == Normalize(record.acronym)
      modifies this
      ensures Valid()
      ensures flatList == old(flatList) + [record]
    {
      var id := record.id;
      var fullIndex := FullIndex(name, acronym, id);
      ConsistentAppend(flatList, listOfNames, listOfAcronyms, listOfIds, listOfFullIndex,
                       indexPerId, indexPerName, indexPerAcronym, indexPerAll, record, name, acronym, fullIndex);
      SetState(flatList + [record], listOfNames + [name], listOfAcronyms + [acronym], listOfIds + [id],
               listOfFullIndex + [fullIndex], indexPerId[id := record], indexPerName[name := record],
               indexPerAcronym[acronym := record], indexPerAll[fullIndex := record]);
    }

    /** Stores a consistent state in the nine fields at once. */
    method SetState(flat: seq<IndexedRegion>, names: seq<string>, acronyms: seq<string>, ids: seq<int>,
                    keys: seq<string>, perId: map<int, IndexedRegion>, perName: map<string, IndexedRegion>,
                    perAcronym: map<string, IndexedRegion>, perAll: map<string, IndexedRegion>)
      requires Consistent(flat, names, acronyms, ids, keys, perId, perName, perAcronym, perAll)
      modifies this
      ensures Valid()
      ensures flatList == flat && listOfNames == names && listOfAcronyms == acronyms && listOfIds == ids
      ensures listOfFullIndex == keys && indexPerId == perId && indexPerName == perName
      ensures indexPerAcronym == perAcronym && indexPerAll == perAll
    {
      flatList, listOfNames, listOfAcronyms, listOfIds, listOfFullIndex := flat, names, acronyms, ids, keys;
      indexPerId, indexPerName, indexPerAcronym, indexPerAll := perId, perName, perAcronym, perAll;
    }

    /** `getAllRegionNames`: the normalised names, one per indexed region, in index order. */
    function GetAllRegionNames(): (names: seq<string>)
      reads this
      requires Valid()
      ensures |names| == |flatList|
      ensures forall i :: 0 <= i < |flatList| ==> names[i] == Normalize(flatList[i].name)
    {
      listOfNames
    }

    /** `getAllRegionAcronyms`: the normalised acronyms, one per indexed region, in index order. */
    function GetAllRegionAcronyms(): (acronyms: seq<string>)
      reads this
      requires Valid()
      ensures |acronyms| == |flatList|
      ensures forall i :: 0 <= i < |flatList| ==> acronyms[i] == Normalize(flatList[i].acronym)
    {
      listOfAcronyms
    }

    /** `getAllRegionId`: the ids, one per indexed region, in index order. */
    function GetAllRegionId(): (ids: seq<int>)
      reads this
      requires Valid()
      ensures |ids| == |flatList|
      ensures forall i :: 0 <= i < |flatList| ==> ids[i] == flatList[i].id
    {
      listOfIds
    }

    /**
     * `getRegionByFullName`: the region whose normalised name is the
     * normalised query; of several, the one indexed last; None when no name matches.
     */
    function GetRegionByFullName(name: string): (r: Option<IndexedRegion>)
      reads this
      requires Valid()
      ensures r.Some? <==> exists i :: 0 <= i < |flatList| && Normalize(flatList[i].name) == Normalize(name)
      ensures r.Some? ==>
                && Normalize(name) in listOfNames
                && r.value == flatList[LastIndex(listOfNames, Normalize(name))]
                && Normalize(r.value.name) == Normalize(name)
                && forall j :: LastIndex(listOfNames, Normalize(name)) < j < |flatList| ==>
                     Normalize(flatList[j].name) != Normalize(name)
    {
      var usableName := Normalize(name);
      NameLookup(flatList, usableName);
      if usableName in indexPerName then Some(indexPerName[usableName]) else None
    }

    /**
     * `getRegionByAcronym`: the region whose normalised acronym is the
     * normalised query; of several, the one indexed last; None when no acronym matches.
     */
    function GetRegionByAcronym(ac: string): (r: Option<IndexedRegion>)
      reads this
      requires Valid()
      ensures r.Some? <==> exists i :: 0 <= i < |flatList| && Normalize(flatList[i].acronym) == Normalize(ac)
      ensures r.Some? ==>
                && Normalize(ac) in listOfAcronyms
                && r.value == flatList[LastIndex(listOfAcronyms, Normalize(ac))]
                && Normalize(r.value.acronym) == Normalize(ac)
                && forall j :: LastIndex(listOfAcronyms, Normalize(ac)) < j < |flatList| ==>
                     Normalize(flatList[j].acronym) != Normalize(ac)
    {
      var usableAc := Normalize(ac);
      AcronymLookup(flatList, usableAc);
      if usableAc in indexPerAcronym then Some(indexPerAcronym[usableAc]) else None
    }

    /** `getRegionById`: the region with that id; of several, the one indexed last; None for an unknown id. */
    function GetRegionById(id: int): (r: Option<IndexedRegion>)
      reads this
      requires Valid()
      ensures r.Some? <==> exists i :: 0 <= i < |flatList| && flatList[i].id == id
      ensures r.Some? ==>
                && id in listOfIds
                && r.value == flatList[LastIndex(listOfIds, id)]
                && r.value.id == id
                && forall j :: LastIndex(listOfIds, id) < j < |flatList| ==> flatList[j].id != id
    {
      IdLookup(flatList, id);
      if id in indexPerId then Some(indexPerId[id]) else None
    }

    /**
     * `getRegionByFullName` as written: `usableName in indexPerName` on a
     * plain object, which also holds for the names `Object.prototype` provides.
     */
    function GetRegionByFullNameAsWritten(name: string): (r: JsLookup)
      reads this
      requires Valid()
      ensures r.Own? <==> GetRegionByFullName(name).Some?
      ensures r.Own? ==> r.region == GetRegionByFullName(name).value
      ensures r.Inherited? <==> GetRegionByFullName(name).None? && Normalize(name) in ObjectPrototypeMembers
    {
      PlainObjectLookup(indexPerName, Normalize(name))
    }

    /** `getRegionByAcronym` as written, with the same plain-object lookup. */
    function GetRegionByAcronymAsWritten(ac: string): (r: JsLookup)
      reads this
      requires Valid()
      ensures r.Own? <==> GetRegionByAcronym(ac).Some?
      ensures r.Own? ==> r.region == GetRegionByAcronym(ac).value
      ensures r.Inherited? <==> GetRegionByAcronym(ac).None? && Normalize(ac) in ObjectPrototypeMembers
    {
      PlainObjectLookup(indexPerAcronym, Normalize(ac))
    }

    /**
     * `findRegion`: the regions whose composite key contains every word of
     * the query, in ascending key order. Each matching key is answered as
     * often as it was indexed, by the region indexed last under it.
     */
    function FindRegion(query: string): (regions: seq<IndexedRegion>)
      reads this
      requires Valid()
      ensures regions == Answer(flatList, query)
      ensures forall x :: multiset(KeysOf(regions))[x] ==
                if ContainsAll(x, QueryWords(query)) then multiset(listOfFullIndex)[x] else 0
      ensures forall i, j :: 0 <= i < j < |regions| ==> LexLe(CompositeKey(regions[i]), CompositeKey(regions[j]))
      ensures forall i :: 0 <= i < |regions| ==>
                && regions[i] in flatList
                && ContainsAll(CompositeKey(regions[i]), QueryWords(query))
                && regions[i] == flatList[LastIndex(listOfFullIndex, CompositeKey(regions[i]))]
    {
      KeysIndexed(flatList);
      AnswerSpec(flatList, query);
      FindIn(listOfFullIndex, indexPerAll, query)
    }

    /** A query differing only in letter case or in white space around it finds the same region by name. */
    lemma FullNameIgnoresCaseAndPadding(w1: string, s: string, w2: string)
      requires Valid()
      requires AllWhitespace(w1) && AllWhitespace(w2)
      ensures GetRegionByFullName(w1 + s + w2) == GetRegionByFullName(s)
      ensures GetRegionByFullName(Lower(s)) == GetRegionByFullName(s)
    {
      NormalizeIgnoresPadding(w1, s, w2);
      NormalizeLower(s);
    }

    /** A query differing only in letter case or in white space around it finds the same region by acronym. */
    lemma AcronymIgnoresCaseAndPadding(w1: string, s: string, w2: string)
      requires Valid()
      requires AllWhitespace(w1) && AllWhitespace(w2)
      ensures GetRegionByAcronym(w1 + s + w2) == GetRegionByAcronym(s)
      ensures GetRegionByAcronym(Lower(s)) == GetRegionByAcronym(s)
    {
      NormalizeIgnoresPadding(w1, s, w2);
      NormalizeLower(s);
    }

    /** Every name `getAllRegionNames` lists finds a region with that name. */
    lemma ListedNameFindable(i: nat)
      requires Valid() && i < |flatList|
      ensures GetRegionByFullName(GetAllRegionNames()[i]).Some?
      ensures Normalize(GetRegionByFullName(GetAllRegionNames()[i]).value.name) == GetAllRegionNames()[i]
    {
      NormalizeIdempotent(flatList[i].name);
    }

    /** Every acronym `getAllRegionAcronyms` lists finds a region with that acronym. */
    lemma ListedAcronymFindable(i: nat)
      requires Valid() && i < |flatList|
      ensures GetRegionByAcronym(GetAllRegionAcronyms()[i]).Some?
      ensures Normalize(GetRegionByAcronym(GetAllRegionAcronyms()[i]).value.acronym) == GetAllRegionAcronyms()[i]
    {
      NormalizeIdempotent(flatList[i].acronym);
    }

    /** Every id `getAllRegionId` lists finds a region with that id. */
    lemma ListedIdFindable(i: nat)
      requires Valid() && i < |flatList|
      ensures GetRegionById(GetAllRegionId()[i]).Some?
      ensures GetRegionById(GetAllRegionId()[i]).value.id == GetAllRegionId()[i]
    {
      assert listOfIds[i] == flatList[i].id;
    }

    /** A region whose normalised name no later region repeats is the one found by that name. */
    lemma UniqueNameFindsItsRegion(i: nat)
      requires Valid() && i < |flatList|
      requires forall j :: i < j < |flatList| ==> Normalize(flatList[j].name) != Normalize(flatList[i].name)
      ensures GetRegionByFullName(flatList[i].name) == Some(flatList[i])
    {
      LastIndexOfLast(listOfNames, i);
    }

    /** A region whose normalised acronym no later region repeats is the one found by that acronym. */
    lemma UniqueAcronymFindsItsRegion(i: nat)
      requires Valid() && i < |flatList|
      requires forall j :: i < j < |flatList| ==> Normalize(flatList[j].acronym) != Normalize(flatList[i].acronym)
      ensures GetRegionByAcronym(flatList[i].acronym) == Some(flatList[i])
    {
      LastIndexOfLast(listOfAcronyms, i);
    }

    /** A region whose id no later region repeats is the one found by that id. */
    lemma UniqueIdFindsItsRegion(i: nat)
      requires Valid() && i < |flatList|
      requires forall j :: i < j < |flatList| ==> flatList[j].id != flatList[i].id
      ensures GetRegionById(flatList[i].id) == Some(flatList[i])
    {
      LastIndexOfLast(listOfIds, i);
    }

    /**
     * The lookup by name as written answers "Constructor" with the
     * `Object.prototype.constructor` member instead of null when no region is
     * named so, while the intended lookup answers None.
     */
    lemma ConstructorNameNotNull()
      requires Valid()
      requires forall i :: 0 <= i < |flatList| ==> Normalize(flatList[i].name) != "constructor"
      ensures GetRegionByFullNameAsWritten("Constructor") == Inherited("constructor")
      ensures GetRegionByFullName("Constructor") == None
    {
      NormalizeCapitalConstructor();
    }

    /** The same for the lookup by acronym. */
    lemma ConstructorAcronymNotNull()
      requires Valid()
      requires forall i :: 0 <= i < |flatList| ==> Normalize(flatList[i].acronym) != "constructor"
      ensures GetRegionByAcronymAsWritten(" constructor") == Inherited("constructor")
      ensures GetRegionByAcronym(" constructor") == None
    {
      NormalizePaddedConstructor();
    }

    /** The empty query answers one region per indexed region, with all the keys in ascending order. */
    lemma FindRegionEmptyQuery()
      requires Valid()
      ensures KeysOf(FindRegion("")) == Sort(listOfFullIndex)
      ensures |FindRegion("")| == |flatList|
    {
      AnswerEmptyQuery(flatList);
    }

    /** A trailing space in the query does not change the answer. */
    lemma FindRegionTrailingSpace(query: string)
      requires Valid()
      ensures FindRegion(query + " ") == FindRegion(query)
    {
      AnswerTrailingSpace(flatList, query);
    }

    /** Searching for a listed acronym answers the region it belongs to, or the one indexed last under the same key. */
    lemma ListedAcronymSearchable(i: nat)
      requires Valid() && i < |flatList|
      ensures flatList[LastIndex(listOfFullIndex, listOfFullIndex[i])] in FindRegion(GetAllRegionAcronyms()[i])
    {
      LowerOfNormalized(flatList[i].acronym);
      KeyContainsParts(flatList[i]);
      AnswerContainedQuery(flatList, listOfAcronyms[i], i);
    }

    /** Searching for a listed name answers the region it belongs to, or the one indexed last under the same key. */
    lemma ListedNameSearchable(i: nat)
      requires Valid() && i < |flatList|
      ensures flatList[LastIndex(listOfFullIndex, listOfFullIndex[i])] in FindRegion(GetAllRegionNames()[i])
    {
      LowerOfNormalized(flatList[i].name);
      KeyContainsParts(flatList[i]);
      AnswerContainedQuery(flatList, listOfNames[i], i);
    }

    /** Searching for the decimal text of a listed id answers the region it belongs to, or the one indexed last under the same key. */
    lemma ListedIdSearchable(i: nat)
      requires Valid() && i < |flatList|
      ensures flatList[LastIndex(listOfFullIndex, listOfFullIndex[i])] in FindRegion(IntToString(GetAllRegionId()[i]))
    {
      IntToStringPlain(flatList[i].id);
      KeyContainsParts(flatList[i]);
      AnswerContainedQuery(flatList, IntToString(flatList[i].id), i);
    }

    /** Two spaces in a row in a query answer like one. */
    lemma FindRegionSpaceRun(a: string, b: string)
      requires Valid()
      ensures FindRegion(a + "  " + b) == FindRegion(a + " " + b)
    {
      AnswerSpaceRun(flatList, a, b);
    }

    /** A region whose key contains every word of the query is answered, by the region indexed last under that key. */
    lemma FindRegionComplete(query: string, i: nat)
      requires Valid() && i < |flatList|
      requires ContainsAll(listOfFullIndex[i], QueryWords(query))
      ensures listOfFullIndex[i] in listOfFullIndex
      ensures flatList[LastIndex(listOfFullIndex, listOfFullIndex[i])] in FindRegion(query)
    {
      AnswerComplete(flatList, query, i);
    }
  }

  /** The module import: a fresh state, then `buildIndex()` over the root of the ontology. */
  method Load(one: Region) returns (index: OntologyIndex)
    ensures fresh(index) && index.Valid()
    ensures index.flatList == Records(Flatten(one))
    ensures |index.flatList| >= 1 && index.flatList[0] == Record(one)
  {
    index := new OntologyIndex();
    index.BuildIndex(one);
    FlattenStartsAtRoot(one);
  }
}
