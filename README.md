# One Allen Brain Ontology: the index and its queries

This project models the core of `OneAllenBrainOntology`, a small JavaScript
library over the Allen Brain Institute's region ontology. It covers two parts.

- **`buildIndex`** runs once at import time. It flattens the nested tree of
  brain regions into module-level state:
  - a flat list of regions;
  - four parallel lists: normalised names, normalised acronyms, ids and the
    composite search keys `"name acronym id"`;
  - four dictionaries keyed by id, normalised name, normalised acronym and
    composite key.

  Every visited node gets the ids of its children and a leaf flag.
- **The queries** read that state and write nothing:
  - the three bulk getters;
  - the exact lookups by full name, acronym and id;
  - the multi-word search `findRegion`.

## How the model is organised

- `Regions` (regions.dfy)
  - The input tree `Region`, and `IndexedRegion`, the flat record that the
    index keeps: child ids and `isLeaf` instead of nested children.
  - `Flatten`: the order in which the LIFO work-list of `buildIndex` visits a
    tree.
  - A recursive pre-order, `Preorder`, as an independent reference walk.
- `StringOps` (string_ops.dfy): the JavaScript string builtins the core uses,
  on `seq<char>`.
  - `toLowerCase`, on ASCII letters.
  - `trim`, with the white space and line terminators of ECMAScript sections
    12.2 and 12.3.
  - `split` on one character, and `indexOf`.
  - The decimal text of an integer.
- `Sorting` (sorting.dfy): the default `Array.prototype.sort`. It is an
  insertion sort under lexicographic order, together with the proof that any
  sorted permutation equals it.
- `KeyedIndex` (keyed_index.dfy): `LastWins`, the dictionary that writing
  `dict[keys[i]] = values[i]` in order produces.
- `IndexEntries` (index_entries.dfy):
  - the per-region keys;
  - the predicate `Consistent`, which ties the four lists and the four
    dictionaries to the flat list;
  - the lookup lemmas for each dictionary.
- `Search` (search.dfy): the `findRegion` pipeline as functions. The steps
  are the words, the filter, the sort and the key-to-region map. `Answer` is
  the result as a function of the indexed regions.
  - The query is split on the single character `' '`, so a run of spaces
    yields empty words.
  - `"".split(' ')` is `[""]`, and the empty word occurs in every key, so the
    empty query returns every indexed region.
- `Ontology` (ontology.dfy):
  - The class `OntologyIndex` holds the nine module-level variables as
    fields. `Valid()` is `Consistent` over those fields.
  - `BuildIndex` is a `while` loop over the work-list, with the inner child
    loop as the method `PushChildren`.
  - The getters and `FindRegion` are functions that read the state.
  - `Load` is the import-time sequence: fresh state, then `buildIndex()`.

`Valid()` fixes every list and dictionary as a function of the flat list. So
`BuildIndex`'s postcondition `flatList == old(flatList) + Records(Flatten(one))`
states the whole new state.

## Model

| member | source | states |
|---|---|---|
| Ontology.OntologyIndex.constructor | src/OneAllenBrainOntology.js:3-11 | The state starts with empty lists and empty dictionaries, and it is consistent. |
| Ontology.OntologyIndex.BuildIndex | src/OneAllenBrainOntology.js:14-50 | The work-list loop terminates. It appends the records of the tree's nodes to the flat list, in the LIFO visiting order `Flatten`. It keeps all lists and dictionaries consistent with the flat list. |
| Ontology.OntologyIndex.AddToIndex | src/OneAllenBrainOntology.js:26-35 | One visit appends the record to the flat list and keeps the state consistent. The name, acronym, id and composite key go onto the four lists in lockstep, and each dictionary is updated at its key. |
| Ontology.OntologyIndex.SetState | src/OneAllenBrainOntology.js:26-35 | The nine fields take the given values together, and a consistent set of values gives a valid state. |
| Ontology.PushChildren | src/OneAllenBrainOntology.js:40-44 | The inner loop collects the children's ids in input order, and pushes every child onto the work-list in input order. |
| Ontology.Load | src/OneAllenBrainOntology.js:52 | The import-time build yields a fresh, consistent index. Its flat list is the records of the whole tree in visiting order, and the root comes first. |
| Regions.Record | src/OneAllenBrainOntology.js:24-37 | A visited node keeps its id, name and acronym. `children_structure_id` is its children's ids in order. `isLeaf` holds exactly when that list is empty. |
| Regions.ChildIds | src/OneAllenBrainOntology.js:40-42 | The child-id list has one entry per child, the id of that child. |
| Regions.Records | src/OneAllenBrainOntology.js:26 | The flat records of a run of visited nodes: one per node, in the same order. |
| Regions.Flatten | src/OneAllenBrainOntology.js:15-18 | Definition: the LIFO visiting order of a tree, the node and then its children's sub-trees, last child first. `Regions.PopStep`, `Regions.FlattenStartsAtRoot` and `Regions.FlattenVisitsTree` state its properties. |
| Regions.FlattenStack | src/OneAllenBrainOntology.js:17-18 | Definition: what the work-list pops from a given stack until it is empty. `Regions.FlattenStackAppend` and `Regions.PopStep` state its properties. |
| Regions.FlattenStackVisitsForest | src/OneAllenBrainOntology.js:17-44 | Walking a work-list visits every node of its trees exactly once, as a permutation of their pre-orders. |
| Regions.PopStep | src/OneAllenBrainOntology.js:17-18 | Popping the top node and pushing its children keeps "visited so far, then everything still to pop" equal to `Flatten(root)`. The amount left to pop strictly decreases. |
| Regions.FlattenStackAppend | src/OneAllenBrainOntology.js:40-44 | Nodes pushed on top of a work-list are walked completely before what was below them. |
| Regions.FlattenStartsAtRoot | src/OneAllenBrainOntology.js:15-18 | The work-list started with `[one]` visits the root first. |
| Regions.FlattenVisitsTree | src/OneAllenBrainOntology.js:14-50 | Every node of the tree is visited exactly once. The visiting order is a permutation of the recursive pre-order, with the same length. |
| Regions.RecordsExtend | src/OneAllenBrainOntology.js:26 | Pushing the record of the next visited node extends the flat list by exactly that record. |
| KeyedIndex.LastIndex | src/OneAllenBrainOntology.js:27-31 | The index returned holds the key, and no later index does. |
| KeyedIndex.LastWins | src/OneAllenBrainOntology.js:27-31 | Definition: the dictionary left by writing `dict[keys[i]] = values[i]` for each i in order. `KeyedIndex.LastWinsLookup`, `KeyedIndex.LastWinsAppend` and `KeyedIndex.LastWinsLatest` state its properties. |
| KeyedIndex.LastWinsLookup | src/OneAllenBrainOntology.js:27-31 | A dictionary filled by writes in order holds exactly the written keys. On a repeated key it holds the value of the last write. |
| KeyedIndex.LastWinsAppend | src/OneAllenBrainOntology.js:27-31 | One more write changes the dictionary at that key and nowhere else. |
| KeyedIndex.LastIndexOfLast | src/OneAllenBrainOntology.js:27-31 | A position whose key no later position repeats is the last occurrence of that key. |
| KeyedIndex.LastWinsLatest | src/OneAllenBrainOntology.js:27-31 | The value written last for a key is the one kept, however often the key was written before. |
| IndexEntries.ConsistentAppend | src/OneAllenBrainOntology.js:26-35 | The eight writes of one visit turn a consistent state into the consistent state of the flat list plus one record. |
| IndexEntries.Consistent | src/OneAllenBrainOntology.js:3-11 | Definition: each of the four lists is the normalised name, acronym, id or composite key of the flat list, entry by entry, and each dictionary is the last-write-wins dictionary of its list. `IndexEntries.ConsistentAppend` states that one visit keeps it. |
| IndexEntries.NameLookup | src/OneAllenBrainOntology.js:28 | The name dictionary holds a key exactly when some region's normalised name equals it. The entry is the last such region, and no later region has that name. |
| IndexEntries.AcronymLookup | src/OneAllenBrainOntology.js:29 | The same for the acronym dictionary. |
| IndexEntries.IdLookup | src/OneAllenBrainOntology.js:27 | The same for the id dictionary. |
| IndexEntries.KeyLookup | src/OneAllenBrainOntology.js:30-31 | Every composite key that was indexed is in the key dictionary. It maps to the last region indexed under it, whose composite key is that key. |
| IndexEntries.KeyContainsParts | src/OneAllenBrainOntology.js:30 | The composite key contains the normalised name, the normalised acronym and the decimal id. |
| StringOps.SpacedPartsOccur | src/OneAllenBrainOntology.js:30 | Each of three strings joined by spaces, as the key template joins them, occurs in the result. |
| IndexEntries.KeysOf | src/OneAllenBrainOntology.js:30-32 | `listOfFullIndex` holds, entry by entry, the composite key of the region at the same position. |
| IndexEntries.NamesOf | src/OneAllenBrainOntology.js:33 | `listOfNames` holds, entry by entry, the normalised name of the region at the same position. |
| IndexEntries.AcronymsOf | src/OneAllenBrainOntology.js:34 | `listOfAcronyms` holds, entry by entry, the normalised acronym of the region at the same position. |
| IndexEntries.IdsOf | src/OneAllenBrainOntology.js:35 | `listOfIds` holds, entry by entry, the id of the region at the same position. |
| IndexEntries.CompositeKey | src/OneAllenBrainOntology.js:30 | Definition: the composite key of a region, built from its normalised name and acronym and its id. `IndexEntries.KeyContainsParts` states what it holds. |
| IndexEntries.FullIndex | src/OneAllenBrainOntology.js:30 | Definition: the template literal `${name} ${acronym} ${id}`. `StringOps.SpacedPartsOccur` and `IndexEntries.KeyContainsParts` state its properties. |
| IndexEntries.CompositeKeyDeterminesId | src/OneAllenBrainOntology.js:30 | Regions with the same composite key have the same id: the text after the key's last space is the id's decimal text. |
| Ontology.OntologyIndex.GetAllRegionNames | src/OneAllenBrainOntology.js:101-103 | Entry i is the lower-cased, trimmed name of the i-th indexed region. |
| Ontology.OntologyIndex.GetAllRegionAcronyms | src/OneAllenBrainOntology.js:115-117 | Entry i is the lower-cased, trimmed acronym of the i-th indexed region. |
| Ontology.OntologyIndex.GetAllRegionId | src/OneAllenBrainOntology.js:129-131 | Entry i is the id of the i-th indexed region. |
| Ontology.OntologyIndex.GetRegionByFullName | src/OneAllenBrainOntology.js:144-150 | The result is found exactly when some indexed region's normalised name equals the normalised query, and is None when none does. If found, it is the last such region, and its normalised name equals the normalised query. |
| Ontology.OntologyIndex.GetRegionByAcronym | src/OneAllenBrainOntology.js:163-169 | The same for acronyms. |
| Ontology.OntologyIndex.GetRegionById | src/OneAllenBrainOntology.js:181-186 | A region is found exactly when some indexed region has that id, and it is the last such region. An unknown id gives None. |
| Ontology.OntologyIndex.GetRegionByFullNameAsWritten | src/OneAllenBrainOntology.js:144-150 | The lookup with the plain-object `in` test finds an own entry exactly when the intended lookup finds one, and the same region. It yields an inherited `Object.prototype` member exactly when the intended lookup finds nothing and the normalised query names such a member. |
| Ontology.OntologyIndex.GetRegionByAcronymAsWritten | src/OneAllenBrainOntology.js:163-169 | The same for acronyms. |
| Ontology.PlainObjectLookup | src/OneAllenBrainOntology.js:146 | `key in dict` on a plain object gives an own entry exactly when the key was written. It gives an inherited member exactly when the key was not written and names an `Object.prototype` member. Those members are the constant `Ontology.ObjectPrototypeMembers`, the twelve own keys of `Object.prototype`. |
| Ontology.OntologyIndex.ConstructorNameNotNull | src/OneAllenBrainOntology.js:145-149 | If no region is named "constructor", the lookup as written answers "Constructor" with the inherited member, where null was intended. The corrected lookup answers None. |
| Ontology.OntologyIndex.ConstructorAcronymNotNull | src/OneAllenBrainOntology.js:164-168 | The same for the acronym " constructor". |
| Ontology.NormalizeConstructorWord | src/OneAllenBrainOntology.js:145 | The word "constructor" normalises to itself. |
| Ontology.NormalizeCapitalConstructor | src/OneAllenBrainOntology.js:145 | The query "Constructor" normalises to "constructor". |
| Ontology.NormalizePaddedConstructor | src/OneAllenBrainOntology.js:164 | The query " constructor" normalises to "constructor". |
| Ontology.OntologyIndex.FullNameIgnoresCaseAndPadding | src/OneAllenBrainOntology.js:145 | Queries that differ only in letter case, or in white space around them, find the same region by name. |
| Ontology.OntologyIndex.AcronymIgnoresCaseAndPadding | src/OneAllenBrainOntology.js:164 | The same for acronyms. |
| Ontology.OntologyIndex.ListedNameFindable | src/OneAllenBrainOntology.js:101-103 | Every listed name finds a region, and that region's normalised name is the listed name. |
| Ontology.OntologyIndex.ListedAcronymFindable | src/OneAllenBrainOntology.js:115-117 | Every listed acronym finds a region, and that region's normalised acronym is the listed acronym. |
| Ontology.OntologyIndex.ListedIdFindable | src/OneAllenBrainOntology.js:181-186 | Every listed id finds a region with that id. |
| Ontology.OntologyIndex.UniqueNameFindsItsRegion | src/OneAllenBrainOntology.js:144-150 | A region whose normalised name no later region repeats is found by its own name. |
| Ontology.OntologyIndex.UniqueAcronymFindsItsRegion | src/OneAllenBrainOntology.js:163-169 | A region whose normalised acronym no later region repeats is found by its own acronym. |
| Ontology.OntologyIndex.UniqueIdFindsItsRegion | src/OneAllenBrainOntology.js:181-186 | A region whose id no later region repeats is found by its id. |
| Ontology.OntologyIndex.FindRegion | src/OneAllenBrainOntology.js:203-216 | Each key occurs in the answer as often as in `listOfFullIndex` if it contains every query word, and not at all otherwise. The answer is sorted by key. Each entry is an indexed region containing every word, namely the last region indexed under its key. |
| Ontology.OntologyIndex.FindRegionComplete | src/OneAllenBrainOntology.js:206-213 | A region whose key contains every query word is answered, by the region indexed last under that key. |
| Ontology.OntologyIndex.FindRegionEmptyQuery | src/OneAllenBrainOntology.js:204-210 | The empty query answers one region per indexed region, with all keys in ascending order. |
| Ontology.OntologyIndex.FindRegionTrailingSpace | src/OneAllenBrainOntology.js:204 | A trailing space does not change the answer. |
| Ontology.OntologyIndex.FindRegionSpaceRun | src/OneAllenBrainOntology.js:204-208 | Two spaces in a row answer like one. |
| Ontology.OntologyIndex.ListedAcronymSearchable | src/OneAllenBrainOntology.js:203-213 | Searching for a listed acronym answers that acronym's region, or the region indexed last under the same key. This holds with spaces in the acronym too. |
| Ontology.OntologyIndex.ListedNameSearchable | src/OneAllenBrainOntology.js:203-213 | Searching for a listed name answers that name's region, or the region indexed last under the same key. |
| Ontology.OntologyIndex.ListedIdSearchable | src/OneAllenBrainOntology.js:203-213 | Searching for a listed id's decimal text answers its region, or the region indexed last under the same key. |
| Search.QueryWords | src/OneAllenBrainOntology.js:204 | There is one word per part of `query.split(' ')`, namely that part lower-cased. |
| Search.QueryWordsTrailingSpace | src/OneAllenBrainOntology.js:204 | A trailing space adds exactly one empty word. |
| Search.QueryWordsSpaceRun | src/OneAllenBrainOntology.js:204 | Two spaces in a row put exactly one empty word between the words around them. |
| Search.QueryWordsAtSpace | src/OneAllenBrainOntology.js:204 | The words of `a + " " + b` are the words of `a` followed by those of `b`. |
| Search.MatchesAll | src/OneAllenBrainOntology.js:208 | `every(word => !!~key.indexOf(word))` holds exactly when every word occurs in the key. |
| Search.SelectKeys | src/OneAllenBrainOntology.js:206-209 | The filter keeps each matching key as often as it occurs, and drops every other key. |
| Search.SelectKeysIgnoresMatchedWord | src/OneAllenBrainOntology.js:208 | A word that every key matches, wherever it stands, leaves the selection unchanged. |
| Search.SelectKeysAll | src/OneAllenBrainOntology.js:206-209 | Words that every key matches keep every key, in order. |
| Search.EmptyWordMatchesEverything | src/OneAllenBrainOntology.js:208 | The empty word matches every key, since `indexOf("")` is 0. |
| Search.SearchKeys | src/OneAllenBrainOntology.js:204-210 | Filter then sort gives the keys that contain all the words, with their multiplicities, in ascending order. |
| Search.LookupAll | src/OneAllenBrainOntology.js:211-213 | The map replaces each key by its dictionary entry, in order. |
| Search.FindIn | src/OneAllenBrainOntology.js:206-213 | Definition: filter, sort and map over a key list and the dictionary filled from it. `Search.AnswerKeys` and `Search.AnswerSpec` state its properties, through `Search.Answer`. |
| Search.Answer | src/OneAllenBrainOntology.js:203-216 | Definition: the answer `findRegion` gives once exactly the regions `rs` are indexed. `Search.AnswerKeys`, `Search.AnswerSpec`, `Search.AnswerComplete` and the other `Search.Answer` rows state its properties. |
| Search.AnswerKeys | src/OneAllenBrainOntology.js:203-216 | The answer's keys are exactly the sorted selected keys. Each entry is the last region indexed under its key. |
| Search.AnswerSpec | src/OneAllenBrainOntology.js:203-216 | This is the soundness and ordering statement about `Answer` that `FindRegion` inherits. |
| Search.AnswerComplete | src/OneAllenBrainOntology.js:206-213 | Completeness: every region whose key contains all the words is answered. |
| Search.AnswerEmptyQuery | src/OneAllenBrainOntology.js:204-210 | The empty query answers all keys in ascending order. |
| Search.AnswerTrailingSpace | src/OneAllenBrainOntology.js:204 | A trailing space leaves the answer unchanged. |
| Search.AnswerSpaceRun | src/OneAllenBrainOntology.js:204-208 | A doubled space leaves the answer unchanged. |
| Search.AnswerContainedQuery | src/OneAllenBrainOntology.js:204-213 | A lower-case query that occurs as a whole in a region's key answers that region, or the region indexed last under the same key. Each word of the query occurs in the query, so in the key. |
| Sorting.Insert | src/OneAllenBrainOntology.js:210 | Insertion into a sorted list stays sorted and adds exactly the one element. |
| Sorting.Sort | src/OneAllenBrainOntology.js:210 | The result is sorted and is a permutation of the input. |
| Sorting.SortedPermutationUnique | src/OneAllenBrainOntology.js:210 | Two sorted permutations of the same keys are equal, so any correct sort gives the modelled result. |
| Sorting.LexLe | src/OneAllenBrainOntology.js:210 | Definition: the lexicographic order the default sort compares by. `Sorting.LexLeReflexive`, `Sorting.LexLeTotal`, `Sorting.LexLeTransitive` and `Sorting.LexLeAntisymmetric` state that it is a total order. |
| Sorting.LexLeReflexive | src/OneAllenBrainOntology.js:210 | Every key is no greater than itself. |
| Sorting.LexLeTotal | src/OneAllenBrainOntology.js:210 | Any two keys are comparable. |
| Sorting.LexLeTransitive | src/OneAllenBrainOntology.js:210 | The key order is transitive. |
| Sorting.LexLeAntisymmetric | src/OneAllenBrainOntology.js:210 | Keys that are each no greater than the other are equal. |
| StringOps.Lower | src/OneAllenBrainOntology.js:20 | Lower-casing keeps the length and lowers each character in place. |
| StringOps.LowerOfNoUpper | src/OneAllenBrainOntology.js:20 | A string without upper-case letters is unchanged by lower-casing. |
| StringOps.LowerAppend | src/OneAllenBrainOntology.js:20 | Lower-casing works piece by piece over a concatenation. |
| StringOps.TrimStart | src/OneAllenBrainOntology.js:20-21 | Definition: the string with its leading white space removed. `StringOps.TrimShape` states its properties. |
| StringOps.TrimEnd | src/OneAllenBrainOntology.js:20-21 | Definition: the string with its trailing white space removed. `StringOps.TrimShape` states its properties. |
| StringOps.Trim | src/OneAllenBrainOntology.js:20-21 | Definition: `trim`, both ends stripped. `StringOps.TrimShape`, `StringOps.TrimIdempotent` and `StringOps.TrimOfUnpadded` state its properties. |
| StringOps.IsWhitespace | src/OneAllenBrainOntology.js:20-21 | Definition: the characters `trim` removes, the white space and line terminators of ECMAScript sections 12.2 and 12.3. `StringOps.TrimShape` states how `trim` uses it. |
| StringOps.TrimOfUnpadded | src/OneAllenBrainOntology.js:20-21 | A non-empty string with no white space at either end is unchanged by trimming. |
| StringOps.Normalize | src/OneAllenBrainOntology.js:20-21 | Definition: `toLowerCase().trim()`, the key normalisation shared by indexing (lines 20-21) and the exact lookups (lines 145 and 164). `StringOps.NormalizeIdempotent`, `StringOps.NormalizeLower`, `StringOps.NormalizeIgnoresPadding` and `StringOps.LowerOfNormalized` state its properties. |
| StringOps.TrimShape | src/OneAllenBrainOntology.js:20-21 | `trim` keeps a contiguous slice of the string, drops only white space around it, and leaves no white space at either end. |
| StringOps.TrimIdempotent | src/OneAllenBrainOntology.js:20-21 | Trimming twice is trimming once. |
| StringOps.LowerTrimCommute | src/OneAllenBrainOntology.js:20-21 | Lower-casing and trimming commute. |
| StringOps.NormalizeIdempotent | src/OneAllenBrainOntology.js:145 | A normalised key normalises to itself, so a listed name used as a query finds its entry. |
| StringOps.LowerOfNormalized | src/OneAllenBrainOntology.js:204 | A normalised key is already in lower case, so lower-casing a query word leaves it alone. |
| StringOps.NormalizeLower | src/OneAllenBrainOntology.js:145 | Lower-casing first does not change the normalised key. |
| StringOps.NormalizeIgnoresPadding | src/OneAllenBrainOntology.js:145 | White space around a string does not change its normalised key. |
| StringOps.Split | src/OneAllenBrainOntology.js:204 | There is always at least one part. |
| StringOps.SplitPartsWithoutSeparator | src/OneAllenBrainOntology.js:204 | No part contains the separator. |
| StringOps.JoinSplit | src/OneAllenBrainOntology.js:204 | Splitting loses nothing: joining the parts with the separator gives back the string. |
| StringOps.SplitTrailingSeparator | src/OneAllenBrainOntology.js:204 | A trailing separator adds exactly one empty part. |
| StringOps.SplitAtSeparator | src/OneAllenBrainOntology.js:204 | A separator between two strings yields the parts of the first, then those of the second. |
| StringOps.SplitWithoutSeparator | src/OneAllenBrainOntology.js:204 | A string without the separator is a single part. |
| StringOps.SplitPartsOccur | src/OneAllenBrainOntology.js:204 | Each part of a split occurs in the split string. |
| StringOps.LowerFixedContained | src/OneAllenBrainOntology.js:204 | Every infix of a lower-case string is lower case, so lower-casing the query's parts leaves them alone. |
| StringOps.ContainsTransitive | src/OneAllenBrainOntology.js:208 | What occurs in an infix of a key occurs in the key. |
| StringOps.IndexOf | src/OneAllenBrainOntology.js:208 | The result is -1 exactly when the needle does not occur. Otherwise it is the first position where the needle occurs. |
| StringOps.IndexOfEmpty | src/OneAllenBrainOntology.js:208 | The empty needle is found at position 0. |
| StringOps.IntToString | src/OneAllenBrainOntology.js:30 | The decimal text of an id is non-empty and made of digits. It starts with a minus sign exactly when the id is negative, and has no minus sign anywhere else. Which number it denotes is stated by `StringOps.IntToStringValue`. |
| StringOps.NatToString | src/OneAllenBrainOntology.js:30 | The decimal text of a non-negative id is non-empty and made of digits only. |
| StringOps.DigitsValue | src/OneAllenBrainOntology.js:30 | Definition: the number a string of decimal digits denotes, most significant digit first. `StringOps.NatToStringValue` states its link to the rendering. |
| StringOps.NumeralValue | src/OneAllenBrainOntology.js:30 | Definition: the number a decimal text with a possible leading minus sign denotes. `StringOps.IntToStringValue` states its link to the rendering. |
| StringOps.NatToStringValue | src/OneAllenBrainOntology.js:30 | The digits of a non-negative id denote that id. |
| StringOps.IntToStringValue | src/OneAllenBrainOntology.js:30 | The decimal text of any id, negative ones included, reads back as that id. |
| StringOps.IntToStringInjective | src/OneAllenBrainOntology.js:30 | Different ids have different decimal texts. |
| StringOps.LastPartUnique | src/OneAllenBrainOntology.js:30 | Two equal strings that end in a space and a part without spaces end in the same part. |
| StringOps.IntToStringPlain | src/OneAllenBrainOntology.js:30 | The decimal text of an id has no space and no upper-case letter. |

## Left out

- Loading `1.json` at line 1 is left out. The tree is the parameter `one` of `BuildIndex` and `Load`.
- The import-time call at line 52 is `Load`. It builds an explicit `OntologyIndex` object instead of module-level variables.
- `delete node.children` at line 48, and the mutation of the shared input objects, are left out. The model produces a separate `IndexedRegion` with the derived `children_structure_id` and `isLeaf`, instead of changing the input nodes in place.
- The order of the writes inside one visit is not modelled. The source pushes the node before it fills `children_structure_id` and `isLeaf`. The model builds the record first, then pushes it. The final state is the same, because the source pushes a reference.
- The opaque pass-through fields of a region record (colour, graph order, parent id and so on) are not modelled. None of them take part in indexing or queries.
- The getters return the live module-level arrays and node objects. The model returns values, so aliasing is not captured: a caller that mutates a returned array changes the library's state.
- StringOps.Lower: `toLowerCase` and `toLocaleLowerCase` are modelled on ASCII letters only. Full Unicode case mapping is not modelled, and neither are locale rules or mappings that change the length.
- StringOps.IsWhitespace: the set of white-space characters is fixed to the space separators of the current Unicode version. A later Unicode version that adds one is not followed.
- Sorting.LexLe: `Array.prototype.sort` compares UTF-16 code units. The model compares characters, which is the same order only for characters of the Basic Multilingual Plane.
- Ontology.OntologyIndex.GetRegionById: ids are taken as integers only. JavaScript turns the key of `id in indexPerId` into a string, so the string `'567'` also finds the region with id 567; the model does not capture this.
- StringOps.IntToString: ids are rendered as integers. The decimal text of non-integer or very large numbers, such as exponent notation, is not modelled.
- Assigning to the key `__proto__` on a plain object replaces the prototype instead of storing an entry. This special case of the dictionary writes at lines 28-29 is not modelled: the model stores it like any other key.

## Findings

| source | as written | input that shows it | evidently intended | confidence | as-written member | corrected member |
|---|---|---|---|---|---|---|
| src/OneAllenBrainOntology.js:146 | `usableName in indexPerName` on a plain object is also true for names inherited from `Object.prototype`, and the lookup then returns that member | `getRegionByFullName("Constructor")` when no region is named "constructor" returns the `Object` function, not null | null for every name no region has | not executed | Ontology.OntologyIndex.GetRegionByFullNameAsWritten, with Ontology.OntologyIndex.ConstructorNameNotNull | Ontology.OntologyIndex.GetRegionByFullName |
| src/OneAllenBrainOntology.js:165 | `usableAc in indexPerAcronym` has the same inherited-member case | `getRegionByAcronym(" constructor")` when no region has that acronym returns the `Object` function, not null | null for every acronym no region has | not executed | Ontology.OntologyIndex.GetRegionByAcronymAsWritten, with Ontology.OntologyIndex.ConstructorAcronymNotNull | Ontology.OntologyIndex.GetRegionByAcronym |
