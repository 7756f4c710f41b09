# Tundra `%key%` substitution and document comparison, in Dafny

This project models two pieces of the Tundra package for webMethods Integration Server:

- **`SubstitutionHelper`**, the `%key%` variable-substitution engine.
  - A String that is one whole placeholder (`%key%`) is replaced by the key's value, typed and converted to the requested class.
  - Any other String has each embedded placeholder replaced by:
    - the key's String value, else
    - the default value as a String, else
    - the placeholder itself.
  - Keys are resolved against an ordered list of local scopes (pipeline documents) and the global variable store. A substitution type (`ALL`, `LOCAL`, `GLOBAL`) says which of the two to search.
  - The engine also handles:
    - `String[]` and `String[][]`, element by element;
    - a whole document, walking its entries in cursor order and optionally recursing into nested documents and document lists;
    - arrays of documents.
- **`IDataDefaultComparator.compare`**, which orders two documents.
  - It compares entries pairwise in cursor order: key first, then value.
  - It recurses into nested documents, uses `compareTo` for comparable values, and falls back to hash codes.
  - When one document is a prefix of the other, the longer one orders after it.

Every loop of the Java code is a Dafny `method` with a `while` or `for` loop:
- the `find()` loop that builds the result string;
- the scope loops of `exists` and `getValue`;
- the array loops, which fill a freshly allocated `array`;
- the document cursor loop;
- the comparator's lock-step cursor loop.

Each method is proved equal to a pure specification function beside it. The properties are proved as lemmas about those functions.

Modules, one per file:

- `Values`: the Java values the engine distinguishes, documents as ordered entry lists, `Result` for the exceptions that escape, and `Collect`. `Collect` is the generic "store each computed element in order, first exception escapes" loop.
- `Placeholders`: the pattern `%([^%]+)%`, as `matches()` and as repeated `find()`.
- `Scopes`: `exists` and `getValue`.
- `Substitution`: the String, `String[]` and `String[][]` overloads.
- `Documents`: the document and document-array overloads.
- `Comparator`: `IDataDefaultComparator.compare`.

Nulls:
- A Java `null` String is `None` of `Option<string>`.
- A `null` value is `Null`.
- A `null` document is `None` of `Option<IData>`.

Java exceptions that escape:
- a `NullPointerException` for a null `valueClass`;
- a null replacement String reaching `appendReplacement`.

Both are `Failure` values.

## Model

| member | source | states |
|---|---|---|
| Values.Lookup | src/main/java/permafrost/tundra/flow/variable/SubstitutionHelper.java:137 | the first entry with the key is found; None exactly when no entry has the key |
| Values.PutLookup | src/main/java/permafrost/tundra/flow/variable/SubstitutionHelper.java:280 | after a put, the key reads back the new value and every other key reads as before; the document grows by one entry at the end exactly when the key was absent |
| Values.Collect | src/main/java/permafrost/tundra/flow/variable/SubstitutionHelper.java:204-206 | a successful loop stores one value per computed element; a failure is the exception of one of the elements |
| Values.CollectCharacterized | src/main/java/permafrost/tundra/flow/variable/SubstitutionHelper.java:204-206 | the loop succeeds iff every element succeeds; on success element i is the value computed for element i; otherwise the first failing element decides the exception |
| Placeholders.WholeMatch | src/main/java/permafrost/tundra/flow/variable/SubstitutionHelper.java:90-91 | `matches()` holds iff the whole string is '%', a non-empty run without '%', then '%'; `group(1)` is that run |
| Placeholders.WholeMatchOfKey | src/main/java/permafrost/tundra/flow/variable/SubstitutionHelper.java:49 | wrapping a valid key in '%' gives a whole match reading back that key |
| Placeholders.MatchAt | src/main/java/permafrost/tundra/flow/variable/SubstitutionHelper.java:49 | a match tried at a position is a token of the pattern; no match means no token starts there |
| Placeholders.NextMatch | src/main/java/permafrost/tundra/flow/variable/SubstitutionHelper.java:105 | `find()` returns the leftmost position at or after the start where a token begins (no earlier position matches), with that token's end; it returns none only if no position matches |
| Placeholders.NoMatchIffNoToken | src/main/java/permafrost/tundra/flow/variable/SubstitutionHelper.java:105 | `find()` fails on the first call iff the string contains no token anywhere |
| Placeholders.MatchParts | src/main/java/permafrost/tundra/flow/variable/SubstitutionHelper.java:106-112 | the matched text `group(0)` is '%' + `group(1)` + '%', and `group(1)` is a valid key |
| Placeholders.TokenizeJoin | src/main/java/permafrost/tundra/flow/variable/SubstitutionHelper.java:105-115 | the pieces the find loop visits (text between matches, matches, tail) join back to the original string |
| Placeholders.TokenizeKeys | src/main/java/permafrost/tundra/flow/variable/SubstitutionHelper.java:106 | every key the find loop hands to getValue is non-empty and free of '%' |
| Placeholders.TokenizeLiteralsTokenFree | src/main/java/permafrost/tundra/flow/variable/SubstitutionHelper.java:105-115 | the find loop misses no placeholder: the text between matches and the tail after the last one hold no token |
| Placeholders.NoTokenOneLiteral | src/main/java/permafrost/tundra/flow/variable/SubstitutionHelper.java:105-115 | a string without tokens is visited as one literal piece |
| Scopes.LocalValue | src/main/java/permafrost/tundra/flow/variable/SubstitutionHelper.java:169-175 | the local value is null iff every scope gives null; otherwise it is the value of the first scope whose value is not null |
| Scopes.Exists | src/main/java/permafrost/tundra/flow/variable/SubstitutionHelper.java:130-150 | true iff (ALL/LOCAL and some scope has the key, even mapped to null) or (ALL/GLOBAL and the global store has it) |
| Scopes.GetValue | src/main/java/permafrost/tundra/flow/variable/SubstitutionHelper.java:163-183 | the result is convert applied to the first non-null local value, or else to the global value when the selector searches it |
| Scopes.FirstLocalWins | src/main/java/permafrost/tundra/flow/variable/SubstitutionHelper.java:169-174 | the first scope with a non-null value wins over later scopes and the global store, and the key then exists |
| Scopes.GlobalOnlyAsFallback | src/main/java/permafrost/tundra/flow/variable/SubstitutionHelper.java:178-180 | GLOBAL, or ALL with no non-null local value, reads the global store; ALL with a non-null local value never does |
| Scopes.SelectorIsolation | src/main/java/permafrost/tundra/flow/variable/SubstitutionHelper.java:163-183 | under LOCAL the global store is irrelevant to exists and getValue; under GLOBAL the scopes are |
| Scopes.NullEntryExistsButFallsThrough | src/main/java/permafrost/tundra/flow/variable/SubstitutionHelper.java:137-140 | a key mapped to null exists, yet getValue passes it by and reads the global store under ALL (null under LOCAL) |
| Substitution.Replacement | src/main/java/permafrost/tundra/flow/variable/SubstitutionHelper.java:106-113 | an embedded placeholder is replaced by the key's String value when there is one; else by the default's String form when the default is not null and converts to a String; else it fails when that String form is null; with no value and no default it is the placeholder itself |
| Substitution.Fill | src/main/java/permafrost/tundra/flow/variable/SubstitutionHelper.java:105-116 | building the result fails only with a null replacement, when the default is non-null and converts to a null String |
| Substitution.FillVerbatim | src/main/java/permafrost/tundra/flow/variable/SubstitutionHelper.java:112 | pieces that each stand for themselves rebuild exactly the text they were cut from |
| Substitution.FillFails | src/main/java/permafrost/tundra/flow/variable/SubstitutionHelper.java:108-112 | building the result fails iff some piece's replacement fails |
| Substitution.SubstitutedString | src/main/java/permafrost/tundra/flow/variable/SubstitutionHelper.java:83-120 | a null class fails, and only a null class fails with that error; a null template or no scopes gives null; any other failure is a null replacement under a non-null default; a String class yields a String or null; a class that is not a supertype of String yields non-null only for a whole-string placeholder, and null (never a failure) for any other template |
| Substitution.ReplaceEmbedded | src/main/java/permafrost/tundra/flow/variable/SubstitutionHelper.java:101-116 | the find/appendReplacement/appendTail loop computes Fill over the pieces of the string |
| Substitution.SubstituteString | src/main/java/permafrost/tundra/flow/variable/SubstitutionHelper.java:83-120 | the Java method returns exactly SubstitutedString |
| Substitution.TokenFreeUnchanged | src/main/java/permafrost/tundra/flow/variable/SubstitutionHelper.java:100-116 | a template without placeholders comes back unchanged when the class accepts a String |
| Substitution.UnresolvedPlaceholdersKept | src/main/java/permafrost/tundra/flow/variable/SubstitutionHelper.java:111-112 | placeholders whose keys resolve to nothing, with no default, are kept verbatim with their '%' delimiters |
| Substitution.WholeUnknownKeyKeepsTemplate | src/main/java/permafrost/tundra/flow/variable/SubstitutionHelper.java:97-98 | a whole placeholder whose key exists nowhere yields the template itself, converted, whatever the default |
| Substitution.WholeExistingKey | src/main/java/permafrost/tundra/flow/variable/SubstitutionHelper.java:92-95 | a whole placeholder whose key exists (locally or globally, per the selector) yields the key's converted value, or the converted default when that value is null and a default is given |
| Substitution.WholeFirstScopeValue | src/main/java/permafrost/tundra/flow/variable/SubstitutionHelper.java:92-93 | a whole placeholder yields the typed value of the first scope holding a non-null value, converted to the class |
| Substitution.WholeNullValueUsesDefault | src/main/java/permafrost/tundra/flow/variable/SubstitutionHelper.java:94-95 | a whole placeholder whose key exists but has no non-null value yields the converted default |
| Substitution.SubstitutedStrings | src/main/java/permafrost/tundra/flow/variable/SubstitutionHelper.java:199-209 | a null array gives null; a null class fails; otherwise the result has the input's length, and any failure is a null replacement |
| Substitution.SubstituteStrings | src/main/java/permafrost/tundra/flow/variable/SubstitutionHelper.java:199-209 | the Java method, with its output array, returns exactly SubstitutedStrings |
| Substitution.StringsElementwise | src/main/java/permafrost/tundra/flow/variable/SubstitutionHelper.java:204-206 | String[] succeeds iff every element does; element i of the result is element i substituted; a failure is that of the first failing element |
| Substitution.SubstitutedTable | src/main/java/permafrost/tundra/flow/variable/SubstitutionHelper.java:225-235 | a null table gives null; a null class fails; otherwise the result has the input's number of rows, and any failure is a null replacement |
| Substitution.SubstituteTable | src/main/java/permafrost/tundra/flow/variable/SubstitutionHelper.java:225-235 | the Java method, with its output array, returns exactly SubstitutedTable |
| Substitution.TableElementwise | src/main/java/permafrost/tundra/flow/variable/SubstitutionHelper.java:230-232 | String[][] succeeds iff every row does; row i of the result is row i substituted; a null row stays null and every other row keeps its length |
| Documents.ScopedTo | src/main/java/permafrost/tundra/flow/variable/SubstitutionHelper.java:251-254 | the scopes used are never empty, and a non-empty scope list is used as given |
| Documents.SubstitutedDocument | src/main/java/permafrost/tundra/flow/variable/SubstitutionHelper.java:249-250 | a null document gives null and a non-null one a document; the only failure is a null replacement under a non-null default |
| Documents.SubstitutedBody | src/main/java/permafrost/tundra/flow/variable/SubstitutionHelper.java:256-288 | the only failure is a null replacement under a non-null default |
| Documents.WrittenResults | src/main/java/permafrost/tundra/flow/variable/SubstitutionHelper.java:261-282 | a failure of the cursor loop is the exception of one of the entry values |
| Documents.WrittenResultsCollect | src/main/java/permafrost/tundra/flow/variable/SubstitutionHelper.java:261-282 | the cursor loop fails with the first failing entry value; otherwise its output is every kept new value put in cursor order |
| Documents.WrittenLookup | src/main/java/permafrost/tundra/flow/variable/SubstitutionHelper.java:279-281 | after the puts, a lookup of any key finds the new value of the last kept entry with that key, and nothing if none was kept |
| Documents.WrittenInOrder | src/main/java/permafrost/tundra/flow/variable/SubstitutionHelper.java:279-281 | with distinct keys every put appends, so the output is the kept entries in input order with their new values |
| Documents.SubstitutedValue | src/main/java/permafrost/tundra/flow/variable/SubstitutionHelper.java:265-277 | a String becomes a String or null; every other value keeps its kind, and arrays and lists keep their length; without recursion, documents and lists pass through unchanged; null and any other object always pass through unchanged and never fail |
| Documents.SubstitutedDocumentArray | src/main/java/permafrost/tundra/flow/variable/SubstitutionHelper.java:303-313 | a null array gives null; otherwise the result has the input's length |
| Documents.NoDefaultNeverFails | src/main/java/permafrost/tundra/flow/variable/SubstitutionHelper.java:109-110 | with a null default the document walk never raises |
| Documents.SubstituteDocument | src/main/java/permafrost/tundra/flow/variable/SubstitutionHelper.java:249-289 | the Java method returns exactly SubstitutedDocument |
| Documents.SubstituteBody | src/main/java/permafrost/tundra/flow/variable/SubstitutionHelper.java:250-288 | the walk of a non-null document against its scopes, or itself when there are none, returns exactly SubstitutedBody |
| Documents.WriteEntries | src/main/java/permafrost/tundra/flow/variable/SubstitutionHelper.java:261-282 | the cursor loop returns exactly the kept new values put in cursor order, or the first failing value's exception |
| Documents.VisitEntry | src/main/java/permafrost/tundra/flow/variable/SubstitutionHelper.java:262-281 | one turn of the cursor loop: the entry's value is substituted and put under its key when kept, or its exception escapes |
| Documents.SubstituteValue | src/main/java/permafrost/tundra/flow/variable/SubstitutionHelper.java:265-277 | the dispatch on the value's class returns exactly SubstitutedValue |
| Documents.SubstituteDocuments | src/main/java/permafrost/tundra/flow/variable/SubstitutionHelper.java:306-312 | the IData[] loop with its output array returns exactly the element-by-element collection of the document substitutions |
| Documents.SubstituteDocumentArray | src/main/java/permafrost/tundra/flow/variable/SubstitutionHelper.java:303-313 | the Java method returns exactly SubstitutedDocumentArray |
| Documents.NewValuesElementwise | src/main/java/permafrost/tundra/flow/variable/SubstitutionHelper.java:263-277 | the new values exist iff every entry value substitutes; value i is entry i's value substituted; otherwise the first failing entry decides |
| Documents.EntriesLookup | src/main/java/permafrost/tundra/flow/variable/SubstitutionHelper.java:279-281 | the walk fails iff some value fails, with the first failure; otherwise a lookup of any key in the output finds the new value of the last kept entry with that key, and nothing if none was kept |
| Documents.EntriesInOrder | src/main/java/permafrost/tundra/flow/variable/SubstitutionHelper.java:256-282 | with distinct keys, the output is the input entries in input order with their new values, minus those whose value is null when nulls are not included |
| Documents.DocumentArrayElementwise | src/main/java/permafrost/tundra/flow/variable/SubstitutionHelper.java:303-313 | IData[] succeeds iff every element does; element i of the result is element i substituted; a null element stays null |
| Documents.NestedUseOuterScope | src/main/java/permafrost/tundra/flow/variable/SubstitutionHelper.java:251-269 | with no scopes a document is its own scope; a nested document's values are substituted against the outer document, and its output is its kept new values put in order |
| Documents.TextsUnchanged | src/main/java/permafrost/tundra/flow/variable/SubstitutionHelper.java:272-273 | a String[] without placeholders comes back as it was |
| Documents.ValueUnchanged | src/main/java/permafrost/tundra/flow/variable/SubstitutionHelper.java:265-277 | without recursion, a value whose Strings hold no placeholder comes back as it was |
| Documents.DocumentUnchanged | src/main/java/permafrost/tundra/flow/variable/SubstitutionHelper.java:256-282 | without recursion, a document with distinct keys, no placeholders, and no dropped nulls is copied to an equal document |
| Comparator.StringCompareZero | src/main/java/permafrost/tundra/idata/IDataDefaultComparator.java:69-71 | comparing keys gives zero iff the keys are equal |
| Comparator.StringCompareAntisymmetric | src/main/java/permafrost/tundra/idata/IDataDefaultComparator.java:69 | swapping two keys negates their comparison |
| Comparator.StringCompareFirstDifference | src/main/java/permafrost/tundra/idata/IDataDefaultComparator.java:69 | keys compare by their first differing character, or by length when one is a prefix of the other |
| Comparator.Compared | src/main/java/permafrost/tundra/idata/IDataDefaultComparator.java:52-57 | two nulls are equal; a document is greater than null; null is less than a document |
| Comparator.Compare | src/main/java/permafrost/tundra/idata/IDataDefaultComparator.java:49-139 | the Java method returns exactly Compared |
| Comparator.CompareBody | src/main/java/permafrost/tundra/idata/IDataDefaultComparator.java:60-135 | the lock-step cursor loop, with its break and the adjustment after it, returns exactly the entry-sequence comparison |
| Comparator.CompareValue | src/main/java/permafrost/tundra/idata/IDataDefaultComparator.java:72-120 | the value branch returns exactly the value comparison, recursing into nested documents |
| Comparator.FirstDifferenceDecides | src/main/java/permafrost/tundra/idata/IDataDefaultComparator.java:123-125 | the first position whose keys or values compare non-zero decides the result |
| Comparator.PrefixOrdersFirst | src/main/java/permafrost/tundra/idata/IDataDefaultComparator.java:131-135 | when all shared positions compare equal, the longer document is greater and equal lengths give 0 |
| Comparator.NullValueFirst | src/main/java/permafrost/tundra/idata/IDataDefaultComparator.java:75-80 | under equal keys a null value sorts before a non-null value, and two nulls compare equal, so comparison moves on |
| Comparator.ValueSelfEqual | src/main/java/permafrost/tundra/idata/IDataDefaultComparator.java:111-116 | a value compared with itself gives 0 when compareTo is reflexive; the hash fallback is never reached |
| Comparator.EntriesSelfEqual | src/main/java/permafrost/tundra/idata/IDataDefaultComparator.java:65-129 | an entry sequence compared with itself gives 0 |
| Comparator.DocumentSelfEqual | src/main/java/permafrost/tundra/idata/IDataDefaultComparator.java:49-139 | a document, or null, compared with itself gives 0 |
| Comparator.ValuesAntisymmetric | src/main/java/permafrost/tundra/idata/IDataDefaultComparator.java:111-115 | swapping two values negates the sign of their comparison, including the negated reverse compareTo, when the hash fallback is not reached |
| Comparator.EntriesAntisymmetric | src/main/java/permafrost/tundra/idata/IDataDefaultComparator.java:65-129 | swapping two entry sequences negates the sign of their comparison, when no value pair compared before the deciding position reaches the hash fallback |
| Comparator.DocumentsAntisymmetric | src/main/java/permafrost/tundra/idata/IDataDefaultComparator.java:49-139 | swapping two documents (or nulls) negates the sign of the result, when the hash fallback is not reached |
| Comparator.HashTieBothGreater | src/main/java/permafrost/tundra/idata/IDataDefaultComparator.java:116-120 | two distinct, mutually incomparable objects with equal hash codes each compare greater than the other, so the fallback is not an ordering |

## Left out

- `ObjectHelper.convert` is a parameter of the environment. Three things are assumed of it:
  - null converts to null;
  - conversion to `String` yields a String or null;
  - it never throws. A conversion error, which in Java aborts the whole call, is not modelled.
- Documents.NoDefaultNeverFails, and the clauses saying that the only failure is a null replacement (on Substitution.SubstitutedString, Substitution.SubstitutedStrings, Substitution.SubstitutedTable, Documents.SubstitutedDocument, Documents.SubstitutedBody, Documents.SubstitutedValue and Documents.SubstitutedDocumentArray), hold only because conversion is assumed never to throw.
- `ReplacementHelper.quote` and `Matcher.appendReplacement` are modelled as plain concatenation of the replacement text. The only failure modelled is a null replacement String, assumed to throw. `ReplacementHelper` is not part of this model.
- `ArrayHelper.instantiate` with a null class is assumed to throw, so the `String[]` and `String[][]` overloads fail with a null class even for an empty array. `ArrayHelper` is not part of this model.
- `SubstitutionType.normalize` is not part of this model. The selector is already one of `ALL`, `LOCAL` or `GLOBAL`.
- The global variable store is an immutable snapshot map passed in. Concurrent updates to it are not modelled.
- A null scope array is treated as an empty one; the source treats both alike. Null elements inside the scope array are not modelled.
- `IDataHelper.exists`, `IDataHelper.get`, `IDataUtil.put`, `toIData` and `toIDataArray` are modelled as follows:
  - lookup of the first entry with the key;
  - put as replace-first-or-append;
  - the codable, portable and `Table` wrappers folded into the `Doc` and `DocList` values.

  None of these files is part of this model.
- Java `char` is a UTF-16 code unit; Dafny `char` is a Unicode scalar value. Key comparison uses character differences on Dafny `char`.
- Java `int` overflow in `compareTo` results and hash codes is not modelled; integers are unbounded.
- The comparator's Java behaviour of values is a parameter `Runtime`: `instanceof Comparable`, `isAssignableFrom`, `compareTo`, `hashCode` and reference identity. Identity is a function of the modelled value, so two distinct but equal-looking objects are not told apart.
- A nested document reached through a codable wrapper whose `getIData()` returns null is not modelled; a nested document is never null.
- Comparator.ValuesAntisymmetric and the other antisymmetry lemmas assume the hash-code fallback is never reached, because that fallback is not antisymmetric (see Comparator.HashTieBothGreater).
- Documents.ValueUnchanged and Documents.DocumentUnchanged cover the walk without recursion only. Nested documents are not looked into.
- Documents.EntriesInOrder states the output exactly only for documents with distinct keys. For repeated keys, Documents.EntriesLookup states what each key reads back.
- Every other file of the repository is not part of this model. That includes file, HTTP, group, enum, map, filter and encoder helpers, which are I/O or thin wrappers over library calls.
