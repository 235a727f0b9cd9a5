# Textract key/value overlay: a Dafny model

This project models the logic of the `DocumentText` panel of the Textract demo in three parts.

1. **The key/value relationship resolver** (`relationshipMap`). It takes Textract's flat list of `Block`s and builds a multimap from each key's text to the blocks that hold that key's value. It works in four steps:
   - It indexes the blocks by id.
   - It selects the `KEY_VALUE_SET` blocks whose entity types include `KEY`.
   - For each key block:
     - it joins the text of the block's `CHILD` targets into the key text;
     - it follows `VALUE` and then `CHILD` links to collect the value blocks.
   - It stores the value blocks under the key text. A repeated key text appends to the list already stored under it.
2. **The selection step** (`drawBoundingBoxWithCondition`). It builds the map on first use and caches it in `kvMap`. It then visits the value blocks of every key that satisfies a condition.
3. **The condition used by `paintComponent`.** The key is lower-cased and must contain `"signatureofbuyer(s)"`. That string is the label `"Signature of Buyer(s)"`, lower-cased, with its spaces removed.

Modules:

- `Blocks` (`blocks.dfy`): blocks and relationships. Java's nullable references are `Option`s.
- `Multimap` (`multimap.dfy`): grouping a list of (key, values) entries. The first entry stores its list and later ones append.
- `Resolver` (`resolver.dfy`):
  - the preconditions under which `relationshipMap` throws nothing;
  - one function per stream stage;
  - `ResolvedMap`, the map as a function of the blocks;
  - the method `RelationshipMap`, which is the loop. It is proved equal to `ResolvedMap`.
- `KeyPredicate` (`key_predicate.dfy`): ASCII lower-casing, space removal, substring search and the `"Signature of Buyer(s)"` condition.
- `DocumentView` (`document_text.dfy`):
  - the `DocumentText` class with its `kvMap` cache;
  - the visit `VisitMatching`, which takes keys in any order;
  - `DrawnFor`, the blocks a visit in a given order draws;
  - order-independence of what is drawn.

The preconditions are exactly the conditions under which the Java code raises no exception:

- Block ids are pairwise distinct (`Collectors.toMap`).
- Every `KEY_VALUE_SET` block has entity types.
- Every key block has a relationship list.
- Every `CHILD` and `VALUE` id of a key block resolves, because the looked-up block is dereferenced.

An id that is looked up last, at the `CHILD` links of a value target, may be missing. It then becomes a `None` entry in the value list, as Java stores `null` there. The visit dereferences every entry it draws, so it requires the entries of the matching keys to be present.

Three behaviours of the code are easy to misread. The model follows the code:

- `Collectors.joining()` appends a `null` text as the four characters `null`, not as the empty string (`Resolver.TextOf`).
- A missing id is not skipped. Dereferencing it throws, which the model states as a precondition. At the last hop it is stored as `null` (`None`).
- The key is lower-cased but keeps its spaces. A key reading `Signature of Buyer(s)` therefore does not match (`KeyPredicate.SpacedKeyDoesNotMatch`). The key `SignatureofBuyer(s)` does match (`KeyPredicate.JoinedWordsMatch`). That key is what the key texts look like when the words "Signature", "of" and "Buyer(s)" are separate `CHILD` blocks, because they are joined without a separator.

## Model

All source paths are relative to the repository root.

| member | source | states |
|---|---|---|
| Blocks.Deref | src/main/java/com/urbancompass/demo/DocumentText.java:159-168 | looked-up blocks that are all non-null are dereferenced one for one, in order; a null would throw, so all must be present |
| Blocks.DerefAppend | src/main/java/com/urbancompass/demo/DocumentText.java:159-168 | dereferencing distributes over concatenation |
| Resolver.Index | src/main/java/com/urbancompass/demo/DocumentText.java:149-150 | with distinct ids, the index holds exactly the blocks' ids and maps each id to its block |
| Resolver.KeyBlocksMultiset | src/main/java/com/urbancompass/demo/DocumentText.java:151-154 | the selected blocks are exactly the `KEY_VALUE_SET` blocks with entity type `KEY`, each as often as in the input |
| Resolver.KeyBlocksMembership | src/main/java/com/urbancompass/demo/DocumentText.java:151-154 | a block is selected iff it is an input block of type `KEY_VALUE_SET` whose entity types contain `KEY` |
| Resolver.KeyBlocksAppend | src/main/java/com/urbancompass/demo/DocumentText.java:151-154 | the selection keeps input order: filtering distributes over concatenation |
| Resolver.KeyBlocksDistinct | src/main/java/com/urbancompass/demo/DocumentText.java:149-154 | with distinct input ids, the selected key blocks have distinct ids |
| Resolver.KeyBlocksResolvable | src/main/java/com/urbancompass/demo/DocumentText.java:155-168 | on an input meeting the preconditions, every selected key block has a relationship list and resolvable `CHILD` and `VALUE` ids |
| Resolver.LookupAll | src/main/java/com/urbancompass/demo/DocumentText.java:159 | `blockMap::get` maps each id, in order, to its block, or to null when the id is missing |
| Resolver.LookupAllAppend | src/main/java/com/urbancompass/demo/DocumentText.java:166-167 | looking up a concatenation of id lists concatenates the lookups |
| Resolver.IdsOfTypeMembership | src/main/java/com/urbancompass/demo/DocumentText.java:157-158 | an id is collected iff some relationship of the requested type lists it |
| Resolver.IdsOfTypeAppend | src/main/java/com/urbancompass/demo/DocumentText.java:157-158 | ids are collected relationship by relationship, each relationship's ids in their own order |
| Resolver.IdsOfTypeNone | src/main/java/com/urbancompass/demo/DocumentText.java:157-158 | without a relationship of the requested type, no id is collected |
| Resolver.IdsOfTypeSkipsOtherTypes | src/main/java/com/urbancompass/demo/DocumentText.java:165-170 | a relationship of any other type contributes no id wherever it stands |
| Resolver.JoinTextsAppend | src/main/java/com/urbancompass/demo/DocumentText.java:161-163 | `joining()` has no separator: joining a concatenation concatenates the joins |
| Resolver.IdsResolveAppend | src/main/java/com/urbancompass/demo/DocumentText.java:158-162 | the ids of a concatenation all resolve iff those of both parts do |
| Resolver.ChildTextAppend | src/main/java/com/urbancompass/demo/DocumentText.java:156-163 | the key text is the concatenation of the texts of the `CHILD` targets, relationship by relationship |
| Resolver.ChildTextOfOne | src/main/java/com/urbancompass/demo/DocumentText.java:156-163 | within one `CHILD` relationship, the key text is its targets' texts joined in id order |
| Resolver.ChildTextWithoutChildren | src/main/java/com/urbancompass/demo/DocumentText.java:156-163 | with no `CHILD` relationship, the key text is the empty string |
| Resolver.ChildIdsOfAppend | src/main/java/com/urbancompass/demo/DocumentText.java:168-171 | the `CHILD` ids of the `VALUE` targets are collected target by target, in order |
| Resolver.ValueTargetWithoutChildren | src/main/java/com/urbancompass/demo/DocumentText.java:164-173 | a `VALUE` target with a null relationship list, or with no `CHILD` relationship, contributes no value block |
| Resolver.Entries | src/main/java/com/urbancompass/demo/DocumentText.java:155-173 | one (key text, value blocks) entry per selected key block, in order |
| Resolver.GroupStep | src/main/java/com/urbancompass/demo/DocumentText.java:174-179 | one iteration stores one more (key text, value blocks) entry: the grouping of one more entry is one insertion |
| Resolver.RelationshipMap | src/main/java/com/urbancompass/demo/DocumentText.java:147-182 | the loop's map is the grouping of the key blocks' entries by key text (`ResolvedMap`) |
| Resolver.ResolvedMapKeys | src/main/java/com/urbancompass/demo/DocumentText.java:174-181 | the key set is exactly the set of key texts of the selected key blocks, empty value lists included |
| Resolver.ResolvedMapValueSource | src/main/java/com/urbancompass/demo/DocumentText.java:164-179 | every block listed under a key text is a value block of some key block with that text |
| Resolver.ResolvedMapValueListed | src/main/java/com/urbancompass/demo/DocumentText.java:164-179 | every value block of every key block is listed under that block's key text |
| Resolver.ResolvedMapValues | src/main/java/com/urbancompass/demo/DocumentText.java:164-179 | a block is listed under a key text iff some key block with that text has it among its value blocks |
| Resolver.KeyBlockBefore | src/main/java/com/urbancompass/demo/DocumentText.java:151-155 | a key block that comes before position `j` is visited before every key block from position `j` on |
| Resolver.KeyBlockFrom | src/main/java/com/urbancompass/demo/DocumentText.java:151-155 | the key block at position `j` is visited after the key blocks before it |
| Resolver.EntryOfKeyBlock | src/main/java/com/urbancompass/demo/DocumentText.java:155-163 | every stored entry comes from a key block of the input and carries that block's key text |
| Resolver.DuplicateKeyTextAccumulates | src/main/java/com/urbancompass/demo/DocumentText.java:174-179 | two key blocks with the same text, and no other with it: the text maps to the earlier block's value blocks followed by the later's, nothing deduplicated |
| Multimap.Put | src/main/java/com/urbancompass/demo/DocumentText.java:174-179 | a new key stores the list; a present key gets the list appended; no other key changes |
| Multimap.GroupSnoc | src/main/java/com/urbancompass/demo/DocumentText.java:174-179 | grouping one more entry is one more insertion, so the loop keeps the grouping invariant |
| Multimap.KeysSnoc | src/main/java/com/urbancompass/demo/DocumentText.java:174-179 | one more entry adds exactly its key to the key set |
| Multimap.ValuesForAppend | src/main/java/com/urbancompass/demo/DocumentText.java:174-179 | a key's list over a concatenation of entries is the concatenation of its lists |
| Multimap.ValuesForAbsent | src/main/java/com/urbancompass/demo/DocumentText.java:174-179 | a key with no entry has no values |
| Multimap.ValuesForLength | src/main/java/com/urbancompass/demo/DocumentText.java:174-179 | `addAll` does not deduplicate: a key's list is as long as all of its entries' lists together |
| Multimap.ValuesForMembership | src/main/java/com/urbancompass/demo/DocumentText.java:174-179 | a value is listed under a key iff some entry for that key holds it |
| Multimap.ValuesForSingle | src/main/java/com/urbancompass/demo/DocumentText.java:174-176 | a key with one entry keeps that entry's list unchanged |
| Multimap.ValuesForPair | src/main/java/com/urbancompass/demo/DocumentText.java:174-179 | a key with two entries gets the earlier entry's list followed by the later one's |
| KeyPredicate.ToLowerIdempotent | src/main/java/com/urbancompass/demo/DocumentText.java:126 | lower-casing twice is lower-casing once |
| KeyPredicate.RemoveSpacesKeepsOthers | src/main/java/com/urbancompass/demo/DocumentText.java:128 | `replaceAll(" ", "")` leaves no space and keeps every other character as often as it occurs |
| KeyPredicate.RemoveSpacesAppend | src/main/java/com/urbancompass/demo/DocumentText.java:128 | space removal distributes over concatenation |
| KeyPredicate.RemoveSpacesWithoutSpaces | src/main/java/com/urbancompass/demo/DocumentText.java:128 | a string without spaces is left unchanged |
| KeyPredicate.RemoveSpacesSkipsSpace | src/main/java/com/urbancompass/demo/DocumentText.java:128 | a space between two strings is dropped and both sides are kept |
| KeyPredicate.RemoveSpacesBetween | src/main/java/com/urbancompass/demo/DocumentText.java:128 | three space-free words separated by single spaces are joined |
| KeyPredicate.OccursInTail | src/main/java/com/urbancompass/demo/DocumentText.java:127 | past a first position where it does not occur, the needle occurs iff it occurs in the tail |
| KeyPredicate.Contains | src/main/java/com/urbancompass/demo/DocumentText.java:127 | `contains` holds iff the needle occurs at some position of the haystack |
| KeyPredicate.LowerLabel | src/main/java/com/urbancompass/demo/DocumentText.java:127-128 | the label lower-cased is `signature of buyer(s)` |
| KeyPredicate.LowerLabelWithoutSpaces | src/main/java/com/urbancompass/demo/DocumentText.java:128 | `signature of buyer(s)` without spaces is `signatureofbuyer(s)` |
| KeyPredicate.SignatureTarget | src/main/java/com/urbancompass/demo/DocumentText.java:127-128 | the label, lower-cased and without spaces, is `signatureofbuyer(s)` |
| KeyPredicate.SignatureKeyIff | src/main/java/com/urbancompass/demo/DocumentText.java:126-128 | the condition holds iff the lower-cased key contains `signatureofbuyer(s)` |
| KeyPredicate.SignatureKeyIgnoresCase | src/main/java/com/urbancompass/demo/DocumentText.java:126-128 | keys equal up to case are both accepted or both rejected |
| KeyPredicate.LowerJoined | src/main/java/com/urbancompass/demo/DocumentText.java:126 | the key `SignatureofBuyer(s)` lower-cased is `signatureofbuyer(s)` |
| KeyPredicate.JoinedWordsMatch | src/main/java/com/urbancompass/demo/DocumentText.java:126-128 | the key `SignatureofBuyer(s)`, three words joined without separator, is accepted |
| KeyPredicate.LabelLacksTarget | src/main/java/com/urbancompass/demo/DocumentText.java:126-128 | `signature of buyer(s)` does not contain `signatureofbuyer(s)` |
| KeyPredicate.SpacedKeyDoesNotMatch | src/main/java/com/urbancompass/demo/DocumentText.java:126-128 | only the label loses its spaces: the key `Signature of Buyer(s)` is rejected |
| DocumentView.VisitMatching | src/main/java/com/urbancompass/demo/DocumentText.java:136-144 | each key is visited at most once; exactly the keys satisfying the condition are visited; the drawn blocks are those keys' value blocks in visit order |
| DocumentView.KeySet | src/main/java/com/urbancompass/demo/DocumentText.java:136 | the set of visited keys holds exactly the keys of the visit order |
| DocumentView.ValuesBagRemove | src/main/java/com/urbancompass/demo/DocumentText.java:136-144 | taking one key out of a set takes exactly that key's value blocks out of the blocks drawn for it |
| DocumentView.KeySetInit | src/main/java/com/urbancompass/demo/DocumentText.java:136 | without its last key, a visit order of distinct keys covers the other keys exactly |
| DocumentView.DrawnForBag | src/main/java/com/urbancompass/demo/DocumentText.java:136-144 | each value block of each visited key is drawn once per occurrence in its list, and nothing else is drawn |
| DocumentView.VisitOrderIrrelevant | src/main/java/com/urbancompass/demo/DocumentText.java:136-144 | two visit orders of the same keys draw the same blocks, counted with multiplicity |
| DocumentView.DrawnForMembership | src/main/java/com/urbancompass/demo/DocumentText.java:136-144 | a block is drawn iff it is a value block of a visited key |
| DocumentView.DocumentText.constructor | src/main/java/com/urbancompass/demo/DocumentText.java:55-61 | a new panel holds the analysis blocks and no cached map |
| DocumentView.DocumentText.DrawBoundingBoxWithCondition | src/main/java/com/urbancompass/demo/DocumentText.java:131-145 | after the call the cache holds `relationshipMap`'s map; a map already cached is kept; the visit draws the value blocks of exactly the matching keys |
| DocumentView.DocumentText.PaintComponent | src/main/java/com/urbancompass/demo/DocumentText.java:117-129 | draws the value blocks of exactly the keys the `Signature of Buyer(s)` condition accepts |

## Left out

- `main`: fetching the image from S3, calling Textract's `analyzeDocument` with its human-review settings, and setting up the Swing frame. These are network and GUI calls into libraries that are not part of this model. The analysis result enters the model as the `blocks` of `DocumentText`.
- `showBoundingBox`, `showPolygon` and `showPolygonVerticals`: floating-point projection of normalized geometry to pixels, and `Graphics2D` drawing calls. A drawn block is modelled as that block appearing in the returned `drawn` sequence.
- `displayBlockInfo`: diagnostic output on stdout. Its dereference of the block is kept: every drawn entry must be non-null.
- `Block` geometry, confidence, page and cell fields: only drawing and diagnostics use them. A null confidence or geometry, which would throw while drawing, is not modelled.
- Drawing the image in `paintComponent`: pure output.
- A null id list in a relationship, a null relationship type and a null block type are not modelled. Ids, types and block types are always present values here.
- KeyPredicate.ToLower: lower-cases ASCII letters only. `Locale.ROOT` lower-casing of other Unicode characters is not modelled.
- `HashMap` iteration order: the visit takes keys in an order it chooses. What is drawn is stated for every order, and its multiset is proved independent of the order.
- Resolver.RelationshipMap: the Java list stored under a key is mutated in place by `addAll`. The model appends to an immutable sequence held in the map, so aliasing of that list is not captured. No other reference to it exists in the source.
- The exceptions themselves are not modelled as results. Each operation requires the inputs on which the Java code throws nothing.
