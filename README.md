# TrenchBroom: entity-class inheritance, legacy model definitions, editor context

A Dafny model of three self-contained pieces of the TrenchBroom level editor, with
proofs of what each promises.

1. **Entity-class inheritance** (`entity_class_info.dfy`, `entity_inheritance.dfy`,
   `inheritance_examples.dfy`). An entity definition file (FGD/DEF) declares base,
   point and brush classes. `resolveInheritance` turns these declarations into the
   final point and brush classes:
   - it drops redundant declarations of a name, one warning each;
   - it resolves every base-class name for the kind of the class being resolved;
   - it walks the base classes depth first, left to right, visiting each one once;
   - it merges each visited class into the derived one:
     - description, colour and size are taken only when missing;
     - model and decal definitions are appended as fallbacks;
     - properties are shadowed by key;
     - spawnflags are merged bit by bit.

   The operation is modelled as pure functions over sequences of `ClassInfo`
   values. Its contract is stated as lemmas: about the filter, the walk (order,
   closure, warnings), the merge of a whole chain, and the result. Both point classes of
   the test suite's diamond, the base name declared for both kinds, and its spawnflags
   case are worked through concretely; the chain and multiple-base hierarchies are
   covered by the general lemmas on the walk's order and the merge of a chain.
2. **Legacy model definitions** (`legacy_model_tokenizer.dfy`,
   `legacy_model_parser.dfy`, `legacy_model_format.dfy`). This is the text inside
   `model(...)` of a Quake-style entity definition, for example
   `"progs/a.mdl" 1 2 spawnflags = 4, pathKey = "model" skinKey = "skin"`.
   - The tokenizer (`Tokenizer` class, a cursor over the input) and the parser
     (`Parser` class, which consumes that tokenizer with peek and next) are
     imperative methods. Each is proved to agree with a pure reference function
     over the text and a cursor (`NextTokenAt`, `ParseModelDefinitionAt` and the
     functions it calls).
   - The reference functions are then characterised. Every token is well formed,
     and tokenizing fails exactly at an unterminated string or a stray delimiter.
   - The main theorem is `ParseFormatted`. Any well-written list of specs
     (`ModelSpec`), rendered as text, parses back as the `Switch` of their
     meanings in reverse order.
   - `DynamicNotLast` shows that a dynamic spec anywhere but last makes the
     parse fail.
3. **Editor context** (`editor_context.dfy`). This is the state that decides
   what a map document shows and lets the user select. It holds:
   - the hidden tags;
   - the hidden entity definitions;
   - the selection block;
   - the group currently open for editing, with push and pop.

   `EditorContext` is a class whose setters change a field, and count a change
   notification, only when the value differs. The visibility and selectability
   rules are predicates over a closed `Node` datatype (world, layer, group,
   entity, brush, patch). Lemmas state what they imply, and that hiding more
   never shows more.

`wrappers.dfy` holds the `Option` and `Result` types. `el.dfy` holds the expression
trees (`Switch`, `Case`, `Equal`, literals, variables, maps) that model definitions
consist of.

## Model

| member | source | states |
|---|---|---|
| EntityInheritance.FilterRedundantClasses | common/test/src/IO/tst_EntityDefinitionParser.cpp:104-312 | survivors plus warnings account for every declaration; the survivors are the kept declarations in input order; no two survivors conflict |
| EntityInheritance.KeptIndicesCharacterized | common/test/src/IO/tst_EntityDefinitionParser.cpp:104-312 | a declaration survives if and only if no earlier surviving declaration has its name with the same kind or with a base class on either side |
| EntityInheritance.KeptIndicesNoConflicts | common/test/src/IO/tst_EntityDefinitionParser.cpp:104-312 | no two surviving declarations conflict, so a point class and a brush class of one name coexist |
| EntityInheritance.FilterDropsOnlyRedundant | common/test/src/IO/tst_EntityDefinitionParser.cpp:104-312 | a dropped declaration always conflicts with a surviving one |
| EntityInheritance.FilteredLookupUnique | common/test/src/IO/tst_EntityDefinitionParser.cpp:908-1007 | after filtering, a base name resolves to at most one declaration for a point or brush class |
| EntityInheritance.FindClassInfoIsFirst | common/test/src/IO/tst_EntityDefinitionParser.cpp:908-1119 | base-name lookup finds the first declaration of that name that is a base class or of the resolving class's kind, and nothing exactly when none is |
| EntityInheritance.FindClassInfo | common/test/src/IO/tst_EntityDefinitionParser.cpp:908-1119 | a found base-class declaration is an index into the declarations (what it finds is FindClassInfoIsFirst) |
| EntityInheritance.ResolveSuperClassesFound | common/test/src/IO/tst_EntityDefinitionParser.cpp:723-807 | the resolved bases are exactly the successful lookups of the listed names, in list order; found plus unresolved equals the names listed |
| EntityInheritance.SupersMatch | common/test/src/IO/tst_EntityDefinitionParser.cpp:1009-1119 | a resolved base is a base class or of the kind it was looked up for, also through a base-class intermediary |
| EntityInheritance.Walk | common/test/src/IO/tst_EntityDefinitionParser.cpp:809-906 | the walk's visiting order extends the classes already visited, stays within the declarations and visits no class twice |
| EntityInheritance.WalkVisit | common/test/src/IO/tst_EntityDefinitionParser.cpp:809-906 | visiting a new class on top of the stack records it, pushes its bases in listed order in front of the rest, and adds its unresolvable names to the warnings |
| EntityInheritance.DepthFirst | common/test/src/IO/tst_EntityDefinitionParser.cpp:723-906 | the recursive pre-order visit of a list of bases, left to right, extends what was visited without repeating a class |
| EntityInheritance.DepthFirstAppend | common/test/src/IO/tst_EntityDefinitionParser.cpp:723-807 | visiting two lists of bases one after the other: everything the first reaches comes before what the second adds |
| EntityInheritance.WalkIsDepthFirst | common/test/src/IO/tst_EntityDefinitionParser.cpp:809-906 | the stack-based walk visits in exactly the order of the recursive left-to-right depth-first visit |
| EntityInheritance.VisitOrderDepthFirst | common/test/src/IO/tst_EntityDefinitionParser.cpp:723-906 | the walk from a class is the class followed by the depth-first visit of its resolved bases, left to right |
| EntityInheritance.VisitOrderFirstBase | common/test/src/IO/tst_EntityDefinitionParser.cpp:723-807 | a class's first resolved base, unless it is the class itself, is visited right after the class |
| EntityInheritance.WalkVisitsStack | common/test/src/IO/tst_EntityDefinitionParser.cpp:809-906 | every class waiting on the walk's stack gets visited |
| EntityInheritance.WalkCloses | common/test/src/IO/tst_EntityDefinitionParser.cpp:809-906 | the visited classes are closed under resolved bases |
| EntityInheritance.WalkReaches | common/test/src/IO/tst_EntityDefinitionParser.cpp:809-906 | every visited class is the root or a resolved base of a class visited before it |
| EntityInheritance.WalkWarnings | common/test/src/IO/tst_EntityDefinitionParser.cpp:809-906 | the walk's warnings are exactly the unresolvable base names of the classes it visits |
| EntityInheritance.VisitOrder | common/test/src/IO/tst_EntityDefinitionParser.cpp:809-906 | the visiting order starts with the class itself and visits every class at most once |
| EntityInheritance.VisitOrderClosed | common/test/src/IO/tst_EntityDefinitionParser.cpp:637-721 | the walk from a class reaches every base of every class it visits (whole chains are folded in) |
| EntityInheritance.VisitOrderReached | common/test/src/IO/tst_EntityDefinitionParser.cpp:1009-1119 | each visited class after the first is a resolved base of an earlier one and is a base class or of the root's kind |
| EntityInheritance.VisitOrderWarnings | common/test/src/IO/tst_EntityDefinitionParser.cpp:809-906 | resolving one class warns once per unresolvable base name along its walk |
| EntityClassInfo.MergeFlags | common/test/src/IO/tst_EntityDefinitionParser.cpp:574-635 | merged spawnflags are in strictly ascending bit order, label exactly the bits either side labels, and carry the derived option where it exists |
| EntityClassInfo.MergeFlagsOptionAt | common/test/src/IO/tst_EntityDefinitionParser.cpp:574-635 | looking a bit up in the merge gives the derived option, else the base option |
| EntityClassInfo.AddPropertyDefinition | common/test/src/IO/tst_EntityDefinitionParser.cpp:519-635 | appends an inherited property of a new key, merges inherited spawnflags into present ones, and otherwise keeps the present definition (proved by AddPropertyDefinitionLookup and AddNewKey) |
| EntityClassInfo.AddNewKey | common/test/src/IO/tst_EntityDefinitionParser.cpp:519-572 | an inherited property whose key the class lacks is appended after the class's own properties |
| EntityClassInfo.AddPropertyDefinitions | common/test/src/IO/tst_EntityDefinitionParser.cpp:519-635 | adds inherited properties one after the other (proved by AddPropertyDefinitionsOrder, AddPropertyDefinitionsKeys, AddPropertyDefinitionsLookup and AddPropertyDefinitionsUnique) |
| EntityClassInfo.AddPropertyDefinitionsOrder | common/test/src/IO/tst_EntityDefinitionParser.cpp:519-572 | the result is the class's own properties in their order, then the inherited properties of new keys in the base's order, first occurrence only; a spawnflags entry may carry merged options |
| EntityClassInfo.AddPropertyDefinitionsKeys | common/test/src/IO/tst_EntityDefinitionParser.cpp:519-572 | the resulting keys are the own keys followed by the base's new keys (NewKeys, an independent filter on key lists) |
| EntityClassInfo.AddPropertyDefinitionLookup | common/test/src/IO/tst_EntityDefinitionParser.cpp:519-572 | adding one inherited property changes only its own key's lookup: an own definition shadows it, two spawnflags merge, a new key is inherited |
| EntityClassInfo.AddPropertyDefinitionsLookup | common/test/src/IO/tst_EntityDefinitionParser.cpp:519-572 | adding a list of inherited properties gives each key its own definition, else the first inherited one, spawnflags merged |
| EntityClassInfo.AddPropertyDefinitionsUnique | common/test/src/IO/tst_EntityDefinitionParser.cpp:519-572 | inheriting properties never creates two definitions of one key |
| EntityClassInfo.AppendModel | common/test/src/IO/tst_EntityDefinitionParser.cpp:412-463 | appended model alternatives are the derived ones followed by the base's; absent only when both are |
| EntityClassInfo.AppendDecal | common/test/src/IO/tst_EntityDefinitionParser.cpp:466-517 | appended decal alternatives are the derived ones followed by the base's; absent only when both are |
| EntityClassInfo.MergeClass | common/test/src/IO/tst_EntityDefinitionParser.cpp:315-410 | merging a base keeps the derived class's kind, name, location and base list, and keeps property keys unique |
| EntityClassInfo.MergeClassSpawnflags | common/test/src/IO/tst_EntityDefinitionParser.cpp:574-635 | merging a base merges spawnflags bit by bit, the derived option winning, and the result stays a flags property |
| EntityInheritance.MergeAll | common/test/src/IO/tst_EntityDefinitionParser.cpp:637-906 | merging a chain keeps the derived class's kind, name, location and base-name list |
| EntityInheritance.MergeAllAttributes | common/test/src/IO/tst_EntityDefinitionParser.cpp:315-410 | description, colour and size come from the first class of the chain, derived first, that has them |
| EntityInheritance.FirstPresentIsFirst | common/test/src/IO/tst_EntityDefinitionParser.cpp:723-807 | the first present value is found exactly when one exists, and no earlier one is present |
| EntityInheritance.MergeAllModels | common/test/src/IO/tst_EntityDefinitionParser.cpp:637-721 | the merged model alternatives are all alternatives along the chain, in chain order |
| EntityInheritance.MergeAllDecals | common/test/src/IO/tst_EntityDefinitionParser.cpp:466-517 | the merged decal alternatives are all alternatives along the chain, in chain order |
| EntityInheritance.MergeAllLookup | common/test/src/IO/tst_EntityDefinitionParser.cpp:519-572 | every non-spawnflags property gets the definition of the first class of the chain defining it |
| EntityInheritance.MergeAllKeys | common/test/src/IO/tst_EntityDefinitionParser.cpp:809-906 | merging a chain gives the derived class's keys followed by each base's keys not defined before it, in chain order |
| EntityInheritance.MergeAllKeepsOwn | common/test/src/IO/tst_EntityDefinitionParser.cpp:519-572 | merging a chain keeps the derived class's own definitions first and in order, spawnflags possibly merged |
| EntityInheritance.MergeAllSpawnflags | common/test/src/IO/tst_EntityDefinitionParser.cpp:574-635 | every spawnflags bit gets the option of the first class of the chain labelling it |
| EntityInheritance.ResolveClass | common/test/src/IO/tst_EntityDefinitionParser.cpp:723-906 | a resolved class keeps its kind, name and base-name list, and its warnings are the unresolvable base names of the classes its walk visits |
| EntityInheritance.WalkMissing | common/test/src/IO/tst_EntityDefinitionParser.cpp:36-102 | the warnings of resolving each non-base declaration: the unresolvable base names met along each walk, summed (proved zero without base names by WalkMissingNoSupers) |
| EntityInheritance.WalkMissingNoSupers | common/test/src/IO/tst_EntityDefinitionParser.cpp:36-102 | without base names, resolving raises no warning |
| EntityInheritance.ResolveFrom | common/test/src/IO/tst_EntityDefinitionParser.cpp:36-102 | one output per non-base declaration from the start position, in order; output k is the resolution of the k-th of them |
| EntityInheritance.ResolveInheritance | common/test/src/IO/tst_EntityDefinitionParser.cpp:36-102 | one output per surviving non-base declaration, in input order, each being that declaration resolved (kind, name and base-name list kept); the warnings are exactly one per dropped declaration plus one per unresolvable base name along every walk |
| EntityInheritance.NoInheritanceIdentity | common/test/src/IO/tst_EntityDefinitionParser.cpp:36-102 | without base names the output is exactly the surviving non-base declarations, unchanged, and the warnings are the dropped declarations |
| EntityInheritance.ResolveClassNoSupers | common/test/src/IO/tst_EntityDefinitionParser.cpp:36-102 | a class without base names resolves to itself without warnings |
| InheritanceExamples.DiamondVisitOrder | common/test/src/IO/tst_EntityDefinitionParser.cpp:809-906 | point1 visits point1, base2_1, base1, base2_2, the shared base once, without warnings |
| InheritanceExamples.DiamondResolvesPoint1 | common/test/src/IO/tst_EntityDefinitionParser.cpp:809-906 | point1 resolves to the expected class: description and colour from base2_1, size from base1, properties a3, a2_1, a1, a2_2 |
| InheritanceExamples.DiamondVisitOrderPoint2 | common/test/src/IO/tst_EntityDefinitionParser.cpp:809-906 | point2 visits point2, base2_2, base1, base2_1: its bases in its own listed order, the shared base once, without warnings |
| InheritanceExamples.DiamondResolvesPoint2 | common/test/src/IO/tst_EntityDefinitionParser.cpp:809-906 | point2 resolves to the expected class: description and size from base2_2, colour from base2_1, properties a3, a2_2, a1, a2_1 |
| InheritanceExamples.OverloadedSupers | common/test/src/IO/tst_EntityDefinitionParser.cpp:908-1007 | "base" resolves to the point declaration for the point class and to the brush declaration for the brush class |
| InheritanceExamples.InheritedPropertyOrder | common/test/src/IO/tst_EntityDefinitionParser.cpp:519-572 | the point class with a1, a3 inheriting a1, a2 ends up with its own a1, then a3, then a2 |
| InheritanceExamples.SpawnflagsMerge | common/test/src/IO/tst_EntityDefinitionParser.cpp:574-635 | bits {1,2} of the base and {2,4} of the point class merge to a1_1, a2_2, a2_4 |
| LegacyModelTokenizer.NextTokenAt | common/src/IO/LegacyModelDefinitionParser.cpp:45-89 | the cursor never moves back and moves strictly forward over every token but the end of input |
| LegacyModelTokenizer.NextTokenWellFormed | common/src/IO/LegacyModelDefinitionParser.cpp:43-89 | every token has its kind's shape: punctuation is its character, an integer is a signed digit run, a word is a non-empty delimiter-free non-integer, a string holds no quote |
| LegacyModelTokenizer.NextTokenEof | common/src/IO/LegacyModelDefinitionParser.cpp:47-88 | the end-of-input token comes only when nothing but whitespace is left |
| LegacyModelTokenizer.NextTokenFails | common/src/IO/LegacyModelDefinitionParser.cpp:70-85 | tokenizing fails exactly at an unterminated quoted string or at one of ( [ ] { } ; |
| LegacyModelTokenizer.IntegerEndIsInteger | common/src/IO/LegacyModelDefinitionParser.cpp:76-79 | what the modelled readInteger accepts is a signed digit run ending at a delimiter or the end |
| LegacyModelTokenizer.IntegerEndComplete | common/src/IO/LegacyModelDefinitionParser.cpp:76-79 | the modelled readInteger accepts every signed digit run that ends at a delimiter or the end |
| LegacyModelTokenizer.ReadBack | common/src/IO/LegacyModelDefinitionParser.cpp:45-89 | a well-formed token written after a space, and followed by a delimiter where it needs one, is read back as itself |
| LegacyModelTokenizer.Tokenizer.constructor | common/src/IO/LegacyModelDefinitionParser.cpp:37-41 | a new tokenizer stands at the start of its input |
| LegacyModelTokenizer.Tokenizer.ReadInteger | common/src/IO/LegacyModelDefinitionParser.cpp:76-79 | advances over a signed integer ending at a delimiter, otherwise restores the cursor and reports none |
| LegacyModelTokenizer.Tokenizer.ReadUntil | common/src/IO/LegacyModelDefinitionParser.cpp:80-83 | advances to the next delimiter, reporting none when the cursor is already on one |
| LegacyModelTokenizer.Tokenizer.ReadQuotedString | common/src/IO/LegacyModelDefinitionParser.cpp:70-74 | advances past the closing quote, or fails at the end of input |
| LegacyModelTokenizer.Tokenizer.EmitToken | common/src/IO/LegacyModelDefinitionParser.cpp:45-89 | the token and new cursor are NextTokenAt's; a failure leaves the cursor where it was detected |
| LegacyModelTokenizer.Tokenizer.NextToken | common/src/IO/LegacyModelDefinitionParser.cpp:136 | consumes the token NextTokenAt gives |
| LegacyModelTokenizer.Tokenizer.PeekToken | common/src/IO/LegacyModelDefinitionParser.cpp:109 | returns the token NextTokenAt gives and leaves the cursor where it was |
| LegacyModelParser.Parser.constructor | common/src/IO/LegacyModelDefinitionParser.cpp:91-95 | the parser owns a fresh tokenizer at the start of the text |
| LegacyModelParser.Parser.Parse | common/src/IO/LegacyModelDefinitionParser.cpp:102-105 | the outcome and cursor are ParseModelDefinitionAt's |
| LegacyModelParser.Parser.ParseModelDefinition | common/src/IO/LegacyModelDefinitionParser.cpp:107-144 | the outcome and cursor are ParseModelDefinitionAt's: the undefined literal for `)`, otherwise the reversed Switch |
| LegacyModelParser.Parser.ParseModelSpecs | common/src/IO/LegacyModelDefinitionParser.cpp:119-138 | the loop over comma-separated specs yields ModelSpecsAt's list and cursor, or its error |
| LegacyModelParser.Parser.ParseStaticModelDefinition | common/src/IO/LegacyModelDefinitionParser.cpp:146-241 | the outcome and cursor are ParseStaticAt's |
| LegacyModelParser.Parser.ParseStaticIndices | common/src/IO/LegacyModelDefinitionParser.cpp:156-179 | reads up to two integers and peeks the token after them, as StaticIndicesAt says |
| LegacyModelParser.Parser.ParseDynamicModelDefinition | common/src/IO/LegacyModelDefinitionParser.cpp:243-284 | the outcome and cursor are ParseDynamicAt's |
| LegacyModelParser.Parser.ParseDynamicEntries | common/src/IO/LegacyModelDefinitionParser.cpp:256-281 | the entry loop yields DynamicEntriesAt's map and cursor, or its error |
| LegacyModelParser.Parser.ParseNamedValue | common/src/IO/LegacyModelDefinitionParser.cpp:286-303 | the outcome and cursor are ParseNamedValueAt's |
| LegacyModelParser.Expect | common/src/IO/LegacyModelDefinitionParser.cpp:112 | succeeds exactly on a token of an expected kind, and then returns it |
| LegacyModelParser.ParseNamedValueAt | common/src/IO/LegacyModelDefinitionParser.cpp:286-303 | a named value always yields a variable and consumes input; it succeeds only when the next token is a word equal to the expected name, ignoring case |
| LegacyModelParser.NamedValueRejects | common/src/IO/LegacyModelDefinitionParser.cpp:286-303 | a named value is rejected with an unexpected-token error when the next token is not a word, and with an unexpected-name error when the word is another name |
| LegacyModelParser.ParseStaticAt | common/src/IO/LegacyModelDefinitionParser.cpp:146-241 | a static spec that parses consumes input and stays within the text (its value is characterised by ParseStaticReads) |
| LegacyModelParser.StaticMap | common/src/IO/LegacyModelDefinitionParser.cpp:153-188 | the map holds the path, a skin exactly when there is a first index, a frame exactly when there is a second, and nothing else |
| LegacyModelParser.StaticIndicesAt | common/src/IO/LegacyModelDefinitionParser.cpp:156-179 | at most two indices are read and the following token is the one peeked at the returned position |
| LegacyModelParser.DynamicKey | common/src/IO/LegacyModelDefinitionParser.cpp:260-276 | a word selects a map key exactly when it is skinKey or frameKey, ignoring case: skinKey the skin key, frameKey the frame key |
| LegacyModelParser.DynamicEntriesAt | common/src/IO/LegacyModelDefinitionParser.cpp:256-281 | entries already in the map keep their values; the entries succeed only when the first word is a known key |
| LegacyModelParser.DynamicEntriesRejectUnknown | common/src/IO/LegacyModelDefinitionParser.cpp:258-276 | an entry led by any word other than skinKey or frameKey, ignoring case, is rejected with that word |
| LegacyModelParser.ParseDynamicAt | common/src/IO/LegacyModelDefinitionParser.cpp:243-284 | a dynamic spec yields a map expression that holds the path |
| LegacyModelParser.ModelSpecsAt | common/src/IO/LegacyModelDefinitionParser.cpp:119-138 | the specs read so far stay a prefix and at least one more is added |
| LegacyModelParser.Reverse | common/src/IO/LegacyModelDefinitionParser.cpp:140-141 | element i of the result is element n-1-i of the input |
| LegacyModelParser.ParseModelDefinitionAt | common/src/IO/LegacyModelDefinitionParser.cpp:107-144 | a definition that parses stays within the text and never moves back (its value is characterised by EmptyDefinition and ParseFormatted) |
| LegacyModelFormat.IntegerTextValue | common/src/IO/LegacyModelDefinitionParser.cpp:162-173 | an integer written in decimal is read back as itself |
| LegacyModelFormat.RenderReads | common/src/IO/LegacyModelDefinitionParser.cpp:45-89 | readable tokens rendered with single spaces are read back, one after the other |
| LegacyModelFormat.NamedValueReads | common/src/IO/LegacyModelDefinitionParser.cpp:286-303 | `name = "variable"` reads as Variable(variable) whatever the case of the name |
| LegacyModelFormat.StaticIndicesReads | common/src/IO/LegacyModelDefinitionParser.cpp:156-179 | written indices read back as their values, followed by the next token |
| LegacyModelFormat.ParseStaticReads | common/src/IO/LegacyModelDefinitionParser.cpp:146-241 | a written static spec followed by a comma or `)` parses as its meaning: the path/skin/frame literal, guarded by a Case when a condition follows |
| LegacyModelFormat.EntriesMapFirstWins | common/src/IO/LegacyModelDefinitionParser.cpp:258-281 | a key is in the map exactly when it was there or some entry names it; the first entry for a key wins |
| LegacyModelFormat.DynamicEntriesReads | common/src/IO/LegacyModelDefinitionParser.cpp:256-281 | written skin and frame entries read as their first-wins map, up to the closing parenthesis |
| LegacyModelFormat.ParseDynamicReads | common/src/IO/LegacyModelDefinitionParser.cpp:243-284 | a written dynamic spec parses as its meaning when `)` follows, and fails when another token follows |
| LegacyModelFormat.ModelSpecsReads | common/src/IO/LegacyModelDefinitionParser.cpp:119-138 | a written comma-separated list reads as the meanings of its specs, in order |
| LegacyModelFormat.EmptyDefinition | common/src/IO/LegacyModelDefinitionParser.cpp:109-117 | a definition closed right away is the undefined literal and consumes nothing |
| LegacyModelFormat.ParseFormatted | common/src/IO/LegacyModelDefinitionParser.cpp:107-144 | a written list of valid specs parses as the Switch of their meanings in reverse order, stopping before `)` |
| LegacyModelFormat.ModelSpecsFail | common/src/IO/LegacyModelDefinitionParser.cpp:253-254 | a list with a dynamic spec before the last fails at the comma after it |
| LegacyModelFormat.DynamicNotLast | common/src/IO/LegacyModelDefinitionParser.cpp:119-138 | a definition with a dynamic spec anywhere but last fails to parse, at the comma after that spec |
| EditorContextModel.EditorContext.constructor | common/src/Model/EditorContext.cpp:39-42 | a new context hides nothing, does not block selection and has no current group |
| EditorContextModel.EditorContext.Reset | common/src/Model/EditorContext.cpp:44-50 | shows every tag and definition, unblocks selection and leaves every group, without a notification |
| EditorContextModel.EditorContext.SetHiddenTags | common/src/Model/EditorContext.cpp:57-64 | sets the hidden tags; notifies exactly when they change; nothing else changes, so the open-current-group invariant is kept |
| EditorContextModel.EditorContext.SetEntityDefinitionHidden | common/src/Model/EditorContext.cpp:77-85 | sets one definition's hidden flag; nothing happens for no definition; notifies exactly when the flag changes; the open-current-group invariant is kept |
| EditorContextModel.EditorContext.SetBlockSelection | common/src/Model/EditorContext.cpp:92-99 | sets the block, so selection can change exactly when it is unblocked; notifies exactly on change; the open-current-group invariant is kept |
| EditorContextModel.EditorContext.PushGroup | common/src/Model/EditorContext.cpp:106-117 | closes the current group and opens the pushed one, which becomes current |
| EditorContextModel.EditorContext.PopGroup | common/src/Model/EditorContext.cpp:119-129 | closes the current group and moves to its containing group, opening it if there is one |
| EditorContextModel.EditorContext.EntityDefinitionHidden | common/src/Model/EditorContext.cpp:66-75 | no definition is never hidden; a definition is hidden when its flag is set |
| EditorContextModel.EditorContext.Visible | common/src/Model/EditorContext.cpp:131-244 | the visibility rule of each node kind (its consequences: SelectedIsVisible, VisibleNeedsVisibleChild, HiddenTagHides, HidingMoreHidesMore) |
| EditorContextModel.EditorContext.AnyChildVisible | common/src/Model/EditorContext.cpp:246-251 | some child is visible (characterised by AnyChildVisibleExists) |
| EditorContextModel.EditorContext.FaceVisible | common/src/Model/EditorContext.cpp:225-229 | a face is visible when its brush is and it carries no hidden tag (see HidingMoreHidesFaces) |
| EditorContextModel.EditorContext.Selectable | common/src/Model/EditorContext.cpp:264-311 | the selectability rule of each node kind (its consequences: SelectableIsVisible, HidingMoreSelectsLess) |
| EditorContextModel.EditorContext.FaceSelectable | common/src/Model/EditorContext.cpp:302-306 | a face is selectable when it is visible and its brush editable (see FaceSelectableIsVisible) |
| EditorContextModel.EditorContext.CanChangeSelection | common/src/Model/EditorContext.cpp:313-316 | selection can change when it is not blocked (stated by SetBlockSelection and Reset) |
| EditorContextModel.AnyChildVisibleExists | common/src/Model/EditorContext.cpp:246-251 | anyChildVisible holds exactly when some child is visible |
| EditorContextModel.SelectedIsVisible | common/src/Model/EditorContext.cpp:152-244 | a selected group, entity, brush or patch is visible |
| EditorContextModel.VisibleNeedsVisibleChild | common/src/Model/EditorContext.cpp:152-175 | an unselected visible group or brush entity has a visible child |
| EditorContextModel.HiddenTagHides | common/src/Model/EditorContext.cpp:195-244 | an unselected brush or patch carrying a hidden tag is invisible |
| EditorContextModel.SelectableIsVisible | common/src/Model/EditorContext.cpp:264-311 | what is selectable is visible, editable and in an open group, is neither world nor layer, is not an opened group, and is not an entity with children |
| EditorContextModel.FaceSelectableIsVisible | common/src/Model/EditorContext.cpp:302-306 | a selectable face is visible, lacks every hidden tag, and its brush is visible and editable |
| EditorContextModel.HidingMoreHidesMore | common/src/Model/EditorContext.cpp:131-244 | a context hiding more tags and definitions shows no node that the other hides |
| EditorContextModel.ChildrenHidingMore | common/src/Model/EditorContext.cpp:246-251 | hiding more never makes some child visible |
| EditorContextModel.HidingMoreSelectsLess | common/src/Model/EditorContext.cpp:264-311 | hiding more never makes a node selectable |
| EditorContextModel.HidingMoreHidesFaces | common/src/Model/EditorContext.cpp:225-229 | hiding more never makes a face visible |

## Left out

- The implementation of `resolveInheritance` is not part of this model. The model follows the behaviour its test cases pin down.
- Unresolvable base names: the model counts one warning per name. No test has one.
- Cyclic base-class references: the walk skips classes already visited, so it ends on any input. The diagnostics the implementation may give for a cycle are not modelled.
- Output order: the tests compare the resolved classes as unordered collections. The model keeps the order of the input.
- Error and warning messages, and the counts of error-level messages: the warnings are a number, and no errors are raised.
- Property definitions other than flags: they are a single kind with a key and descriptions, and their type-specific data is left out.
- Flags options: each is identified by its bit index. Option values that are not a single bit are not modelled.
- Colours, sizes and vectors: they are real-valued records that are copied, never computed with.
- Evaluation of el expressions: model and decal definitions are sequences of expression trees, and "append" is concatenation.
- Line and column numbers: tokens and expression nodes do not carry them.
- `ParserStatus`: it is left out, and a thrown `ParserException` becomes an `Err` result.
- Tokenizer base-class internals (`readInteger`, `readUntil`, `readQuotedString`, `nextToken`, `peekToken`, `expect`) are not part of the source modelled here. They are specified as their uses in `emitToken` and the parser require. A quoted string ends at the next double quote, and no escape sequences are modelled. `readUntil` is taken to read nothing when the cursor is already on a delimiter, so a stray `(`, `[`, `]`, `{`, `}` or `;` fails tokenizing; NextTokenFails rests on that reading.
- LegacyModelParser.Parser.ParseModelDefinition: after a failed parse the cursor position is not stated (the same holds for the other parser methods).
- Integer width: indices are read as `size_t` and condition values as `int`. The model reads unbounded integers, so overflow and a negative index are not modelled.
- The key strings of a model specification map (path, skin, frame) are defined elsewhere in the source. The model uses "path", "skin" and "frame".
- LegacyModelFormat.ParseFormatted: the round trip covers text written with single spaces and the key names spelled `pathKey`, `skinKey`, `frameKey`. Case-insensitive names are covered separately (NamedValueReads).
- The change notifier: it is a counter of notifications.
- The two display preferences (show point entities, show brushes): they are passed in as a value.
- Tag masks: they are sets of bit numbers.
- The hidden-definition bitset: it is a set of definition indices with no capacity.
- Group nodes: each is reduced to its open flag and its containing group. A node's "containing group opened" state is a flag of the node, not derived from the group objects.
- Node state (selected, visible, editable): it is given per node rather than computed by the node classes.
- Brush faces: they are a sequence of tag sets.
- EditorContextModel.AllFacesHaveAnyTagInMask: the body of `BrushNode::allFacesHaveAnyTagInMask` is not part of this model. The model reads it as "every face carries some tag of the mask", not as "one tag of the mask is shared by all faces". The two readings differ for faces tagged {1} and {2} under hidden tags {1, 2}: the model hides such an unselected brush. HidingMoreHidesMore holds under either reading.
- `LoadEntityModel.cpp`, the view and UI classes, and `SelectionManager.h`: they are not part of the modelled core (file I/O, rendering, mouse handling, floating-point geometry).
