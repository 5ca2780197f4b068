# Duplicate block references in AcadLib, modelled in Dafny

This project models the core of AcadLib's check for overlapping block
references (`CheckDublicateBlocks`) and the small pieces around it. It proves
properties of that model.

- **The duplicate check** (`check_duplicate_blocks.dfy`, `duplicate_grouping.dfy`).
  The check starts at model space with the identity transform and walks the
  block definitions. In each definition it groups the direct block references
  by the equality of their duplicate info. For every group of more than one it
  records the group's first member, the group size and the transform into model
  space. It then descends into the referenced definitions. A definition is
  analysed at most once per run. A global counter `curDepth` caps the number of
  expanded definitions at `DEPTH`. It is reset once per run and never
  decremented. Any exception aborts the run, and then no error is reported.
  The walk is specified by the functions `Visit`/`VisitAll`. Lemmas prove
  it sound (every record comes from a definition reached from model space,
  with that chain's transform) and complete (every expanded definition has
  all its children attempted, every analysed definition has its records in
  the list in pre-order, siblings in enumeration order, and with budget left
  every reachable definition is analysed). They also prove that the budget
  bounds the descent: apart from model space, only definitions inserted by
  one of the at most DEPTH expanded definitions are opened. The class
  `DuplicateBlocksChecker`, whose fields are the source's static fields, is
  proved to compute exactly what `Visit`/`VisitAll` compute.
- **The error list** (`inspector.dfy`). `Inspector` holds the `Errors` list.
  It offers `HasErrors`, the list-resetting part of `Clear`, every `AddError`
  overload, `GetCollapsedErrors` (LINQ `Distinct`) and the sort in `LogErrors`.
- **TransparenceInvertConverter** (`transparence_invert_converter.dfy`): `255 - b`
  in both directions.
- **EnumBindingSourceExtension** (`enum_binding_source.dfy`): the validating
  `EnumType` setter, `ProvideValue`'s value array, and the description lookup.

Abstractions:
- The drawing database is a map from a definition's id to its entities in
  enumeration order. Opening an id that is not in the map is the exception
  that aborts a run (`OpenFailed`).
- `Matrix3d` is a symbolic product of placements. `Identity` is the empty
  product and `*` concatenates, so it is associative with a unit.
- `BlockRefDublicateInfo` equality is equality of an abstract key (type
  parameter `K`). `TransCopy(t)` keeps the info and its `CountDublic` and sets
  the transform to model space to `t`.
- Static state is the state of one object. The error message text is a
  function parameter of `Check`. `Error.CompareTo` is a rank function
  parameter of `LogErrors`. Reflection is a type descriptor (`TypeDesc`).

## Model

| member | source | states |
|---|---|---|
| AcadTypes.MulAssociative | AcadLib/Blocks/Dublicate/CheckDublicateBlocks.cs:75 | The `*` used to compose `transToModel * blRef.BlockTransform` is associative |
| AcadTypes.IdentityIsUnit | AcadLib/Blocks/Dublicate/CheckDublicateBlocks.cs:32 | `Matrix3d.Identity`, the starting transform, is a unit for `*` on both sides |
| AcadTypes.Identity | AcadLib/Blocks/Dublicate/CheckDublicateBlocks.cs:32 | `Matrix3d.Identity`: the empty product |
| AcadTypes.Mul | AcadLib/Blocks/Dublicate/CheckDublicateBlocks.cs:75 | `a * b`: the factors of a followed by the factors of b |
| DuplicateGrouping.WithKey | AcadLib/Blocks/Dublicate/CheckDublicateBlocks.cs:80 | A group holds only infos with its key, and every info with that key is in it |
| DuplicateGrouping.FirstIndex | AcadLib/Blocks/Dublicate/CheckDublicateBlocks.cs:83 | The position of the first info with a key: it has the key and no earlier info has it |
| DuplicateGrouping.KeysInOrderFacts | AcadLib/Blocks/Dublicate/CheckDublicateBlocks.cs:80 | The keys of `GroupBy` are distinct, are exactly the keys present, and come in order of first occurrence |
| DuplicateGrouping.WithKeyFirst | AcadLib/Blocks/Dublicate/CheckDublicateBlocks.cs:80-83 | A key's group is non-empty iff the key occurs, and its first member is the first info with that key |
| DuplicateGrouping.AddToGroupsShape | AcadLib/Blocks/Dublicate/CheckDublicateBlocks.cs:80 | One GroupBy step appends the info to its key's group, or opens a new group at the end for a new key |
| DuplicateGrouping.AddToGroups | AcadLib/Blocks/Dublicate/CheckDublicateBlocks.cs:80 | One GroupBy step adds at most one group, and a new group holds only the new info |
| DuplicateGrouping.GroupBy | AcadLib/Blocks/Dublicate/CheckDublicateBlocks.cs:80 | `GroupBy(g => g)` as a left fold over the infos; never more groups than infos (content in GroupByShape) |
| DuplicateGrouping.GroupByShape | AcadLib/Blocks/Dublicate/CheckDublicateBlocks.cs:80 | `GroupBy(g => g)` gives one group per distinct key, in first-occurrence order, each holding all infos with that key in order |
| DuplicateGrouping.SourceGroup | AcadLib/Blocks/Dublicate/CheckDublicateBlocks.cs:80-86 | Each selected entry comes from a group of more than one, as that group's first member with CountDublic equal to its size |
| DuplicateGrouping.SourceGroupAscending | AcadLib/Blocks/Dublicate/CheckDublicateBlocks.cs:80-86 | `Where`/`Select` keep the order of the groups |
| DuplicateGrouping.SelectDuplicatesComplete | AcadLib/Blocks/Dublicate/CheckDublicateBlocks.cs:80 | Every group with more than one member produces an entry |
| DuplicateGrouping.SelectDuplicates | AcadLib/Blocks/Dublicate/CheckDublicateBlocks.cs:80-86 | `Where(Count() > 1).Select(first with CountDublic)`: no more entries than groups, each with CountDublic >= 2 |
| DuplicateGrouping.Duplicates | AcadLib/Blocks/Dublicate/CheckDublicateBlocks.cs:80-86 | `dublicBlRefInfos`: no more entries than infos, each with CountDublic >= 2 |
| DuplicateGrouping.GroupsKeyed | AcadLib/Blocks/Dublicate/CheckDublicateBlocks.cs:80 | Each group is non-empty, is exactly the run of its key, and starts with the first info with that key |
| DuplicateGrouping.DuplicateEntries | AcadLib/Blocks/Dublicate/CheckDublicateBlocks.cs:80-86 | Every entry has CountDublic >= 2, equal to the number of siblings with its key, and is the first of those siblings |
| DuplicateGrouping.DuplicatesExactlyRepeatedKeys | AcadLib/Blocks/Dublicate/CheckDublicateBlocks.cs:80 | A key is reported iff at least two siblings carry it, so a sibling with a unique key gives no entry |
| DuplicateGrouping.DuplicatesOrdered | AcadLib/Blocks/Dublicate/CheckDublicateBlocks.cs:80-86 | Entries come in strictly increasing order of their key's first occurrence, so no key is reported twice |
| DuplicateBlocks.Fresh | AcadLib/Blocks/Dublicate/CheckDublicateBlocks.cs:25-29 | A run starts with curDepth 0, no attempted definition and an empty result list |
| DuplicateBlocks.RefPositions | AcadLib/Blocks/Dublicate/CheckDublicateBlocks.cs:67-71 | The positions the `blRef == null` test lets through: strictly increasing, each a block reference, and every block reference's position among them |
| DuplicateBlocks.BlockReferences | AcadLib/Blocks/Dublicate/CheckDublicateBlocks.cs:67-71 | Exactly the definition's block references, in enumeration order: the entities at RefPositions, one each, so every block reference is kept |
| DuplicateBlocks.OnlyBlockReferencesCount | AcadLib/Blocks/Dublicate/CheckDublicateBlocks.cs:67-77 | Other entities add no info and no child; the k-th info and child are the k-th block reference's info and `(BlockTableRecord, transToModel * BlockTransform)` |
| DuplicateBlocks.InfosOf | AcadLib/Blocks/Dublicate/CheckDublicateBlocks.cs:67-73 | `blrefInfos`: at most one info per entity (the index-by-index content is OnlyBlockReferencesCount) |
| DuplicateBlocks.ChildrenOf | AcadLib/Blocks/Dublicate/CheckDublicateBlocks.cs:67-75 | `idsBtrNext`: at most one child per entity (the index-by-index content is OnlyBlockReferencesCount) |
| DuplicateBlocks.TransCopies | AcadLib/Blocks/Dublicate/CheckDublicateBlocks.cs:106 | One copy per group, keeping the first info and its CountDublic, with the definition's incoming transform |
| DuplicateBlocks.Reported | AcadLib/Blocks/Dublicate/CheckDublicateBlocks.cs:80-107 | What one definition appends: nothing for a missing id, otherwise one record per duplicate group, each with count >= 2 and the incoming transform |
| DuplicateBlocks.Visit | AcadLib/Blocks/Dublicate/CheckDublicateBlocks.cs:56-101 | Defined by recursion on the number of unattempted definitions, so it terminates on every graph, cyclic ones included; the attempted set only grows |
| DuplicateBlocks.VisitAll | AcadLib/Blocks/Dublicate/CheckDublicateBlocks.cs:95-98 | The loop over the children: the attempted set only grows (the order of the children is stated in VisitAllAppend and VisitAllSiblingOrder) |
| DuplicateBlocks.Run | AcadLib/Blocks/Dublicate/CheckDublicateBlocks.cs:32 | The walk from model space with Identity: a missing model space throws, and a successful run has attempted model space |
| DuplicateBlocks.DuplicateErrors | AcadLib/Blocks/Dublicate/CheckDublicateBlocks.cs:40-44 | One error per result entry, in order, on the entry's IdBlRef with its transform to model and the error icon |
| DuplicateBlocks.DuplicateErrorsAppend | AcadLib/Blocks/Dublicate/CheckDublicateBlocks.cs:40-44 | Each further entry adds exactly one error at the end |
| DuplicateBlocks.AnalysedAtMostOnce | AcadLib/Blocks/Dublicate/CheckDublicateBlocks.cs:59 | A call for a definition already in `attemptedblocks` changes nothing |
| DuplicateBlocks.AdvancesTransitive | AcadLib/Blocks/Dublicate/CheckDublicateBlocks.cs:95-98 | The growth relation between states composes over successive calls |
| DuplicateBlocks.VisitAdvances | AcadLib/Blocks/Dublicate/CheckDublicateBlocks.cs:59-107 | The attempted set grows. The result list only grows at its end. curDepth never decreases and stays within max(curDepth, DEPTH). curDepth rises by exactly the number of newly expanded definitions, all of them newly attempted |
| DuplicateBlocks.VisitAllAdvances | AcadLib/Blocks/Dublicate/CheckDublicateBlocks.cs:95-98 | The same growth facts across the loop over `idsBtrNext` |
| DuplicateBlocks.RunBudget | AcadLib/Blocks/Dublicate/CheckDublicateBlocks.cs:18-95 | After a run, 0 <= curDepth <= max(0, DEPTH), and curDepth equals the number of definitions whose children were descended into. So at most DEPTH definitions are expanded, and model space is attempted (RunOnlyInserted shows that only those definitions are descended into) |
| DuplicateBlocks.ChildReachable | AcadLib/Blocks/Dublicate/CheckDublicateBlocks.cs:75 | A child of a reached definition is reached, with `transToModel * BlockTransform` |
| DuplicateBlocks.ChildrenReachable | AcadLib/Blocks/Dublicate/CheckDublicateBlocks.cs:75-97 | Every child in `idsBtrNext` of a reached definition is reached with its own transform |
| DuplicateBlocks.FoundOnPathsAppend | AcadLib/Blocks/Dublicate/CheckDublicateBlocks.cs:89-107 | Appending a reached definition's transformed duplicates keeps every entry traceable to a reached definition |
| DuplicateBlocks.VisitOnPaths | AcadLib/Blocks/Dublicate/CheckDublicateBlocks.cs:56-101 | A call from a reached definition appends only entries of reached definitions |
| DuplicateBlocks.VisitAllOnPaths | AcadLib/Blocks/Dublicate/CheckDublicateBlocks.cs:95-98 | The same across the loop over the children |
| DuplicateBlocks.ReportedEntries | AcadLib/Blocks/Dublicate/CheckDublicateBlocks.cs:80-107 | A definition's entries carry its incoming transform. Each has CountDublic >= 2, equal to the number of sibling references with its key, and is the first of them |
| DuplicateBlocks.RunSound | AcadLib/Blocks/Dublicate/CheckDublicateBlocks.cs:23-108 | Every entry of a successful run comes from a definition reached from model space through a chain of block references. It carries the product of the block transforms along that chain, starting from Identity, and has CountDublic >= 2 |
| DuplicateBlocks.RunStartsWithModelSpace | AcadLib/Blocks/Dublicate/CheckDublicateBlocks.cs:32-89 | Model space's own duplicates, with Identity, open the result list (pre-order). A missing model space aborts the run |
| DuplicateBlocks.RunWithoutDescent | AcadLib/Blocks/Dublicate/CheckDublicateBlocks.cs:92 | With DEPTH <= 0 only model space is analysed and nothing is descended into |
| DuplicateBlocks.ChildrenInDatabase | AcadLib/Blocks/Dublicate/CheckDublicateBlocks.cs:69-75 | Every child id is the BlockTableRecord of a block reference of the definition |
| DuplicateBlocks.VisitNeverThrows | AcadLib/Blocks/Dublicate/CheckDublicateBlocks.cs:59-99 | In a database where every reference resolves, no call throws |
| DuplicateBlocks.VisitAllNeverThrows | AcadLib/Blocks/Dublicate/CheckDublicateBlocks.cs:95-98 | The same for the loop over the children |
| DuplicateBlocks.RunSucceedsOnClosedDatabase | AcadLib/Blocks/Dublicate/CheckDublicateBlocks.cs:30-38 | A run aborts only when some definition cannot be opened |
| DuplicateBlocks.BlockReferenceIsChild | AcadLib/Blocks/Dublicate/CheckDublicateBlocks.cs:67-75 | Every block reference of a definition yields a child `(BlockTableRecord, transToModel * BlockTransform)` |
| DuplicateBlocks.ExpandedChildrenAttempted | AcadLib/Blocks/Dublicate/CheckDublicateBlocks.cs:95-97 | When every child in `idsBtrNext` was attempted, every block reference's definition was attempted |
| DuplicateBlocks.CoversTransitive | AcadLib/Blocks/Dublicate/CheckDublicateBlocks.cs:95-98 | What successive calls cover composes |
| DuplicateBlocks.VisitCovers | AcadLib/Blocks/Dublicate/CheckDublicateBlocks.cs:59-99 | A successful call attempts its definition. Every definition it expands has all its block references' definitions attempted, every definition it attempts exists, and while curDepth < DEPTH every definition it attempts is expanded |
| DuplicateBlocks.VisitAllCovers | AcadLib/Blocks/Dublicate/CheckDublicateBlocks.cs:95-98 | After the loop every child in `idsBtrNext` was attempted, with the same coverage facts |
| DuplicateBlocks.RunCovers | AcadLib/Blocks/Dublicate/CheckDublicateBlocks.cs:23-101 | After a run: model space attempted, every attempted definition exists, every expanded definition has all its children attempted, and with budget left every attempted definition was expanded |
| DuplicateBlocks.PathAttempted | AcadLib/Blocks/Dublicate/CheckDublicateBlocks.cs:59-99 | A set of definitions closed under children and holding model space holds the end of every chain of block references |
| DuplicateBlocks.RunReachesAll | AcadLib/Blocks/Dublicate/CheckDublicateBlocks.cs:23-101 | While curDepth < DEPTH at the end, the run analysed every definition reachable from model space |
| DuplicateBlocks.ReportedIntoExtends | AcadLib/Blocks/Dublicate/CheckDublicateBlocks.cs:107 | Appending to the result list keeps every block of records in place |
| DuplicateBlocks.NewDefinitionReported | AcadLib/Blocks/Dublicate/CheckDublicateBlocks.cs:59-107 | A new definition's records stand right after the records that were there before the call |
| DuplicateBlocks.VisitReports | AcadLib/Blocks/Dublicate/CheckDublicateBlocks.cs:59-107 | A call on a new definition appends its own records first, ahead of its children's (pre-order). Every definition the call analyses has its records, for a transform it is reached with, as a contiguous block of the list |
| DuplicateBlocks.VisitAllReports | AcadLib/Blocks/Dublicate/CheckDublicateBlocks.cs:95-98 | The same for every definition analysed across the loop over the children |
| DuplicateBlocks.RunReportsEveryAnalysedDefinition | AcadLib/Blocks/Dublicate/CheckDublicateBlocks.cs:23-107 | After a run every analysed definition exists and has its duplicates in the result list as one contiguous block, with a transform it is reached with from model space |
| DuplicateBlocks.NestedReferenceTransform | AcadLib/Blocks/Dublicate/CheckDublicateBlocks.cs:32-97 | A reference inside the definition a model-space reference inserts is reached with `T1 * T2`, the walk's `Identity * T1 * T2` |
| DuplicateBlocks.VisitOnlyInserted | AcadLib/Blocks/Dublicate/CheckDublicateBlocks.cs:59-99 | Apart from the definition it is called on, a call analyses only definitions inserted by a block reference of a definition whose children were descended into: a definition reached once the budget is spent does not lead to its children being opened |
| DuplicateBlocks.VisitAllOnlyInserted | AcadLib/Blocks/Dublicate/CheckDublicateBlocks.cs:95-98 | Across the loop, every newly analysed definition is one of the listed children or is inserted by an expanded definition |
| DuplicateBlocks.RunOnlyInserted | AcadLib/Blocks/Dublicate/CheckDublicateBlocks.cs:23-99 | After a run, every analysed definition other than model space is inserted by one of the at most max(0, DEPTH) definitions whose children were descended into |
| DuplicateBlocks.ChainLevelWithinBudget | AcadLib/Blocks/Dublicate/CheckDublicateBlocks.cs:92-97 | In a chain whose levels are each inserted only by the level above, analysing level k means the k levels above it were all expanded, so k is at most the number expanded |
| DuplicateBlocks.ChainCutOff | AcadLib/Blocks/Dublicate/CheckDublicateBlocks.cs:92-97 | In such a chain a run never opens a level below max(0, DEPTH): with DEPTH = 1 and model space -> A -> B, B is not analysed |
| DuplicateBlocks.VisitAllAppend | AcadLib/Blocks/Dublicate/CheckDublicateBlocks.cs:95-98 | The loop over `a + b` is the loop over `a` followed by the loop over `b` from the state it left; an exception in `a` ends both |
| DuplicateBlocks.VisitOwnRecordsFirst | AcadLib/Blocks/Dublicate/CheckDublicateBlocks.cs:59-99 | A call on a definition not analysed before puts its own records right after the records present before the call |
| DuplicateBlocks.VisitAllSiblingOrder | AcadLib/Blocks/Dublicate/CheckDublicateBlocks.cs:95-98 | The children are visited in enumeration order: if the i-th child was not analysed by the calls on the children before it, its records come right after everything those calls appended, so a definition inserted by two siblings is reported with the first one's transform |
| DuplicateBlocks.DuplicateBlocksChecker.constructor | AcadLib/Blocks/Dublicate/CheckDublicateBlocks.cs:18-21 | DEPTH starts at 5 and the state is empty |
| DuplicateBlocks.DuplicateBlocksChecker.Check | AcadLib/Blocks/Dublicate/CheckDublicateBlocks.cs:23-44 | Resets the state and the error list and runs the walk from model space with Identity. If it throws, the error list stays empty. Otherwise the state is the run's result and the errors are one per result entry, in order |
| DuplicateBlocks.DuplicateBlocksChecker.GetDuplicateBlocks | AcadLib/Blocks/Dublicate/CheckDublicateBlocks.cs:56-101 | Throws exactly when `Visit` does, and otherwise leaves exactly the state `Visit` computes |
| DuplicateBlocks.DuplicateBlocksChecker.CollectBlockReferences | AcadLib/Blocks/Dublicate/CheckDublicateBlocks.cs:62-77 | The foreach over the definition's entities yields exactly `InfosOf` and `ChildrenOf` of them: one info and one child per block reference, in enumeration order |
| DuplicateBlocks.DuplicateBlocksChecker.AddTransformedToModel | AcadLib/Blocks/Dublicate/CheckDublicateBlocks.cs:103-108 | Appends the groups' transformed copies at the end of the result list |
| Errors.Distinct | AcadLib/Errors/Inspector.cs:36 | LINQ `Distinct`, first occurrences in order: never longer than the list, and draws only from it |
| Errors.DistinctElements | AcadLib/Errors/Inspector.cs:34-37 | The collapsed list has no repeats and holds exactly the errors of the list |
| Errors.DistinctOfDistinctFree | AcadLib/Errors/Inspector.cs:34-37 | Collapsing never lengthens the list and leaves a repeat-free list unchanged |
| Errors.InsertByRank | AcadLib/Errors/Inspector.cs:110 | Inserting into a sorted list keeps it sorted and adds exactly that one element |
| Errors.SortErrors | AcadLib/Errors/Inspector.cs:110 | `List.Sort()`: the result is sorted by the ordering and is a permutation of the input |
| Errors.Inspector.constructor | AcadLib/Errors/Inspector.cs:21-24 | The static constructor leaves an empty list |
| Errors.Inspector.HasErrors | AcadLib/Errors/Inspector.cs:19 | True iff the list is non-empty |
| Errors.Inspector.Clear | AcadLib/Errors/Inspector.cs:26-32 | The list is empty afterwards |
| Errors.Inspector.GetCollapsedErrors | AcadLib/Errors/Inspector.cs:34-37 | Returns the first occurrences in order, repeat-free, drawn from and covering the list, and does not change the list |
| Errors.Inspector.AddError | AcadLib/Errors/Inspector.cs:39-49 | Appends exactly one error with the message and icon (none for the icon-less overload) and keeps the earlier errors |
| Errors.Inspector.AddFormattedError | AcadLib/Errors/Inspector.cs:51-55 | Appends exactly one error with the formatted message |
| Errors.Inspector.AddEntityError | AcadLib/Errors/Inspector.cs:58-67 | Appends exactly one error on the entity |
| Errors.Inspector.AddEntityExtentsError | AcadLib/Errors/Inspector.cs:68-77 | Appends exactly one error on the entity within the extents |
| Errors.Inspector.AddExtentsIdError | AcadLib/Errors/Inspector.cs:78-87 | Appends exactly one error on the id within the extents |
| Errors.Inspector.AddIdError | AcadLib/Errors/Inspector.cs:88-97 | Appends exactly one error on the id |
| Errors.Inspector.AddTransformedIdError | AcadLib/Blocks/Dublicate/CheckDublicateBlocks.cs:42-43 | Appends exactly one error on the id with its transform and icon |
| Errors.Inspector.LogErrors | AcadLib/Errors/Inspector.cs:107-111 | The list becomes sorted and stays a permutation of itself, with the same length |
| TransparenceInvert.Convert | AcadLib/Model/WPF/Converters/TransparenceInvertConverter.cs:12-16 | For a boxed byte b the result is 255 - b, in 0..255. Null and a non-byte box throw, as the unboxing cast does |
| TransparenceInvert.ToByte | AcadLib/Model/WPF/Converters/TransparenceInvertConverter.cs:21 | `Convert.ToByte`: null gives 0, a byte gives itself, an int in 0..255 gives itself, any other int overflows |
| TransparenceInvert.ConvertBack | AcadLib/Model/WPF/Converters/TransparenceInvertConverter.cs:19-23 | For an int v in 0..255 the result is 255 - v, in 0..255. Null gives 255, and an out-of-range int throws |
| TransparenceInvert.RoundTrip | AcadLib/Model/WPF/Converters/TransparenceInvertConverter.cs:12-23 | ConvertBack(Convert(b)) == b for every byte. For v in 0..255, ConvertBack(v) is a boxed int, which Convert refuses with InvalidCastException; once the binding stores the result back as a byte, Convert(ConvertBack(v)) == v |
| TransparenceInvert.OrderReversing | AcadLib/Model/WPF/Converters/TransparenceInvertConverter.cs:12-23 | Both directions reverse the order; Convert(0) == 255 and Convert(255) == 0 |
| EnumBinding.StripNullable | AcadLib/Model/WPF/Converters/EnumBindingSourceExtension.cs:22 | `Nullable.GetUnderlyingType(t) ?? t` |
| EnumBinding.IsEnumOrNullableEnum | AcadLib/Model/WPF/Converters/EnumBindingSourceExtension.cs:22-23 | The setter's test: true iff the type is an enum or a Nullable of an enum |
| EnumBinding.ProvidedValues | AcadLib/Model/WPF/Converters/EnumBindingSourceExtension.cs:45-53 | Throws ArgumentException iff the stripped type is not an enum. Otherwise it is the enum's values, or for `Nullable<E>` a default 0 slot followed by E's values |
| EnumBinding.EnumBindingSourceExtension.constructor | AcadLib/Model/WPF/Converters/EnumBindingSourceExtension.cs:32 | No type is set |
| EnumBinding.EnumBindingSourceExtension.WithType | AcadLib/Model/WPF/Converters/EnumBindingSourceExtension.cs:34-37 | Throws exactly when the setter rejects the type; otherwise the type is set |
| EnumBinding.EnumBindingSourceExtension.SetEnumType | AcadLib/Model/WPF/Converters/EnumBindingSourceExtension.cs:17-28 | Throws iff the value is new, non-null and not an (optionally nullable) enum, and then keeps the old type. Otherwise the type equals the value; null and the current value never throw |
| EnumBinding.EnumBindingSourceExtension.ProvideValue | AcadLib/Model/WPF/Converters/EnumBindingSourceExtension.cs:40-54 | No type set: InvalidOperationException. A non-enum type throws as GetValues does. Otherwise a fresh array equal to `ProvidedValues`: the values, or n + 1 slots with 0 first for a nullable enum |
| EnumBinding.FindField | AcadLib/Model/WPF/Converters/EnumBindingSourceExtension.cs:88 | `GetField(name)`: none iff no field has the name, else a field of the type with that name |
| EnumBinding.FieldsOf | AcadLib/Model/WPF/Converters/EnumBindingSourceExtension.cs:88 | The public fields `GetType().GetField` searches: an enum's or other type's declared fields; none for a Nullable descriptor |
| EnumBinding.GetEnumDescription | AcadLib/Model/WPF/Converters/EnumBindingSourceExtension.cs:85-96 | Null for null, and null iff the value's ToString() names no field of its type |
| EnumBinding.Description | AcadLib/Model/WPF/Converters/EnumBindingSourceExtension.cs:101-104 | The extension method returns what GetEnumDescription returns, for every input |
| EnumBinding.FindDeclaredField | AcadLib/Model/WPF/Converters/EnumBindingSourceExtension.cs:88 | With unique field names, looking up a declared field's name finds that field |
| EnumBinding.DescriptionOfDeclaredMember | AcadLib/Model/WPF/Converters/EnumBindingSourceExtension.cs:88-95 | For a declared enum member the description is its first Description attribute's text, or its name when it has none |

## Left out

- The dialog branch of `Check` (CheckDublicateBlocks.cs lines 46-53): `ShowDialog`, `Show` and the "cancelled by user" exception are UI.
- Logging (CheckDublicateBlocks.cs lines 36; Inspector.cs lines 101 and 109): I/O. Only the sort of `LogErrors` is modelled. `Show` (Inspector.cs lines 99-105) opens a form and is not modelled.
- `Tolerance` (CheckDublicateBlocks.cs line 17): it only feeds the equality of `BlockRefDublicateInfo`, which is not part of this model. That equality is taken as exact equality of an abstract key. A tolerance-based equality that is not transitive is therefore not captured.
- BlockRefDublicateInfo.cs is not part of this model. Its constructor, `Name`, `Position`, `TransCopy` and hashing are abstracted. `TransCopy(t)` is taken to keep the info and its CountDublic and to record `t`.
- `Matrix3d` arithmetic is floating point. Products are kept symbolic, so numeric rounding is not modelled.
- Database access (`HostApplicationServices`, `Open`, `SymbolUtilityServices`): replaced by the id-to-entities map. Only a missing definition is modelled as a failure. Erased entities and other open failures are not modelled, and an entity that is not a block reference is `OtherEntity`.
- The message text of `Check` (`string.Format` of name, count and position) is a parameter `message`. `AddFormattedError` takes `string.Format` as a parameter.
- The document, database and editor capture in `Inspector.Clear` (Inspector.cs lines 28-30) needs a running host application; only the list reset is modelled.
- The `AddError(msg, ObjectId, Matrix3d, Icon)` overload that `Check` calls is not in Inspector.cs. It is modelled as `AddTransformedIdError`, appending one error like the other overloads.
- Error.cs is not part of this model. An error's equality (used by `Distinct`) is datatype equality of message, place and icon. Its `CompareTo` (used by `Sort`) is a rank function parameter.
- Errors.SortErrors: `List.Sort` is unstable; the model proves sortedness and permutation but fixes one particular (insertion) order among equal ranks.
- Each `AddError` overload with an optional icon and its icon-less twin are one method with an `Option<Icon>`. The entity overloads take the entity's id.
- `EnumDescriptionTypeConverter.ConvertTo` (EnumBindingSourceExtension.cs lines 72-83) defers to `EnumConverter`, which is not part of this model.
- The order of `Enum.GetValues` is whatever the type descriptor lists. An enum value is its underlying integer, so `default(E)` is 0.
- TransparenceInvert.ToByte: only null, byte and int inputs are modelled. Strings, doubles and other `IConvertible` inputs to `Convert.ToByte` are not modelled.
- Concurrency: the source's static state is shared process-wide; the model has one checker object and one error list.
