# Noeta's core analyses, modelled and proved in Dafny

Noeta is a language toolchain. Its syntax-tree crate holds the analyses that the checker and both
backends share, and this project models the ones whose correctness is not visible from one function
body: the reflection tables of a live session and how a hot-swapped fragment is spliced into them, the
normalization that decides whether two programs are the same, the free-name test behind an in-place
append, dynamic calls and construction by name, attribute arguments, type projection and narrowing,
generic instantiation and derive planning, the key-capability fixpoint, the lazily answered native
registry, the body ledger; and beside them the counting allocator and the example corpus index.

To verify: `dafny verify dfyconfig.toml`.

## How the model is laid out

| area | files |
|---|---|
| keyed, ordered merge | `KeyedMerge`, `MergeTables`, `MergeConservation`, `MergeCold`, `MergeInPlace`, `MergeMarked`, `MergeSets`, `MergeHeld`, `MergeEdits`, `MergeRun` |
| the session's tables | `Accumulation`, `SessionRows`, `SessionLaws` |
| calls and construction by name | `NamedCalls`, `NamedAcceptance`, `Construction`, `ConstructionLaws` |
| type descriptors | `TypeReprs`, `TypeRefs`, `Narrowing`, `CommonInstance`, `DescriptorSpelling` |
| same program | `Ordering`, `Normalization`, `ImportOrder`, `SameProgram` |
| free names | `FreeNames`, `NameIndependence`, `SlotReuse` |
| attributes | `AttributeArgs`, `AttributePlaces` |
| generic traits and derives | `TypedTrees`, `TypeSubstitution`, `SubstitutionLaws`, `Instantiation`, `TypeCapture`, `Deriving`, `DeriveLaws`, `PlanAnswers`, `DeriveRefusals` |
| allocation counters | `AllocProbe` |
| key capability, native registry, corpus, ledger | `KeyCapability`, `NativeReflection`, `NativeOrder`, `Corpus`, `BodyLedger`, `LedgerLaws`, `LedgerOrder`, `LedgerKeeps` |

Code that loops over and updates vectors, sets, counters or `self` is a method or a class here, proved
against a function of its inputs; what the code promises is then proved about that function. Code that
is recursion over a tree is a function. Numbers are unbounded except where the code's width matters:
the 64-bit supplied mask and its shift, the wrapping allocation counters, and the 32-bit corpus offsets
are written out.

Where the code does not meet what its documentation says, the code is kept and the exact condition is proved:

- Records a fragment does not touch are meant to stay. A signature is purged by the first segment of its target,
  so it stays exactly when the fragment declares nothing under that segment. Two inputs lose one: a sibling
  supplied alone (`class A { fn m() }`, then `impl Foo for A { fn k() }`, drops `A.m`), and, with namespaced
  types, any redefinition in the namespace (`a.T.m` drops `a.U.n`). The other way round, redeclaring `A` drops
  what a standalone impl had added to it (`UntouchedSignature`, `UntouchedSignatureUndotted`,
  `SiblingSignatureLost`, `NamespacedSignatureLost`, `StandaloneImplLost`).
- A declaration inserted between two existing ones is said to land between them. Supplied alone, or with what
  precedes it, it lands last; supplied with what follows it, right before that; and it is where a cold compile
  has it exactly when nothing follows it there, or that does (`AloneLandsLast`, `AfterLandsLast`,
  `LandsBeforeNext`, `AloneIsCold`, `BeforeNextIsCold`).
- A set-like table is meant not to grow a copy of a re-supplied record. Only appended records are looked up;
  one placed through a slot is not, so `impl Foo for A` ahead of a redeclared `B` is there once more with every
  install (`MergedSetDistinct`, `ResuppliedImplDuplicated`, `InstallsGrow`).
- Merging the same fragment twice changes nothing exactly when it supersedes its own records and what it
  appended is key-contiguous, because the append path keeps interleaved keys interleaved. A program with `T.m`,
  `U.n` and a standalone impl's `T.k` has its signatures permuted by the second merge (`RemergeIsIdempotent`,
  `StandaloneImplMoves`).
- A row on a member (`T.f`) is superseded only when the fragment names that member, and a function's own row
  only when the fragment annotates the function again (`AttributeRows`, `StaleMemberRow`, `StaleCallableRow`).
- The self-append may empty a slot first, it is said, where the right-hand side does not read it. A jump out
  of the right-hand side loses what the slot held; the short way is the ordinary one exactly when no jump
  leaves before the slot is assigned, and always when none may leave (`VacatingIsSafe`, `JumpLosesSlot`,
  `SafeWithoutJumps`). The model empties the slot where that comment does, ahead of the whole right-hand side.
- The type walk behind trait instantiation is described as exhaustive. It does not visit a type test in
  an arm's pattern, a module call's receiver, a nested declaration or a bound, and it replaces a method's own
  type parameter of the same name (`InstantiationReaches`, `PatternKeepsParam`, `OwnParametersReplaced`,
  `OwnParameterLost`). An argument that names a parameter the method declares is captured (`CaptureIs`,
  `ArgumentCaptured`).
- A scalar field of a construction is said to take values of that scalar kind only. The kinds are compared by
  name, so a value of a declared type that is itself called `int` passes for one (`FieldAccepts`).
- The fallback of attribute materialization is called unreachable. The check asks only that an omitted field
  have a default; one that is no literal is built as `false` (`FallbackUnreached`, `DefaultThatDoesNotFold`).
- The ledger's walk is described as reaching every nested declaration because one can only appear in a
  statement list; blocks of closures and arms are statement lists inside expressions, and are not walked. It
  lists every declaration exactly when those below such blocks are reached some other way as well
  (`WalkMissesNothingIf`, `LedgerMissesNothingIf`, `BlocksInExpressionsMissed`).
- The ledger drops repeats by whole span after a sort by range alone. That leaves no span twice in a program
  linked from single-source declarations, and exactly when equal spans of a range stand together in walk
  order; a type with a method of another source at the same offsets lists a span twice
  (`LedgerDistinct`, `LinkedLedgerDistinct`, `TakingTurnsListsTwice`).

## What the model assumes

- `AllocProbe`: the inner allocator hands out a block nobody holds, blocks outstanding fit the address
  space together, and a caller frees what it owns. Each atomic operation is one step of one thread.
- `FreeNames`: a call runs in a frame of its own, made of a closure's snapshot (for a top-level function,
  of nothing) and its parameters; a closure snapshots every name that occurs in it. The evaluator takes a fuel that
  only bounds how long an evaluation is followed; `MoreFuel` and `OneEnding` make its endings independent of it.
- `NativeReflection`: a lookup is atomic with respect to the installation, which happens once.
- `DeriveLaws`: fields and methods of the running program are parameters (`World`); an async method answers a future.
- `Narrowing`: a union has at least two members, as the grammar builds them. Nothing promises symmetry of the
  wildcard matcher; with unions that have members it holds (`MatchingIsSymmetric`), and `EmptyUnionIsAsymmetric`
  shows what the assumption is for.
- Hash maps and sets are mathematical; strings compare by character, which is the order of their bytes.
- What is wrong inside an attribute literal, and whether two written types render alike, are parameters.

## Model

| member | source | states |
|---|---|---|
| MergeRun.Merge | crates/noeta-ast/src/reflect.rs:625-704 | the loops with their counters and taken cells (slots counted, groups handed out along the fragment, base walked, rest appended) compute the merged table for any recogniser of held records |
| MergeRun.AssignSlots | crates/noeta-ast/src/reflect.rs:660-674 | `next` stays below the slot count at every step and the slots are handed out exactly as the plan says |
| MergeRun.PlaceSlots | crates/noeta-ast/src/reflect.rs:675-697 | `slot` stays in range; each slot moves out, once, the groups of the keys planned for it |
| MergeRun.Supersede | crates/noeta-ast/src/reflect.rs:601-612 | a sequence-like table keeps equal records: nothing is recognised as held |
| MergeRun.SupersedeSet | crates/noeta-ast/src/reflect.rs:614-623 | a set-like table drops an appended record it already holds |
| KeyedMerge.PlanFits | crates/noeta-ast/src/reflect.rs:645-674 | the plan emits exactly one block for each slot of the base, so both slot counters end at the slot count |
| MergeConservation.MergeInterleaves | crates/noeta-ast/src/reflect.rs:625-704 | the result interleaves the unpurged base records, in their order, with every fragment record once; fragment keys first appear in the fragment's order and each group stays whole |
| MergeConservation.MergeConserves | crates/noeta-ast/src/reflect.rs:625-704 | counted with multiplicity, the result is the unpurged base plus the fragment |
| MergeInPlace.MergedRecords | crates/noeta-ast/src/reflect.rs:601-612 | which records a merged table holds, both directions |
| MergeMarked.MergeEqualsCold | crates/noeta-ast/src/reflect.rs:569-600 | a merge of a contiguous fragment, none of whose records survives in the base, equals a given cold table exactly when that table has the same surviving records, the same fragment, and each of its records in the place planned |
| MergeCold.OntoEmpty | crates/noeta-ast/src/reflect.rs:569-600 | merging onto the empty table gives any fragment back verbatim |
| MergeCold.RedeclareEverything | crates/noeta-ast/src/reflect.rs:569-600 | redeclaring every key leaves the fragment verbatim |
| MergeInPlace.InPlace | crates/noeta-ast/src/reflect.rs:569-600 | with the keys in base order, each superseded group is replaced where its first record stood and nothing else moves |
| MergeMarked.RemergeIsIdempotent | crates/noeta-ast/src/reflect.rs:569-600 | merging a fragment again changes nothing if and only if it supersedes its own records and the records it appended were key-contiguous; whatever the base holds |
| MergeSets.MergedSetRecords | crates/noeta-ast/src/reflect.rs:614-623 | which records a set-like table holds after a merge |
| MergeSets.ReinstallAddsNothing | crates/noeta-ast/src/reflect.rs:614-623 | re-supplying what a set-like table holds, purging nothing, leaves it unchanged |
| MergeSets.MergedSetDistinct | crates/noeta-ast/src/reflect.rs:614-704 | a set-like table stays free of duplicates if and only if no surviving base record is among those placed through slots (those are not checked against the table) |
| MergeSets.SetMergeIsMerge | crates/noeta-ast/src/reflect.rs:614-704 | for a fragment without duplicates a set-like merge is the plain one if and only if nothing it appends survives in the base |
| MergeHeld.SetMergeIsUnheldMerge | crates/noeta-ast/src/reflect.rs:614-704 | a set-like merge is the plain merge of the fragment without the records it only repeats |
| MergeHeld.SetRemergeIs | crates/noeta-ast/src/reflect.rs:614-704 | for a table purged by key, merging a duplicate-free set-like fragment again changes nothing if and only if no surviving record is placed through a slot the second time and what was appended of its own records stands together |
| MergeEdits.AloneLandsLast | crates/noeta-ast/src/reflect.rs:589-594 | new declarations supplied alone land last |
| MergeEdits.AfterLandsLast | crates/noeta-ast/src/reflect.rs:589-594 | a new declaration supplied with the one that precedes it lands last |
| MergeEdits.LandsBeforeNext | crates/noeta-ast/src/reflect.rs:589-594 | a new declaration supplied with the one that follows it lands right before that |
| MergeEdits.AloneIsCold | crates/noeta-ast/src/reflect.rs:589-594 | supplied alone it is where a cold compile has it if and only if nothing follows it there |
| MergeEdits.BeforeNextIsCold | crates/noeta-ast/src/reflect.rs:589-594 | supplied with what follows it, it is where a cold compile has it if and only if the cold one has it right before that |
| Accumulation.ReflectionInfo.Accumulate | crates/noeta-ast/src/reflect.rs:73-167 | the five tables are merged under their own purge rules and the role index is derived again from the new manifest and tags |
| Accumulation.ReflectionInfo.constructor | crates/noeta-ast/src/reflect.rs:14-56 | a session starts with every table empty and a role index that matches them |
| Accumulation.DeriveRoles | crates/noeta-ast/src/reflect.rs:496-512 | the loop over manifest and tags builds the duplicate-free role index |
| Accumulation.SplitOnce | crates/noeta-ast/src/reflect.rs:753-763 | cuts at the first occurrence of the separator, or there is none |
| Accumulation.RolesAreTheJoin | crates/noeta-ast/src/reflect.rs:496-512 | a role is in the index exactly when some manifest entry names a tagged attribute that confers it; none is there twice |
| Accumulation.RolesInManifestOrder | crates/noeta-ast/src/reflect.rs:496-512 | lengthening the manifest only appends to the index |
| Accumulation.RolesInTagOrder | crates/noeta-ast/src/reflect.rs:496-512 | within one entry, lengthening the tags only appends to the index |
| Accumulation.SessionRoles | crates/noeta-ast/src/reflect.rs:73-167 | over any run of accumulations the index is exactly that join |
| Accumulation.ReannotatedKeepsRole | crates/noeta-ast/src/reflect.rs:130-167 | a re-annotated declaration keeps its role though the tagging attribute is not redeclared |
| Accumulation.RedeclaredAttributeDropsTag | crates/noeta-ast/src/reflect.rs:130-167 | an attribute redeclared without its tag loses it |
| Accumulation.ParamRowsLiveWithTheirCallable | crates/noeta-ast/src/reflect.rs:96-129 | no parameter row of a redeclared callable survives unless the fragment supplies it again |
| Accumulation.ColdStart | crates/noeta-ast/src/reflect.rs:73-167 | a first accumulation is the fragment itself with its roles derived |
| Accumulation.UntouchedSignature | crates/noeta-ast/src/reflect.rs:96-136 | a signature the fragment does not supply stays if and only if the fragment declares nothing under the first segment of its target |
| Accumulation.UntouchedSignatureUndotted | crates/noeta-ast/src/reflect.rs:96-136 | with no dots in type names, a signature that is not redeclared, nor its type, stays if and only if the fragment supplies no other callable of that type |
| Accumulation.SiblingSignatureLost | crates/noeta-ast/src/reflect.rs:96-136 | `impl Foo for A { fn k() }` supplied on its own drops the signature of `A.m` |
| Accumulation.StandaloneImplLost | crates/noeta-ast/src/reflect.rs:130-156 | redeclaring a type drops the signatures and implementations a standalone impl had added, unless supplied again |
| Accumulation.NamespacedSignatureLost | crates/noeta-ast/src/reflect.rs:707-713 | with namespaced names it fails: redefining `a.T.m` drops the signature of `a.U.n` |
| Accumulation.StaleMemberRow | crates/noeta-ast/src/reflect.rs:96-129 | a member's attribute row outlives a redefinition of its type that no longer has it |
| Accumulation.StaleCallableRow | crates/noeta-ast/src/reflect.rs:96-129 | a plain function's own row outlives a redeclaration of the function without its attribute |
| Accumulation.ResuppliedImplDuplicated | crates/noeta-ast/src/reflect.rs:147-156 | re-supplying `impl Foo for A` ahead of a redeclared `B` leaves that implementation twice |
| SessionRows.TypeRows | crates/noeta-ast/src/reflect.rs:79-107 | a session holds, after a fragment, the fragment's types and exactly those of its own on whose name the fragment has no type, attribute or role |
| SessionRows.TagRows | crates/noeta-ast/src/reflect.rs:140-150 | the same for role tags, by their attribute |
| SessionRows.ImplRows | crates/noeta-ast/src/reflect.rs:151-158 | the same for trait implementations, by their type |
| SessionRows.SignatureRows | crates/noeta-ast/src/reflect.rs:131-139 | a signature stays exactly when the fragment neither names its first segment nor has a signature under it |
| SessionRows.AttributeRows | crates/noeta-ast/src/reflect.rs:108-130 | a parameter's attribute row goes with its callable's signature or its type, any other exactly with what it is on |
| SessionRows.TypeEdited | crates/noeta-ast/src/reflect.rs:102-107 | an edited type lands where it stood and nothing else moves |
| SessionRows.SignatureEdited | crates/noeta-ast/src/reflect.rs:131-139 | an edited signature, and those that come with it under the same first segment, land where it stood |
| SessionRows.AttributeEdited | crates/noeta-ast/src/reflect.rs:108-130 | an edited attribute row lands where it stood, and with it the rows of the same callable and its parameters |
| SessionRows.TagEdited | crates/noeta-ast/src/reflect.rs:140-150 | edited role tags land where they stood |
| SessionRows.ImplEdited | crates/noeta-ast/src/reflect.rs:151-158 | edited implementations land where they stood |
| SessionLaws.SessionEqualsCold | crates/noeta-ast/src/reflect.rs:73-167 | absorbing a fragment gives a cold compile's tables exactly when each of the five has the surviving rows, the rows the fragment brings, and those in their planned places, with the roles derived |
| SessionLaws.SessionRedeclared | crates/noeta-ast/src/reflect.rs:73-167 | redeclaring everything leaves the fragment verbatim in every table |
| SessionLaws.SessionInPlace | crates/noeta-ast/src/reflect.rs:73-167 | a fragment whose declarations have their places in order replaces rows where they stood, in every table |
| SessionLaws.SessionIdempotent | crates/noeta-ast/src/reflect.rs:73-167 | absorbing a fragment twice is absorbing it once if and only if its manifest rows supersede themselves, what the sequence-like tables appended is contiguous by declaration, and the set-like ones place no surviving row the second time and appended their own rows together |
| SessionLaws.InstallsGrow | crates/noeta-ast/src/reflect.rs:614-704 | `n` installs of a fragment with `impl Foo for A` ahead of a redeclared `B` leave `n` more copies of that implementation, once a row of `B` is there |
| SessionLaws.TwiceKeepsSignatures | crates/noeta-ast/src/reflect.rs:569-600 | a program absorbed twice keeps its signature order if and only if that order is contiguous by declaration |
| SessionLaws.StandaloneImplMoves | crates/noeta-ast/src/reflect.rs:569-600 | `T.m`, `U.n`, and `T.k` from a standalone impl are permuted by absorbing the program again |
| NamedCalls.PlanInvokeNamed | crates/noeta-ast/src/reflect.rs:2079-2136 | binding, missing check, dense prefix test and mask loop give the plan, error cases in order |
| NamedCalls.SuppliedMask | crates/noeta-ast/src/reflect.rs:2112-2130 | the `m \| (1 << p)` fold is the number whose set bits are the supplied parameters |
| NamedCalls.MaskBits | crates/noeta-ast/src/reflect.rs:2112-2130 | bit p of that number is set exactly when parameter p is supplied |
| NamedCalls.DecodeGivesBinding | crates/noeta-ast/src/reflect.rs:2033-2136 | giving the k-th argument to the k-th set bit, or to a dense prefix with no mask, reads the binding back |
| NamedCalls.NamedCallDelivers | crates/noeta-ast/src/reflect.rs:2033-2136 | each value reaches the parameter of its name, each filled parameter holds the value given under its name, and only optional ones are left |
| NamedCalls.MaskIsTight | crates/noeta-ast/src/reflect.rs:2079-2136 | no mask exactly for a dense prefix; its bit count is the argument count; it is below 2^63 |
| NamedCalls.ReceiverShift | crates/noeta-ast/src/reflect.rs:2033-2078 | shifting the mask for a receiver moves every argument up one parameter and puts the receiver first |
| NamedCalls.ShiftLosesTopBit | crates/noeta-ast/src/reflect.rs:2033-2078 | the shift loses nothing if and only if bit 63 is clear |
| NamedAcceptance.CallAccepted | crates/noeta-ast/src/reflect.rs:2058-2136 | a call is accepted if and only if the signature is the callee's, every name is a parameter's, every parameter that needs a value has one, and the supplied ones are the first few or all stand below 63 |
| NamedAcceptance.CallVerdict | crates/noeta-ast/src/reflect.rs:2079-2136 | which error each fault gives, in which order, and for which name |
| Construction.PlanConstruct | crates/noeta-ast/src/reflect.rs:1964-2006 | the loop over values and the check of what is left give the positional plan |
| Construction.PlanConstructNamed | crates/noeta-ast/src/reflect.rs:2008-2031 | the loop over pairs and the required-field sweep give the named plan |
| Construction.NamedAcceptance | crates/noeta-ast/src/reflect.rs:2008-2031 | named construction accepts exactly pairs that each name a visible field of the right type and leave no required field out |
| Construction.NamedOrderIrrelevant | crates/noeta-ast/src/reflect.rs:2008-2031 | the order of the pairs does not matter to acceptance |
| Construction.PositionalIsNamed | crates/noeta-ast/src/reflect.rs:1877-2031 | for distinct fields and no more values than fields the two plans give one verdict, the same error included, and the positional one fills the first fields in order |
| Construction.AcceptedPayload | crates/noeta-ast/src/reflect.rs:1844-1875 | the order computed for an accepted variant payload lists every value once, each at the field of its name |
| ConstructionLaws.FieldAccepts | crates/noeta-ast/src/reflect.rs:1852-1946 | a field accepts exactly when it is public and takes the value: a scalar its kind whatever the width, a declared type its name, any other anything; a private one is refused as private |
| ConstructionLaws.NamedAccepts | crates/noeta-ast/src/reflect.rs:2008-2031 | named construction accepts if and only if each pair names a public field (the first of its name) that takes the value, and each required field is named |
| ConstructionLaws.PositionalAccepts | crates/noeta-ast/src/reflect.rs:1964-2006 | positional construction accepts if and only if there are no more values than fields, each for a public field that takes it, and nothing required is past them |
| ConstructionLaws.NamedRefusal | crates/noeta-ast/src/reflect.rs:2008-2031 | the error is that of the first pair refused, by name, visibility, then type; else of the first required field not named |
| ConstructionLaws.PositionalRefusal | crates/noeta-ast/src/reflect.rs:1964-2006 | the error is the count; else that of the first value refused; else of the first required field past the values |
| Narrowing.MatchingIsSymmetric | crates/noeta-ast/src/reflect.rs:2883-2925 | the wildcard match is symmetric on descriptors without empty unions |
| Narrowing.BlurKeepsMatch | crates/noeta-ast/src/reflect.rs:2883-2925 | replacing any parts of the tag by `Dyn` never turns a match into a rejection |
| Narrowing.ProjectionsDifferInKind | crates/noeta-ast/src/reflect.rs:2835-2881 | the kind-agnostic and kind-aware projections of one surface type differ only in the kinds of declared types |
| Narrowing.SelfMatchIs | crates/noeta-ast/src/reflect.rs:2883-2925 | a descriptor whose unions have members matches itself exactly when: it is `Dyn`; it is a union two of whose members match; or its head is no function and not `never` and its parts match themselves |
| Narrowing.NarrowingAcceptsOwnTag | crates/noeta-ast/src/reflect.rs:2931-2938 | narrowing to a type accepts the type's own tag exactly when the argument count is right |
| CommonInstance.MatchingIsOverlap | crates/noeta-ast/src/reflect.rs:2883-2925 | a target's argument accepts a tag's if and only if some settled type is one of those both stand for (`Dyn` any, a union its members'), functions and `never` aside |
| CommonInstance.NarrowingIs | crates/noeta-ast/src/reflect.rs:2931-2938 | narrowing accepts if and only if the counts agree and each written argument and the tag's have such a type in common |
| CommonInstance.SettledNarrowing | crates/noeta-ast/src/reflect.rs:2931-2938 | with nothing left open it accepts if and only if the counts agree and the arguments differ at most in the kinds of declared types |
| CommonInstance.ListNarrowing | crates/noeta-ast/src/reflect.rs:2931-2938 | `List<a>` accepts a list of `b` exactly when they differ at most in kind; `List<int>` rejects one of `string` and one of `i32` |
| CommonInstance.BlurKeepsNarrowing | crates/noeta-ast/src/reflect.rs:2927-2938 | knowing less of a tag's arguments never makes narrowing reject |
| DescriptorSpelling.SpelledBack | crates/noeta-ast/src/reflect.rs:2744-2881 | a descriptor written down projects back to itself, kinds included; at the top, to itself without a fixed width |
| DescriptorSpelling.OptionalIsOption | crates/noeta-ast/src/reflect.rs:2857-2881 | `?T` projects as `Option<T>` |
| DescriptorSpelling.BareIsOpen | crates/noeta-ast/src/reflect.rs:2835-2849 | a bare `list`, `set` or `map` leaves its elements the dynamic top |
| DescriptorSpelling.KindNamesStay | crates/noeta-ast/src/reflect.rs:2788-2792 | the names of kinds, and `number`, stay names with their arguments |
| TypeRefs.SpellingsDecode | crates/noeta-ast/src/builtin_ty.rs:110-205 | a name decodes to a built-in if and only if it is one of its spellings |
| Normalization.CanonicalizeImportRuns | crates/noeta-ast/src/normalize.rs:314-334 | in place: names sorted inside each import, then each contiguous run sorted where it stands |
| Normalization.SortRunAt | crates/noeta-ast/src/normalize.rs:320-329 | the inner scan stops at the end of the run, which alone is sorted |
| Normalization.SortRunsKeepsPlaces | crates/noeta-ast/src/normalize.rs:314-334 | sorting runs moves imports within their run and leaves every other statement in its place |
| ImportOrder.CanonicalAscends | crates/noeta-ast/src/normalize.rs:314-347 | in a canonical run each import stands behind its neighbour by path and then names, each name behind the one before by text and then alias, character by character |
| SameProgram.NormalizeSeq | crates/noeta-ast/src/normalize.rs:301-308 | a statement vector canonicalized when asked for, then normalized item by item, in place |
| SameProgram.RunDecides | crates/noeta-ast/src/normalize.rs:314-347 | two runs normalize alike exactly when they bring in the same paths with the same names and aliases, in any order |
| SameProgram.NormalizationDecides | crates/noeta-ast/src/normalize.rs:60-130 | two programs normalize to equal trees exactly when they agree up to spans, import order inside each run, and name order inside each import, at every depth |
| SameProgram.NormalizeIsIdempotent | crates/noeta-ast/src/normalize.rs:76-95 | normalizing twice is normalizing once |
| Ordering.SortBySorts | crates/noeta-ast/src/normalize.rs:314-334 | the stable sort permutes and orders by key |
| Ordering.SortedUnique | crates/noeta-ast/src/normalize.rs:336-347 | a sorted arrangement is determined by what it holds |
| NameIndependence.MentionsIsExact | crates/noeta-ast/src/lib.rs:2744-2847 | the analysis says yes exactly when the name occurs or a closure with a block body does |
| NameIndependence.Independent | crates/noeta-ast/src/lib.rs:2744-2847 | an expression that does not mention a name ends with the same signal and value and the same other slots whatever that slot holds, and leaves the slot itself alone or assigns it alike: through closures, arms, guards and block arms |
| NameIndependence.IndependentStmt | crates/noeta-ast/src/lib.rs:2634-2674 | the same for statements; a binding's target is not a mention |
| NameIndependence.IndependentBody | crates/noeta-ast/src/lib.rs:2484-2491 | the same for arm and closure bodies |
| NameIndependence.EndsAlike | crates/noeta-ast/src/lib.rs:2744-2847 | if it ends from one frame it ends from every frame that agrees on the other slots, and alike |
| NameIndependence.OneEnding | crates/noeta-ast/src/lib.rs:2744-2847 | an expression has at most one ending, however long it is followed |
| SlotReuse.VacatingIsSafe | crates/noeta-ast/src/lib.rs:2735-2743 | the self-append that empties the slot first ends exactly as the ordinary assignment if and only if no jump leaves the right-hand side before the slot is assigned; every other slot agrees even then |
| SlotReuse.JumpLosesSlot | crates/noeta-ast/src/lib.rs:2735-2743 | a right-hand side that does not mention the name, and on which emptying the slot first loses its value |
| SlotReuse.SafeWithoutJumps | crates/noeta-ast/src/lib.rs:2735-2743 | where the right-hand side can be seen not to jump out, emptying the slot first is the ordinary assignment from every frame |
| SlotReuse.MentionedSlotIsRead | crates/noeta-ast/src/lib.rs:2735-2743 | without the guard, `x = x ~ x` reads the emptied slot |
| AttributeArgs.CheckAttributeConstruction | crates/noeta-check/src/attributes.rs:119-172 | the loop reports, in order, each argument without a field, each field set twice, everything wrong inside each value, then each mandatory field left out |
| AttributeArgs.MaterializeArgs | crates/noeta-ast/src/reflect.rs:1522-1552 | each field holds its last argument, else its default, else the fallback |
| AttributeArgs.AcceptanceIs | crates/noeta-check/src/attributes.rs:119-172 | nothing is reported exactly when every argument has a field of its own that it fits and every mandatory field has one |
| AttributeArgs.AcceptedIsFaithful | crates/noeta-ast/src/reflect.rs:1516-1552 | after acceptance each argument is the value of the field the check bound it to, and every other field has its default |
| AttributeArgs.FallbackUnreached | crates/noeta-ast/src/reflect.rs:1516-1552 | for an accepted attribute the fallback is reached nowhere if and only if every omitted default folds |
| AttributeArgs.DefaultThatDoesNotFold | crates/noeta-ast/src/reflect.rs:1516-1552 | an accepted attribute that leaves out a field whose default is no literal has the fallback there |
| AttributeArgs.SurvivalIs | crates/noeta-ast/src/reflect.rs:1522-1552 | every argument survives materialization if and only if none is unknown, too many or set twice |
| AttributeArgs.UncheckedOverwrites | crates/noeta-ast/src/reflect.rs:1522-1552 | without the check a second value overwrites the first |
| AttributePlaces.PositionalFill | crates/noeta-ast/src/reflect.rs:1522-1552 | with no names the k-th argument is the value of field k, and exactly from the field count on each is too many |
| AttributePlaces.BuiltIs | crates/noeta-ast/src/reflect.rs:1522-1552 | a field is built with the last argument that goes to it (a named one to the first field of its name, a positional one to the field with as many ahead as positional arguments), else its literal default, else `false` |
| AttributePlaces.ReportedIs | crates/noeta-check/src/attributes.rs:119-172 | exactly which errors the check reports, error by error |
| AttributePlaces.ReportedInOrder | crates/noeta-check/src/attributes.rs:119-172 | they come argument by argument, then missing field by missing field |
| TypeSubstitution.RefComposes | crates/noeta-ast/src/derive.rs:806-834 | substituting by one map then another is one substitution by the combined map, through nested types |
| SubstitutionLaws.SubstitutionComposes | crates/noeta-ast/src/derive.rs:788-804 | the same through a method's signature and body |
| TypeSubstitution.BareAfter | crates/noeta-ast/src/derive.rs:806-834 | which names are used bare after a substitution, exactly |
| SubstitutionLaws.MethodUses | crates/noeta-ast/src/derive.rs:788-1060 | of all types a method writes, in order, those the walk reaches are replaced where they stand and no other is touched |
| SubstitutionLaws.InstantiationReaches | crates/noeta-ast/src/derive.rs:753-786 | after instantiation with arguments apart from the parameters, a parameter is used bare exactly where the walk does not go |
| SubstitutionLaws.InstantiationArity | crates/noeta-ast/src/derive.rs:753-786 | instantiation succeeds exactly for the right number of arguments |
| Instantiation.ParamMapAt | crates/noeta-ast/src/derive.rs:785-790 | a parameter stands for the argument in its place; of two of one name, the later |
| Instantiation.ParameterBecomesArgument | crates/noeta-ast/src/derive.rs:753-797 | in the instantiated trait, a type that was the p-th parameter, bare, where the walk goes, is the p-th argument |
| Instantiation.TwoParameters | crates/noeta-ast/src/derive.rs:753-797 | `fn get(x: k): v` at two arguments takes the first and answers the second |
| Instantiation.UntouchedIs | crates/noeta-ast/src/derive.rs:788-1060 | a method comes out as it went in if and only if the walk meets none of the replaced names bare |
| SubstitutionLaws.PatternKeepsParam | crates/noeta-ast/src/derive.rs:1026-1042 | a type test in an arm's pattern keeps the parameter |
| SubstitutionLaws.OwnParametersReplaced | crates/noeta-ast/src/derive.rs:788-804 | a method's own type parameter of the same name is replaced too: harmless if and only if the walk never meets it bare |
| SubstitutionLaws.OwnParameterLost | crates/noeta-ast/src/derive.rs:788-804 | instantiating a trait turns the type parameter a method declares under the same name into the trait's argument |
| TypeCapture.CaptureIs | crates/noeta-ast/src/derive.rs:788-804 | renaming a method's own parameters commutes with substitution if and only if, where the walk goes, no argument put in names one of them |
| TypeCapture.ArgumentCaptured | crates/noeta-ast/src/derive.rs:788-804 | an argument called like a parameter the method declares becomes that parameter |
| Deriving.PlanUserTraitDerive | crates/noeta-ast/src/derive.rs:262-328 | the loop over trait methods, with its error exits, computes the plan |
| DeriveLaws.PlanSucceedsIs | crates/noeta-ast/src/derive.rs:262-328 | a plan succeeds exactly when the arity is right, bindings name trait methods (or the field exists and there are none), and every missing method has an acceptable bound target, a default, or a deducible field |
| DeriveLaws.BridgeSucceedsIs | crates/noeta-ast/src/derive.rs:378-445 | a bound target is accepted exactly when it is a field (the first of its name) that fits a method taking nothing, or else the first method of its name, not async under a method that is not |
| DeriveLaws.PlanCovers | crates/noeta-ast/src/derive.rs:262-328 | every trait method comes from the type or from exactly one added method with its name, parameters, return and async flag |
| DeriveLaws.DeductionIs | crates/noeta-ast/src/derive.rs:447-541 | deduction succeeds exactly for a fitting same-named field or else the only fitting one, and reads that field |
| DeriveLaws.BridgeAnswers | crates/noeta-ast/src/derive.rs:378-445 | run, a bridged method answers what its field holds or what its target answers: same result when the async flags agree, a future of it when only the trait's is |
| DeriveLaws.ForwardAnswers | crates/noeta-ast/src/derive.rs:330-376 | run, a forwarded method answers exactly what the field's method answers |
| PlanAnswers.PlanAnswersAs | crates/noeta-ast/src/derive.rs:255-376 | each trait method the type lacks gets one that answers as the derive says: as the field all goes through, as its first binding's target, with the default's own body, or as the deduced field |
| DeriveRefusals.PlanRefusal | crates/noeta-ast/src/derive.rs:262-541 | what a derive is refused with: arity; bindings beside `via`, or no such field; the first stray binding; else what is wrong with the first method that nothing serves |
| DeriveRefusals.AddedInOrder | crates/noeta-ast/src/derive.rs:262-328 | added methods come in the trait's order |
| DeriveRefusals.OwnTypeParamsKept | crates/noeta-ast/src/derive.rs:1126-1171 | a method keeps type parameters of its own exactly when it is a default's or has none: one made for it has none |
| DeriveRefusals.FitsIs | crates/noeta-ast/src/derive.rs:405-456 | a field fits when the method's type is compatible with its own, or either is not annotated |
| DeriveRefusals.MisfitIsRefused | crates/noeta-ast/src/derive.rs:405-541 | a field of another type is refused, bound or deduced; unannotated it is taken |
| AllocProbe.StepKeepsInv | crates/noeta-alloc-probe/src/lib.rs:25-87 | every atomic operation keeps the exact-sum invariant and neither addition nor subtraction wraps |
| AllocProbe.LiveIsExact | crates/noeta-alloc-probe/src/lib.rs:25-87 | over every interleaving from the start `LIVE` is the sum of the blocks counted |
| AllocProbe.LiveIsResidency | crates/noeta-alloc-probe/src/lib.rs:33-40 | whenever no thread is inside `alloc` or `dealloc`, `LIVE` is the sum of the sizes of what the program owns |
| AllocProbe.RunTracksPeak | crates/noeta-alloc-probe/src/lib.rs:57-87 | from a reset on, `PEAK` with the maxima in flight is the highest `LIVE`, or what they were at the reset if higher |
| AllocProbe.PeakDuringIsExact | crates/noeta-alloc-probe/src/lib.rs:57-87 | with no thread between add and max at either end, the reported peak is the true maximum above the baseline |
| AllocProbe.PeakDuringWithRace | crates/noeta-alloc-probe/src/lib.rs:75-87 | with other threads between the load and the store, what is reported is exactly the highest `LIVE` an addition reached in the region, above the baseline loaded |
| AllocProbe.ResetIsSound | crates/noeta-alloc-probe/src/lib.rs:57-87 | `PEAK` never exceeds the highest `LIVE` after a reset if and only if nothing stored or in flight is above `LIVE` |
| AllocProbe.ThreadDelta | crates/noeta-alloc-probe/src/lib.rs:25-57 | a difference of two readings of a thread's counter is what that thread allocated in between |
| KeyCapability.KeyCapablePacked | crates/noeta-ast/src/lib.rs:1151-1179 | the loop terminates with exactly the structs that have a finite derivation, whatever order the map is visited in |
| KeyCapability.NotCapableIs | crates/noeta-ast/src/lib.rs:1126-1179 | a struct is left out exactly when it is in a set whose members each hold themselves back: a cycle, a float, an unknown type |
| KeyCapability.PrimitiveIs | crates/noeta-ast/src/lib.rs:1126-1142 | the field types that are keys of themselves are `int`, `bool` and the eight fixed widths, by name |
| KeyCapability.CyclicIsNoKey | crates/noeta-ast/src/lib.rs:1144-1150 | no struct on a cycle of fields is a key, however long the cycle |
| KeyCapability.ReachingIsNoKey | crates/noeta-ast/src/lib.rs:1126-1150 | no struct from which a chain of fields leads to a float, an unnamed type or an unknown one is a key |
| KeyCapability.FreshDeclarationsKeep | crates/noeta-ast/src/lib.rs:1144-1150 | fresh declarations remove no name, and add none to a program that names none of them |
| NativeReflection.Memo.Lookup | crates/noeta-ast/src/native_reflect.rs:58-83 | a lookup answers as the resolver does now, remembers hits always and misses only once there is a registry |
| NativeReflection.MemoIsNeverWrong | crates/noeta-ast/src/native_reflect.rs:58-83 | over any run of lookups with one installation anywhere, every answer is the uncached resolver's at that moment |
| NativeReflection.KeptMissIs | crates/noeta-ast/src/native_reflect.rs:76-81 | a table that kept an early miss would be wrong exactly when the registry has the name |
| NativeReflection.RememberedIs | crates/noeta-ast/src/native_reflect.rs:58-83 | over any run the table holds exactly the names asked for with an answer, or after the installation |
| NativeReflection.ResolversAreSteady | crates/noeta-ast/src/native_reflect.rs:105-190 | what either resolver finds with no registry it also finds with one |
| NativeReflection.JoinedEq | crates/noeta-ast/src/native_reflect.rs:85-103 | the prefix-eating loop answers whether the parts joined by dots are the target |
| NativeReflection.ResolveParamRecord | crates/noeta-ast/src/native_reflect.rs:133-190 | the nested family loops find the first record of the eager order |
| NativeReflection.LazyIsEager | crates/noeta-ast/src/native_reflect.rs:24-31 | with no dots in callables' own names the lazy answer is the eager table's |
| NativeReflection.QualifiedIs | crates/noeta-ext-abi/src/registry.rs:1264-1271 | the length, byte and ends test is equality with the dotted name |
| NativeOrder.TypeFound | crates/noeta-ast/src/native_reflect.rs:105-128 | a type name finds the prelude type, else the first declared extension attribute, fielded attribute, enum or fielded type of that name, in that order; else nothing |
| NativeOrder.CallableFound | crates/noeta-ast/src/native_reflect.rs:133-190 | a target finds the callable of the first unit whose modules or else traits have it, else of the first native type (context methods last), fielded type or enum; within each the first of its name |
| Corpus.BuildCorpus | crates/noeta-mcp/build.rs:42-50 | the loop builds the concatenated blob and one truncated row for each file |
| Corpus.RowsSliceBack | crates/noeta-mcp/build.rs:42-50 | below 2^32 bytes each row slices back its path and body |
| Corpus.RowsTile | crates/noeta-mcp/build.rs:42-50 | the rows start at 0, follow one another and end at the blob's end |
| Corpus.NoRowWraps | crates/noeta-mcp/build.rs:42-50 | no row is cut if and only if the last body starts below 2^32 and is shorter than that |
| BodyLedger.BodySites | crates/noeta-ast/src/bodies.rs:92-104 | walk, stable sort by range and dedup in place compute the ledger |
| BodyLedger.Walker.WalkStmt | crates/noeta-ast/src/bodies.rs:106-159 | each statement pushes its sites, in walk order |
| BodyLedger.Walker.Finish | crates/noeta-ast/src/bodies.rs:101-102 | the sorted vector keeps one of each run of equal spans |
| LedgerLaws.WalkIsComplete | crates/noeta-ast/src/bodies.rs:106-266 | a site is walked exactly when a statement reachable through statement lists declares it |
| LedgerLaws.AllDeclarations | crates/noeta-ast/src/bodies.rs:106-158 | a declaration is reached through statement lists alone, or lies below a block inside an expression |
| LedgerLaws.WalkMissesNothingIf | crates/noeta-ast/src/bodies.rs:106-158 | the walk lists every declaration if and only if each one below a block in an expression is also reached through statement lists |
| LedgerLaws.BlocksInExpressionsMissed | crates/noeta-ast/src/bodies.rs:146-158 | a function in a block inside an expression statement is listed only if the rest of the program declares it |
| LedgerOrder.LedgerSpans | crates/noeta-ast/src/bodies.rs:92-104 | the ledger is in range order and holds exactly the spans of the declarations reached |
| LedgerOrder.LedgerMissesNothingIf | crates/noeta-ast/src/bodies.rs:92-104 | the ledger has every declaration's span if and only if each span declared below a block in an expression is also that of a declaration reached |
| LedgerOrder.LedgerDistinct | crates/noeta-ast/src/bodies.rs:92-104 | no span is listed twice if and only if, within each range, equal spans stand together in walk order |
| LedgerOrder.LinkedLedgerDistinct | crates/noeta-ast/src/bodies.rs:92-104 | no span is listed twice in a program whose declarations are each of one source and in it once |
| LedgerOrder.TakingTurnsListsTwice | crates/noeta-ast/src/bodies.rs:92-104 | a method of another source at the same offsets, between a method and its impl-block copy, makes the ledger list that method twice |
| LedgerOrder.SingleSourceIncreases | crates/noeta-ast/src/bodies.rs:92-104 | for one source the ledger is strictly increasing |
| LedgerKeeps.LedgerAscends | crates/noeta-ast/src/bodies.rs:92-104 | entries ascend by start, then by end |
| LedgerKeeps.FirstWalkedIsListed | crates/noeta-ast/src/bodies.rs:92-104 | of the sites of one span the first listed is the first walked |
| LedgerKeeps.FunctionThenBody | crates/noeta-ast/src/bodies.rs:104-160 | a function is walked ahead of what its body declares, and that ahead of the next statement |
| LedgerKeeps.MethodThenBody | crates/noeta-ast/src/bodies.rs:162-250 | so is a method, ahead of the next method |

## Left out

- Updating trees in place: spans and nested types are rewritten through `&mut` in the code; here the walks over nested nodes return the new tree, and only statement vectors, argument slots and the ledger's vector are updated in place.
- The full statement and expression grammars: each syntax tree here has one or more constructors of every shape the walk in question distinguishes; constructors that only visit more children of a kind already there are not repeated.
- Destructuring of tuples, maps, awaiting, spawning, tiers and field assignment in the free-name evaluator: each is a further strict visit of sub-expressions.
- The provenance of an expanded declaration (`ExpansionMark.source`), which normalization also leaves alone.
- Rendering of types: `type_ref_str` drops parentheses, so equality of renderings is not equality of types; compatibility is a parameter.
- Message texts: errors are tagged cases, in the order the code raises them.
- `plan_builtin_via`, `plan_error_derive` and `plan_native_derive`: fixed templates settled by cases.
- Building the tables from a program (`build`) and projecting registry declarations onto records: one-step projections.
- Filling attribute defaults by constant folding: a default that does not fold is one of the model's cases.
- The race in which the registry is installed while a lookup is in progress.
- `variant_for_wire` and its numeric widening: floating-point arithmetic is not part of this model.
- Process exit codes, output colour, signals, linker tables and FFI.
- Reading the corpus directory: the files come as a sequence in key order.
