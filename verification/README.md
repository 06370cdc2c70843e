# Verified model of the QEMU header generators and of the packaging

This project models, and proves properties of, the scripts that give Penguin typed access to the CPU state of a
QEMU library and that package the result.

* **The ABI-mode header** (`EnvTypeExtractor` in `src/scripts/penguin-env-cffi-gen.py`). A memoised walk over the
  DWARF type graph allocates C tags, drops members that C cannot express and orders definitions. A loop then lays
  the header out by the rules of C, looks for the first difference from DWARF, and pads a member, pads the end or
  turns the definition into opaque bytes, for at most 200 passes. `Walk`, `WalkFacts`, `Declarators`, `Failure`,
  `Reports` and `TagNames` hold the walk, `Repair`, `Fixpoint` and `ClosedForm` the repair, `Extractor` the two classes
  with their mutable fields, `Paths`, `TextPaths`, `Alignment`, `Completeness`, `Natural` and `AbiHeader` what a finished
  header means.
* **The API-mode declarations** (`ApiCdefEmitter` in the same file): `Api` (bodies), `ApiWalk` (order and names),
  `ApiReports` (what is left out), `ApiEmitter` (the class), `Agreement` (both headers side by side).
* **From arches to the package** (`build.sh`, `penguin-cffi-gen.py`, `main` of the header generator and
  `penguin-qemu-package.py`): `Arches`, `Package`, `Archive`, `Naming`, `Distinct`,
  `Firmware`, `Shipping`.

`Examples` holds inputs at which the generators do what their introduction does not say.

DWARF is a map from DIE offsets to structures and unions; a type is a chain that ends in a base type, a pointer, an
enumeration or an aggregate. cffi's `sizeof` and `offsetof` are replaced by explicit layout rules (System V AMD64
psABI, section 3.1.2, "Aggregates and Unions") applied to the rendered lines of a definition, so the layout knows
nothing of how the padding came about. Rendered C is a syntax tree.

`Meaning` says what DWARF attributes mean by themselves (which indices an array has, which scalar a base type is, where a
member lies, what a C identifier is), without the functions by which the generators read them. The results about paths,
sizes, fates, failure and completeness speak of DWARF in these terms only, so they tie the generators to the attributes.

## How the main results fit together

`Repair.Remaining` counts the repairs a definition still needs from *any* intermediate state, and `Repair.Outcome` is
the body it will end with. `Repair.RepairOne` shows that each verification finds a mismatch exactly when the count is
not zero and that each repair lowers the count by one and keeps the outcome. Everything about whole runs follows by
induction over passes: termination without the cap, the exact number of passes, the refinement of the loop to a
one-pass padding (`ClosedForm.Padded`), and the exact condition for opacity (`ClosedForm.WellPlaced`). The walk has
one invariant (`WalkFacts.Invariant`), kept whatever definitions are still open around a recursive call; the walk's
contents and the repair's exactness together give the two-way correspondence of access paths in `Paths.PathsAgree`,
which `TextPaths.TextPathsAgree` carries over to the printed text read by itself; a path leads to as many bytes, or to the
same scalar. The layout rules are held from two sides: every scalar of a header lies at a multiple of its width
(`Alignment.HeaderAligned`), and DWARF of a plain C layout needs no repair (`Natural.PlainNeedsNothing`).
`Reports.EveryFate` accounts for every member in DWARF, `ApiReports.EveryApiFate` for those of the API-mode definitions. For the package, `Shipping.Ship` joins staging, both generators and the packager, for system arches
and KVM targets; it rests on `Shipping.MemoIsSound` (one header for each target is enough, because aliases are copies)
and on `Distinct.DistinctExactly` (when a name is shipped twice).

## Where the code differs from what it says

* The file's introduction says that members that cannot be represented are dropped and padded over. A member that C
  cannot place at its DWARF offset, as in a packed structure, makes its whole definition opaque instead:
  `AbiHeader.OpaqueIffMisplaced` gives the exact condition, `Examples.PackedGoesOpaque` an input. On a misaligned
  offset the loop first pads in vain; `ClosedForm.TriesCount` says how often.
* Members of a union at another offset than 0 are dropped without a warning (`Reports.EveryFate`,
  `Examples.UnionLosesMember`), and so is, in API mode, a member without a name whose type has one
  (`ApiReports.MemberFate`, `Examples.UnnamedMemberLost`). Every other member of a definition is declared or reported once.
* Aliases get the header that was generated for the first arch of their target. Its declarations are those that their
  own library gives, but its opening comment names the first arch's library.
* `build_system_lib_list` prints every library twice, because its test for a new one prints as well
  (`Arches.BuildSystemLibList`). It stops at an arch that is not supported, while `build_system_target_list`, which
  runs without `errexit`, goes on with an empty target.
* A package can hold a name twice: for a list with an arch in it twice (`Shipping.ArchTwice`), for KVM targets of which
  one is called like another one renamed (`Shipping.ConfusedTargets`, `Shipping.ConfusedWithin`), or for firmware
  beside its own compressed form. `Distinct.DistinctExactly` gives the exact condition; for different supported system
  arches and no KVM targets only the firmware is left of it.

## Model

| member | source | states |
|---|---|---|
| Dwarf.StripQualifiers | src/scripts/penguin-env-cffi-gen.py:131-139 | the loop removes exactly the outer qualifiers, and what the type resolves to stays the same |
| Dwarf.ResolveTypedefs | src/scripts/penguin-env-cffi-gen.py:141-145 | the two nested loops end at the first type that is neither qualified nor a typedef |
| Dwarf.ReadArrayDims | src/scripts/penguin-env-cffi-gen.py:180-192 | one bound for each subrange (count, else upper bound plus one, else 0), and the single bound 0 when there is none |
| Dwarf.BaseScalar | src/scripts/penguin-env-cffi-gen.py:39-67 | a scalar from the table has the width it is keyed by |
| Meaning.RangeCounts | src/scripts/penguin-env-cffi-gen.py:180-192 | the length read for a range counts the indices it has: those below the count or, without one, up to the upper bound |
| Meaning.BoundsExactly | src/scripts/penguin-env-cffi-gen.py:180-192 | the bounds read for an array are those of its ranges, outer ones first |
| Meaning.PositiveExactly | src/scripts/penguin-env-cffi-gen.py:219-221 | an array is accepted exactly if it has a range and every range has an element |
| Meaning.ScalarExactly | src/scripts/penguin-env-cffi-gen.py:39-67 | the tables give a base type the scalar of its encoding, signedness and width, and an enumeration the unsigned one of its size, 4 when missing |
| Meaning.IdentifierExactly | src/scripts/penguin-env-cffi-gen.py:37 | a C identifier is letters, underscores and digits, not beginning with a digit |
| Meaning.DecodedExactly | src/scripts/penguin-env-cffi-gen.py:153-170 | a location decodes exactly if it is missing, a constant or DW_OP_plus_uconst; to 0, the constant, or the operand |
| Meaning.PlusConstant | src/scripts/penguin-env-cffi-gen.py:159-169 | the operand n, encoded as ULEB128 and whatever follows, is the place n |
| Offsets.DecodeUleb | src/scripts/penguin-env-cffi-gen.py:161-169 | the loop over `result` and `shift`, with mask, shift and bitwise or, yields the base-128 number of the bytes up to the first one without continuation bit |
| Offsets.DecodeOffset | src/scripts/penguin-env-cffi-gen.py:153-170 | 0 when missing, the constant, the decoded operand of DW_OP_plus_uconst, and an error for every other expression |
| Offsets.OrAdds | src/scripts/penguin-env-cffi-gen.py:165 | or-ing in a number shifted past the bits of the result adds it |
| Offsets.SevenBits | src/scripts/penguin-env-cffi-gen.py:165-166 | the mask 0x7F is the remainder by 128 and the mask 0x80 tests for 128, for every byte |
| Offsets.UlebRoundTrip | src/scripts/penguin-env-cffi-gen.py:161-169 | decoding inverts ULEB128 encoding for every number and whatever bytes follow |
| Offsets.OffsetRoundTrip | src/scripts/penguin-env-cffi-gen.py:159-169 | a location expression DW_OP_plus_uconst n decodes to n, whatever bytes follow |
| Tags.TriesBounded | src/scripts/penguin-env-cffi-gen.py:252-257 | the renaming loop ends: no more names can be taken than there are tags, as names with different counters differ |
| Tags.FreshTag | src/scripts/penguin-env-cffi-gen.py:252-257 | the tag found is unused and every candidate before it was used |
| Tags.CandidateInjective | src/scripts/penguin-env-cffi-gen.py:257 | names with different counters differ |
| Tags.DecimalSpells | src/scripts/penguin-env-cffi-gen.py:257 | a counter is written as the number it is |
| TagNames.EmitNamed | src/scripts/penguin-env-cffi-gen.py:246-257 | every aggregate's tag is its own name with a prefix or, where C cannot have it, a number, with a counter behind it when that was taken |
| Extractor.StructDef.Render | src/scripts/penguin-env-cffi-gen.py:92-108 | the loop over members prints pads, members, trailing pad, opaque or empty bytes as the rendering function says |
| Header.PadsDiffer | src/scripts/penguin-env-cffi-gen.py:96-101 | no two pads of a definition have the same name |
| Extractor.EnvTypeExtractor.constructor | src/scripts/penguin-env-cffi-gen.py:112-118 | an extractor starts with nothing |
| Extractor.EnvTypeExtractor.MemberCtype | src/scripts/penguin-env-cffi-gen.py:194-232 | state and result are those of visiting the type: the declarator for the tags after the visit, None when C cannot express it, or an error |
| Extractor.EnvTypeExtractor.AllocateTag | src/scripts/penguin-env-cffi-gen.py:246-257 | the tag for a name or an anonymous counter, renamed by the loop to the first unused candidate |
| Extractor.EnvTypeExtractor.EmitStruct | src/scripts/penguin-env-cffi-gen.py:236-293 | the new state and the tag are those of the walk's specification; earlier definitions stay the same objects and other ones are new |
| Extractor.EnvTypeExtractor.EmitMembers | src/scripts/penguin-env-cffi-gen.py:264-283 | the loop over the members has the effect of the walk's specification, errors included |
| Extractor.EnvTypeExtractor.EmitMember | src/scripts/penguin-env-cffi-gen.py:264-283 | one member: dropped with its warning, or added with its type, bounds and offset after its type was visited |
| Extractor.EnvTypeExtractor.Finish | src/scripts/penguin-env-cffi-gen.py:285-293 | a union keeps its members at offset 0 and gets the member that pins its size; the tag goes to the end of the order |
| Extractor.EnvTypeExtractor.RenderAll | src/scripts/penguin-env-cffi-gen.py:297-298 | the rendered definitions in order |
| Extractor.EnvTypeExtractor.VerifyOnce | src/scripts/penguin-env-cffi-gen.py:300-319 | the first mismatch in order, each definition laid out after those before it, though it is looked up in the layouts of the whole header |
| Extractor.EnvTypeExtractor.VerifyStruct | src/scripts/penguin-env-cffi-gen.py:303-318 | only the size of an opaque definition or union is compared, and offsets before the size otherwise |
| Extractor.EnvTypeExtractor.RepairStruct | src/scripts/penguin-env-cffi-gen.py:331-349 | trailing pad, pad or opacity, with a warning for opacity only |
| Extractor.EnvTypeExtractor.VerifyAndRepair | src/scripts/penguin-env-cffi-gen.py:321-350 | definitions and warnings afterwards are those of 200 passes of the loop without a cap; it returns normally if and only if fewer than 200 repairs are needed |
| WalkFacts.EmitInvariant | src/scripts/penguin-env-cffi-gen.py:236-293 | with any set of definitions still open, emitting keeps the invariant: one tag for each aggregate and none shared, contents as DWARF gives them, each finished tag once in the order, dependencies first; what was there is kept |
| WalkFacts.WalkEstablishes | src/scripts/penguin-env-cffi-gen.py:625-628 | from an empty extractor and any root, on any graph, the invariant holds with nothing open, and the root has a tag exactly when it can have a definition |
| WalkFacts.OpenedTags | src/scripts/penguin-env-cffi-gen.py:246-262 | a new tag keeps tags unique among aggregates and equal to the keys of the definitions |
| WalkFacts.CompletedOrder | src/scripts/penguin-env-cffi-gen.py:285-293 | when containment is acyclic, a definition that is appended names only tags that are in the order already |
| WalkFacts.KeptStable | src/scripts/penguin-env-cffi-gen.py:238-239 | later tags change nothing in the members of a finished definition |
| WalkFacts.KeptFrom | src/scripts/penguin-env-cffi-gen.py:264-283 | a member of the header comes from a member in DWARF, with its offset |
| Declarators.DeclaredExactly | src/scripts/penguin-env-cffi-gen.py:194-232 | a type has a declarator exactly if C can express it, and it has the scalar of its encoding and width, or its aggregate's tag, and the elements of its ranges |
| Declarators.RepresentableExactly | src/scripts/penguin-env-cffi-gen.py:194-232 | once aggregates have their tags, this is the case exactly for types of known scalars, arrays with elements, and aggregates with a body and a size |
| Failure.WalkFails | src/scripts/penguin-env-cffi-gen.py:153-170 | the walk fails if and only if a chain of definitions leads from its root, through members it walks, to a named member, no bitfield, of a type C can express, with a location that cannot be decoded |
| Failure.UnderstoodWalks | src/scripts/penguin-env-cffi-gen.py:153-170 | if every location below the root is missing, a constant or DW_OP_plus_uconst, the walk succeeds |
| Failure.EmitFails | src/scripts/penguin-env-cffi-gen.py:236-293 | from any state, a failure comes with such a chain |
| Failure.EmitSound | src/scripts/penguin-env-cffi-gen.py:236-293 | from any state, a success has met no such member, and has given a tag to whatever the new definitions contain |
| Reports.EmitReported | src/scripts/penguin-env-cffi-gen.py:264-283 | with any definitions still open, the warnings about each finished definition are those for its dropped members, and no other definition gets one |
| Reports.EveryFate | src/scripts/penguin-env-cffi-gen.py:264-290 | every member in DWARF has the fate that its attributes give it: declared in order with type, bounds and place, reported by exactly one warning of its kind, or left out, which only happens to one of a union that could be declared but for its place |
| Reports.DeclaredAt | src/scripts/penguin-env-cffi-gen.py:153-156 | a named member that can be declared is declared at 0 without a location, at a constant, or at the operand; in a union if that is 0 |
| Examples.UnionLosesMember | src/scripts/penguin-env-cffi-gen.py:285-287 | a union of which one member is neither declared nor reported |
| Repair.PadOnce | src/scripts/penguin-env-cffi-gen.py:342-345 | the pad that is inserted spends exactly one of the repairs left, changes nothing about whether the offset can be reached, and reaches it at once if it can |
| Repair.ScanIsCompare | src/scripts/penguin-env-cffi-gen.py:310-318 | comparing the layout of the rendered lines is comparing running ends of DWARF offsets |
| Repair.ScanRepaired | src/scripts/penguin-env-cffi-gen.py:331-349 | repairing the first mismatch spends one repair and keeps the outcome, or gives up on a definition that could not be made exact |
| Repair.UnionLayout | src/scripts/penguin-env-cffi-gen.py:285-290 | a union is never laid out too small, and has its DWARF size exactly when its alignment divides it and every member fits |
| Repair.RepairOne | src/scripts/penguin-env-cffi-gen.py:300-349 | a definition is exact if and only if no repair is left; otherwise the repair leaves one less and the same final body |
| Fixpoint.OnePass | src/scripts/penguin-env-cffi-gen.py:322-349 | the same for a whole header: a pass finds nothing exactly when no repair is left, and otherwise brings it one repair closer to the same text |
| Fixpoint.Termination | src/scripts/penguin-env-cffi-gen.py:321-350 | on any input the loop without a cap is exact after n passes if and only if n is at least the number of repairs, and then has the text determined beforehand |
| Fixpoint.OpaqueIsExact | src/scripts/penguin-env-cffi-gen.py:305-309 | an opaque definition never mismatches, so it is not repaired again |
| Fixpoint.OneWarningEach | src/scripts/penguin-env-cffi-gen.py:336-349 | over any run there are as many warnings as definitions that became opaque |
| Fixpoint.ReportedOnce | src/scripts/penguin-env-cffi-gen.py:336-349 | a definition is reported once if the run gives up on it, and never if it does not |
| Fixpoint.LayoutIsLegal | src/scripts/penguin-env-cffi-gen.py:300-319 | the layout rules place members in order, apart and aligned, and the size covers them and is a multiple of the alignment |
| Fixpoint.PaddingMovesForward | src/scripts/penguin-env-cffi-gen.py:342-345 | padding before member i moves no member before i, and none backwards |
| Fixpoint.EarlierStable | src/scripts/penguin-env-cffi-gen.py:300-319 | changing the definition at position k leaves the layout of every earlier one as it was |
| Fixpoint.LayoutAt | src/scripts/penguin-env-cffi-gen.py:297-319 | in the whole header a definition has the layout it gets from those before it |
| ClosedForm.ExactlyWellPlaced | src/scripts/penguin-env-cffi-gen.py:331-349 | a definition can be made exact if and only if DWARF places no member inside the one before it or off its alignment, and likewise the end |
| ClosedForm.OpaqueExactly | src/scripts/penguin-env-cffi-gen.py:331-349 | the repairs arrive at opaque bytes if and only if it does not |
| ClosedForm.OutcomeIsClosed | src/scripts/penguin-env-cffi-gen.py:331-345 | the outcome is one pass of padding: each gap is the offset minus the aligned end of the member before, the tail the size minus the aligned end |
| ClosedForm.OutcomeAllIsClosed | src/scripts/penguin-env-cffi-gen.py:321-350 | the same for the whole header, each definition with the closed forms before it |
| ClosedForm.RepairsAreGaps | src/scripts/penguin-env-cffi-gen.py:331-345 | a well placed definition takes one repair for each member behind a gap and one for a gap at its end |
| ClosedForm.RepairsAreAllGaps | src/scripts/penguin-env-cffi-gen.py:321-350 | the same count for a well placed header |
| ClosedForm.TriesCount | src/scripts/penguin-env-cffi-gen.py:342-349 | on a misaligned target the vain pads are counted: as often as the remainder fits into the distance to the next boundary, then one more and the giving up |
| Paths.LaidOut | src/scripts/penguin-env-cffi-gen.py:300-319 | in a verified header every aggregate has its DWARF size and, unless opaque, every member its DWARF offset, unions included |
| Paths.SizesAgree | src/scripts/penguin-env-cffi-gen.py:194-232 | a declared type, arrays and nested aggregates included, has the width that DWARF gives it |
| Paths.PathsAgree | src/scripts/penguin-env-cffi-gen.py:300-319 | a path of member names and indices leads through a verified header to an offset and so many bytes, or a scalar, if and only if it does so in DWARF, through members that are declared and definitions that are not opaque |
| TextPaths.FieldsRendered | src/scripts/penguin-env-cffi-gen.py:92-108 | the fields of a printed body are the members of the definition, or none when it is opaque |
| TextPaths.TextAgrees | src/scripts/penguin-env-cffi-gen.py:297-298 | a path leads somewhere by the text of a header exactly when it does by the definitions it was printed from |
| TextPaths.TextPathsAgree | src/scripts/penguin-env-cffi-gen.py:297-319 | by the text of a verified header, with the layouts of its reader, a path leads to an offset and what is found there if and only if it does so in DWARF, as above |
| Alignment.ScalarsAligned | src/scripts/penguin-env-cffi-gen.py:300-319 | through nested aggregates, unions and array elements, whatever leads to a scalar leads to a multiple of its width |
| Alignment.HeaderAligned | src/scripts/penguin-env-cffi-gen.py:300-319 | this holds in every verified header |
| Completeness.WalkReady | src/scripts/penguin-env-cffi-gen.py:626-629 | what the walk leaves can be verified and has not been repaired |
| Completeness.KeptInOrder | src/scripts/penguin-env-cffi-gen.py:264-283 | the members kept are a subsequence of those in DWARF |
| Completeness.TypeFaithful | src/scripts/penguin-env-cffi-gen.py:194-232 | through nested aggregates and arrays, the rendered alignment divides the true one |
| Completeness.WellPlacedFrom | src/scripts/penguin-env-cffi-gen.py:321-350 | on DWARF of a layout that is not packed every definition is well placed, given the closed forms before it |
| Completeness.NothingGetsOpaque | src/scripts/penguin-env-cffi-gen.py:264-290 | on such DWARF, over-aligned or not and whatever is dropped, nothing needs to become opaque and the repairs are the gaps |
| Natural.PlainNotPacked | src/scripts/penguin-env-cffi-gen.py:321-350 | a plain C layout is not packed, an aggregate being aligned as the widest scalar in it |
| Natural.PlainNeedsNothing | src/scripts/penguin-env-cffi-gen.py:321-350 | on DWARF of a plain C layout, with nothing dropped, no repair is needed |
| AbiHeader.PlainHeader | src/scripts/penguin-env-cffi-gen.py:625-640 | from such DWARF a header is generated, without any repair |
| Examples.PlainlyAtOnce | src/scripts/penguin-env-cffi-gen.py:310-318 | a structure with a nested one behind a byte is such a layout |
| AbiHeader.RunIsPadding | src/scripts/penguin-env-cffi-gen.py:321-350 | a run that became exact has the text of the one-pass padding of what it started from |
| AbiHeader.OpaqueIffMisplaced | src/scripts/penguin-env-cffi-gen.py:331-349 | in the final header a definition is opaque if and only if it was not well placed with the final layouts before it |
| Examples.PackedGoesOpaque | src/scripts/penguin-env-cffi-gen.py:331-349 | a packed structure of two members that goes opaque as a whole after one repair |
| AbiHeader.RepairedVerified | src/scripts/penguin-env-cffi-gen.py:321-350 | after an exact run the contents of the walk are all still there, verified, in dependency order |
| AbiHeader.NothingHidden | src/scripts/penguin-env-cffi-gen.py:264-350 | after a normal return on DWARF that is not packed, every aggregate with a definition can be entered |
| AbiHeader.Generate | src/scripts/penguin-env-cffi-gen.py:625-640 | a header is produced if and only if the root has a body and a size, no undecodable member can be reached and fewer than 200 repairs are needed; it is then verified, in dependency order, equal to the one-pass padding, its text leads where DWARF does, and to every scalar at a multiple of its width |
| Api.TypesWritten | src/scripts/penguin-env-cffi-gen.py:432-473 | in either mode a type has a declarator exactly when one stands for it: the scalar, the elements of the ranges, a named aggregate's name, and every other aggregate, or inside one every one, written out completely with its own kind |
| Api.StrictBodies | src/scripts/penguin-env-cffi-gen.py:377-422 | strict rendering is all or nothing: every member in order, recursively, or None |
| Api.PartialBodies | src/scripts/penguin-env-cffi-gen.py:376-419 | the body of a definition holds, in order, what stands for each member, and nothing for a member for which there is none |
| Api.InlineHasNoEllipsis | src/scripts/penguin-env-cffi-gen.py:424-430 | no inline body holds an ellipsis at any depth |
| Api.PartialDisciplined | src/scripts/penguin-env-cffi-gen.py:393-422 | a definition ends in its only ellipsis and declares no bitfield of its own |
| ApiWalk.ApiEmitInvariant | src/scripts/penguin-env-cffi-gen.py:475-494 | with any definitions still being written, emitting keeps the invariant on references, names and order |
| ApiWalk.ReferenceDefined | src/scripts/penguin-env-cffi-gen.py:485-493 | with coherent names, a name that is only being written cannot be referred to from below, so every reference finds a definition |
| ApiWalk.DefinitionsInOrder | src/scripts/penguin-env-cffi-gen.py:475-494 | with coherent names every name in use is defined and every reference by value leads to an earlier definition of that name and kind |
| ApiWalk.DefinitionsDisciplined | src/scripts/penguin-env-cffi-gen.py:420-494 | for any root each name is defined once, and every definition keeps to the rules on ellipses and bitfields |
| ApiReports.MemberFate | src/scripts/penguin-env-cffi-gen.py:376-419 | a member is declared once, reported once, or, exactly if it has no name, is no bitfield and has a type with a declarator that is not written out, neither |
| ApiReports.WarningMeans | src/scripts/penguin-env-cffi-gen.py:385-410 | a member is reported as omitted exactly if nothing stands for its type, as a bitfield exactly if something does |
| ApiReports.EveryMember | src/scripts/penguin-env-cffi-gen.py:376-419 | declared, reported and omitted members of a definition add up to those in DWARF |
| ApiReports.ApiEmitReported | src/scripts/penguin-env-cffi-gen.py:475-494 | with any definitions still being written, the warnings about each definition are those for the members of its DIE, in order |
| ApiReports.EveryApiFate | src/scripts/penguin-env-cffi-gen.py:368-494 | for any root each definition has a DIE whose members are all accounted for: written as their attributes have it, reported by a warning about it, or omitted |
| Examples.UnnamedMemberLost | src/scripts/penguin-env-cffi-gen.py:412-417 | a structure whose only member is neither declared nor reported |
| Examples.OuterDefined | src/scripts/penguin-env-cffi-gen.py:475-494 | that structure is defined |
| ApiEmitter.ApiCdefEmitter.MembersBody | src/scripts/penguin-env-cffi-gen.py:368-422 | without an ellipsis: all members or None, and no change to definitions, references, names or warnings; with one: the partial body and the state of walking its members |
| ApiEmitter.ApiCdefEmitter.PartialLines | src/scripts/penguin-env-cffi-gen.py:376-419 | the loop in partial mode: bitfields and members without a type are left out and reported |
| ApiEmitter.ApiCdefEmitter.StrictLines | src/scripts/penguin-env-cffi-gen.py:376-419 | the loop in strict mode: it stops at the first member that cannot be written |
| ApiEmitter.ApiCdefEmitter.WholeBody | src/scripts/penguin-env-cffi-gen.py:424-430 | an inline body is None when a member is missing or there is none, and nothing changes either way |
| ApiEmitter.ApiCdefEmitter.MemberType | src/scripts/penguin-env-cffi-gen.py:432-473 | type and state; in strict mode the state stays as it was |
| ApiEmitter.ApiCdefEmitter.Emit | src/scripts/penguin-env-cffi-gen.py:475-494 | the reference depends on the DIE alone, the state is that of the walk |
| ApiEmitter.ApiCdefEmitter.Render | src/scripts/penguin-env-cffi-gen.py:496-506 | it fails exactly for a root without a usable name |
| Agreement.TypesAgree | src/scripts/penguin-env-cffi-gen.py:432-473 | a type that the ABI-mode header expresses, and that ends in no unnamed aggregate, has in API mode the same bounds and the same scalar or aggregate |
| Agreement.EmittersAgree | src/scripts/penguin-env-cffi-gen.py:376-419 | a member that the ABI-mode definition of an aggregate declares, with such a type, is declared by the API-mode definition of that aggregate as well |
| Agreement.Generate | src/scripts/penguin-env-cffi-gen.py:612-640 | both headers are produced exactly when the ABI-mode header is and the root has a name |
| Arches.AppendUnique | build.sh:50-57 | it succeeds and prints exactly when the value is new |
| Arches.BuildSystemTargetList | build.sh:59-70 | the line lists the different targets, each in the place of its first arch, with an empty one for arches that are not supported; split at its commas it is that list |
| Arches.TargetsCover | build.sh:59-70 | these are exactly the targets of the arches, without repetition |
| Arches.BuildSystemLibList | build.sh:72-83 | the output is the list of libraries, one for each target, twice, or one empty line for no arch at all; before an arch that is not supported it ends after the first time |
| Arches.StemIsFixed | configs/default.json:164-184 | the name of a target, read as an arch, has that target |
| Package.TablesAgree | src/scripts/penguin-cffi-gen.py:11-31 | the table of this script and the one in configs/default.json give every arch the same target, or none |
| Package.WidthOfTarget | src/scripts/penguin-cffi-gen.py:33-41 | an arch has 32-bit addresses exactly if its target is one of the four 32-bit ones, aliases included |
| Arches.AliasIsNoForeignSource | build.sh:93-96 | the name that an arch gets is no other target's library |
| Arches.StagingIsSound | build.sh:89-99 | staging succeeds exactly when every arch can be staged; every arch then has its own target's library, no built library is overwritten and nothing else is touched |
| Arches.BuildDir.StageSystemLibAliases | build.sh:89-99 | the copying loop has that effect |
| Package.BuildTree.GenerateCffi | src/scripts/penguin-cffi-gen.py:212-229 | it fails at a missing library; otherwise the files gain the headers with their address widths, the manifest and an archive with the names of both |
| Package.BuildTree.GenerateEnv | src/scripts/penguin-env-cffi-gen.py:680-704 | files, manifest, modules and log are those of the specification: the first entry of each target (or, without one, library) is generated from, the others get the same header |
| Package.EachTargetOnce | src/scripts/penguin-env-cffi-gen.py:686-697 | the targets generated are those of the entries, each once |
| Shipping.StagedShares | build.sh:89-99 | after staging, the libraries of one target are alike to the generator, and every one can be generated from exactly if every target's library could |
| Shipping.MemoIsSound | src/scripts/penguin-env-cffi-gen.py:686-697 | when libraries of one target are alike, the loop succeeds exactly if every library can be generated from, and every entry has the header that its own library gives, not written over by another one's |
| Shipping.AllWritten | src/scripts/penguin-env-cffi-gen.py:680-704 | after both generators every entry still has its library and has the header its own library gives |
| Shipping.WidthKept | src/scripts/penguin-cffi-gen.py:182-186 | every header keeps its address width, unless an arch is called like another one renamed |
| Shipping.EntryGenerated | src/scripts/penguin-cffi-gen.py:158-178 | an entry has the names the packaging expects, renaming of its header included |
| Archive.Packager.AddQemuImg | src/scripts/penguin-qemu-package.py:26-32 | archive and list gain the image, or it is missing |
| Archive.Packager.AddQemuData | src/scripts/penguin-qemu-package.py:50-75 | archive and list gain the same names, for the files that are shipped, or the directory is missing |
| Archive.Packager.AddEntry | src/scripts/penguin-qemu-package.py:109-145 | archive and list gain the same names for an entry, a module only if its name is not listed yet, or something is missing |
| Archive.Packager.AddDirectory | src/scripts/penguin-qemu-package.py:101-145 | the loop over a manifest, which may not be there |
| Archive.Packager.Pack | src/scripts/penguin-qemu-package.py:96-154 | on success the archive is the list, in order, and the list itself |
| Archive.PackageHolds | src/scripts/penguin-qemu-package.py:109-145 | a package that is written holds every file that the manifests name |
| Naming.RenamedInjective | src/scripts/penguin-env-cffi-gen.py:684 | putting "_env.h" for ".h" everywhere makes different names of different names |
| Naming.EnvOf | src/scripts/penguin-env-cffi-gen.py:684 | what it makes of the header of any arch |
| Naming.ArcInjective | src/scripts/penguin-qemu-package.py:63-138 | different things have different names, unless a header is called like another arch's header for the CPU state |
| Distinct.PackageDistinct | src/scripts/penguin-qemu-package.py:96-153 | no name is in the archive twice when firmware, arches and renamed arches are apart |
| Distinct.DistinctExactly | src/scripts/penguin-qemu-package.py:96-153 | for every manifest the generators can write: no name is there twice if and only if no two shipped files of firmware get one name, and in neither manifest an arch is there twice or called like another one renamed |
| Distinct.BiosApartExactly | src/scripts/penguin-qemu-package.py:55-75 | two files get one name exactly when one is shipped beside its own compressed form |
| Firmware.FirmwareExactly | src/scripts/penguin-qemu-package.py:50-75 | what is shipped of pc-bios is exactly every regular file except meson.build and the unused images, compressed or not, under its path, without .bz2 where it is compressed |
| Firmware.BelowShare | src/scripts/penguin-qemu-package.py:50-75 | nothing else is below share/qemu in a package |
| Firmware.NoUnusedImage | src/scripts/penguin-qemu-package.py:35-48 | no name there has an unused image as its last component |
| Firmware.PackageExactly | src/scripts/penguin-qemu-package.py:96-153 | a package holds exactly the image, the firmware, the manifests and what they name, and the list of it all |
| Firmware.NothingMissing | src/scripts/penguin-qemu-package.py:109-145 | it is not written when a file that a manifest names is missing |
| Shipping.SupportedApart | configs/default.json:164-184 | no supported arch is called like another one renamed |
| Shipping.ConfusedTargets | src/scripts/penguin-cffi-gen.py:167-178 | two KVM targets, different ones, for which every package holds a name twice |
| Shipping.ConfusedWithin | src/scripts/penguin-cffi-gen.py:167-178 | two more, neither called like the other one with "_env" behind it |
| Shipping.ArchTwice | src/scripts/penguin-cffi-gen.py:150-164 | a list with an arch in it twice, for which every package does |
| Shipping.ReadyPacks | src/scripts/penguin-qemu-package.py:96-153 | what the generators leave, in system and KVM directory, can be packed, and ships no name twice if and only if firmware, system arches and KVM targets are apart |
| Shipping.GenerateIn | src/scripts/penguin-cffi-gen.py:212-229 | both generators in a directory: they succeed exactly if every library can be generated from, and leave all that the packager looks for |
| Shipping.Ship | build.sh:116-151 | from built libraries to the package, for any system arches and any KVM targets or none: exactly when it is written, exactly which names it holds, that each arch ships its own library, the header that gives and its address width, and exactly when it names nothing twice |

## Left out

- pyelftools, reading ELF files and `find_root_dies`: the model starts from a type graph and a root.
- cffi itself: parse errors, and its refusal of repeated member names, which C forbids; layout is by explicit rules, on a host with 8-byte pointers.
- Children of a DIE other than members, and of an array other than subranges: every loop skips them.
- Names with a line break at their end, which the pattern for C identifiers accepts as well.
- Graphs in which an aggregate contains itself by value, which C forbids: the walk's invariant covers them, but the header is not generated for them here, and API-mode bodies are defined without them only.
- The text of headers, comments and log messages; indentation; the typedef lines.
- Files of an earlier build: without KVM targets there is no KVM directory.
- Whether a module compiles, its flags and its name: parameters of the model, and so is whether a header can be generated from a library.
- Splitting the comma-separated lists; the two scripts differ on blanks and empty items.
- Contents of manifests as JSON and of archive members; sorting of the listing; archive member attributes and decompression.
- `ninja`, `configure` and the choice of KVM targets.
- QEMU code, patches, Nix files and the series scripts.
- Extractor.EnvTypeExtractor.VerifyStruct: a member's offset is looked up by position rather than by name, which is the same for different names.
- Extractor.EnvTypeExtractor.EmitStruct: the state after an error is not specified, as the script ends then.
