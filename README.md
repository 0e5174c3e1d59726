# Redex core decision logic in Dafny

This project models five small pieces of logic from the Redex Android bytecode optimizer and proves
properties about them:

- **Class-merging model bookkeeping** (`ClassMergingModel`, from `Model.h`). This covers:
  - the `ModelSpec` type-tag and type-like-string rules;
  - the analysis-time type hierarchy, which is two maps: type to child set, and child to parent;
  - the three mutators of those maps, and its lookups;
  - the pre-order walk over mergers, which skips dummy mergers.

  The mutators are methods of a `Model` class whose fields the methods reassign.
- **Merger shape and naming** (`MergerTypeNaming`, from `MergerType.cpp`). This covers:
  - the seven field counters of a shape and its printed form;
  - the root-name tag, a backwards scan over a simple name;
  - the synthesized class name.
- **Symbolic register allocation and def unification** (`LiveRange`, from `LiveRange.cpp`). This covers:
  - the width-aware `SymRegMapper` allocator, as a class;
  - `unify_defs` over a disjoint-sets structure, modelled as a representative map;
  - equality of uses.
- **ART baseline-profile decisions** (`ArtProfileWriter` and `NeverInline`, from `ArtProfileWriterPass.cpp`).
  `ArtProfileWriter` covers:
  - the per-interaction flag computation;
  - the `H`/`S`/`P` flag printing;
  - the class-inclusion rule;
  - the descriptor rewrite.

  `NeverInline` covers:
  - the `is_simple` pattern match over a method body;
  - `consider_callee`;
  - the forwarding-chain walk `get_callee`;
  - the ordered classification of never-inline candidates.
- **Method predicates and opcode counting** (`MethodUtil`, from `MethodUtil.h`), over the opcode
  families in `Opcodes`.

Helper modules:
- `Wrappers` provides `Option`.
- `Text` provides decimal printing and parsing, reversal, replace-all, and split/join on a separator
  character, with their round-trip lemmas.

Opaque `DexType`s are modelled as follows:
- In the class-merging model they are `nat`, ordered like the name comparator that orders a `TypeSet`.
- Elsewhere they are type parameters.

External calls become inputs:
- `resolve_invoke_method` becomes a `resolve` function;
- `estimate_code_units` becomes a number on each candidate;
- `type_shorty` becomes a field's shorty character;
- `get_simple_name` becomes a string;
- `show_deobfuscated` becomes a `show` function or a descriptor string;
- `method_profiles.method_stats(id)` becomes a lookup in a map from interaction to statistics.

## Model

| member | source | states |
|---|---|---|
| ClassMergingModel.DefaultSpec | service/class-merging/Model.h:136-169 | A default spec generates type tags, so it has them and passes them to the constructor, but does not take them from the input. It excludes type-like strings and has interdex grouping disabled. |
| ClassMergingModel.ModelSpec.GenerateTypeTag | service/class-merging/Model.h:184-186 | Holds exactly for the `GENERATE` type-tag setting; `TypeTagPresence` states it for every setting. |
| ClassMergingModel.ModelSpec.NoTypeTag | service/class-merging/Model.h:188 | Holds exactly for `NONE`, the one setting where `HasTypeTag` fails (`TypeTagPresence`). |
| ClassMergingModel.ModelSpec.HasTypeTag | service/class-merging/Model.h:190 | Holds for every setting except `NONE` (`TypeTagPresence`). |
| ClassMergingModel.ModelSpec.InputHasTypeTag | service/class-merging/Model.h:192-195 | Holds for the two `INPUT_…` settings; with `PassTypeTagToCtor` it agrees only on `INPUT_PASS_TYPE_TAG_TO_CTOR` (`TypeTagInputAndCtor`). |
| ClassMergingModel.ModelSpec.PassTypeTagToCtor | service/class-merging/Model.h:197-200 | Holds for `GENERATE` and `INPUT_PASS_TYPE_TAG_TO_CTOR` (`TypeTagInputAndCtor`). |
| ClassMergingModel.ModelSpec.ReplaceTypeLikeStrings | service/class-merging/Model.h:202-204 | Holds exactly when `ExcludeTypeLikeStrings` fails (`TypeLikeStringsExclusive`). |
| ClassMergingModel.ModelSpec.ExcludeTypeLikeStrings | service/class-merging/Model.h:206-208 | Holds exactly when `ReplaceTypeLikeStrings` fails (`TypeLikeStringsExclusive`). |
| ClassMergingModel.TypeTagPresence | service/class-merging/Model.h:184-190 | `has_type_tag` is exactly the negation of `no_type_tag`. `generate_type_tag` holds only for GENERATE, and then a tag is present and passed to the constructor. |
| ClassMergingModel.TypeTagInputAndCtor | service/class-merging/Model.h:184-200 | `input_has_type_tag` and `pass_type_tag_to_ctor` hold together only for INPUT_PASS_TYPE_TAG_TO_CTOR. A tag is present iff it comes from the input or is generated. |
| ClassMergingModel.TypeLikeStringsExclusive | service/class-merging/Model.h:202-208 | Exactly one of replace and exclude type-like strings holds. |
| ClassMergingModel.AddChild | service/class-merging/Model.h:466-468 | Inserting into a child set: the child becomes a member of the parent's set, every other set is unchanged, and no set loses a member. |
| ClassMergingModel.WithoutChild | service/class-merging/Model.h:474-478 | Removing a child: the parent's entry disappears exactly when the child was its only member, otherwise it loses just that child. Every other entry is unchanged. |
| ClassMergingModel.AddChildKeepsNoEmptyChildSets | service/class-merging/Model.h:466-468 | Inserting a child never creates an empty child set. |
| ClassMergingModel.WithoutChildKeepsNoEmptyChildSets | service/class-merging/Model.h:471-479 | Removal leaves no empty child set and the child is no longer under that parent. |
| ClassMergingModel.AddChildKeepsEarlierParent | service/class-merging/Model.h:466-469 | Re-parenting does not detach the child: it stays in its earlier parent's set and also appears in the new one. |
| ClassMergingModel.Model.GetParent | service/class-merging/Model.h:277-283 | No result iff the type has no parent entry, otherwise the stored parent. |
| ClassMergingModel.Model.GetInterfaces | service/class-merging/Model.h:285-288 | The empty set for an unknown type, otherwise the stored interface set. |
| ClassMergingModel.Model.GetRoots | service/class-merging/Model.h:258-264 | The root sequence in its stored order. |
| ClassMergingModel.Model.IsInterdexGroupingEnabled | service/class-merging/Model.h:294-296 | True iff the interdex grouping setting is not `DISABLED`; `DefaultSpec` shows the default setting leaves it off. |
| ClassMergingModel.Model.SetParentChild | service/class-merging/Model.h:466-469 | The hierarchy gains the child under the parent, and the parent map maps the child to the parent. Nothing else changes, and it keeps both the validity and the no-empty-set invariants. |
| ClassMergingModel.Model.RemoveChild | service/class-merging/Model.h:471-479 | The child is taken out of its recorded parent's set, and an emptied entry is erased. The parent map is left unchanged. |
| ClassMergingModel.Model.MoveChildToMergeables | service/class-merging/Model.h:481-486 | Same effect as `remove_child`, plus the child is added to that merger's mergeables. No other merger changes. |
| ClassMergingModel.Model.WalkHierarchyHelper | service/class-merging/Model.h:498-511 | Produces exactly the merger sequence of the recursive walk below a type, with children in type order. |
| ClassMergingModel.Model.WalkHierarchy | service/class-merging/Model.h:268-275 | Produces exactly the walk of each root in `m_roots` order. |
| ClassMergingModel.WalkBelowMembers | service/class-merging/Model.h:498-511 | A merger is visited below a type iff it belongs to a strict descendant and is not a dummy. The walk also passes through dummies and merger-less children. |
| ClassMergingModel.WalkRootsMembers | service/class-merging/Model.h:268-275 | The walk visits exactly the non-dummy mergers of the types reachable from the roots. |
| ClassMergingModel.WalkRootsSkipsDummies | service/class-merging/Model.h:268-275 | No dummy merger is ever passed to the walker. |
| ClassMergingModel.WalkRootsLast | service/class-merging/Model.h:268-275 | The walk over roots ends with the walk of the last root. |
| ClassMergingModel.WalkRootsAppend | service/class-merging/Model.h:270-274 | Walking two root lists one after the other is the concatenation of the two walks. |
| ClassMergingModel.WalkRootsPreOrder | service/class-merging/Model.h:268-275 | Every visited merger comes before the mergers of its descendants (pre-order). |
| MergerTypeNaming.Classify | service/class-merging/MergerType.cpp:97-125 | `Ljava/lang/String;` is a string field and any other `L`/`[` shorty is a reference. `B`, `S`, `C` and `I` are int fields. `J`, `D`, `F`, `Z` each get their own counter. |
| MergerTypeNaming.CountsSumToLength | service/class-merging/MergerType.cpp:94-128 | The seven per-category counts add up to the number of fields. |
| MergerTypeNaming.ShapeOf | service/class-merging/MergerType.cpp:94-128 | Each counter equals the number of fields of its category, and the total equals the number of fields. |
| MergerTypeNaming.AddField | service/class-merging/MergerType.cpp:95-126 | One field raises exactly the counter of its category by one and leaves the other six alone. |
| MergerTypeNaming.ShapeTextLayout | service/class-merging/MergerType.cpp:86-92 | The printed shape starts with `(`, ends with `)` and has exactly six commas. |
| MergerTypeNaming.ShapeToString | service/class-merging/MergerType.cpp:86-92 | Prints the seven counters; `ShapeTextLayout` gives its layout and `ShapeTextRoundTrip` reads the counters back. |
| MergerTypeNaming.ShapeTextRoundTrip | service/class-merging/MergerType.cpp:86-92 | Parsing the printed shape gives back the seven counters in order: string, reference, bool, int, long, double, float. |
| MergerTypeNaming.LastUpperBefore | service/class-merging/MergerType.cpp:24-36 | Finds the last upper-case letter before a position, or none when there is no such letter. |
| MergerTypeNaming.RootTag | service/class-merging/MergerType.cpp:17-56 | The tag is never longer than the simple name, and it is the whole name when there is no upper-case letter. |
| MergerTypeNaming.RootTagFromLastCapitals | service/class-merging/MergerType.cpp:17-53 | The tag is the nearest earlier capital followed by the suffix from the last capital. |
| MergerTypeNaming.RootTagFromOnlyCapital | service/class-merging/MergerType.cpp:37-53 | With a single capital, the tag is the suffix from it. |
| MergerTypeNaming.RootTagExample | service/class-merging/MergerType.cpp:17-19 | `TypedEventBase` gives `EBase`. |
| MergerTypeNaming.RootTagOfLowerCase | service/class-merging/MergerType.cpp:28-36 | A name without capitals is its own tag. |
| MergerTypeNaming.RootTypeNameTag | service/class-merging/MergerType.cpp:21-56 | The imperative backwards scan returns the tag defined by `RootTag`. |
| MergerTypeNaming.ScanLastWord | service/class-merging/MergerType.cpp:24-36 | The first backwards scan stops at the last capital, having collected the suffix from it reversed, or collects the whole reversed name when there is none. |
| MergerTypeNaming.ScanForCapital | service/class-merging/MergerType.cpp:40-48 | The second scan finds the nearest capital before the last one, or reports that there is none. |
| MergerTypeNaming.BuildTypeName | service/class-merging/MergerType.cpp:62-84 | The name starts with `L` then the prefix, ends with `;`, and the subgroup suffix sits just before the `;`. |
| MergerTypeNaming.NameSuffixRoundTrip | service/class-merging/MergerType.cpp:75-81 | Parsing the suffix recovers both indices: `_I<idx>` appears iff an interdex subgroup is present, and `_<idx>` appears iff the subgroup is non-zero. |
| MergerTypeNaming.CounterDigitsAmbiguous | service/class-merging/MergerType.cpp:72-73 | The counter digits are not separated, so shapes (1,11,…) and (11,1,…) give the same name. |
| LiveRange.UseEquals | service/dataflow/LiveRange.cpp:125-127 | Two uses are equal iff the instruction and the source index agree. |
| LiveRange.SymRegMapper.Width | service/dataflow/LiveRange.cpp:40-45 | Width 2 iff width-aware and the def is wide, otherwise 1. |
| LiveRange.SymRegMapper.constructor | service/dataflow/LiveRange.cpp:36 | A new mapper starts with register 0 and an empty def map. |
| LiveRange.SymRegMapper.Make | service/dataflow/LiveRange.cpp:38-48 | A known def returns its register and nothing changes. A fresh def gets the current next register, which then advances by its width. The allocator invariant is kept. |
| LiveRange.SymRegMapper.At | service/dataflow/LiveRange.cpp:50 | Requires a made def. Its register (and the upper half when wide) is below `regs_size`, and no other def has that register. |
| LiveRange.SymRegMapper.RegsSize | service/dataflow/LiveRange.cpp:52 | Every assigned register, plus its upper half when wide, is below the result. |
| LiveRange.MakeIsIdempotent | service/dataflow/LiveRange.cpp:38-47 | Two `make` calls for one def return the same register, which `at` then returns. |
| LiveRange.RegistersDistinct | service/dataflow/LiveRange.cpp:38-48 | Distinct defs get distinct registers, and in width-aware mode no def sits on the upper half of a wide def. |
| LiveRange.Join | service/dataflow/LiveRange.cpp:70 | A union keeps the set of defs. |
| LiveRange.JoinSame | service/dataflow/LiveRange.cpp:70 | After a union, two defs share a set iff they already did, or one was with `x` and the other with `y`. |
| LiveRange.JoinMerges | service/dataflow/LiveRange.cpp:70 | A union only merges sets, and it puts its two arguments together. |
| LiveRange.JoinKeepsClosed | service/dataflow/LiveRange.cpp:70 | A union of two defs on the same side of a closed set leaves that set closed. |
| LiveRange.MergesTransitive | service/dataflow/LiveRange.cpp:63-73 | Sequences of unions only merge. |
| LiveRange.DefSets.constructor | service/dataflow/LiveRange.cpp:161-165 | Every def starts in its own singleton set. |
| LiveRange.DefSets.UnionSet | service/dataflow/LiveRange.cpp:70 | `union_set` is the union on the representative map. |
| LiveRange.UnifyChain | service/dataflow/LiveRange.cpp:65-71 | Every def of one chain ends in its first def's set, sets are only merged, and a set closed under the chain stays closed. |
| LiveRange.UnifyDefs | service/dataflow/LiveRange.cpp:63-73 | Afterwards all defs of each chain share one set with its first def. Sets are only merged, never split. Any family of defs that no earlier set and no chain straddles is still not straddled. |
| NeverInline.LeadingLoadParams | opt/art-profile-writer/ArtProfileWriterPass.cpp:53-56 | The length of the maximal load-param prefix. |
| NeverInline.IsSimple | opt/art-profile-writer/ArtProfileWriterPass.cpp:38-77 | True iff the body is a single block ending in a return, with the shape load-params, at most one const/iget/sget/invoke, at most one move-result, return. The recorded invoke is exactly the invoke in that core position. |
| NeverInline.ScanDecidesShape | opt/art-profile-writer/ArtProfileWriterPass.cpp:57-76 | After skipping one core instruction and one move-result, the iterator sits on the final return iff the rest of the body has the simple shape. |
| NeverInline.SimpleShapeAsSplit | opt/art-profile-writer/ArtProfileWriterPass.cpp:38-77 | The simple shape is equivalent to an independent definition: a split into load-params, an optional core, an optional move-result and the return. |
| NeverInline.SimpleBodyIsShort | opt/art-profile-writer/ArtProfileWriterPass.cpp:57-76 | A simple body has at most three instructions after its load-params. |
| NeverInline.SimpleExamples | opt/art-profile-writer/ArtProfileWriterPass.cpp:38-77 | A forwarder and a getter are simple, and only the forwarder records an invoke. |
| NeverInline.NotSimpleExamples | opt/art-profile-writer/ArtProfileWriterPass.cpp:38-77 | Two consts in a row, or two blocks, are not simple. |
| NeverInline.ConsiderCallee | opt/art-profile-writer/ArtProfileWriterPass.cpp:95-107 | True iff there is a callee with code whose class is known and internal, and which is non-virtual or final, or whose class is final. |
| NeverInline.GetCalleeAsWritten | opt/art-profile-writer/ArtProfileWriterPass.cpp:109-121 | The `do`/`while` loop as written, run for some number of rounds; `AsWrittenSettles`, `AsWrittenPeriodic` and `SelfForwardingNeverReturns` state when it ends. |
| NeverInline.AsWrittenSettles | opt/art-profile-writer/ArtProfileWriterPass.cpp:109-121 | Once the `do`/`while` loop stops within some number of rounds, more rounds give the same result. |
| NeverInline.AsWrittenPeriodic | opt/art-profile-writer/ArtProfileWriterPass.cpp:109-121 | If the loop's state repeats with some period, the loop never stops. |
| NeverInline.SelfForwardingNeverReturns | opt/art-profile-writer/ArtProfileWriterPass.cpp:109-121 | For a static method whose body is a call to itself, the loop as written never stops. |
| NeverInline.GetCallee | opt/art-profile-writer/ArtProfileWriterPass.cpp:109-121 | The corrected chain walk stops at a repeated method, and any result is a considered method of the program. |
| NeverInline.GetCalleeAgrees | opt/art-profile-writer/ArtProfileWriterPass.cpp:109-121 | Whenever the source's loop stops, the corrected walk returns the same callee. |
| NeverInline.AgreeFrom | opt/art-profile-writer/ArtProfileWriterPass.cpp:109-121 | From any round in which every visited method leads back to the current site, both loops end with the same callee. |
| NeverInline.Round | opt/art-profile-writer/ArtProfileWriterPass.cpp:109-121 | One round of both loops: either both end with the same callee, or both move on to the same method and site with one more method visited. |
| NeverInline.SelfForwardingCorrected | opt/art-profile-writer/ArtProfileWriterPass.cpp:109-121 | The corrected walk returns the self-forwarding method itself. |
| NeverInline.FollowForwarders | opt/art-profile-writer/ArtProfileWriterPass.cpp:109-121 | The imperative walk with a visited set computes the corrected callee, a considered method of the program. |
| NeverInline.Classify | opt/art-profile-writer/ArtProfileWriterPass.cpp:169-204 | Each bucket holds exactly when every earlier check failed and its own succeeded. The checks run in order: already NeverInline, not hot-to-cold, also hot-to-hot, more than 32 code units, at most 3 code units, simple; otherwise attach. |
| NeverInline.AnnotateCallees | opt/art-profile-writer/ArtProfileWriterPass.cpp:169-216 | The six counters equal the bucket counts. The annotated methods are exactly the attach candidates when attaching is on, and none otherwise. |
| NeverInline.AnnotateCallee | opt/art-profile-writer/ArtProfileWriterPass.cpp:169-216 | One method raises exactly the counter of its bucket, and it is annotated iff annotation is on and it is an attach candidate. |
| NeverInline.VerdictsPartition | opt/art-profile-writer/ArtProfileWriterPass.cpp:169-204 | Every method lands in exactly one bucket: the bucket counts sum to the number of methods. |
| NeverInline.AnnotatedAreModerate | opt/art-profile-writer/ArtProfileWriterPass.cpp:175-201 | An annotated method meets all of these:<br>• it is a hot-to-cold callee and not hot-to-hot;<br>• it had no NeverInline before;<br>• it has more than 3 and at most 32 code units;<br>• it is not simple. |
| ArtProfileWriter.ShowFlags | opt/art-profile-writer/ArtProfileWriterPass.cpp:229-240 | At most three letters. `H`, `S` and `P` each appear iff their flag is set. Nothing is printed iff no flag is set. |
| ArtProfileWriter.ShowFlagsRoundTrip | opt/art-profile-writer/ArtProfileWriterPass.cpp:229-240 | The letters come in the order H, S, P: reading them back from a line gives the flags and the rest of the line. |
| ArtProfileWriter.RewriteRemovesDots | opt/art-profile-writer/ArtProfileWriterPass.cpp:344-345 | No `.` survives the rewrite. |
| ArtProfileWriter.RewriteDescriptor | opt/art-profile-writer/ArtProfileWriterPass.cpp:344-345 | The two `replace_all` calls in order; `RewriteRemovesDots`, `RewriteKeepsHead` and `RewriteMethodDescriptor` give what the result looks like. |
| ArtProfileWriter.RewriteKeepsHead | opt/art-profile-writer/ArtProfileWriterPass.cpp:344-345 | A descriptor starting with `L` still starts with `L`. |
| ArtProfileWriter.RewriteMethodDescriptor | opt/art-profile-writer/ArtProfileWriterPass.cpp:341-345 | `C.name:(args)ret` becomes `C->name(args)ret`. |
| ArtProfileWriter.ProfileLineRoundTrip | opt/art-profile-writer/ArtProfileWriterPass.cpp:346 | A method line splits back into its flags and its rewritten descriptor. |
| ArtProfileWriter.ProfileLine | opt/art-profile-writer/ArtProfileWriterPass.cpp:346 | The flags followed by the rewritten descriptor; `ProfileLineRoundTrip` splits it back into both. |
| ArtProfileWriter.Update | opt/art-profile-writer/ArtProfileWriterPass.cpp:296-313 | Applies one qualifying entry. `hot` is `appear > coldstart threshold` for ColdStart and true otherwise. `startup` is set by ColdStart and kept otherwise. `not_startup` is `hot` for ColdStart and true otherwise. |
| ArtProfileWriter.Qualifies | opt/art-profile-writer/ArtProfileWriterPass.cpp:292-295 | The test that puts a method into the flags map; `FlagsAfterKeys` proves a method has an entry iff it passes this test in some interaction. |
| ArtProfileWriter.HotIn | opt/art-profile-writer/ArtProfileWriterPass.cpp:297-299 | Always hot outside ColdStart, hot above the hot threshold in ColdStart; `Update` assigns it to `hot` and `LastQualifyingDecidesHot` shows the last qualifying interaction decides it. |
| ArtProfileWriter.ComputeMethodFlags | opt/art-profile-writer/ArtProfileWriterPass.cpp:284-316 | The loops compute the flags defined by folding the interactions in configuration order. |
| ArtProfileWriter.ApplyInteraction | opt/art-profile-writer/ArtProfileWriterPass.cpp:288-315 | One interaction updates exactly its qualifying methods. |
| ArtProfileWriter.FlagsAfterKeys | opt/art-profile-writer/ArtProfileWriterPass.cpp:287-296 | A method gets an entry iff it qualifies in some interaction: `call_count` reaches the threshold, and `appear_percent` reaches the ColdStart non-hot threshold (ColdStart) or `appear100_threshold` (any other interaction). |
| ArtProfileWriter.HotIsNotStartup | opt/art-profile-writer/ArtProfileWriterPass.cpp:297-313 | In every entry `not_startup` equals `hot`. |
| ArtProfileWriter.StartupIffColdStart | opt/art-profile-writer/ArtProfileWriterPass.cpp:287-304 | `startup` is set iff the method qualified in a ColdStart interaction. |
| ArtProfileWriter.LastQualifyingDecidesHot | opt/art-profile-writer/ArtProfileWriterPass.cpp:296-313 | `hot` is decided by the last qualifying interaction alone: fields are overwritten, not OR-ed. |
| ArtProfileWriter.InteractionOrderMatters | opt/art-profile-writer/ArtProfileWriterPass.cpp:286-313 | The same statistics print `HSP` for ColdStart followed by another interaction, and `S` in the other order. |
| ArtProfileWriter.EntriesHaveFlags | opt/art-profile-writer/ArtProfileWriterPass.cpp:296-313 | Every entry has at least one flag set. |
| ArtProfileWriter.IncludeClassHotOrStartup | opt/art-profile-writer/ArtProfileWriterPass.cpp:336-340 | Given the flag invariant, a class is included iff one of its profiled methods is hot or is a non-hot startup method. |
| ArtProfileWriter.WantsClass | opt/art-profile-writer/ArtProfileWriterPass.cpp:335-340 | A hot method, or a start-up method without `not_startup`; `IncludeClassHotOrStartup` reduces it to hot or start-up. |
| ArtProfileWriter.IncludeClass | opt/art-profile-writer/ArtProfileWriterPass.cpp:329-340 | Some profiled method of the class wants it; `ClassLineIffIncluded` shows the class line is written exactly then. |
| ArtProfileWriter.MethodLinesStartWithFlag | opt/art-profile-writer/ArtProfileWriterPass.cpp:346 | Every method line starts with a flag letter. |
| ArtProfileWriter.ClassLineIffIncluded | opt/art-profile-writer/ArtProfileWriterPass.cpp:329-351 | The class's own line is emitted iff one of its profiled methods is hot, or is startup and not `not_startup`. |
| ArtProfileWriter.UnprofiledClassIsSilent | opt/art-profile-writer/ArtProfileWriterPass.cpp:330-351 | A class with no profiled method emits nothing. |
| ArtProfileWriter.NoMethodLines | opt/art-profile-writer/ArtProfileWriterPass.cpp:330-334 | Methods without an entry produce no line. |
| ArtProfileWriter.PrimaryDexOnly | opt/art-profile-writer/ArtProfileWriterPass.cpp:324-327 | Below min SDK 21 only the first dex is written. |
| ArtProfileWriter.ProfileLines | opt/art-profile-writer/ArtProfileWriterPass.cpp:320-353 | The lines of the first `min_sdk >= 21 ? size : 1` dexes; `PrimaryDexOnly` and `WriteProfile` state what it holds. |
| ArtProfileWriter.WriteProfile | opt/art-profile-writer/ArtProfileWriterPass.cpp:320-353 | The emission loop writes exactly the profile lines of the emitted dexes. |
| ArtProfileWriter.WriteDex | opt/art-profile-writer/ArtProfileWriterPass.cpp:328-352 | The per-dex loop writes the lines of each class in order. |
| ArtProfileWriter.WriteClass | opt/art-profile-writer/ArtProfileWriterPass.cpp:329-351 | The per-class loop writes every profiled method's line, then the class line when a method asks for it. |
| MethodUtil.IsAnyInit | libredex/MethodUtil.h:34-36 | Holds iff the method is `<init>` or `<clinit>`. |
| MethodUtil.IsConstructorDef | libredex/MethodUtil.h:85-87 | The `ACC_CONSTRUCTOR` bit of a definition; `IsConstructor` reduces the reference form to it. |
| MethodUtil.IsConstructor | libredex/MethodUtil.h:85-92 | False on a ref that is not a definition. On a definition, holds iff the definition is a constructor. |
| MethodUtil.HasNArgs | libredex/MethodUtil.h:99-102 | The proto takes exactly `n` arguments; `ArgCountOnly` shows it depends on nothing but the argument count, and `HasNoArgs` is its case `n = 0`. |
| MethodUtil.HasNoArgs | libredex/MethodUtil.h:95-97 | Same as `has_n_args(m, 0)`, that is, an empty argument list. |
| MethodUtil.ArgCountOnly | libredex/MethodUtil.h:95-102 | Both predicates depend only on the argument count. |
| MethodUtil.HasCode | libredex/MethodUtil.h:110-113 | A definition whose code is present; `PureRefHasNothing` shows a ref that is not a definition has none. |
| MethodUtil.PureRefHasNothing | libredex/MethodUtil.h:89-113 | On a ref that is not a definition, `has_code` and `is_constructor` are both false. |
| MethodUtil.SignaturesMatch | libredex/MethodUtil.h:118-120 | Equal names and equal protos, the owner ignored; `SignaturesMatchIsEquivalence` shows it is an equivalence. |
| MethodUtil.SignaturesMatchIsEquivalence | libredex/MethodUtil.h:118-120 | It is reflexive, symmetric and transitive. |
| MethodUtil.Instructions | libredex/MethodUtil.h:152-163 | The instruction view is no longer than the method-item list. |
| MethodUtil.CountOpcodeOfTypes | libredex/MethodUtil.h:152-163 | The loop returns the number of instructions whose opcode is in the set. |
| MethodUtil.CountOpcodeOfTypesInCfg | libredex/MethodUtil.h:139-150 | The nested loop over blocks returns the same count for the concatenated blocks. |
| MethodUtil.CountAtMostLength | libredex/MethodUtil.h:139-163 | The count is at most the number of instructions. |
| MethodUtil.CountEmptySet | libredex/MethodUtil.h:139-163 | The count is 0 for an empty opcode set. |
| MethodUtil.CountMonotone | libredex/MethodUtil.h:139-163 | The count is monotone in the opcode set. |
| MethodUtil.CountIsMatchingPositions | libredex/MethodUtil.h:139-163 | The count equals the number of positions whose opcode is in the set. |
| MethodUtil.CountInAppend | libredex/MethodUtil.h:139-163 | The count of a concatenation is the sum of the counts. |
| MethodUtil.CfgMatchesLinearCode | libredex/MethodUtil.h:139-163 | The CFG overload and the linear overload agree on the same instruction sequence. |

## Left out

- ArtProfileWriter.StatsOf: an interaction without profile statistics is assumed to have none, the empty map. `MethodProfiles` is not part of this model, so what `method_stats` really returns for an unknown interaction is an assumption.
- `build_model`, `shape_model`, `approximate_shapes`, `group_per_dex`, `group_by_interdex_set`,
  `create_mergers_helper`, `collect_methods`, the stats `+=` and the printers of `Model.h`: their
  bodies are in `Model.cpp`, which is not part of this model.
- ClassMergingModel.Model.WalkHierarchy: requires an acyclic hierarchy, given by a ghost rank that
  decreases from parent to child. On a cyclic hierarchy the source recurses forever.
- ClassMergingModel.Model.WalkHierarchy: the walker's effects are modelled as the sequence of mergers
  it is handed.
- ClassMergingModel.Model.RemoveChild: the source's `always_assert`s (and `operator[]` on the parent
  map) become the precondition that the child has a parent whose child set contains it.
- The `Model` constructor only sets the fields. Filling them from a scope happens in `Model.cpp`, which
  is not part of this model.
- ClassMergingModel.Model.MoveChildToMergeables: the merger is passed by its key, not as a reference
  into the merger map.
- LiveRange.SymRegMapper.Make: registers are unbounded naturals. The 32-bit wrap-around of `reg_t` is
  not modelled, because more than 2^32 symbolic registers cannot be allocated in practice.
- LiveRange.DefSets.UnionSet: boost's ranks, path compression and choice of representative are not
  modelled. Sets are a representative map in which every member of a set points to one canonical
  member.
- `renumber_registers` and the `Chains`/`MoveAwareChains` reaching-definitions fixpoint: they depend
  on the control-flow graph and the fixpoint iterator, which are not part of this model. Use-def chains
  are an input map.
- LiveRange.UnifyChain: requires a non-empty def list. The source dereferences the first def without a
  check.
- The parallel caller walk of `never_inline` that builds the hot-to-cold and hot-to-hot callee sets
  (with the 2048-code-unit caller limit), and its atomics and concurrent sets. Set membership and code
  units are inputs on each candidate.
- `resolve_invoke_method` and `estimate_code_units` are foreign calls and are taken as inputs.
- NeverInline.AnnotateCallees: attaching the annotation is modelled as membership in the annotated
  set. Merging into an existing annotation set, and setting then restoring `ACC_SYNTHETIC`, are not
  modelled.
- NeverInline.IsSimple: the `always_assert`s that the iterator stays in the block cannot fail once
  the last instruction is a return. The model returns false on an empty block, as the source's
  `last_it == b->end()` test does.
- Opcodes: the opcode families of `IROpcode.h` are abstracted to a small datatype with the
  classifiers needed here.
- File output, PassManager metrics, config binding and reference reservation of the profile writer
  pass are I/O and plumbing. The emitted lines are returned as a sequence of strings.
- MethodUtil.CountOpcodeOfTypes: the `unsigned` counter is an unbounded natural, and its 32-bit
  wrap-around is not modelled.
- The code-unit metric over methods with a baseline profile is left out, because it is a metric only.
- ArtProfileWriter.ProfileLines: requires at least one dex when min SDK is below 21. The source's
  `dexen.at(0)` would throw otherwise.
- Profile statistics (`appear_percent`, `call_count`) are floating point in the source and `real`
  here, so rounding is not modelled.
- `get_simple_name`, `type_shorty` and `show_deobfuscated` are external. Names, shorties and
  descriptors are inputs.
- MergerTypeNaming.Classify: any other shorty is unreachable in the source (it aborts), so it is a
  precondition.
- MergerTypeNaming.BuildTypeName: its contract pins the prefix, the final `;` and the subgroup suffix.
  The middle part follows the source's concatenation order and is not restated as an ensures.
- The logic the constructor-analysis unit test exercises (`can_inline_init`) is not part of this
  model. The resolve-refs, rename-classes and method-fixup headers hold only declarations.

## Findings

| source | as written | input that shows it | evidently intended | confidence | as-written member | corrected member |
|---|---|---|---|---|---|---|
| opt/art-profile-writer/ArtProfileWriterPass.cpp:109-121 | `get_callee` keeps following simple forwarding methods until one is not simple or records no invoke, and never checks for a method it has already seen. | A hot caller invokes a static method `f` of an internal class whose body is `invoke-static f; return-void`. `f` is simple and records its own invoke, so the loop resolves `f` again forever. | Stop when the chain reaches a method already visited, and return the callee found. | not executed | NeverInline.SelfForwardingNeverReturns | NeverInline.GetCallee |
