# Cycle-collection audits for Mozilla C++ classes, in Dafny

ccdehydra is a set of Dehydra scripts. Dehydra is a GCC plugin that hands
each C++ declaration and function body of a Mozilla build to JavaScript.
The scripts audit Mozilla's cycle collector, which frees reference cycles
among XPCOM objects that take part in it. This project models the three
core scripts and proves properties of the model.

- `model.dfy` (module `TypeModel`) holds the compiler's type objects:
  - a `Ty` term for each type: class, typedef, array, pointer, reference, scalar, or a template-argument literal;
  - an arena of class declarations, indexed by class id.

  `WF` asks that every base class has a smaller id than the class that derives from it. That order is what makes the recursive walks over bases terminate.
- `ccbase.dfy` (module `CCBase`) covers the shared library `ccbase.js`:
  - recognising nsISupports subclasses and cycle-collector helper classes;
  - finding the class that a counted-pointer container points to, through typedefs, arrays and a fixed list of container templates;
  - the three-valued `is_ptr_type`, with its two whitelists;
  - the field scan `find_ptrs`, which marks each field as a certain or a suspect owning pointer;
  - `is_abstract`.

  The "nsIContent not yet cached" exception is the `CacheEmpty` variant of `Lookup`. Every `throw` is a `Fatal` result.
- `pointer_holder.dfy` (module `BadPointerHolder`) covers `cc-bad-pointer-holder.js`.
  - The class `Analysis` holds the state the script mutates: `typelist`, `jsExposedTypes`, the subtype lists, `cctypes` and the nsIContent cache. Its methods are the declaration callback and the end-of-input pass.
  - At the end it builds the "may hold a counted reference to" graph between classes and numbers its strongly connected components. It then gives each recorded class one of the verdicts OK::YES, BAD::NEED, BAD::UNNEEDED or OK::NO, or no report.
- `scc.dfy` (module `PathScc`) is the path-based strongly connected component search of `find_cyclic_classes`. It is the class `CycleFinder`, with the `roots` and `open` stacks, the two counters, and the per-node discovery and component numbers held as maps.
- `audit.dfy` (module `TraverseUnlinkAudit`) covers `cc-traverse-unlink-audit.js`. For each `Traverse` or `Unlink` method of a helper class, it lists the owning-pointer fields of the enclosing class that the method body never mentions, sorted.

Modelling choices:
- Declarations, function bodies and the type graph are Dafny values passed in, not plugin callbacks.
- Type objects are compared structurally.
- Annotations the script stores on shared type objects (`subtypes`, `dfs`, `scc`) become maps.
- A class the component search never reached has no component number. Two such classes compare equal, as two `undefined` properties do.
- A JavaScript lookup of a missing name uses the key `"undefined"` (`KeyOf`).
- `ccbase.js` `find_ptrs` and the pointee list of `cc-bad-pointer-holder.js` share a name in the source. Here they are `CCBase.FindPtrs` and `BadPointerHolder.Pointees`.
- The audit expects both certain and suspect records: every record that `find_ptrs` yields enters the table.

## Model

| member | source | states |
|---|---|---|
| CCBase.IsNsISupportsIff | ccbase.js:145-164 | When the nsISupports test does not abort, it is true exactly when nsISupports itself is reached from the type by following typedef targets and bases through named classes. |
| CCBase.IsCCInnerClassIff | ccbase.js:182-190 | A helper class is never one of the three participant base classes and has exactly one base. Given that, it is a helper exactly when the chain from that base, through typedef targets and single bases, reaches a participant base class. |
| CCBase.ParentIsChain | ccbase.js:166-178 | The corrected parent test holds exactly when the typedef/single-base chain from the type reaches a participant base class. |
| CCBase.TypedefParentRejectedAsWritten | ccbase.js:171-172 | A base that is a typedef of nsXPCOMCycleCollectionParticipant is rejected by the parent test as written, because that test asks whether the typedef's target derives from nsISupports. The corrected test accepts it. |
| CCBase.ParentAgreesWithoutTypedef | ccbase.js:168-178 | Wherever no typedef lies on the chain the parent test walks, the test as written never aborts and gives the same answer as the corrected test. |
| CCBase.AttrAndChildArrayContains | ccbase.js:206-217 | A found element type comes from a method named `nsAttrAndChildArray::ChildAt(PRUint32) const`. It lies strictly inside that method's type. |
| CCBase.ChildAtIn | ccbase.js:207-216 | A found element type comes from a ChildAt method at or after position i, and lies strictly inside that method's return type. |
| CCBase.ChildAtInFirst | ccbase.js:207-214 | The first ChildAt method at or after position i decides. The answer is the direct pointee, referent or element of its return type. Any other return type aborts, whatever later methods look like. |
| CCBase.ChildAtInMissing | ccbase.js:207-216 | Without a ChildAt method at or after position i, the scan aborts. |
| CCBase.AttrAndChildArrayFirst | ccbase.js:206-217 | For a class with members, the first ChildAt method decides: the direct pointee, referent or element of its return type, and an abort for any other return type. |
| CCBase.AttrAndChildArrayMissing | ccbase.js:206-217 | A class without a member list, or without any ChildAt method, aborts. |
| CCBase.TransparentLayers | ccbase.js:225-233 | The pointee of a typedef or of an array is the pointee of its target or element type. |
| CCBase.WrapperPointee | ccbase.js:241-251 | The one-off wrappers (nsRefPtr, nsCOMPtr, nsCOMArray and the three hash keys) always have a pointee: the nested pointee of argument 0 if there is one, else argument 0 itself. |
| CCBase.RunnableMethodPointee | ccbase.js:252-264 | nsRunnableMethod with one argument, or with three and `true`, points to argument 0. With three and `false` it has no pointee. Any other shape is a fatal error. |
| CCBase.HashtableValuePointee | ccbase.js:265-268 | nsRefPtrHashtable and nsInterfaceHashtable point to their value argument, never to the key. |
| CCBase.PointeeIsSubterm | ccbase.js:224-283 | A pointee is written inside the type, is the cached nsIContent, or is written in some class's member list. |
| CCBase.PtrTypeContains | ccbase.js:286-294 | The result agrees with the helper search, except that a pointee named nsIWeakReference becomes "no pointee". |
| CCBase.IsPtrTypeTrueIff | ccbase.js:435-460 | `is_ptr_type` is true exactly in these cases: a named, non-scalar, non-whitelisted type whose pointee is found and not whitelisted (nor unlink-whitelisted when unlinking), or whose lookup hit the empty nsIContent cache. |
| CCBase.WhitelistOverride | ccbase.js:436-443 | Scalar-like types, whitelisted names and whitelisted pointees are answered false. |
| CCBase.UnlinkOnlyDiffersOnNoUnlink | ccbase.js:447-450 | Unlink mode changes the answer only for a pointee in the no-unlink whitelist, and then from true to false. |
| CCBase.TypeNameString | ccbase.js:463-471 | Without pointer or reference layers the shown name is the type's own name. With them the text is present: it starts with the name of the type under all layers (`undefined` when missing), and each layer contributes its own sign, `*` for a pointer and `&` for a reference, the innermost first and the outermost last. |
| CCBase.PtrActuallyOkIff | ccbase.js:475-486 | The excuse holds exactly for a template instance of nsAutoPtr whose argument 0, or of nsDataHashtable whose argument 1, is not an owning pointer type. It aborts exactly when the test of that argument aborts. Anything else is answered false. |
| CCBase.ClassifyMemberIff | ccbase.js:495-503 | A field is certain exactly when `is_ptr_type` is true. It is suspect exactly when `is_ptr_type` is undefined and `ptr_actually_ok` is false. Methods are skipped. |
| CCBase.OwnPtrsExact | ccbase.js:495-503 | The own-member scan yields exactly the classified fields among the remaining members. |
| CCBase.FindPtrsExact | ccbase.js:494-508 | `find_ptrs` yields exactly the classified fields of the class and of all its ancestors. |
| CCBase.BasePtrsExact | ccbase.js:505-507 | The base part yields exactly the classified fields of the ancestors through bases i onward. |
| CCBase.FindPtrsSkipsFunctions | ccbase.js:495-502 | Every yielded record is a data field. It is marked certain exactly when `is_ptr_type` is true. |
| CCBase.FindPtrsOrder | ccbase.js:494-508 | A successful scan yields the class's own fields first, in member order, and then the records of each base in base order, every base's scan having succeeded. |
| CCBase.BasePtrsJoin | ccbase.js:505-507 | The base part from base i on is the concatenation of the base scans from i on, stopping at the first one that aborts. |
| CCBase.JoinOk | ccbase.js:505-507 | When the concatenation succeeds, every scan in it succeeded and the result is their records in order. |
| CCBase.IsAbstract | ccbase.js:514-519 | Fatal exactly when the member list is missing. True exactly when some member is pure virtual. |
| BadPointerHolder.AddAbsent | cc-bad-pointer-holder.js:158-163 | Appending only an absent entry keeps the old list as a prefix, adds the entry, and keeps a duplicate-free list duplicate-free. |
| BadPointerHolder.Analysis.constructor | cc-bad-pointer-holder.js:90-93 | The audit starts with no recorded types, no JavaScript-exposed types, no subtype edges, no collected classes and an empty nsIContent cache. |
| BadPointerHolder.SupportsPathShape | cc-bad-pointer-holder.js:117-147 | The classes the nsISupports search records start at nsISupports, end at the class itself unless it is a typedef, and are all named non-typedef nsISupports subclasses. |
| BadPointerHolder.RecordTypesExact | cc-bad-pointer-holder.js:135-143 | Recording a path keeps the old type list in front, adds exactly the path's classes, and repeats nothing. |
| BadPointerHolder.RecordExposedExact | cc-bad-pointer-holder.js:135-143 | Recording a path keeps the old JavaScript-exposed list in front and adds only exposed path classes, each under a name not yet in the list. |
| BadPointerHolder.Analysis.InterestingType | cc-bad-pointer-holder.js:117-147 | The result is `is_nsISupports` of the type, typedefs followed and a nameless base fatal. Only on success are the classes on the way to nsISupports recorded, in order, in `typelist` and, when exposed, in `jsExposedTypes`. Otherwise both lists are unchanged. |
| BadPointerHolder.Analysis.InterestingBases | cc-bad-pointer-holder.js:133-146 | The base search agrees with `is_nsISupports` over the bases in order. A success records the path through the first qualifying base and then the class itself. Anything else leaves both lists unchanged. |
| BadPointerHolder.Analysis.Record | cc-bad-pointer-holder.js:135-143 | The class enters `typelist` once. It enters `jsExposedTypes` only if it is JavaScript-exposed and its name is new there. |
| BadPointerHolder.Analysis.AddType | cc-bad-pointer-holder.js:138-139 | `typelist` gains the class unless it is already there. |
| BadPointerHolder.Analysis.AddSubtype | cc-bad-pointer-holder.js:151-166 | A subtype that is neither a class nor a typedef is fatal. Otherwise it is appended to the list for t only if absent. All lists stay duplicate-free. |
| BadPointerHolder.AddEdgesExact | cc-bad-pointer-holder.js:151-166 | Adding the edges to every base gives each base's list the class once, as a suffix if it was absent, and changes no other key. |
| BadPointerHolder.AddEdgesOk | cc-bad-pointer-holder.js:181-183 | Adding the edges keeps every subtype list duplicate-free. |
| BadPointerHolder.Analysis.AddSubtypeEdges | cc-bad-pointer-holder.js:181-183 | The subtype map becomes the old one with the class added to the list of each of its bases. |
| BadPointerHolder.DeclStepProcessed | cc-bad-pointer-holder.js:169-186 | One declaration only grows `typelist` and `cctypes`. When it does not fail, it leaves the declaration processed: a helper's owner is in `cctypes`, an nsISupports subclass is in `typelist`. |
| BadPointerHolder.DeclsStepProcessed | cc-bad-pointer-holder.js:169-186 | Feeding a list of declarations none of which fails leaves every one of them processed. |
| BadPointerHolder.DeclsStepOwners | cc-bad-pointer-holder.js:174-176 | `cctypes` gains exactly the enclosing classes of the helper declarations, in declaration order. |
| BadPointerHolder.DeclsStepCache | cc-bad-pointer-holder.js:177-179 | From an empty cache, the cache ends set exactly when some named, non-helper, non-typedef declaration is called nsIContent, and then holds the first such declaration. |
| BadPointerHolder.DeclsStepSummary | cc-bad-pointer-holder.js:169-186 | Without a failing declaration, the pass processes every declaration, appends exactly the helpers' owners to `cctypes`, and caches the first nsIContent. |
| BadPointerHolder.Analysis.ProcessType | cc-bad-pointer-holder.js:169-186 | Fatal exactly when the declaration fails. The whole new state is one step of the declaration pass: typedefs and nameless types change nothing, helpers register their owner, other classes go through `ProcessClass`. |
| BadPointerHolder.Analysis.ProcessHelper | cc-bad-pointer-holder.js:174-176 | A helper class appends its enclosing class to `cctypes`. A helper with no enclosing class is fatal. |
| BadPointerHolder.Analysis.ProcessClass | cc-bad-pointer-holder.js:177-185 | The nsIContent cache is set only while unset. The call is fatal exactly when the nsISupports test is. An nsISupports subclass records its path to nsISupports and gets an edge from each base. Any other class leaves the lists and the subtype map unchanged. |
| BadPointerHolder.Analysis.ProcessAll | cc-bad-pointer-holder.js:169-186 | Fatal exactly when some declaration fails. Otherwise the new state is the declaration pass over the list: every declaration is processed, `cctypes` gains exactly the helpers' owners in order, and an empty cache ends with the first nsIContent class, if any. |
| BadPointerHolder.Analysis.ScanMembers | cc-bad-pointer-holder.js:201-218 | The loop over members computes the own-member pointee scan. |
| BadPointerHolder.OwnScanExact | cc-bad-pointer-holder.js:201-218 | The own-member scan keeps its input as a prefix, stays duplicate-free, and adds exactly the pointees of non-method, non-whitelisted fields. |
| BadPointerHolder.Analysis.AddJsExposedTo | cc-bad-pointer-holder.js:190-198 | A JavaScript-exposed class gains every JavaScript-exposed class seen so far that is missing. Any other class gains nothing. |
| BadPointerHolder.AddAllAbsentExact | cc-bad-pointer-holder.js:190-198 | Adding absent entries keeps the prefix and the absence of duplicates, and yields exactly the union. |
| BadPointerHolder.Analysis.DoFindPointees | cc-bad-pointer-holder.js:224-230 | The accumulation over the class and its bases computes `Pointees`. |
| BadPointerHolder.Analysis.FindPointees | cc-bad-pointer-holder.js:237-241 | The local `find_ptrs` starts from an empty list. |
| BadPointerHolder.PointeesExact | cc-bad-pointer-holder.js:224-241 | The pointee list is duplicate-free. It holds exactly what the class or an ancestor contributes, through a field or by being JavaScript-exposed. |
| BadPointerHolder.PointeesInUniverse | cc-bad-pointer-holder.js:201-241 | Every pointee is written in some class member, is the cached nsIContent, or is a JavaScript-exposed class. |
| BadPointerHolder.Analysis.AddSubclasses | cc-bad-pointer-holder.js:245-255 | The input stays a prefix and nothing is repeated. Every added class is a recorded subtype of an earlier entry, and the result is closed under the recorded subtypes. |
| BadPointerHolder.Analysis.NextClasses | cc-bad-pointer-holder.js:260-264 | Fatal exactly when the pointee list is. Otherwise the answer is the pointee list closed under subtypes. |
| BadPointerHolder.NextInUniverse | cc-bad-pointer-holder.js:260-264 | Every successor lies in the finite set of types written anywhere in the input, the cache, the JavaScript-exposed classes and the recorded subtypes. |
| BadPointerHolder.Analysis.BuildGraph | cc-bad-pointer-holder.js:433-434 | The graph maps each node to its `next_classes` answer, is closed under its edges, and contains every recorded class. |
| BadPointerHolder.Analysis.FindCyclicClasses | cc-bad-pointer-holder.js:421-463 | Every recorded class is numbered. Numbered classes are closed under edges. Two numbered classes share a component exactly when each reaches the other. |
| BadPointerHolder.SameScc | cc-bad-pointer-holder.js:313-321 | The filter keeps exactly the entries whose component equals the given one, absent equal to absent. |
| BadPointerHolder.ClassSccEdges | cc-bad-pointer-holder.js:333-337 | Fatal exactly when the own-member scan is. Otherwise the result is the duplicate-free list of pointees of the class's own fields that lie in its component. |
| BadPointerHolder.AnySccEdgesIff | cc-bad-pointer-holder.js:340-342 | True exactly when some own field points into the class's component. |
| BadPointerHolder.EscapingCCEdges | cc-bad-pointer-holder.js:347-361 | False for concrete classes and for nsISupports. True only for abstract classes. |
| BadPointerHolder.EscapingWitness | cc-bad-pointer-holder.js:347-361 | A positive answer has a witness: the class or an ancestor is abstract and has a same-component edge. |
| BadPointerHolder.ShouldBeCCed | cc-bad-pointer-holder.js:363-375 | False for nsISupports and for abstract classes. True only for concrete classes. |
| BadPointerHolder.ShouldBeCCedWitness | cc-bad-pointer-holder.js:363-375 | A positive answer means the class has a same-component edge, or a proper abstract ancestor has one. |
| BadPointerHolder.ChooseVerdict | cc-bad-pointer-holder.js:392-413 | Exactly one verdict is chosen from (should be collected, is collected). OK::NO is chosen only with a non-empty pointee text. |
| BadPointerHolder.OkNoHasPointees | cc-bad-pointer-holder.js:406-411 | OK::NO is reported only for a class with at least one pointee. |
| BadPointerHolder.TypeArrayString | cc-bad-pointer-holder.js:267-276 | The loop builds the names joined by ", ". |
| BadPointerHolder.JoinNamesSnoc | cc-bad-pointer-holder.js:267-276 | Appending a class appends ", " and its name. For an empty list it is just the name. |
| BadPointerHolder.JoinNamesEmpty | cc-bad-pointer-holder.js:267-276 | The text is empty exactly for no classes, or for one class with an empty name. |
| BadPointerHolder.Analysis.AnalyzeCCResult | cc-bad-pointer-holder.js:378-415 | The report carries the pointees, the verdict from the table, and same-component edges only for the BAD verdicts. It is fatal exactly when the pointees or `should_be_cced` are. |
| BadPointerHolder.Analysis.InputEnd | cc-bad-pointer-holder.js:480-486 | After the component search, there is one report per recorded class, in `typelist` order. A failed pass has a cause: some class's pointee computation fails, or the abstractness test or own-member scan fails on a recorded class or one of its ancestors. |
| BadPointerHolder.ShouldBeCCedFails | cc-bad-pointer-holder.js:347-375 | `should_be_cced` aborts only when the abstractness test or the own-member scan aborts on the class or an ancestor, whatever the component numbering. |
| PathScc.CycleFinder.constructor | cc-bad-pointer-holder.js:422-426 | The search starts with both counters at zero and both stacks empty. |
| PathScc.CycleFinder.Push | cc-bad-pointer-holder.js:429-432 | The node gets the next discovery number and is pushed on `roots` and `open`. The invariant holds for the path extended by it. |
| PathScc.CycleFinder.Follow | cc-bad-pointer-holder.js:434-443 | After following an edge, its target is visited. The target is either finished or in the block of the source or a later block. |
| PathScc.CycleFinder.Collapse | cc-bad-pointer-holder.js:438-442 | Popping the candidate roots discovered after an open successor keeps the invariant, and the edge counts as followed. |
| PathScc.KeptRoots | cc-bad-pointer-holder.js:439-441 | The number of candidate roots kept is the longest prefix discovered no later than the successor. |
| PathScc.CycleFinder.FollowAll | cc-bad-pointer-holder.js:434-444 | Every edge out of the node is followed, and the state only grows. |
| PathScc.CycleFinder.CloseComponent | cc-bad-pointer-holder.js:445-454 | The open nodes from the top root on receive the next component number. The invariant is restored for the shorter path. |
| PathScc.CycleFinder.PopOpen | cc-bad-pointer-holder.js:447-452 | Popping `open` down to the root numbers exactly the popped nodes and changes no earlier number. |
| PathScc.CycleFinder.Leave | cc-bad-pointer-holder.js:445-454 | A finished node closes its component if it is the top root. Otherwise it stays in its root's block. |
| PathScc.CycleFinder.Explore | cc-bad-pointer-holder.js:433-454 | After the edges are followed and the node is left, the state only grows and the node's root is popped. |
| PathScc.CycleFinder.Visit | cc-bad-pointer-holder.js:428-455 | A visit numbers the node and keeps the invariant. Numbers are never changed, and roots are popped only from the top. |
| PathScc.CycleFinder.Run | cc-bad-pointer-holder.js:457-461 | Every node of the given order ends with a component number. |
| PathScc.FindCyclicClasses | cc-bad-pointer-holder.js:421-463 | Same component number exactly when the nodes reach each other, and the numbered nodes are closed under edges. |
| PathScc.ClosedSetReach | cc-bad-pointer-holder.js:445-454 | A set closed under edges contains everything its members reach. |
| PathScc.ReachTrans | cc-bad-pointer-holder.js:418-420 | Reachability is transitive. |
| TraverseUnlinkAudit.ItemItems | cc-traverse-unlink-audit.js:79-96 | The item itself comes first. |
| TraverseUnlinkAudit.ItemItemsExact | cc-traverse-unlink-audit.js:79-96 | The flattening yields exactly the item and everything nested under it, through assignments, the field-of object and arguments. |
| TraverseUnlinkAudit.ItemsItemsExact | cc-traverse-unlink-audit.js:80-95 | A list of items flattens to exactly the items under some entry. |
| TraverseUnlinkAudit.BodyItemsAppend | cc-traverse-unlink-audit.js:67-73 | Flattening a body is the in-order concatenation over its blocks. |
| TraverseUnlinkAudit.BodyItemsExact | cc-traverse-unlink-audit.js:67-73 | A body yields exactly the items under some statement of some block. |
| TraverseUnlinkAudit.SubtypeIff | cc-traverse-unlink-audit.js:137-142 | `subtype(t1, t2)` holds exactly when t2 is t1 or one of its ancestors through base links. |
| TraverseUnlinkAudit.SubtypeOfBaseIff | cc-traverse-unlink-audit.js:139-141 | The loop over bases i onward succeeds exactly when t2 is in the ancestor closure of those bases. |
| TypeModel.StripRefs | cc-traverse-unlink-audit.js:127-129 | The stripped type is neither a pointer nor a reference, and is written inside the original type. |
| TraverseUnlinkAudit.TypeFieldable | cc-traverse-unlink-audit.js:126-131 | After every pointer and reference layer is removed, the result holds exactly when `cls` is the type or one of its ancestors. |
| TraverseUnlinkAudit.ItemIsFieldOfIff | cc-traverse-unlink-audit.js:145-153 | The test holds exactly when the item's declaring class is `cls` or an ancestor of it, or when the item's field-of object is declared by exactly `cls`. |
| TraverseUnlinkAudit.MarkerFromIff | cc-traverse-unlink-audit.js:160 | The search from position p finds the marker exactly when some position p or later starts it after terminator-free text. |
| TraverseUnlinkAudit.IsHelperNameIff | cc-traverse-unlink-audit.js:160 | A name matches `^(.+)::cycleCollection` exactly when `::cycleCollection` occurs after one or more characters, none of them a line terminator. |
| TraverseUnlinkAudit.FieldName | cc-traverse-unlink-audit.js:177-183 | The shown name is the full or the short name. |
| TraverseUnlinkAudit.FieldNameRoundTrip | cc-traverse-unlink-audit.js:177-183 | For an own field, prefixing the shown name with `cname::` gives back the full name. |
| TraverseUnlinkAudit.FieldNameForeign | cc-traverse-unlink-audit.js:181-182 | A name without the `cname::` prefix is kept whole. |
| TraverseUnlinkAudit.InitFields | cc-traverse-unlink-audit.js:192-195 | The initial table has exactly the records' keys, all unmentioned. |
| TraverseUnlinkAudit.MarkAllExact | cc-traverse-unlink-audit.js:208-213 | Marking a parent's records adds no key. It sets exactly the present keys of those records to true, and never resets a true entry. |
| TraverseUnlinkAudit.ItemStepExact | cc-traverse-unlink-audit.js:204-238 | One body item adds no key. It sets exactly the present keys that the item mentions (through a parent call or as a field of `cls`), and entries only move from false to true. |
| TraverseUnlinkAudit.ScanItemsExact | cc-traverse-unlink-audit.js:201-240 | The scan keeps the key set fixed. A key ends true exactly when it started true or some later item mentions it. |
| TraverseUnlinkAudit.FinalFieldsExact | cc-traverse-unlink-audit.js:186-240 | The final table has exactly the keys of the class's `find_ptrs` records. A key is left unmentioned exactly when no body item mentions it. |
| TraverseUnlinkAudit.ScanWithoutCallsOk | cc-traverse-unlink-audit.js:204-235 | Over named items that are not parent calls, the scan never aborts: only a parent call's lookup, or the shown name of an unnamed item, can. |
| TraverseUnlinkAudit.AsWrittenAudit | cc-traverse-unlink-audit.js:186-196 | As written, the audit aborts exactly when `find_ptrs` aborts, yields any record (the shown name of a record without `name` throws), or the scan aborts. Otherwise the table is empty. |
| TraverseUnlinkAudit.AsWrittenAbortsOnCoveredBody | cc-traverse-unlink-audit.js:192-194 | For a class with at least one pointer field and a body that names them all, the audit as written aborts, while the corrected audit succeeds and leaves nothing unmentioned. |
| TraverseUnlinkAudit.CorrectedCoveredBody | cc-traverse-unlink-audit.js:192-193 | Keyed by the field's own name, a body that names every pointer field leaves nothing unmentioned. |
| TraverseUnlinkAudit.StrLessTrans | cc-traverse-unlink-audit.js:247 | The string order used for sorting is transitive. |
| TraverseUnlinkAudit.StrLessTotal | cc-traverse-unlink-audit.js:247 | Two different strings are ordered one way or the other. |
| TraverseUnlinkAudit.StrLessIrreflexive | cc-traverse-unlink-audit.js:247 | No string is before itself. |
| TraverseUnlinkAudit.Insert | cc-traverse-unlink-audit.js:247 | Inserting a new name into a sorted list keeps it sorted and adds just that name. |
| TraverseUnlinkAudit.SortNames | cc-traverse-unlink-audit.js:247 | The sorted list is strictly ascending and has the same names as its input. |
| TraverseUnlinkAudit.Report | cc-traverse-unlink-audit.js:243-259 | No report when every key is mentioned. Otherwise the report carries the method's name and location and exactly the unmentioned keys, in ascending order. |
| TraverseUnlinkAudit.BuildFields | cc-traverse-unlink-audit.js:192-195 | The loop builds the initial table of the corrected audit. |
| TraverseUnlinkAudit.MarkParent | cc-traverse-unlink-audit.js:208-213 | The loop over a parent's records computes `MarkAll`. |
| TraverseUnlinkAudit.MarkItems | cc-traverse-unlink-audit.js:201-240 | The loop over the body's items computes the scan, stopping at the first failed parent lookup. |
| TraverseUnlinkAudit.CheckFunction | cc-traverse-unlink-audit.js:186-261 | Fatal exactly when the final table is. Otherwise the report lists exactly the unmentioned pointer fields, sorted, or is absent when every field is mentioned. |
| TraverseUnlinkAudit.ProcessFunction | cc-traverse-unlink-audit.js:163-173 | Only methods named Traverse or Unlink are audited, and only when their class is a class whose name matches the helper pattern. They are checked against the helper's enclosing class. A free function of those names, or a helper with no enclosing class, is fatal. |

## Left out

- Printing and debug output are not modelled, except where building a message can throw. The shown name `field_name` of a record or item without `name` (cc-traverse-unlink-audit.js:194 and 235) throws, and that is modelled as a `Fatal` result (`FinalFields` as written, `UnnamedHit`). The other `debug_print` arguments only concatenate strings and cannot throw. Not modelled: `tprint`, `debug_print`, the dump helpers, `print_members`, `print_auto_members`, `print_reason_ok`, `type_string` and the `print_sub_next` echo. Verdicts and unmentioned-field lists are returned as values. The `found_any` flag of `check_function` only controls a debug blank line, so it is dropped.
- The Dehydra host API is not modelled: script loading, callback registration and the compiler's objects. Declarations are fed to `ProcessAll`, and bodies are passed to `ProcessFunction` as values.
- `any_lazy_parents`, `type_search_orig` and `concrete_cc_class` are not modelled. They are never called.
- `add_scc_edges` and `add_member_type` are callbacks of `iter_rc_edge_members`. They are modelled inside `OwnScan` and `SameScc` rather than as separate functions.
- The whitelist tables are constant name sets. Only membership in them is reasoned about.
- JavaScript object identity is modelled as structural equality of type terms.
- `TraverseUnlinkAudit.StrLess` compares characters by code point. JavaScript's default sort compares UTF-16 code units, and the two orders differ only for characters above U+FFFF.
- `BadPointerHolder.Analysis.BuildGraph`: the model computes every `next_classes` answer the search will need before the search starts. When some answer is fatal, the model aborts, but it may name a different failing class than the source, which fails lazily inside the search. The contract only states that some class's pointee computation is fatal.
- `BadPointerHolder.Analysis.FindCyclicClasses` does not state that discovery numbers are distinct. That fact is part of the search invariant (`PathScc.Domains`) and is not exported.
- `BadPointerHolder.Analysis.ProcessType` dispatches on the corrected helper test `CCBase.IsCCInnerClass`, not on the test as written at ccbase.js:171-172. The two differ only when a typedef lies on the parent chain (`CCBase.ParentAgreesWithoutTypedef`): the source takes a typedef of an nsISupports subclass as a helper's parent and rejects a typedef of a participant base class, and the nameless-base abort of `is_nsISupports` inside that branch is not raised here.
- `BadPointerHolder.Analysis.ProcessAll` does not state the partial state left behind by a fatal declaration, only that the run is fatal.
- Exceptions that JavaScript raises on `undefined` (a missing enclosing class, a free function named Traverse) become `Fatal` results with a fixed message.

## Findings

| source | as written | input that shows it | evidently intended | confidence | as-written member | corrected member |
|---|---|---|---|---|---|---|
| cc-traverse-unlink-audit.js:192-194 | The table of expected fields is keyed by `m.name`, and each record is shown with `field_name(cls.name, m)`. The records that `find_ptrs` yields are `{field, certain}` and have no `name`, so `field_name` calls `indexOf` on `undefined` and throws a TypeError on the first record. The parent-call credit at lines 208-209 reads the same missing property. | A class whose `find_ptrs` yields at least one field, with a Traverse body that names every such field as a field of the class | Key and show each record by `m.field`, so that each pointer field is expected and can be credited | high; not executed | TraverseUnlinkAudit.AsWrittenAbortsOnCoveredBody | TraverseUnlinkAudit.CorrectedCoveredBody |
| ccbase.js:171-172 | In the helper-class parent test, a typedef is answered with `is_nsISupports(t.typedef)` rather than followed with the parent test itself | A helper class whose single base is a typedef naming nsXPCOMCycleCollectionParticipant | Follow the typedef to its target with `is_cc_inner_class_parent`, so the helper is recognised | medium; not executed | CCBase.TypedefParentRejectedAsWritten | CCBase.ParentIsChain |
