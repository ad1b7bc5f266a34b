# Dafny models of dj64dev

dj64dev is a development kit for 64-bit code that runs under DOS. It carries a C library with
DOS-style text streams, the thunks through which DOS code and 64-bit code call each other, the
ncurses form and window libraries, and a tool that collects makefiles. This project models the
parts of it in which pointers, counters and buffers have to stay consistent over whole runs, and
proves what those parts keep.

* **Forms** (`contrib/ncurses/form`). Fields have reference-counted types, an argument built from
  the type, and a buffer shared by the fields of one `link` ring; types are linked into trees with
  shared operands. `FieldTypes.dfy` declares the objects and the memory log, `ArgumentTrees.dfy`
  treats the recursive argument routines, `FormStore.dfy` gives the heap as a value with its
  invariant, `FormInvariant.dfy` and `FormRoutines.dfy` show that every elementary change and every
  routine keep it, `FieldBuffer.dfy` has the blank contents of a new buffer, `FormRuns.dfy` states
  what follows for whole runs, `FormArguments.dfy` follows the arguments that users make through
  whole runs, `FormOutcomes.dfy` says of each call what it returns and leaves behind, `FormWitnesses.dfy` has the runs in which an expected law fails, and `FormHeap.dfy` is
  the pointer-updating code, each routine proved to do what the value-level routine says.
  Allocations and user callbacks answer from an arbitrary oracle, so every statement covers failure
  at every point.
* **Windows** (`contrib/ncurses/c++/cursesw.cc`). `WindowForest.dfy` has the forest of windows with
  its in-place child lists, `isDescendant`, the destructor with its mutual recursion, and the
  global window count.
* **Pads** (`contrib/ncurses/c++/cursespad.cc`). `PadViewport.dfy` has the
  positions of a view along one axis of a pad and the length and place of a slider;
  `FramedPad.dfy` has the requests, the loop that serves them and the drawing of the sliders.
* **Contexts and calls** (`include/libc/djctx.h`, `src/libc/dj64/thunks.c`). `ContextSwitch.dfy`
  has the swappable contexts and the nested calls that swap them, `ContextMacro.dfy` the code that
  the macro defines; `DosObjects.dfy` has the table of DOS objects that a call has made and the
  collection of those that an abandoned call leaves.
* **Text streams** (`include/libc/file.h`, `src/libc/ansi/stdio`). `TextCodec.dfy` says what a text
  file holds and which strings survive it; `TextStream.dfy` has the counted buffers,
  `TextFile.dfy` whole files written and read through them.
* **makemake** (`src/makemake.c`). `DirectoryTree.dfy` has directory trees and the report on one,
  `Makemake.dfy` the walk in one shared path buffer, `MakefileFilter.dfy` the copying of makefiles.

`Collections.dfy` has what several of these share about sequences and texts.

Some laws that one would expect are not what the code does. For each of these the exact condition
is proved, and an input or a run from the initial state that fails it:

* Copying the argument of a linked type recurses on the same type instead of its operands, so it
  never succeeds (`ArgumentTrees.CopySucceedsIff`, `ArgumentTrees.CopyLinkedFaults`). A field with
  such a type can be neither linked nor duplicated (`FormRuns.LinkedTypeNeverShared`); a run that
  ends in such a link is `FormWitnesses.LinkCanFault`.
* A basic type without `copyarg` hands its argument on uncopied, so that two fields later pass it to
  `freearg`. After any run, some continuation that neither makes an argument nor hands it on frees it
  more often than it was made exactly when it was handed on more often than it was released without
  a `freearg` (`FormArguments.OverfreedIff`, `FormWitnesses.ArgumentFreedTwice`).
* A field that is freed when its type takes arguments and has no `freearg` loses its argument, and
  otherwise passes it to `freearg` (`FormArguments.ReleaseSettles`); `set_fieldtype_arg` can bring
  that about for an argument already made (`FormWitnesses.ArgumentLost`).
* A failed `dup_field` restores links, buffers, counts and pair nodes, but it passes the argument of
  the original to `freearg` exactly when the type hands arguments on and has a `freearg` and the
  field could be allocated (`FormArguments.FailedCreateReleases`, `FormWitnesses.FailedDupFrees`).
* Attaching arguments to a type that is already an operand breaks the inheritance of the argument
  flag unless the types above already have it (`FormRuns.ArgKeepsFlagsIff`,
  `FormWitnesses.FlagsCanBreak`).
* A non-returning call without user thunks leaves without saving, so the context of its handle lacks
  the changes of the mirrored globals since the last save (`ContextSwitch.UnsavedRefinesIff`). They
  are lost when another handle runs before that handle is entered again
  (`ContextSwitch.UnsavedLosesUpdate`); when that handle is entered next, it still finds them
  (`ContextSwitch.UnsavedKeptOnReentry`).
* The object count is asserted to be what it was before a call. A refused allocation raises it too,
  and the release of its null address lowers it again. After an abandoned call the assertion holds
  exactly when the refused requests of the call and the null addresses it released balance
  (`DosObjects.ObjectTable.AbandonCall`, `DosObjects.AbandonedAfterRefusal`); after a call that
  returns, exactly when these and the objects it has left balance
  (`DosObjects.ObjectTable.LeaveCall`, `DosObjects.LeftBehind`).
* A text file gives back exactly the strings in which every carriage return is followed by a
  newline and which have no Ctrl-Z (`TextCodec.RoundTripIff`, `TextCodec.LoneReturnIsLost`). That a
  carriage return is not preceded by another one follows from the first condition.
* The last row and column of a pad larger than its view are never shown
  (`PadViewport.LastCellNeverShown`). With steps no longer than the view every other cell is
  (`PadViewport.ShortStepsShowIff`); with longer steps there can be gaps
  (`PadViewport.LongStepsLeaveGaps`), and the cells shown are given exactly
  (`PadViewport.CellShownIff`).
* Filtering a makefile leaves no blank line for every input exactly when the path is not empty, has
  no blank line and neither begins nor ends with a newline (`MakefileFilter.TidyIff`).

## Model

| member | source | states |
|---|---|---|
| ArgumentTrees.MakeFacts | contrib/ncurses/form/fld_def.c:86-118 | whatever fails, the argument fits its type, has distinct nodes, and its nodes are exactly the pair nodes newly live |
| ArgumentTrees.MakeCountsFailures | contrib/ncurses/form/fld_def.c:86-118 | `*err` rises by exactly the number of requests that failed |
| ArgumentTrees.MakeMirrors | contrib/ncurses/form/fld_def.c:86-118 | `*err` stays put if and only if the argument mirrors the type tree |
| ArgumentTrees.MakeAnswers | contrib/ncurses/form/fld_def.c:86-118 | if nothing fails, the argument is made of the answers to the requests in order: the pair node, the left operand, the right operand, and at each leaf what `makearg` returned |
| ArgumentTrees.FlagMeansLeaf | contrib/ncurses/form/fld_ftlink.c:66-72 | with inherited flags, a type takes arguments if and only if some basic type beneath it does |
| ArgumentTrees.ErrorsAreTwoKinds | contrib/ncurses/form/fld_def.c:86-118 | `*err` rises by the `makearg` calls that returned null and the pair allocations that failed, counted along the recursion |
| ArgumentTrees.MakeVisitsLeaves | contrib/ncurses/form/fld_def.c:86-118 | `makearg` is called once for each argument-taking leaf, left to right, if and only if no pair allocation fails |
| ArgumentTrees.FreeEffect | contrib/ncurses/form/fld_def.c:181-202 | freeing releases the nodes of the argument in postorder and makes the `freearg` calls of its leaves, and nothing else |
| ArgumentTrees.FreeAnswersMake | contrib/ncurses/form/fld_def.c:181-202 | the `freearg` calls answer the `makearg` calls one for one, in order, for the types that have a `freearg` |
| ArgumentTrees.FreeUndoesMake | contrib/ncurses/form/fld_def.c:181-202 | freeing what was made releases exactly the nodes it allocated, each once, under every pattern of failures |
| ArgumentTrees.CopyLinkedNeverSucceeds | contrib/ncurses/form/fld_def.c:133-168 | copying the argument of a linked type with arguments faults or raises `*err` |
| ArgumentTrees.CopyLinkedFaults | contrib/ncurses/form/fld_def.c:133-168 | while memory lasts, that copy faults |
| ArgumentTrees.CopySucceedsIff | contrib/ncurses/form/fld_def.c:133-168 | the exact condition for a copy to succeed |
| ArgumentTrees.CopySuccess | contrib/ncurses/form/fld_def.c:133-168 | a successful copy holds no pair node, fits and mirrors its type |
| ArgumentTrees.FreeUndoesFailedCopy | contrib/ncurses/form/fld_def.c:214-228 | a failed copy can be freed as it stands, and that releases each node it allocated once |
| FormInvariant.InvBind | contrib/ncurses/form/fld_def.c:220-237 | giving a field a type and an argument keeps counts, rings and ownership of nodes |
| FormInvariant.InvDetach | contrib/ncurses/form/fld_def.c:249-257 | releasing a field's type and argument keeps them |
| FormInvariant.InvSplice | contrib/ncurses/form/fld_link.c:68-71 | splicing a field into a ring keeps every ring a cycle over one buffer |
| FormInvariant.PredFacts | contrib/ncurses/form/fld_def.c:367-380 | a field is its own successor if and only if it is alone in its ring, and otherwise its predecessor is another field of the ring |
| FormInvariant.InvRemove | contrib/ncurses/form/fld_def.c:367-396 | taking a field out keeps every ring a cycle and every buffer live or freed once |
| FormInvariant.RemoveUndoesSplice | contrib/ncurses/form/fld_link.c:68-91 | taking out a field that was just spliced in restores the store exactly |
| FormRoutines.CopyType | contrib/ncurses/form/fld_def.c:214-238 | success adds one use of the type and changes the target alone; failure changes nothing live |
| FormRoutines.Release | contrib/ncurses/form/fld_def.c:367-396 | freeing a field keeps the invariant and removes that field alone |
| FormRoutines.ReleaseInOrder | contrib/ncurses/form/fld_def.c:367-396 | the order of the code, ring before type before field, has the same effect |
| FormRoutines.FreeField | contrib/ncurses/form/fld_def.c:356-397 | keeps the invariant in its error branches and on success |
| FormRoutines.NewField | contrib/ncurses/form/fld_def.c:276-343 | keeps the invariant whatever fails; its outcome is in `FormOutcomes.NewFieldOutcome` |
| FormRoutines.DupField | contrib/ncurses/form/fld_dup.c:52-99 | keeps the invariant whatever fails |
| FormRoutines.LinkField | contrib/ncurses/form/fld_link.c:53-95 | keeps the invariant whatever fails |
| FormRoutines.Attach | contrib/ncurses/form/fld_type.c:63-78 | success leaves an argument that mirrors the type; failure changes nothing live |
| FormRoutines.SetFieldType | contrib/ncurses/form/fld_type.c:50-81 | keeps the invariant, also when the argument cannot be made; its outcome is in `FormOutcomes.SetFieldTypeOutcome` |
| FormRoutines.NewFieldType | contrib/ncurses/form/fld_newftyp.c:75-112 | keeps the invariant whatever fails |
| FormRoutines.LinkFieldType | contrib/ncurses/form/fld_ftlink.c:53-86 | keeps the invariant: both operands gain a use, also when they are the same type |
| FormRoutines.SetFieldTypeArg | contrib/ncurses/form/fld_arg.c:65-87 | keeps the invariant |
| FormRoutines.FreeFieldType | contrib/ncurses/form/fld_newftyp.c:125-147 | keeps the invariant; its outcome is in `FormOutcomes.FreeFieldTypeOutcome` |
| FormRuns.Step | contrib/ncurses/form/fld_def.c:276-397 | every call that returns leads from a good state to a good one |
| FormRuns.RunsKeepInvariant | contrib/ncurses/form/fld_def.c:276-397 | the invariant holds after every run |
| FormRuns.CountsExactInEveryRun | contrib/ncurses/form/fld_newftyp.c:125-147 | in every run each type's `ref` is the number of fields of the type plus the number of operand slots that name it, and no type dangles |
| FormRuns.FreeTypeIffUnused | contrib/ncurses/form/fld_newftyp.c:125-147 | `free_fieldtype` succeeds if and only if no field and no linked type uses the type and it is not built in |
| FormRuns.RingsAreCycles | contrib/ncurses/form/fld_def.c:356-397 | two fields lie on one `link` cycle if and only if they share a buffer, and the cycle closes after as many steps as it has fields |
| FormRuns.BufferGoesWithLastField | contrib/ncurses/form/fld_def.c:367-396 | `free_field` frees the buffer if and only if no other field shares it |
| FormRuns.BuffersConserved | contrib/ncurses/form/fld_def.c:311-343 | over any run the buffers allocated are those freed, each once, and those that a live ring has |
| FormRuns.PairNodesOwnedOnce | contrib/ncurses/form/fld_def.c:86-118 | in every run a pair node is live if and only if a live field holds it, and only one does |
| FormRuns.LinkedFieldComesNext | contrib/ncurses/form/fld_link.c:64-87 | the new field follows the original and shares its buffer, size and type; no other field changes |
| FormRuns.CreatedFieldStandsAlone | contrib/ncurses/form/fld_dup.c:63-89 | the new field is a ring of its own with a new buffer; no other field changes |
| FormRuns.FreedFieldLeavesRing | contrib/ncurses/form/fld_def.c:367-380 | only the field that linked to the freed one changes, and it then links to the one after |
| FormRuns.LinkFieldRollsBack | contrib/ncurses/form/fld_link.c:63-94 | a failed `link_field` leaves every link, buffer, count and pair node as before, although the field was already spliced in |
| FormRuns.NewFieldRollsBack | contrib/ncurses/form/fld_def.c:276-343 | so does a failed `new_field` |
| FormRuns.DupFieldRollsBack | contrib/ncurses/form/fld_dup.c:52-99 | so does a failed `dup_field`; what it does to user arguments is in `FormArguments.FailedCreateReleases` |
| FormRuns.LinkFieldCounts | contrib/ncurses/form/fld_link.c:86-87 | a successful `link_field` adds exactly one use, of the original's type |
| FormRuns.LinkedTypeNeverShared | contrib/ncurses/form/fld_link.c:86-91 | a field whose type is linked and takes arguments is never linked or duplicated |
| FormRuns.ArgKeepsFlagsIff | contrib/ncurses/form/fld_arg.c:78-85 | `set_fieldtype_arg` keeps the inheritance of flags if and only if no type above would have to change |
| FormRuns.FlagsInEverySafeRun | contrib/ncurses/form/fld_ftlink.c:66-72 | in a run that only does so, a linked type takes arguments if and only if some basic type beneath it does |
| FormArguments.CopyTypeShares | contrib/ncurses/form/fld_def.c:157-161 | `_nc_Copy_Type` hands the argument itself on if and only if the type is basic, takes arguments and has no `copyarg`, and then succeeds |
| FormArguments.LinkShares | contrib/ncurses/form/fld_link.c:63-87 | so does `link_field`, once its field is allocated |
| FormArguments.CreateSettles | contrib/ncurses/form/fld_dup.c:63-95 | so do `new_field` and `dup_field`, and they keep the account of every argument |
| FormArguments.FailedCreateReleases | contrib/ncurses/form/fld_dup.c:63-95 | a failed `new_field` or `dup_field` releases what it made and, if it handed the argument of the original on, that one too, while the original still holds it |
| FormArguments.ReleaseSettles | contrib/ncurses/form/fld_def.c:249-257 | freeing a field passes each argument it holds to `freearg`, or drops it if and only if its type takes arguments and has no `freearg` by then |
| FormArguments.SetFieldTypeArgAccount | contrib/ncurses/form/fld_arg.c:78-85 | `set_fieldtype_arg` moves no argument, whenever it is called |
| FormArguments.StepAccounts | contrib/ncurses/form/fld_def.c:86-257 | every call keeps, for each argument, the times made and handed on less the times freed, dropped and held; nothing is ever taken back |
| FormArguments.ArgumentsConserved | contrib/ncurses/form/fld_def.c:181-202 | over every run each argument has been freed, dropped or is held, once for each time it was made and once more for each time it was handed on |
| FormArguments.NotFreedWhileHeld | contrib/ncurses/form/fld_def.c:181-202 | over every run an argument that was made once and never handed on is not freed while a field holds it, and no two fields hold it |
| FormArguments.NothingLost | contrib/ncurses/form/fld_arg.c:78-85 | over every run in which its type is never without a `freearg`, no argument is lost |
| FormArguments.OverfreedIff | contrib/ncurses/form/fld_def.c:157-161 | after any run: not handed on, an argument is freed at most as often as it was made; it has been freed more often if and only if it was handed on more often than dropped and held; some continuation that neither makes it nor hands it on frees it more often if and only if it was handed on more often than dropped |
| FormArguments.CleanUp | contrib/ncurses/form/fld_def.c:356-397 | from every good state some run frees every field, makes nothing, and frees or drops exactly what was held |
| FormOutcomes.CopyOutcome | contrib/ncurses/form/fld_def.c:133-168 | exactly when a copy succeeds, and that it then is what `copyarg` returned, or the argument itself where there is no `copyarg` |
| FormOutcomes.CopyTypeOutcome | contrib/ncurses/form/fld_def.c:214-238 | `_nc_Copy_Type` succeeds if and only if the argument can be copied, and the target has the type and that copy |
| FormOutcomes.NewFieldOutcome | contrib/ncurses/form/fld_def.c:276-343 | `new_field` refuses exactly the six kinds of bad arguments and then changes nothing; otherwise it succeeds if and only if the field, the copy and the buffer are granted, and the field has `rows + nrow` rows, `cols` columns, the buffer count as a short and the type of the default field, alone in its ring; a failure changes nothing live |
| FormOutcomes.DupFieldOutcome | contrib/ncurses/form/fld_dup.c:52-99 | the same for `dup_field`, with the size and the type of the original |
| FormOutcomes.LinkFieldOutcome | contrib/ncurses/form/fld_link.c:53-95 | `link_field` succeeds if and only if the field and the copy are granted, for every type and for none; the new field then stands right behind the original in its ring |
| FormOutcomes.FreeFieldOutcome | contrib/ncurses/form/fld_def.c:356-397 | null and connected fields are refused and nothing changes; otherwise the field is gone, its type has one use less, its predecessor links on, and the buffer is freed if the field was alone |
| FormOutcomes.SetFieldTypeOutcome | contrib/ncurses/form/fld_type.c:50-81 | the old type loses a use; if no request of the call fails the field has the new type, one use more, with a complete argument, and otherwise neither type nor argument; no other field, link, buffer or ring changes |
| FormOutcomes.SetFieldTypeReleases | contrib/ncurses/form/fld_type.c:50-81 | what the field held is freed or dropped; what the call made is held if it succeeds, and else freed or dropped too |
| FormOutcomes.NewFieldTypeOutcome | contrib/ncurses/form/fld_newftyp.c:75-112 | the exact record of a new type; a refused or failed call changes nothing live |
| FormOutcomes.LinkFieldTypeOutcome | contrib/ncurses/form/fld_ftlink.c:53-86 | the exact record of a linked type, flags and operands included, and one use more for each operand slot; a refused or failed call changes nothing live |
| FormOutcomes.SetFieldTypeArgOutcome | contrib/ncurses/form/fld_arg.c:65-87 | the type takes arguments and has the given functions; nothing else changes |
| FormOutcomes.FreeFieldTypeOutcome | contrib/ncurses/form/fld_newftyp.c:125-147 | on success the type is gone and each of its operand slots is one use less; otherwise nothing changes |
| FormWitnesses.FlagsCanBreak | contrib/ncurses/form/fld_arg.c:78-85 | a run from the initial state after which a linked type lacks the flag of its operand |
| FormWitnesses.LinkCanFault | contrib/ncurses/form/fld_link.c:86-91 | a run from the initial state after which `link_field` faults |
| FormWitnesses.ArgumentFreedTwice | contrib/ncurses/form/fld_def.c:157-161 | a run from the initial state in which an argument is made once, handed on by `link_field` and passed to `freearg` twice |
| FormWitnesses.ArgumentLost | contrib/ncurses/form/fld_arg.c:78-85 | a run from the initial state in which a type in use loses its `freearg` and an argument ends neither freed nor held |
| FormWitnesses.FailedDupFrees | contrib/ncurses/form/fld_dup.c:81-95 | a run from the initial state after which a failing `dup_field` frees an argument that a field still holds |
| FieldBuffer.FillRow | contrib/ncurses/form/fld_def.c:325-331 | one buffer becomes blanks and a zero; what precedes it stays |
| FieldBuffer.Prefill | contrib/ncurses/form/fld_def.c:321-332 | the whole allocation becomes blank buffers, each ended by a zero |
| FieldBuffer.PrefilledAt | contrib/ncurses/form/fld_def.c:321-332 | cell by cell: blanks, and a zero behind each buffer |
| FormStore.ToShortIs | contrib/ncurses/form/fld_def.c:303 | the conversion to a short is the congruent number in its range |
| FormHeap.Library.constructor | contrib/ncurses/form/fld_def.c:39-69 | the library starts in the initial state |
| FormHeap.Library.MakeArgument | contrib/ncurses/form/fld_def.c:86-118 | the pointer code makes what `ArgumentTrees.Make` says, for every shared tree |
| FormHeap.Library.CopyArgument | contrib/ncurses/form/fld_def.c:133-168 | the pointer code copies, fails or faults as `ArgumentTrees.Copy` says |
| FormHeap.Library.FreeArgument | contrib/ncurses/form/fld_def.c:181-202 | the pointer code frees what `ArgumentTrees.Free` says |
| FormHeap.Library.CopyType | contrib/ncurses/form/fld_def.c:214-238 | the objects end as `FormRoutines.CopyType` says |
| FormHeap.Library.FreeType | contrib/ncurses/form/fld_def.c:249-257 | the type has one use less and the argument is freed; the field's own pointers stay, as in the code |
| FormHeap.Library.FindPred | contrib/ncurses/form/fld_def.c:376-378 | the search loop ends, with the ring distance as its measure, at the field before the one sought |
| FormHeap.Library.LeaveRing | contrib/ncurses/form/fld_def.c:367-380 | the links and the freed buffer are those of `FormRoutines.Unringed` |
| FormHeap.Library.FreeField | contrib/ncurses/form/fld_def.c:356-397 | the objects end as `FormRoutines.FreeField` says and stay valid |
| FormHeap.Library.NewField | contrib/ncurses/form/fld_def.c:276-343 | the same for `new_field`; the returned object has the rows, columns and buffer count asked for, its own link, the new buffer and the type of the default field, and its buffers are blank |
| FormHeap.Library.DupField | contrib/ncurses/form/fld_dup.c:52-99 | the same for `dup_field`; the returned object has the size and the type of the original, and the new buffer holds a copy of the old one |
| FormHeap.Library.LinkField | contrib/ncurses/form/fld_link.c:53-95 | the same for `link_field` |
| FormHeap.Library.SpliceIn | contrib/ncurses/form/fld_link.c:68-84 | the two link assignments are the splice of the ring |
| FormHeap.Library.SetFieldType | contrib/ncurses/form/fld_type.c:50-81 | the same for `set_field_type`; the object has the new type on success, and neither type nor argument otherwise |
| FormHeap.Library.NewFieldType | contrib/ncurses/form/fld_newftyp.c:75-112 | the same for `new_fieldtype` |
| FormHeap.Library.LinkFieldType | contrib/ncurses/form/fld_ftlink.c:53-86 | the same for `link_fieldtype`; operands are older than the new type |
| FormHeap.Library.SetFieldTypeArg | contrib/ncurses/form/fld_arg.c:65-87 | the same for `set_fieldtype_arg` |
| FormHeap.Library.FreeFieldType | contrib/ncurses/form/fld_newftyp.c:125-147 | the same for `free_fieldtype` |
| WindowForest.CutKeeps | contrib/ncurses/c++/cursesw.cc:352-368 | removing a window with everything under it keeps a forest: each child once in its parent's list, parent chains finite |
| WindowForest.CutIs | contrib/ncurses/c++/cursesw.cc:352-368 | the list of the parent closes over the removed window in the same order, and the other lists stay |
| WindowForest.GrowKeeps | contrib/ncurses/c++/cursesw.cc:241-243 | a new window at the head of its parent's list keeps a forest |
| WindowForest.GrowIs | contrib/ncurses/c++/cursesw.cc:241-243 | the new window comes first in the list of its parent; the other lists stay |
| WindowForest.UnderIffSteps | contrib/ncurses/c++/cursesw.cc:316-327 | one window is under another if and only if some number of parent steps leads there |
| WindowForest.CutUndoesGrow | contrib/ncurses/c++/cursesw.cc:241-243 | constructing a subwindow and destroying it again restores the forest |
| WindowForest.Screen.IsDescendant | contrib/ncurses/c++/cursesw.cc:316-327 | ends, and is true if and only if the receiver is reached from the window by one or more parent steps |
| WindowForest.Screen.KillSubwindows | contrib/ncurses/c++/cursesw.cc:330-345 | deletes exactly the transitive subwindows, each once |
| WindowForest.Screen.UnlinkFromParent | contrib/ncurses/c++/cursesw.cc:352-368 | the parent's list becomes the old one without the window, in the same order |
| WindowForest.Screen.Retire | contrib/ncurses/c++/cursesw.cc:373-380 | the count stays at least the number of live owning windows, so the branch for a negative count is dead; `endwin` is called if and only if the count comes down to 0, and then no owning window is live |
| WindowForest.Screen.Destroy | contrib/ncurses/c++/cursesw.cc:348-381 | the window and everything under it are deleted, each once, and nothing else; `endwin` is called once if the count comes down to 0, and otherwise not |
| WindowForest.Screen.Delete | contrib/ncurses/c++/cursesw.cc:348-381 | `delete` keeps the forest, the lists and the count, and calls `endwin` if and only if the last owning window goes and no window is counted that is never uncounted |
| WindowForest.Screen.NewWindow | contrib/ncurses/c++/cursesw.cc:198-267 | the constructors that make a window keep them; a failed one leaves the count raised |
| WindowForest.Screen.NewView | contrib/ncurses/c++/cursesw.cc:190-222 | the constructors that adopt a window keep them; such a window is counted but never uncounted |
| WindowForest.Screen.NewPad | contrib/ncurses/c++/cursespad.cc:41-54 | the pad constructor keeps them, also when the pad cannot be made |
| PadViewport.RunsStayInRange | contrib/ncurses/c++/cursespad.cc:101-157 | in every run the view stays between 0 and the code's own limit |
| PadViewport.ManyForward | contrib/ncurses/c++/cursespad.cc:118-126 | `n` forward requests lead to the smaller of the limit and `n` grids further |
| PadViewport.ManyBack | contrib/ncurses/c++/cursespad.cc:106-114 | `n` backward requests lead to the larger of 0 and `n` grids back |
| PadViewport.ForwardReachesLimit | contrib/ncurses/c++/cursespad.cc:118-126 | the limit is reached after `n` steps if and only if `n` is at least the gap divided by the grid, rounded up |
| PadViewport.BackReachesStart | contrib/ncurses/c++/cursespad.cc:106-114 | the same for the start |
| PadViewport.LastCellNeverShown | contrib/ncurses/c++/cursespad.cc:118-126 | no run shows the last cell of a pad larger than its view |
| PadViewport.ShortStepsShowIff | contrib/ncurses/c++/cursespad.cc:118-126 | with steps no longer than the view, some run shows a cell if and only if the pad fits or the cell is not the last |
| PadViewport.LongStepsLeaveGaps | contrib/ncurses/c++/cursespad.cc:118-126 | a pad with a cell, not the last, that no run shows |
| PadViewport.ReachedIffStop | contrib/ncurses/c++/cursespad.cc:106-126 | for every grid, the positions that runs reach are the multiples of the grid up to the limit and the limit less such multiples |
| PadViewport.CellShownIff | contrib/ncurses/c++/cursespad.cc:106-126 | for every grid, some run shows a cell if and only if the view covers it from the last multiple of the grid, or the last limit less a multiple, that is not beyond it |
| PadViewport.SliderFits | contrib/ncurses/c++/cursespad.cc:234-262 | the slider has at least one cell and lies within the frame |
| PadViewport.SliderProportion | contrib/ncurses/c++/cursespad.cc:234-270 | the slider is to its frame as the view is to the pad, rounded up, in length and in place |
| PadViewport.SliderMonotone | contrib/ncurses/c++/cursespad.cc:256-262 | the start of the slider is monotone in the position |
| PadViewport.PushedByOneAtMost | contrib/ncurses/c++/cursespad.cc:256-262 | in a reachable position the final clamp moves the slider by at most one cell |
| PadViewport.SliderAtStart | contrib/ncurses/c++/cursespad.cc:256-262 | at position 0 the slider begins the frame |
| PadViewport.SliderAtLimit | contrib/ncurses/c++/cursespad.cc:256-262 | at the limit the slider ends the frame |
| FramedPad.EveryRunIsSound | contrib/ncurses/c++/cursespad.cc:84-167 | after any sequence of keys, on both axes, the view is within its limits, the slider is in its frame, and the clamp has moved it by at most one cell |
| FramedPad.Pad.SetWindow | contrib/ncurses/c++/cursespad.cc:197-209 | succeeds if and only if both grids are positive; it puts the view at 0, and on success the invariant holds with the new grids |
| FramedPad.Pad.MoveLeft | contrib/ncurses/c++/cursespad.cc:106-117 | moves back one grid, not below 0, and reports a change if and only if there is one |
| FramedPad.Pad.MoveRight | contrib/ncurses/c++/cursespad.cc:118-129 | moves forward one grid, not beyond the limit, and reports a change if and only if there is one |
| FramedPad.Pad.MoveUp | contrib/ncurses/c++/cursespad.cc:130-141 | the same for rows |
| FramedPad.Pad.MoveDown | contrib/ncurses/c++/cursespad.cc:142-153 | the same for rows |
| FramedPad.Pad.Serve | contrib/ncurses/c++/cursespad.cc:101-157 | a request moves at most one axis; one that moves nothing is an error |
| FramedPad.Pad.Run | contrib/ncurses/c++/cursespad.cc:58-167 | `n` times KEY_DOWN bring the view to the smaller of the limit and `n` grids further down and leave its column; the same for the three other directions; any keys do what `FramedPad.Pressed` says |
| FramedPad.OneKey | contrib/ncurses/c++/cursespad.cc:58-81 | what one press of each key does: the four arrows move by a grid within the limits, the two keys that leave do nothing, any other key beeps, and so does an arrow that moves nothing |
| FramedPad.DownKeys | contrib/ncurses/c++/cursespad.cc:142-153 | the exact place and number of beeps after `n` times KEY_DOWN |
| FramedPad.UpKeys | contrib/ncurses/c++/cursespad.cc:130-141 | the same for KEY_UP |
| FramedPad.RightKeys | contrib/ncurses/c++/cursespad.cc:118-129 | the same for KEY_RIGHT |
| FramedPad.LeftKeys | contrib/ncurses/c++/cursespad.cc:106-117 | the same for KEY_LEFT |
| FramedPad.KeysConcat | contrib/ncurses/c++/cursespad.cc:84-167 | keys pressed in two runs do what they do in one |
| FramedPad.KeysAfterExit | contrib/ncurses/c++/cursespad.cc:72-76 | what follows the first KEY_EXIT or Ctrl-X has no effect |
| FramedPad.Pad.ColumnSlider | contrib/ncurses/c++/cursespad.cc:234-262 | the horizontal slider lies within the frame |
| FramedPad.Pad.RowSlider | contrib/ncurses/c++/cursespad.cc:244-270 | the vertical slider lies within the frame |
| FramedPad.Pad.OnOperation | contrib/ncurses/c++/cursespad.cc:221-299 | both bars show exactly the slider, with arrows at its ends, and no corner is drawn over |
| FramedPad.DrawBar | contrib/ncurses/c++/cursespad.cc:286-297 | one bar shows exactly the slider |
| FramedPad.DrawnIs | contrib/ncurses/c++/cursespad.cc:272-297 | cell by cell: the line outside the slider, a block or an arrow at each end and blocks between inside it |
| ContextSwitch.OwnPartsDoNotInterfere | include/libc/djctx.h:29-58 | in every interleaving a context ends as after its own initialisations and the accesses made while it was current |
| ContextSwitch.StepRefines | src/libc/dj64/thunks.c:192-220 | every step of nested calls does what it would do if each handle had a private memory |
| ContextSwitch.UnsavedRefinesIff | src/libc/dj64/thunks.c:589-600 | leaving a call unsaved does so if and only if nothing changed since the last save |
| ContextSwitch.UnsavedKeptOnReentry | src/libc/dj64/thunks.c:589-600 | the handle that left unsaved finds its changes when it is entered next |
| ContextSwitch.UnsavedLosesUpdate | src/libc/dj64/thunks.c:589-600 | a run from the idle state in which another handle comes between and the change is lost |
| ContextSwitch.RunsRefine | src/libc/dj64/thunks.c:532-600 | every run of calls, returns, aborts, creations and disposals refines private memories, if at every unsaved exit nothing has changed since the last save |
| ContextSwitch.ResumedCodeFindsWhatItLeft | src/libc/dj64/thunks.c:542-546 | code that resumes after a call to the host finds what it left, whatever other handles did |
| ContextMacro.ContextTable.InitContext | include/libc/djctx.h:31-37 | initialises that context alone |
| ContextMacro.ContextTable.DeinitContext | include/libc/djctx.h:38-41 | clears the pointer alone |
| ContextMacro.ContextTable.SaveContext | include/libc/djctx.h:42-45 | stores the mirrored globals in the current context alone |
| ContextMacro.ContextTable.RestoreContext | include/libc/djctx.h:46-53 | makes the context current and loads its mirror, or does nothing when it is current |
| DosObjects.OccupiedOnce | src/libc/dj64/thunks.c:615-625 | the occupied slots of a level are the objects of its call, each once |
| DosObjects.OccupiedInOrder | src/libc/dj64/thunks.c:168-171 | they come in the order of their slots |
| DosObjects.ObjectTable.NothingLeaks | src/libc/dj64/thunks.c:168-171 | when no call is in progress the count is 0, and the objects freed are the objects made, each as often, if and only if no call has left one |
| DosObjects.ObjectTable.FindOh | src/libc/dj64/thunks.c:615-625 | the first slot of the current level that holds the address, if any |
| DosObjects.ObjectTable.ObjInit | src/libc/dj64/thunks.c:627-644 | the count rises; an object joins the current level, a refused request leaves the table as it is; it faults if and only if the level is full |
| DosObjects.ObjectTable.RmDosobj | src/libc/dj64/thunks.c:672-677 | the count falls; an object leaves the current level, the null address leaves the table as it is; it faults if and only if no slot of the level holds the address or the allocator rejects the null one |
| DosObjects.ObjectTable.EnterCall | src/libc/dj64/thunks.c:205-210 | opens a level, if there is one left, and notes the count |
| DosObjects.ObjectTable.LeaveCall | src/libc/dj64/thunks.c:212-218 | the assertion on the count holds if and only if the objects the call has left, its refused requests and its null releases balance; without null releases beyond the refused requests that is when it has left no object and every refused request was released |
| DosObjects.ObjectTable.Collect | src/libc/dj64/thunks.c:168-171 | frees the objects of the current level, each once and in slot order, and touches no other level |
| DosObjects.ObjectTable.AbandonCall | src/libc/dj64/thunks.c:163-218 | after an abandoned call the count is what it was before it if and only if the refused requests of the call and its null releases balance |
| DosObjects.AbandonedAfterRefusal | include/dj64/thunks_p.inc:42-73 | an abandoned call with one refused request has the count it began with if and only if it had released the null address |
| DosObjects.LeftBehind | src/libc/dj64/thunks.c:212-218 | a call that releases a null address in place of its object passes the assertion and leaves the object in the table |
| TextCodec.EncodeAllIsEncode | include/libc/file.h:91-106 | writing character by character gives the encoding of the string |
| TextCodec.DecodeIs | include/libc/file.h:72-89 | reading drops exactly the first, third, fifth and so on carriage return of each run of them |
| TextCodec.VisiblePrefix | src/libc/ansi/stdio/filbuf.c:100-110 | a reader sees the text before the first Ctrl-Z |
| TextCodec.VisibleEncode | src/libc/ansi/stdio/filbuf.c:100-110 | cutting at Ctrl-Z commutes with the encoding |
| TextCodec.PairedSurvives | include/libc/file.h:72-106 | a string in which every carriage return precedes a newline survives the encoding |
| TextCodec.SurvivorIsPaired | include/libc/file.h:72-106 | only such strings do |
| TextCodec.RoundTripIff | include/libc/file.h:66-106 | a string survives a text file if and only if every carriage return in it is followed by a newline and it has no Ctrl-Z |
| TextCodec.LoneReturnIsLost | include/libc/file.h:85-88 | a string that does not survive |
| TextStream.ReadStream.Open | src/libc/ansi/stdio/filbuf.c:49-63 | a fresh stream has the whole visible file to serve |
| TextStream.ReadStream.FromString | include/libc/file.h:120-134 | a string stream serves the characters before the null |
| TextStream.ReadStream.FillSize | src/libc/ansi/stdio/filbuf.c:76-87 | a read never asks for more than the buffer holds |
| TextStream.ReadStream.CutAtCtrlZ | src/libc/ansi/stdio/filbuf.c:100-110 | what lies behind a Ctrl-Z goes back to the file |
| TextStream.ReadStream.Fill | src/libc/ansi/stdio/filbuf.c:98-111 | the buffer and what is still unread are together what was unread |
| TextStream.ReadStream.Filbuf | src/libc/ansi/stdio/filbuf.c:30-133 | serves the next byte, or end of file exactly when none is left; after a read error nothing is lost |
| TextStream.ReadStream.GetcRaw | include/libc/file.h:46-54 | serves the next byte of buffer and file |
| TextStream.ReadStream.Getc | include/libc/file.h:72-89 | serves the next character of the decoded stream, also when the buffer ends between carriage return and newline |
| TextStream.ReadStream.ReadAll | include/libc/file.h:72-89 | reading to the end gives the decoding of the bytes, however refills cut them |
| TextStream.WriteStream.WriteOut | src/libc/ansi/stdio/flsbuf.c:96-127 | everything is written in order, however the writes cut it, unless one fails |
| TextStream.WriteStream.PutLine | src/libc/ansi/stdio/flsbuf.c:63-82 | line buffering adds the character to what is written; a newline or a full buffer puts everything in the file, and any other character leaves the file alone |
| TextStream.WriteStream.PutFull | src/libc/ansi/stdio/flsbuf.c:90-133 | full buffering adds it too, and puts what was waiting in the file |
| TextStream.WriteStream.Flsbuf | src/libc/ansi/stdio/flsbuf.c:19-136 | so does every mode, also when the buffer cannot be allocated |
| TextStream.WriteStream.PutcRaw | include/libc/file.h:56-64 | adds the character cut to a byte |
| TextStream.WriteStream.Putc | include/libc/file.h:91-106 | adds the encoding of the character; a newline on a line-buffered stream and every character on an unbuffered one reach the file |
| TextStream.WriteStream.Fflush | src/libc/ansi/stdio/fflush.c:20-83 | everything written is in the file |
| TextFile.Save | include/libc/file.h:91-106 | a written file holds the encoding of the characters |
| TextFile.Load | include/libc/file.h:72-89 | reading a file gives the decoding of its visible part, for every buffer size and every pattern of reads |
| TextFile.SaveAndLoad | include/libc/file.h:46-106 | the exact round trip, through both buffers |
| DirectoryTree.OrderedUnique | src/makemake.c:49-55 | a sorted list of different names is determined by its members |
| DirectoryTree.StrLessIff | src/makemake.c:49-55 | the order of names is that of the first difference, with a prefix first |
| DirectoryTree.PathLessIff | src/makemake.c:134-139 | the order of paths is that of the first differing name, with a directory before what it holds |
| DirectoryTree.SubIs | src/makemake.c:78-102 | find descends exactly into the dot-free entries that are directories |
| DirectoryTree.WalkMembers | src/makemake.c:58-141 | below any directory the report has exactly the marked directories |
| DirectoryTree.WalkInOrder | src/makemake.c:134-139 | the report is strictly increasing in the order of paths |
| DirectoryTree.ReportIs | src/makemake.c:58-141 | find reports a directory if and only if it is below the top, reached through dot-free names and has an entry named makefile |
| DirectoryTree.ReportUnique | src/makemake.c:134-139 | membership and order determine the report, so the order of readdir does not show |
| MakefileFilter.FilterText | src/makemake.c:32-45 | the loop removes blank lines, then substitutes the path |
| MakefileFilter.FilterIs | src/makemake.c:32-45 | the output is the text without blank lines, cut at its ampersands and joined by the path |
| MakefileFilter.SubstConcat | src/makemake.c:37-44 | each part of a text is substituted on its own |
| MakefileFilter.SqueezeLines | src/makemake.c:34-36 | the lines that are not blank are kept, in order |
| MakefileFilter.SqueezeEnd | src/makemake.c:34-36 | the text still ends as it did |
| MakefileFilter.SqueezeTidy | src/makemake.c:34-36 | no newline is left at the start or after a newline |
| MakefileFilter.TidyFixed | src/makemake.c:34-36 | a text without blank lines is left as it is |
| MakefileFilter.TidyIff | src/makemake.c:32-45 | no output has a blank line if and only if the path is solid |
| MakefileFilter.FilterAgainIff | src/makemake.c:32-45 | filtering again with any path changes no output if and only if the path is solid and has no ampersand |
| MakefileFilter.FilterKeeps | src/makemake.c:37-44 | without newlines, the output is the input cut at its ampersands and joined by the path |
| MakefileFilter.MoveIfChange | src/makemake.c:144-168 | the file is replaced if and only if its contents change |
| Makemake.SplitPath | src/makemake.c:90-91 | a path can be read back from the buffer's string |
| Makemake.PathIsJoined | src/makemake.c:90-117 | the path in the buffer is the names of the directories with slashes between, behind a dot |
| Makemake.PathStringInjective | src/makemake.c:105-106 | different directories have different paths |
| Makemake.TopMakefile | src/makemake.c:105-106 | the test for the top makefile matches that entry alone |
| Makemake.AnySort | src/makemake.c:134 | any correct sort gives the order of the report |
| Makemake.PartIsTidy | src/makemake.c:122-125 | what is copied from a directory with plain names has no blank line, and filtering it again changes nothing |
| Makemake.MakefileIs | src/makemake.c:117 | the makefile is its target and, for each directory of the report, the line that runs make in that directory |
| Makemake.PartsAre | src/makemake.c:122-125 | each of the four outputs takes the file of its own name from each directory, filtered with the path of the directory |
| Makemake.Finder.Strcpy | src/makemake.c:90 | the buffer takes the string and keeps what is before it |
| Makemake.Finder.ProcessMakefile | src/makemake.c:19-47 | the output gains the filtered file, or nothing when there is none; the directory's path stays in front of the buffer |
| Makemake.Finder.Report | src/makemake.c:111-126 | one line, or four parts, for the directory |
| Makemake.Finder.Visit | src/makemake.c:81-128 | one entry adds its directory to the report if and only if it is the makefile and not at the top |
| Makemake.Finder.Scan | src/makemake.c:67-130 | the subdirectories of the directory, in the order of readdir |
| Makemake.Finder.Descend | src/makemake.c:135-139 | the reports of the subdirectories, in their order |
| Makemake.Finder.Find | src/makemake.c:58-141 | the report grows by that of the directory, the files written say what the report says, and the buffer holds the path it held |
| Makemake.Finder.Run | src/makemake.c:220-221 | the files written are those of the whole tree |

## Left out

- Prototype and constant headers, the ELF loader, the DPMI layer and the network code.
- Forms beyond the routines above: the form driver, validation, justification, options, growth and the fixed built-in types, which are taken as any set of unused types. Whether a field belongs to a form is a flag that may change at any time.
- Pointers passed to the form library are null or live, and the default field is passed to `set_field_type` alone.
- The wide-character parts of a field (`expanded`, `working`).
- Integer overflow of field and pad sizes; only the conversion of the buffer count to a short is modelled, and a total size that becomes negative is refused.
- Pair nodes and user arguments are values with addresses in a log, not objects; fields, types, windows, contexts, object tables and stream buffers are objects or arrays.
- A fault (a failed assertion or a wild access in `_nc_Copy_Argument`) ends a run: nothing is said about what follows it.
- FormHeap.Library.SetFieldType: between the release of the old type and the making of the new argument it clears the two dead pointers of the field, which the code overwrites later.
- Native curses calls (`newwin`, `derwin`, `delwin`, `copywin`), `Clone`, copy constructors and assignment of windows, which alias child lists. A parent pointer is constant because only constructors assign it.
- Streams open for both reading and writing, `ungetc`, seeking, append mode, terminal hooks and string streams for writing. A file that is written grows at its end.
- Whether `free32` accepts the pointer that stands for a null address: both answers are modelled, as a parameter.
- The contents of DOS objects and the registers of a call.
- Makemake.Finder.Find: requires that every path fits the buffer of 2000 characters, which the code does not check, a finite tree whose directories can be opened, and that every `stat` succeeds; after one that fails the code takes the mode of the entry before.
- `main` of makemake apart from the walk and `move_if_change`.
