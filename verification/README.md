# Verification of the reference models and protocols

A Dafny model of the parts of the repository with the most demanding behaviour, with proofs of what
they promise. `dafny verify dfyconfig.toml` checks the whole project.

- **Verified deployment** (`Paths`, `DeployModel`, `DeployFacts`, `DeploySteps`, `DeployPlan`,
  `DeployWhole`, `DeployChoices`, `DeployCampaign`, `DeployCut`, `Deploy`, `Manifest`,
  `ManifestPaths`, `BackupTree`). A target is a volatile and a durable tree from paths to hashes; a
  flush of a directory makes all its entries durable. Between any two steps of the program a
  schedule may flush, let another program write, raise, kill the process or cut the power; the
  theorems hold for every schedule. A hash stands for a content. The final comparison and the rename
  of a replacement are one step, since the module does not fence other writers. The directories that
  exist before a deployment are a parameter.
- **Correct rounding** (`VuFormat`, `VuRound`, `VuIeee`, `VuZiv`, `VuConverge`, `VuBf16`, `VuNaN`,
  `VuSum`, `VuSumCases`). Values are reals in units of 2^-149, the least single-precision subnormal.
  The reference rounding picks a neighbour on the grid of the format; it is shown to be the rounding
  of IEEE 754-2019, and the code is shown to compute it. Evaluations of the arbitrary-precision
  library are an oracle that gives directed bounds.
- **Device trees** (`FdtSpec`, `FdtWalk`, `FdtRuns`, `FdtDelete`, `Fdt`). Trees, their encoding in
  the structure block, the walk over tags with and without a depth, and the deletion of a node in
  place on the bytes.
- **Vector engine** (`VRegs`, `PermuteSpec`, `Permute`, `FixedPoint`, `LoadStoreSpec`,
  `LoadStoreTransfer`, `LoadStore`, `Gf2`, `Ghash`, `AesByte`, `AesColumn`, `AesSbox`, `AesPoly`,
  `AesField`, `Aes`, `AesStandard`, `Sha2`, `Sha2Bits`, `Sha2Standard`). Registers are bytes of one
  register file that the instructions change in place. The 128-bit words of GHASH are sequences of
  bits, lowest first, and the bytes of AES are grouped into columns. SHA-2 is stated for any word
  operations; `Sha2.Sha256` and `Sha2.Sha512` are those of the two word sizes, which `Sha2Bits`
  describes bit by bit.
- **Enumeration of test operands** (`GenCases`). Random draws are arbitrary values, tables are
  arbitrary.
- **Generators** (`Params`, `Mmio`, `DirectedListSpec`, `DirectedSync`, `DirectedLayout`,
  `DirectedList`). Names are strings; parameter values and case lists are tokens: what the regular
  expressions find in them. The emitted address decode is modelled by what it does.

`Options` and `Powers` are shared helpers.

## Where the code does not do what it is for

Each of these follows the code; the condition under which the purpose is met is proved.

- A rollback that is cut between the rename and the flush of a row leaves it restored in memory only.
  The next rollback finds it restored and skips it. It is made durable all the same if it lies in the
  root or beside a row that this rollback restores, since those directories are flushed first; if not,
  the rollback reports success although a power loss would bring the candidate back
  (`Deploy.CutRollbackIsNotDurable`). `Deploy.World.Rollback` has the exact condition for durability and
  for the disk to stay at the steps of the deployment, `Deploy.World.Campaign` that for whole runs.
- `vector_load_store` returns zero both when it completes and when element zero faults. It tells the
  two apart exactly when it starts later, has nothing to do or skips element zero
  (`LoadStoreSpec.ZeroIsAmbiguous`).
- `vector_crypto` starts its views at the first element group whatever `eg_start` is, so the SHA-2
  instructions process the wrong groups when `0 < eg_start < eg_len` (`Sha2.PurposeMet`,
  `Sha2.PurposeMissed`).
- `sync_directed_list` refuses its own output when another `case_name=` is found in a path, a plusarg or
  an argument of a selected scene (`DirectedSync.SyncedParses`). Its loop also looks at lines inside
  blocks: a begin marker of a selected scene inside a block that is not selected sends it to the end of
  that scene's own block. Then it fails, comes back to a line where it has been and goes on for ever
  (`DirectedList.TangledLoop`), or ends with a list that is refused. So a list that parses is
  synchronized if and only if there is no such marker, no scene is owned by a line outside the blocks
  and every selected scene is clean (`DirectedList.SyncDirectedList`). The outcome `NoEnd` stands for a
  loop without end.

## Model

| member | source | states |
|---|---|---|
| Deploy.World.Campaign | st/sim_rtl/uvm_tb/axi4_vip_adapter/scripts/deploy_verified.py:325-472 | One deployment and then any number of rollbacks, under every schedule of failures, kills, power losses, flushes by the system and foreign writes: only listed rows are written, each from its baseline to its candidate or back; with no foreign write to a listed path, after every step the target is untouched or the backup is complete and every listed path holds its baseline or its candidate, in memory and on disk. Unless a restore is cut (a kill or an exception between its rename and its flush), memory and disk are also between k and k + 1 replacements after every step, and a rollback that completes restores durably; if the system flushes nothing by itself, the first holds if and only if every rollback that restores a row starts with each row durable or in a directory that it flushes, and the second if and only if the last one does |
| Deploy.World.Deploy | st/sim_rtl/uvm_tb/axi4_vip_adapter/scripts/deploy_verified.py:387-472 | Before the backup is complete nothing is written; afterwards only replacements of a baseline by its candidate, or their undoing by the automatic rollback, with memory and disk between k and k + 1 replacements all the time; one that succeeds leaves every row applied and durable, and was acceptable; one that is acceptable succeeds unless an event within its number of steps ends it; one that fails leaves every listed path as it was, in memory and on disk, unless a second event hits the automatic rollback; unless the automatic rollback is cut, every visible baseline is durable at the end |
| Deploy.World.Rollback | st/sim_rtl/uvm_tb/axi4_vip_adapter/scripts/deploy_verified.py:325-384 | A rollback writes only over candidates; it keeps every path at its baseline or candidate; one that completes leaves the visible contents from before the deployment, and, if the system flushes nothing by itself, leaves a row durable if and only if it was not restored in memory only or its directory is the root or that of a changed row; the same condition for all rows, or that nothing is written, decides whether the disk stays between two neighbouring stages; it is cut exactly where the process ends at the second event of a row; only an event can stop one that meets no obstacle |
| Deploy.World.PlanRollback | st/sim_rtl/uvm_tb/axi4_vip_adapter/scripts/deploy_verified.py:337-361 | The checks of a rollback change nothing, and the rows they list are exactly the changed ones that hold their candidate; they pass only if the backup holds the original of every replaced row |
| Deploy.World.ProbeTarget | st/sim_rtl/uvm_tb/axi4_vip_adapter/scripts/deploy_verified.py:232-243 | The directories are flushed, which makes everything in them durable and changes nothing that is visible |
| Deploy.World.PrepareRollback | st/sim_rtl/uvm_tb/axi4_vip_adapter/scripts/deploy_verified.py:337-363 | After the checks and the flushes, the rows in the root and in the directories of the rows to restore are durable, and without flushes by the system the others are as they were |
| Deploy.World.RestoreRows | st/sim_rtl/uvm_tb/axi4_vip_adapter/scripts/deploy_verified.py:364-375 | Rows are restored in reverse order, so that the disk stays between two neighbouring stages of the deployment; a cut leaves later rows restored, its own row restored in memory only, and earlier rows to the system |
| Deploy.World.RestoreRow | st/sim_rtl/uvm_tb/axi4_vip_adapter/scripts/deploy_verified.py:367-375 | One row goes from its candidate to its baseline, or stays as it is; it is cut exactly when a kill or an exception comes between the rename and the flush |
| Deploy.World.ReplaceChecked | st/sim_rtl/uvm_tb/axi4_vip_adapter/scripts/deploy_verified.py:276-293 | A path is written only when it holds the expected content; after success the new content is visible and durable |
| Deploy.World.Preflight | st/sim_rtl/uvm_tb/axi4_vip_adapter/scripts/deploy_verified.py:297-322 | Preflight writes nothing; without foreign writes it accepts if and only if the workbook is permitted, a staged workbook is current, every candidate is staged and every path holds its baseline or its candidate, unless an event ends it; its rows have the action that each content calls for |
| Deploy.World.CopyOriginals | st/sim_rtl/uvm_tb/axi4_vip_adapter/scripts/deploy_verified.py:418-425 | The originals are copied and compared before anything is written to the target |
| DeployChoices.AcceptedIs | st/sim_rtl/uvm_tb/axi4_vip_adapter/scripts/deploy_verified.py:297-322 | Preflight accepts if and only if the workbook is the current one, or the previous one in a migration, a staged workbook is the current one, and every entry is staged and meets its baseline or its candidate |
| DeployChoices.ActionIs | st/sim_rtl/uvm_tb/axi4_vip_adapter/scripts/deploy_verified.py:310-314 | An entry that is deployed already is skipped, a new file is added, any other one is replaced |
| DeployChoices.NearestFolderIs | st/sim_rtl/uvm_tb/axi4_vip_adapter/scripts/deploy_verified.py:238-240 | Walking up from a directory gives the longest existing directory on the way to it, or the root |
| DeployChoices.DeployDirsAre | st/sim_rtl/uvm_tb/axi4_vip_adapter/scripts/deploy_verified.py:232-243 | Before anything is written, exactly the root and, for every row to change, the nearest existing directory are flushed |
| Deploy.World.Apply | st/sim_rtl/uvm_tb/axi4_vip_adapter/scripts/deploy_verified.py:442-459 | Rows are applied in order; the disk is at stage k or k + 1 after every step, and every visible baseline stays durable, however it ends |
| Deploy.World.CheckApplied | st/sim_rtl/uvm_tb/axi4_vip_adapter/scripts/deploy_verified.py:456-459 | The final checks write nothing; when they pass, every row has held its candidate at one of their steps and the workbook is the current one |
| Deploy.CutRollbackIsNotDurable | st/sim_rtl/uvm_tb/axi4_vip_adapter/scripts/deploy_verified.py:325-384 | A run of a deployment and two rollbacks with a single kill, between the rename and the flush of a row, for every acceptable manifest of two files to replace in two directories below the root: the second rollback reports success, yet that row is not durable, and the disk is at no step of the deployment |
| DeployCut.ExampleIsValid | st/sim_rtl/uvm_tb/axi4_vip_adapter/scripts/deploy_verified.py:81-138 | There is such a manifest: its paths and hashes pass the checks of the manifest |
| DeployPlan.UnsoundShows | st/sim_rtl/uvm_tb/axi4_vip_adapter/scripts/deploy_verified.py:357-375 | A rollback that starts with a row restored in memory only, whose directory it does not flush, leaves the steps of the deployment if its history shows what RestoreRows ensures once a row is written; Deploy.World.Rollback draws the conclusion without that hypothesis |
| DeploySteps.RestoresClean | st/sim_rtl/uvm_tb/axi4_vip_adapter/scripts/deploy_verified.py:285-291 | A restored row leaves every visible baseline durable unless it is cut |
| DeploySteps.AppliesClean | st/sim_rtl/uvm_tb/axi4_vip_adapter/scripts/deploy_verified.py:285-291 | Applying a row leaves every visible baseline durable, however it ends |
| DeploySteps.RenamedRowIsUnclean | st/sim_rtl/uvm_tb/axi4_vip_adapter/scripts/deploy_verified.py:290-291 | Between the rename and the flush a restored row is visible only in memory |
| DeployFacts.RestoredWorkbookIsExpected | st/sim_rtl/uvm_tb/axi4_vip_adapter/scripts/deploy_verified.py:376-380 | After every row is restored, the workbook is the one that the rollback checks for |
| BackupTree.FlushFolder | st/sim_rtl/uvm_tb/axi4_vip_adapter/scripts/deploy_verified.py:214-228 | A directory is walked from the inside out: its directories, its files, then itself; the walk completes if and only if there is no link and no special file |
| BackupTree.FlushesAll | st/sim_rtl/uvm_tb/axi4_vip_adapter/scripts/deploy_verified.py:218-228 | A walk flushes the directory and all that lies below it, and nothing else |
| BackupTree.FlushedIsComplete | st/sim_rtl/uvm_tb/axi4_vip_adapter/scripts/deploy_verified.py:218-228 | Every directory of the backup is flushed after all that lies below it |
| BackupTree.DurableBackup | st/sim_rtl/uvm_tb/axi4_vip_adapter/scripts/deploy_verified.py:214-229 | The entry of the backup in the directory that holds it is flushed only when everything in the backup has been |
| Manifest.LoadManifest | st/sim_rtl/uvm_tb/axi4_vip_adapter/scripts/deploy_verified.py:92-138 | Exactly the manifests with valid, distinct paths and hashes are accepted in which no listed path is an ancestor of another |
| Manifest.HasListedAncestor | st/sim_rtl/uvm_tb/axi4_vip_adapter/scripts/deploy_verified.py:134-139 | Walking up from a path finds a listed ancestor if there is one |
| Manifest.AncestorsOfParent | st/sim_rtl/uvm_tb/axi4_vip_adapter/scripts/deploy_verified.py:135-139 | The ancestors of a path are its parent and the ancestors of its parent |
| ManifestPaths.NormalizedIs | st/sim_rtl/uvm_tb/axi4_vip_adapter/scripts/deploy_verified.py:81-86 | A path is normalized if and only if it is not empty, has no backslash and no NUL, and no stretch between slashes is empty, a dot or two dots |
| ManifestPaths.ProtectedIs | st/sim_rtl/uvm_tb/axi4_vip_adapter/scripts/deploy_verified.py:63-95 | A path is protected if and only if a component is a build directory or ends like a build product, the last one is a build file, or it starts in a configuration directory, whatever the case of the letters |
| ManifestPaths.HashIs | st/sim_rtl/uvm_tb/axi4_vip_adapter/scripts/deploy_verified.py:62-62 | A hash is 64 lower-case hexadecimal digits |
| VuRound.MpfrToValue | st/core_ref/uvm_tb/vu_inst_lib/dpi/vu_math.c:225-308 | Scaling to an integer significand with guard bits gives the neighbour that the mode picks in the format, for every value, side, format and mode, with subnormals, binade edges and overflow; NaNs, infinities, overflow and the layout of the bits are stated by the VuNaN rows |
| VuRound.ScaleAndRound | st/core_ref/uvm_tb/vu_inst_lib/dpi/vu_math.c:266-308 | The scaled significand is rounded to the index of the reference rounding |
| VuRound.Repack | st/core_ref/uvm_tb/vu_inst_lib/dpi/vu_math.c:295-308 | Packing exponent and fraction, with the carry into the next binade, gives the numerical index of the result |
| VuRound.RoundedSignificand | st/core_ref/uvm_tb/vu_inst_lib/dpi/vu_math.c:266-294 | The fraction and half comparisons of the significand are those of the reference rounding |
| VuRound.ZeroRounds | st/core_ref/uvm_tb/vu_inst_lib/dpi/vu_math.c:244-253 | A zero with a side rounds to zero or to the least subnormal |
| VuRound.OverflowRounds | st/core_ref/uvm_tb/vu_inst_lib/dpi/vu_math.c:214-265 | Magnitudes beyond the exponent range round to the largest finite number or to infinity, as the mode says |
| VuNaN.NaNRounds | st/core_ref/uvm_tb/vu_inst_lib/dpi/vu_math.c:241-242 | A NaN converts to the pattern with a clear sign, a set quiet bit and nothing else in its fraction, in both formats and every mode, and these bits decode to a NaN |
| VuNaN.OnlyNaNRounds | st/core_ref/uvm_tb/vu_inst_lib/dpi/vu_math.c:225-308 | The bits of a conversion decode to a NaN if and only if the value is one |
| VuNaN.InfinityRounds | st/core_ref/uvm_tb/vu_inst_lib/dpi/vu_math.c:247-248 | An infinity converts to bits that decode to it |
| VuNaN.OverflowBits | st/core_ref/uvm_tb/vu_inst_lib/dpi/vu_math.c:214-223 | A result that is too large for the format becomes the largest finite number in the modes that go toward zero there, and infinity in all others |
| VuNaN.SignAndMagnitude | st/core_ref/uvm_tb/vu_inst_lib/dpi/vu_math.c:243-308 | The converted bits are the sign of the value and its rounded magnitude |
| VuNaN.DecodesNumber | st/core_ref/uvm_tb/vu_inst_lib/dpi/vu_math.c:9-14 | A pattern with a sign, an exponent and a fraction has the value of IEEE 754-2019 section 3.4, subnormal or not |
| VuNaN.DecodesNaN | st/core_ref/uvm_tb/vu_inst_lib/dpi/vu_math.c:23-27 | A pattern is a NaN if and only if all bits of its exponent are set and its fraction is not zero |
| VuIeee.RoundIndexIsCorrect | st/core_ref/uvm_tb/vu_inst_lib/dpi/vu_math.c:225-308 | The reference rounding meets the rounding-direction rules of IEEE 754-2019 section 4.3, and the tie-to-odd rule, on every magnitude |
| VuIeee.CorrectlyRoundedUnique | st/core_ref/uvm_tb/vu_inst_lib/dpi/vu_math.c:225-308 | Those rules allow one result only |
| VuZiv.RoundMonotone | st/core_ref/uvm_tb/vu_inst_lib/dpi/vu_math.c:225-308 | Rounding keeps the order of values with infinitesimal sides, across signs and zeros |
| VuZiv.AgreeingBoundsAreCorrect | st/core_ref/uvm_tb/vu_inst_lib/dpi/vu_math.c:394-404 | Two directed bounds that round to the same bits round to the bits of the exact result |
| VuZiv.Attempt | st/core_ref/uvm_tb/vu_inst_lib/dpi/vu_math.c:385-405 | One pass of the loop either gives the correct bits or has two bounds that disagree |
| VuZiv.MathResult | st/core_ref/uvm_tb/vu_inst_lib/dpi/vu_math.c:353-410 | When the loop ends, the bits are the correctly rounded exact result; it goes on only while the bounds disagree; arguments beyond 256 take the shortcut, which is correct as well |
| VuNaN.NaNResult | st/core_ref/uvm_tb/vu_inst_lib/dpi/vu_math.c:353-410 | The correct bits of an operation decode to a NaN if and only if its exact result is one |
| VuNaN.ZeroResult | st/core_ref/uvm_tb/vu_inst_lib/dpi/vu_math.c:392-397 | A zero that terms of both signs cancel to is negative only toward minus infinity; any other zero keeps its sign |
| VuConverge.LoopCloses | st/core_ref/uvm_tb/vu_inst_lib/dpi/vu_math.c:385-405 | With bounds that converge on the exact result, the loop closes at some precision if and only if some precision gives exact bounds, or the result is no breakpoint of the mode below 2^128 |
| VuConverge.BoundaryIsBreakpoint | st/core_ref/uvm_tb/vu_inst_lib/dpi/vu_math.c:225-308 | The direction of an infinitesimal change decides the rounding of a value exactly if its magnitude is below 2^128 and representable, for the directed modes, or halfway between two neighbours, for the others |
| VuConverge.Breakpoints | st/core_ref/uvm_tb/vu_inst_lib/dpi/vu_math.c:225-308 | The reference rounding changes from below to above a magnitude exactly at representable magnitudes in the directed modes and halfway between two neighbours in the others |
| VuConverge.NearRounds | st/core_ref/uvm_tb/vu_inst_lib/dpi/vu_math.c:225-308 | Every value has a neighbourhood on each side in which everything rounds alike |
| VuZiv.ShortcutResult | st/core_ref/uvm_tb/vu_inst_lib/dpi/vu_math.c:367-383 | The substitutes for arguments beyond 256 round like the exact result |
| VuZiv.SaturatedRounds | st/core_ref/uvm_tb/vu_inst_lib/dpi/vu_math.c:371-378 | Results just below one round like one minus an infinitesimal |
| VuZiv.VanishingRounds | st/core_ref/uvm_tb/vu_inst_lib/dpi/vu_math.c:379-383 | Results below 2^-256 round like the substitute |
| VuBf16.BitTrickIsCorrect | st/core_ref/uvm_tb/vu_inst_lib/dpi/vu_math.c:34-84 | The increment trick on the upper half agrees with the general conversion on the exact value, for every pattern that is no NaN and every mode |
| VuBf16.WidenIsExact | st/core_ref/uvm_tb/vu_inst_lib/dpi/vu_math.c:29-32 | Widening a bfloat16 number to single precision keeps its value |
| VuBf16.WidenNarrow | st/core_ref/uvm_tb/vu_inst_lib/dpi/vu_math.c:29-84 | Narrowing undoes widening in every mode for every pattern; a signalling NaN comes back quiet |
| VuBf16.MemoryConversion | st/core_ref/uvm_tb/vu_inst_lib/dpi/vu_math.c:86-94 | Stores round like other conversions but keep finite values finite |
| VuNaN.NaNNarrows | st/core_ref/uvm_tb/vu_inst_lib/dpi/vu_math.c:44-47 | Narrowing a NaN, also on a store, keeps its sign and the upper part of its fraction, sets the quiet bit and gives bits that decode to a NaN |
| VuNaN.OnlyNaNNarrows | st/core_ref/uvm_tb/vu_inst_lib/dpi/vu_math.c:34-94 | Narrowing gives a NaN if and only if the operand is one; the mode counts modulo 8 |
| VuBf16.RoundIsIdentityOnFormat | st/core_ref/uvm_tb/vu_inst_lib/dpi/vu_math.c:225-308 | The general conversion gives back the bits of representable values |
| VuSum.Accumulator.constructor | st/core_ref/uvm_tb/vu_inst_lib/dpi/vu_math.c:659-670 | The accumulator starts at its initial value |
| VuSum.Accumulator.Add | st/core_ref/uvm_tb/vu_inst_lib/dpi/vu_math.c:672-682 | The 512-bit register holds the exact sum after every term, with infinities, NaNs and the sign of zero |
| VuSum.Accumulator.Finish | st/core_ref/uvm_tb/vu_inst_lib/dpi/vu_math.c:684-695 | The result is one rounding of the exact sum |
| VuSum.AddIsExact | st/core_ref/uvm_tb/vu_inst_lib/dpi/vu_math.c:672-682 | The rounding addition of the library is exact while the register is wide enough |
| VuSum.SumFits | st/core_ref/uvm_tb/vu_inst_lib/dpi/vu_math.c:665-666 | Up to 2^234 finite terms fit the register |
| VuSum.CapacityIsEnough | st/core_ref/uvm_tb/vu_inst_lib/dpi/vu_math.c:665-665 | That is more than 16384 |
| VuSum.OrderIndependent | st/core_ref/uvm_tb/vu_inst_lib/dpi/vu_math.c:654-695 | The result, and the sign of a zero result, do not depend on the order of the terms |
| VuSumCases.SpecialSum | st/core_ref/uvm_tb/vu_inst_lib/dpi/vu_math.c:672-695 | A NaN among the terms, or two infinities of different signs, give the quiet NaN; otherwise an infinity gives itself |
| VuSumCases.FiniteSum | st/core_ref/uvm_tb/vu_inst_lib/dpi/vu_math.c:672-695 | A sum of finite terms that is not zero is the real sum of their values, rounded once |
| VuSumCases.ZeroSum | st/core_ref/uvm_tb/vu_inst_lib/dpi/vu_math.c:684-695 | A zero sum of zeros of one sign keeps that sign; any other one is positive, and negative when rounding is toward minus infinity |
| FdtSpec.TagAt | verify_tools/vip/vector_rm/spike/riscv-isa-sim/fdt/fdt.c:131-182 | One tag: the next one lies after it and is aligned |
| FdtSpec.ScanFrom | verify_tools/vip/vector_rm/spike/riscv-isa-sim/fdt/fdt.c:211-239 | The next node is a begin tag at or after the offset; past the end of the starting node the depth is -1 and the offset lies inside the block; which nodes are found is stated by the FdtRuns rows and by FdtWalk.FullWalkListsNodes |
| FdtSpec.WalkAfterScans | verify_tools/vip/vector_rm/spike/riscv-isa-sim/fdt/fdt.c:202-240 | Asking for the next node again and again scans the tags of the block once |
| FdtWalk.FullWalkListsNodes | verify_tools/vip/vector_rm/spike/riscv-isa-sim/fdt/fdt.c:202-240 | A walk over an encoded tree visits its nodes in document order, with their depths |
| FdtRuns.NextIsListed | verify_tools/vip/vector_rm/spike/riscv-isa-sim/fdt/fdt.c:202-240 | In every block that encodes a tree, asking without a depth from before the first node gives exactly the offsets of the listing, one after the other, and then that there is none |
| FdtRuns.RunVisitsNodes | verify_tools/vip/vector_rm/spike/riscv-isa-sim/fdt/fdt.c:202-240 | With and without a depth the repeated search visits exactly the nodes of the encoded items in document order, and then gives what the end of the block calls for: not found, truncated or bad structure |
| FdtRuns.NextWithout | verify_tools/vip/vector_rm/spike/riscv-isa-sim/fdt/fdt.c:216-239 | With and without a depth the same next node is found as long as the depth does not become negative; only a truncated block is reported differently |
| FdtRuns.Refused | verify_tools/vip/vector_rm/spike/riscv-isa-sim/fdt/fdt.c:184-191 | An offset is refused if and only if it is not aligned or holds no begin tag with a name that ends |
| FdtRuns.OpenNodeFails | verify_tools/vip/vector_rm/spike/riscv-isa-sim/fdt/fdt_wip.c:73-81 | The search for the end of a node whose body ends before its end tag gives the error of what follows |
| FdtWalk.NodeEndIsPastNode | verify_tools/vip/vector_rm/spike/riscv-isa-sim/fdt/fdt_wip.c:73-81 | The search for the end of a node stops just past the end tag that matches its begin tag |
| FdtDelete.DeleteEncodes | verify_tools/vip/vector_rm/spike/riscv-isa-sim/fdt/fdt_wip.c:51-57 | Overwriting the bytes of a node with NOP tags gives the encoding of the tree with fillers in its place |
| FdtDelete.DeleteLists | verify_tools/vip/vector_rm/spike/riscv-isa-sim/fdt/fdt_wip.c:83-94 | That tree lists the same nodes and depths without those of the deleted subtree |
| FdtDelete.FoundIffListed | verify_tools/vip/vector_rm/spike/riscv-isa-sim/fdt/fdt.c:202-240 | A node is found in the tree at exactly the offsets that a walk visits |
| Fdt.NopNodeRemovesSubtree | verify_tools/vip/vector_rm/spike/riscv-isa-sim/fdt/fdt_wip.c:73-94 | After a deletion in place a full walk gives the original nodes and depths minus exactly that subtree, for every tree and every node |
| Fdt.Blob.NextTag | verify_tools/vip/vector_rm/spike/riscv-isa-sim/fdt/fdt.c:131-182 | The tag reader gives the tag and the next offset, or the error, for arbitrary bytes |
| Fdt.Blob.CheckNodeOffset | verify_tools/vip/vector_rm/spike/riscv-isa-sim/fdt/fdt.c:184-191 | Offsets that hold no begin tag are refused |
| Fdt.Blob.NextNode | verify_tools/vip/vector_rm/spike/riscv-isa-sim/fdt/fdt.c:202-240 | The loop gives the next node and depth, for arbitrary bytes: that of FdtSpec.NextNode, which the FdtRuns rows describe |
| Fdt.Blob.NodeEndOffset | verify_tools/vip/vector_rm/spike/riscv-isa-sim/fdt/fdt_wip.c:73-81 | The loop gives the end of the node, and ends for arbitrary bytes |
| Fdt.Blob.NopRegion | verify_tools/vip/vector_rm/spike/riscv-isa-sim/fdt/fdt_wip.c:51-57 | Exactly the bytes of the region become NOP tags |
| Fdt.Blob.NopNode | verify_tools/vip/vector_rm/spike/riscv-isa-sim/fdt/fdt_wip.c:83-94 | The node is overwritten and nothing around it; errors change nothing; for every tree that the block encodes and every node of it the walk over the new bytes is the old one without that subtree |
| Ghash.Brev8 | verify_tools/vip/vector_generator/Minres/softvector/src/crypto_util.h:103-114 | The three swaps reverse the bits of every byte of the word |
| Ghash.Multiply | verify_tools/vip/vector_generator/Minres/softvector/src/vector_functions.cpp:95-103 | The shift-and-reduce loop gives the remainder of the product of the two polynomials |
| Ghash.Vgmul | verify_tools/vip/vector_generator/Minres/softvector/src/vector_functions.cpp:91-106 | VGMUL multiplies two blocks in GF(2^128), NIST SP 800-38D section 6.3 |
| Ghash.Vghsh | verify_tools/vip/vector_generator/Minres/softvector/src/vector_functions.cpp:145-160 | VGHSH multiplies the sum of the hash and the block by the hash key |
| Ghash.ProductUnique | verify_tools/vip/vector_generator/Minres/softvector/src/vector_functions.cpp:91-106 | The product is determined |
| Ghash.ProductCommutes | verify_tools/vip/vector_generator/Minres/softvector/src/vector_functions.cpp:91-106 | VGMUL is commutative |
| Ghash.ProductLinear | verify_tools/vip/vector_generator/Minres/softvector/src/vector_functions.cpp:91-160 | Both instructions are linear with respect to exclusive or |
| Ghash.VghshChain | verify_tools/vip/vector_generator/Minres/softvector/src/vector_functions.cpp:145-160 | Chaining VGHSH from zero over any number of blocks gives GHASH of the blocks, NIST SP 800-38D section 6.4 |
| Ghash.GhashSumLast | verify_tools/vip/vector_generator/Minres/softvector/src/vector_functions.cpp:145-160 | The sum of powers and the nested form of GHASH agree |
| Gf2.RemainderUnique | verify_tools/vip/vector_generator/Minres/softvector/src/vector_functions.cpp:96-103 | A polynomial has one remainder |
| Gf2.ProductComm | verify_tools/vip/vector_generator/Minres/softvector/src/vector_functions.cpp:96-103 | Multiplication of polynomials commutes |
| Aes.DecryptEncrypt | verify_tools/vip/vector_generator/Minres/softvector/src/vector_functions.cpp:54-88 | VAESZ, VAESEM and VAESEF are undone by VAESZ, VAESDM and VAESDF with the same keys from the last to the first, for any number of rounds and any keys |
| Aes.RoundBack | verify_tools/vip/vector_generator/Minres/softvector/src/vector_functions.cpp:54-76 | One decryption round undoes one encryption round, between the halves of the rounds around it |
| Aes.ShiftRowsMoves | verify_tools/vip/vector_generator/Minres/softvector/src/crypto_util.cpp:197-211 | Row r moves left by r bytes, FIPS 197 section 5.1.2 |
| Aes.ShiftRowsBack | verify_tools/vip/vector_generator/Minres/softvector/src/crypto_util.cpp:197-227 | The two row shifts are inverse to each other |
| AesColumn.UnmixColumn | verify_tools/vip/vector_generator/Minres/softvector/src/crypto_util.cpp:77-99 | The inverse column mixing undoes the column mixing |
| AesByte.GfmulLinear | verify_tools/vip/vector_generator/Minres/softvector/src/crypto_util.cpp:60-67 | Multiplication by a constant is linear |
| AesPoly.GfmulMultiplies | verify_tools/vip/vector_generator/Minres/softvector/src/crypto_util.cpp:60-67 | Multiplication by a constant below 16 is multiplication modulo x^8 + x^4 + x^3 + x + 1 |
| AesSbox.DecryptsSbox | verify_tools/vip/vector_generator/Minres/softvector/src/crypto_util.cpp:126-152 | The decryption table undoes the encryption table |
| AesSbox.EncryptsSbox | verify_tools/vip/vector_generator/Minres/softvector/src/crypto_util.cpp:126-152 | The encryption table undoes the decryption table |
| AesField.SboxIsAffineInverse | verify_tools/vip/vector_generator/Minres/softvector/src/crypto_util.cpp:126-139 | The encryption table is the affine map of the inverse in GF(2^8), with zero for zero, FIPS 197 section 5.1.1 |
| AesField.TimesMultiplies | verify_tools/vip/vector_generator/Minres/softvector/src/crypto_util.cpp:60-67 | The product of any two bytes, from the doublings of one of them, is the remainder of the product of the polynomials |
| AesStandard.MixedByteMultiplies | verify_tools/vip/vector_generator/Minres/softvector/src/crypto_util.cpp:77-90 | A byte of a mixed column is the remainder of the sum of products of the column with {03}x^3 + {01}x^2 + {01}x + {02} modulo x^4 + 1, FIPS 197 section 5.1.3 |
| AesStandard.MixColumnsIs | verify_tools/vip/vector_generator/Minres/softvector/src/crypto_util.cpp:245-251 | The column mixing puts these bytes into the state, read byte by byte |
| AesStandard.ShiftRowsIs | verify_tools/vip/vector_generator/Minres/softvector/src/crypto_util.cpp:197-211 | The row shift moves the bytes of the state as in FIPS 197 section 5.1.2 |
| AesStandard.RoundIs | verify_tools/vip/vector_generator/Minres/softvector/src/vector_functions.cpp:69-88 | VAESEM, VAESEF and VAESZ are the middle round, the last round and the addition of the first key of FIPS 197 section 5.1, on bytes |
| AesStandard.EncryptIsCipher | verify_tools/vip/vector_generator/Minres/softvector/src/vector_functions.cpp:69-88 | VAESZ, VAESEM and VAESEF compute the cipher of FIPS 197 section 5.1 on the bytes of the block, for any number of rounds and any round keys |
| Sha2.Vsha2cl | verify_tools/vip/vector_generator/Minres/softvector/src/vector_functions.hpp:2149-2185 | Two rounds with the first two words; the other register then holds the rest of the state |
| Sha2.Vsha2ch | verify_tools/vip/vector_generator/Minres/softvector/src/vector_functions.hpp:2112-2148 | Two rounds with the last two words |
| Sha2.Vsha2ms | verify_tools/vip/vector_generator/Minres/softvector/src/vector_functions.hpp:2186-2212 | Four more words of the schedule |
| Sha2.Compress | verify_tools/vip/vector_generator/Minres/softvector/src/vector_functions.hpp:2112-2185 | Alternating the two instructions runs the rounds of FIPS 180-4 section 6.2.2 for any number of groups, for both word sizes |
| Sha2.MessageSchedule | verify_tools/vip/vector_generator/Minres/softvector/src/vector_functions.hpp:2186-2212 | Iterating VSHA2MS gives the message schedule of FIPS 180-4 section 6.2.2 for every t |
| Sha2Bits.Sum0Bits32 | verify_tools/vip/vector_generator/Minres/softvector/src/crypto_util.h:70-79 | Bit i of the first sum of SHA-256 is the exclusive or of bits i + 2, i + 13 and i + 22 modulo 32 |
| Sha2Bits.Sum1Bits32 | verify_tools/vip/vector_generator/Minres/softvector/src/crypto_util.h:70-82 | Bit i of the second sum of SHA-256 is that of bits i + 6, i + 11 and i + 25 modulo 32 |
| Sha2Bits.Sig0Bits32 | verify_tools/vip/vector_generator/Minres/softvector/src/crypto_util.h:70-87 | Bit i of the first schedule function of SHA-256 is that of bits i + 7 and i + 18 modulo 32 and of bit i + 3, if there is one |
| Sha2Bits.Sig1Bits32 | verify_tools/vip/vector_generator/Minres/softvector/src/crypto_util.h:70-90 | Bit i of the second schedule function of SHA-256 is that of bits i + 17 and i + 19 modulo 32 and of bit i + 10, if there is one |
| Sha2Bits.ChooseBits32 | verify_tools/vip/vector_generator/Minres/softvector/src/crypto_util.h:84-84 | A bit of the choice of SHA-256 is that of the second word where the first has a one, and that of the third elsewhere |
| Sha2Bits.MajorityBits32 | verify_tools/vip/vector_generator/Minres/softvector/src/crypto_util.h:85-85 | A bit of the majority of SHA-256 is the one that at least two words have |
| Sha2Bits.AddValue32 | verify_tools/vip/vector_generator/Minres/softvector/src/vector_functions.hpp:2112-2212 | The addition of SHA-256 is addition of the numbers modulo 2^32 |
| Sha2Bits.Sum0Bits64 | verify_tools/vip/vector_generator/Minres/softvector/src/crypto_util.h:70-80 | The same for SHA-512 with bits i + 28, i + 34 and i + 39 modulo 64 |
| Sha2Bits.Sum1Bits64 | verify_tools/vip/vector_generator/Minres/softvector/src/crypto_util.h:70-83 | The same for SHA-512 with bits i + 14, i + 18 and i + 41 modulo 64 |
| Sha2Bits.Sig0Bits64 | verify_tools/vip/vector_generator/Minres/softvector/src/crypto_util.h:70-88 | The same for SHA-512 with bits i + 1 and i + 8 modulo 64 and bit i + 7 |
| Sha2Bits.Sig1Bits64 | verify_tools/vip/vector_generator/Minres/softvector/src/crypto_util.h:70-91 | The same for SHA-512 with bits i + 19 and i + 61 modulo 64 and bit i + 6 |
| Sha2Bits.ChooseBits64 | verify_tools/vip/vector_generator/Minres/softvector/src/crypto_util.h:84-84 | The choice of SHA-512, bit by bit |
| Sha2Bits.MajorityBits64 | verify_tools/vip/vector_generator/Minres/softvector/src/crypto_util.h:85-85 | The majority of SHA-512, bit by bit |
| Sha2Bits.AddValue64 | verify_tools/vip/vector_generator/Minres/softvector/src/vector_functions.hpp:2112-2212 | The addition of SHA-512 is addition of the numbers modulo 2^64 |
| Sha2Standard.RoundIs | verify_tools/vip/vector_generator/Minres/softvector/src/vector_functions.hpp:2112-2185 | A round moves six words and computes the other two as one sum each, modulo 2^32 or 2^64, as FIPS 180-4 sections 6.2.2 and 6.4.2 say |
| Sha2Standard.ScheduledIs | verify_tools/vip/vector_generator/Minres/softvector/src/vector_functions.hpp:2186-2212 | A later word of the schedule is the sum of four earlier ones, modulo 2^32 or 2^64 |
| Sha2.FourRounds | verify_tools/vip/vector_generator/Minres/softvector/src/vector_functions.hpp:2112-2185 | Four rounds with added constants are four rounds of the standard |
| Sha2.VectorCrypto | verify_tools/vip/vector_generator/Minres/softvector/src/vector_functions.hpp:2217-2237 | The loop over element groups processes the first egLen - egStart groups, and nothing else |
| Sha2.PurposeMet | verify_tools/vip/vector_generator/Minres/softvector/src/vector_functions.hpp:2217-2237 | The result is that of the groups from egStart to egLen if and only if the operation changes no group that is in one of the two ranges only |
| Sha2.PurposeMissed | verify_tools/vip/vector_generator/Minres/softvector/src/vector_functions.hpp:2217-2237 | For VSHA2CL, VSHA2CH and VSHA2MS, for SHA-256 and SHA-512 and for any 0 < egStart < egLen, there are registers for which the result is another one |
| Sha2.InstructionPurpose | verify_tools/vip/vector_generator/Minres/softvector/src/vector_functions.hpp:2217-2237 | On such registers the purpose is met if and only if egStart is zero or not below egLen |
| VRegs.StoreElement | verify_tools/vip/vector_generator/Minres/softvector/src/vector_functions.hpp:71-82 | A store changes one element of its register group and no byte outside the group |
| VRegs.LoadMaskBit | verify_tools/vip/vector_generator/Minres/softvector/src/vector_functions.h:80-89 | A mask bit is read from its byte |
| VRegs.LeRoundTrip | verify_tools/vip/vector_generator/Minres/softvector/src/vector_functions.hpp:74-77 | Elements hold numbers that fit them |
| VRegs.LeValueLast | verify_tools/vip/vector_generator/Minres/softvector/src/vector_functions.hpp:71-78 | The last byte of an element is its most significant one |
| VRegs.ElementByte | verify_tools/vip/vector_generator/Minres/softvector/src/vector_functions.hpp:71-82 | The bytes of the elements of a register group follow one another in the register file |
| VRegs.MaskIsNumber | verify_tools/vip/vector_generator/Minres/softvector/src/vector_functions.h:80-89 | A mask is a little-endian number with one bit for each element |
| Permute.Vcpop | verify_tools/vip/vector_generator/Minres/softvector/src/vector_functions.hpp:1840-1851 | The number of active elements whose mask bit is set, as the size of the set of their indices |
| Permute.Viota | verify_tools/vip/vector_generator/Minres/softvector/src/vector_functions.hpp:1915-1930 | Each active element holds the number of set bits before it; all else is undisturbed |
| Permute.Gather | verify_tools/vip/vector_generator/Minres/softvector/src/vector_functions.hpp:2007-2024 | Each active element is the one at its index, or zero; all else is undisturbed |
| Permute.Compress | verify_tools/vip/vector_generator/Minres/softvector/src/vector_functions.hpp:2042-2058 | The selected elements come first, in order; all else is undisturbed |
| Permute.CompressAndBack | verify_tools/vip/vector_generator/Minres/softvector/src/vector_functions.hpp:2042-2058 | Compression followed by viota and a masked gather, in the register file, restores every selected element and leaves the other elements of the target and all bytes outside the three destination groups |
| Permute.ExpandAndBack | verify_tools/vip/vector_generator/Minres/softvector/src/vector_functions.hpp:1840-2058 | Viota and a masked gather followed by compression, in the register file, give the first elements back, as many as vcpop counts |
| PermuteSpec.DecompressCompressed | verify_tools/vip/vector_generator/Minres/softvector/src/vector_functions.hpp:1915-2058 | Decompression undoes compression |
| PermuteSpec.CompressDecompressed | verify_tools/vip/vector_generator/Minres/softvector/src/vector_functions.hpp:1915-2058 | Compressing a decompressed vector gives its first elements, as many as are selected |
| PermuteSpec.SelectedAt | verify_tools/vip/vector_generator/Minres/softvector/src/vector_functions.hpp:2048-2053 | A selected element is found at its number among the selected ones |
| PermuteSpec.GatheredAt | verify_tools/vip/vector_generator/Minres/softvector/src/vector_functions.hpp:2014-2018 | An active element whose index is not below vlmax has only zero bytes, any other active one is the source element at its index |
| PermuteSpec.IotaAt | verify_tools/vip/vector_generator/Minres/softvector/src/vector_functions.hpp:1915-1930 | An active element is the number of active elements before it whose mask bit is set; any other one is the old one |
| FixedPoint.RoundoffRounds | verify_tools/vip/vector_generator/Minres/softvector/src/vector_functions.hpp:730-748 | The rounding increment rounds to nearest up, nearest even, down or to odd, for signed and unsigned operands |
| FixedPoint.RoundoffExact | verify_tools/vip/vector_generator/Minres/softvector/src/vector_functions.hpp:730-748 | It gives the only number that rounds the operand in its mode |
| FixedPoint.RoundoffShrinks | verify_tools/vip/vector_generator/Minres/softvector/src/vector_functions.hpp:745-748 | The result lies between zero and the operand |
| FixedPoint.DoubleRounding | verify_tools/vip/vector_generator/Minres/softvector/src/vector_functions.hpp:730-748 | Rounding to odd and then by at least two bits in any mode equals one rounding |
| FixedPoint.VsmulSaturates | verify_tools/vip/vector_generator/Minres/softvector/src/vector_functions.hpp:804-819 | VSMUL saturates if and only if both operands are the minimum, and otherwise gives the rounded product |
| LoadStore.VectorLoadStore | verify_tools/vip/vector_generator/Minres/softvector/src/vector_functions.hpp:130-158 | The loop does the elements up to a fault and returns its index, or all of them and returns zero; nothing outside the register group changes. After a complete load, byte k of field s of an active element idx is the byte of the old memory at rs1 + (idx * segment + s) * width + k without a stride, and at rs1 + idx * stride + s * width + k with one; all other bytes are unchanged. After a complete store, every byte of the memory is that of the last field that lies over it, or unchanged if there is none |
| LoadStore.AccessFields | verify_tools/vip/vector_generator/Minres/softvector/src/vector_functions.hpp:143-148 | The fields of one element are accessed in order, up to a fault |
| LoadStoreTransfer.RangeLoads | verify_tools/vip/vector_generator/Minres/softvector/src/vector_functions.hpp:141-148 | A run without faults leaves these bytes in the registers when it loads |
| LoadStoreTransfer.RangeStores | verify_tools/vip/vector_generator/Minres/softvector/src/vector_functions.hpp:141-148 | A run without faults leaves these bytes in the memory when it stores |
| LoadStoreTransfer.StoredApart | verify_tools/vip/vector_generator/Minres/softvector/src/vector_functions.hpp:141-148 | Where elements are at least their own size apart and the run fits the memory, every stored field has all of its bytes there |
| LoadStoreSpec.FieldsApart | verify_tools/vip/vector_generator/Minres/softvector/src/vector_functions.hpp:144-144 | Element and field determine the register element, and the other way round |
| LoadStoreSpec.FieldsResumed | verify_tools/vip/vector_generator/Minres/softvector/src/vector_functions.hpp:143-148 | An element whose access was cut short may be accessed again from its first field |
| LoadStoreSpec.CutResumed | verify_tools/vip/vector_generator/Minres/softvector/src/vector_functions.hpp:138-152 | A run that was cut may be resumed at the returned index |
| LoadStoreSpec.ChainCompletes | verify_tools/vip/vector_generator/Minres/softvector/src/vector_functions.hpp:138-157 | After any chain of faulting runs, each resumed where the one before faulted, the registers and the memory are those of one run without faults |
| LoadStoreSpec.ZeroIsAmbiguous | verify_tools/vip/vector_generator/Minres/softvector/src/vector_functions.hpp:146-157 | The result zero means completion in every state if and only if the run starts later, is empty or skips element zero; otherwise a fault at element zero gives it too, in another state |
| LoadStoreSpec.ZeroTells | verify_tools/vip/vector_generator/Minres/softvector/src/vector_functions.hpp:146-157 | For one state, it means completion also when neither the run nor the first fields of element zero change anything, and in no other case |
| GenCases.Sequence.Next | verify_tools/vip/vector_generator/riscv-vector-tests/testfloat3/genCases_f32.c:154-239 | The value at the position in the table product; done is set when the sequence starts over |
| GenCases.OneOperand.Next | verify_tools/vip/vector_generator/riscv-vector-tests/testfloat3/genCases_f32.c:325-352 | done becomes true exactly at call number total; the last call of each period gives the next value |
| GenCases.TwoOperands.Draw | verify_tools/vip/vector_generator/riscv-vector-tests/testfloat3/genCases_f32.c:380-384 | The next tuple: the second sequence moves on, and the first when it starts over |
| GenCases.TwoOperands.NextLevel1 | verify_tools/vip/vector_generator/riscv-vector-tests/testfloat3/genCases_f32.c:377-404 | One call at level 1: which of the operands come from the current tuple in each of the six subcases, and when done becomes true |
| GenCases.TwoOperands.NextLevel2 | verify_tools/vip/vector_generator/riscv-vector-tests/testfloat3/genCases_f32.c:405-422 | One call at level 2: a random call, then the next tuple |
| GenCases.ThreeOperands.Draw | verify_tools/vip/vector_generator/riscv-vector-tests/testfloat3/genCases_f32.c:458-466 | The next tuple of three |
| GenCases.ThreeOperands.NextLevel1 | verify_tools/vip/vector_generator/riscv-vector-tests/testfloat3/genCases_f32.c:455-513 | One call at level 1: which of the operands come from the current tuple in each of the nine subcases, and when done becomes true |
| GenCases.ThreeOperands.NextLevel2 | verify_tools/vip/vector_generator/riscv-vector-tests/testfloat3/genCases_f32.c:514-536 | One call at level 2: a random call, then the next tuple |
| GenCases.RunOne | verify_tools/vip/vector_generator/riscv-vector-tests/testfloat3/genCases_f32.c:314-352 | For any tables and random draws done first becomes true at call number total, and the structured calls have given every value once, in order |
| GenCases.RunTwo | verify_tools/vip/vector_generator/riscv-vector-tests/testfloat3/genCases_f32.c:354-424 | The same for two operands and every tuple of the table product |
| GenCases.RunThree | verify_tools/vip/vector_generator/riscv-vector-tests/testfloat3/genCases_f32.c:426-539 | The same for three operands |
| GenCases.TupleDrawnOnce | verify_tools/vip/vector_generator/riscv-vector-tests/testfloat3/genCases_f32.c:375-424 | Each pair of positions is drawn exactly once |
| GenCases.TripleDrawnOnce | verify_tools/vip/vector_generator/riscv-vector-tests/testfloat3/genCases_f32.c:453-539 | Each triple of positions is drawn exactly once |
| GenCases.ValuesDistinct | verify_tools/vip/vector_generator/riscv-vector-tests/testfloat3/genCases_f32.c:55-149 | Different positions have different values when the two tables use different bits and repeat no entry |
| GenCases.ValueAt | verify_tools/vip/vector_generator/riscv-vector-tests/testfloat3/genCases_f32.c:154-239 | The significands run through their table for each exponent in turn |
| Params.Resolver.Add | st/sim_rtl/bench/dut_dummy/dummy_gen.py:584-603 | A visit lists the name after what it depends on, or finds a cycle; it terminates |
| Params.ResolvedParameters | st/sim_rtl/bench/dut_dummy/dummy_gen.py:575-607 | On success the list holds exactly the overrides, the needed names and what they reach, each once and after its dependencies; each has its default, or zero when it is only overridden; a name that is reported as recursive lies on a cycle; when every root is known it fails if and only if a cycle is reachable |
| Params.RootsAre | st/sim_rtl/bench/dut_dummy/dummy_gen.py:576-580 | A name is asked for exactly when it is overridden or an identifier of the range of a port |
| Params.OrderedIsClosed | st/sim_rtl/bench/dut_dummy/dummy_gen.py:584-603 | An ordered list is closed under dependency, and reaches no cycle |
| Params.CycleHasNoOrder | st/sim_rtl/bench/dut_dummy/dummy_gen.py:587-588 | With a reachable cycle there is no ordered list |
| Mmio.ParseRegister | st/core_ref/uvm_tb/dsa_mmio_lib/tools/gen_dsa_mmio.py:64-100 | Exactly the acceptable descriptions are accepted; the value mask is the union of the fields, or all bits |
| Mmio.StructMembers | st/core_ref/uvm_tb/dsa_mmio_lib/tools/gen_dsa_mmio.py:258-280 | The members tile bits 31 to 0, and the declared ones are the fields by descending msb |
| Mmio.SortedDescends | st/core_ref/uvm_tb/dsa_mmio_lib/tools/gen_dsa_mmio.py:259-259 | Sorting keeps the fields |
| Mmio.PackedPosition | st/core_ref/uvm_tb/dsa_mmio_lib/tools/gen_dsa_mmio.py:258-280 | The widths of the members put every member at its bits |
| Mmio.EachBitOnce | st/core_ref/uvm_tb/dsa_mmio_lib/tools/gen_dsa_mmio.py:258-280 | Every bit is in exactly one member |
| Mmio.Block.Write | st/core_ref/uvm_tb/dsa_mmio_lib/tools/gen_dsa_mmio.py:421-446 | The first register that matches takes the masked value, unless it ignores software |
| Mmio.Block.Read | st/core_ref/uvm_tb/dsa_mmio_lib/tools/gen_dsa_mmio.py:449-468 | The first register that matches is read |
| Mmio.WriteRead | st/core_ref/uvm_tb/dsa_mmio_lib/tools/gen_dsa_mmio.py:411-468 | The decode is a store with one cell for each address, even when ranges overlap: a write is read back masked unless it is ignored, and no other address reads differently |
| Mmio.MatchesElements | st/core_ref/uvm_tb/dsa_mmio_lib/tools/gen_dsa_mmio.py:411-418 | A register matches exactly the addresses of its elements, base + k * stride for 0 <= k < count, with index k |
| Mmio.IndexFits | st/core_ref/uvm_tb/dsa_mmio_lib/tools/gen_dsa_mmio.py:411-418 | A matching address has an index inside the register |
| Mmio.IndexInjective | st/core_ref/uvm_tb/dsa_mmio_lib/tools/gen_dsa_mmio.py:411-418 | Different matching addresses have different indices |
| DirectedList.ParseCaseList | st/pre_sim/generator/scene_generator/generate.py:330-370 | Exactly the lists are accepted whose managed blocks are terminated, closed by their own marker and hold their own case only, and in which no name appears twice |
| DirectedList.Rewrite | st/pre_sim/generator/scene_generator/generate.py:382-396 | The loop has no end if and only if it makes a step after any number of steps; without a begin marker of a selected scene inside another block it replaces the blocks of the selected scenes and copies all other lines; with one, it fails, has no end, or gives lines that are refused |
| DirectedList.SyncDirectedList | st/pre_sim/generator/scene_generator/generate.py:373-411 | For every list that parses, the new list is accepted if and only if no begin marker of a selected scene lies inside another block, no scene is owned by a line outside the blocks and no other case name is found in a rendered block; the loop has no end exactly when its positions go on for ever |
| DirectedList.SyncedTwice | st/pre_sim/generator/scene_generator/generate.py:373-411 | A second synchronization changes nothing |
| DirectedList.ReturnsForEver | st/pre_sim/generator/scene_generator/generate.py:385-396 | A loop that comes back to a line where it has been has no end |
| DirectedList.SpoiledRefused | st/pre_sim/generator/scene_generator/generate.py:386-407 | A block that is rendered inside another block makes the new list refused, whatever follows |
| DirectedList.TangledLoop | st/pre_sim/generator/scene_generator/generate.py:386-396 | A list that is accepted on which the loop goes back and forth between two lines for ever, because of a begin marker inside another block, unless that block is selected too |
| DirectedListSpec.SplitFlatten | st/pre_sim/generator/scene_generator/generate.py:330-358 | Reading the lines of shaped segments gives those segments back unless a block holds another case |
| DirectedListSpec.SplitGives | st/pre_sim/generator/scene_generator/generate.py:330-370 | The segments that are read give the lines back |
| DirectedLayout.ParsesIs | st/pre_sim/generator/scene_generator/generate.py:330-370 | A list is accepted if and only if its blocks are good and no case name is found in two of its lines |
| DirectedListSpec.RenderedBlock | st/pre_sim/generator/scene_generator/generate.py:306-327 | A rendered block is shaped, and holds its own case only exactly when no case name is found in its path, plusargs and arguments |
| DirectedListSpec.RenderedTexts | st/pre_sim/generator/scene_generator/generate.py:306-327 | Name, id, path, plusargs and arguments of a scene can be read back from its block, each at its own line |
| DirectedListSpec.RenderInjective | st/pre_sim/generator/scene_generator/generate.py:306-327 | Different scenes have different blocks |
| DirectedSync.SyncedParses | st/pre_sim/generator/scene_generator/generate.py:406-408 | The new list is accepted when it is read again exactly when every selected scene is clean |
| DirectedSync.SyncedKeeps | st/pre_sim/generator/scene_generator/generate.py:383-396 | Every line outside blocks that is not blank and every block that is not selected is kept, in order |
| DirectedSync.SceneHasBlock | st/pre_sim/generator/scene_generator/generate.py:397-405 | Every selected scene has its rendered block |
| DirectedSync.SyncedUnambiguous | st/pre_sim/generator/scene_generator/generate.py:376-405 | No block and no case name appears twice |
| DirectedSync.SyncedAgain | st/pre_sim/generator/scene_generator/generate.py:373-411 | The new segments stay as they are when they are synchronized again |
| DirectedLayout.LayoutWithoutNew | st/pre_sim/generator/scene_generator/generate.py:383-406 | When every selected scene has a block, the new list is the old one with these blocks rendered anew in their places, without the blank lines at its end |
| DirectedLayout.LayoutWithNew | st/pre_sim/generator/scene_generator/generate.py:397-406 | Otherwise the new blocks follow, one after the other, each after one more blank line unless it is the first segment, and the list ends with the last of them |
| DirectedLayout.MissingInOrder | st/pre_sim/generator/scene_generator/generate.py:397-397 | They come in the order of the selection |

## Left out

- VuZiv.MathResult: takes a limit on the number of doublings of the precision and says whether the bounds have agreed; `VuConverge.LoopCloses` says when they agree in the end, for bounds that converge and are exact in both directions or in none.
- VuZiv.ShortcutResult: the bounds on the exact results beyond 256 are assumed of the exact result, not derived from exp, tanh and the logistic function.
- VuSum.Accumulator.Add: models the 512-bit addition of the library on exact values with its rounding toward minus infinity; the exponent range of the library is taken to be unbounded.
- The internals of MPFR, softfloat and libm; conversions to FP8, whose exponent comes from the logarithm of the mathematics library; minimum, maximum, comparison and classification.
- Deploy.World.Deploy: creation of directories, file modes, temporary files, report files and the identity of target and backup directories are not modelled; a durable backup appears in one step, after its files and directories have been flushed; the order of those flushes is proved apart (`BackupTree`).
- Deploy.World.Rollback: reading back and validating the record of a backup is not modelled; the rows are those that the deployment stored.
- Manifest.LoadManifest: the comparison of a workbook migration with the reviewed baselines is not modelled; migration paths are a parameter, and lower case is that of ASCII.
- Fdt.Blob.NextTag: layouts before version 17, the checks of the header and lengths that overflow an int are not modelled.
- Aes.DecryptEncrypt: the key schedule instructions VAESKF1 and VAESKF2 are not modelled; keys are arbitrary.
- Sha2.Compress: the constants of the rounds are parameters; words hold the sum of a constant and a message word, as the instructions expect.
- Sha2.VectorCrypto: the register file is given in whole element groups, and the destination is apart from the sources.
- Permute.Gather, Permute.Compress and Permute.Viota: destination groups are apart from sources and masks, and elements that are masked off or in the tail are undisturbed (the default build).
- FixedPoint.RoundoffRounds: in round-to-nearest-even the source shifts an int literal, which is defined for shift amounts up to 31 only; here the amount is unbounded.
- The other saturating and clipping instructions, the slides and the floating-point instructions of the vector engine.
- LoadStore.VectorLoadStore: the 32-bit truncation of the product of stride and index is not modelled; memory is a plain array of bytes whose accesses are repeatable, and indexed accesses are not modelled.
- GenCases.RunOne: the tables of the program are arbitrary here, and the other float formats have the same shape and are not repeated.
- Params.ResolvedParameters: roots and dependencies are visited in an arbitrary order, of which the order of sorted names is one; the splitting of texts into names is given.
- Mmio.Block.Write: the second copy of each value, as a packed structure, is not kept beside the first; execution banks, windows and the text of the emitted files are not modelled.
- DirectedList.SyncDirectedList: lines are compared without trailing white space, and rendered texts are taken to hold no line break (the source accepts a scene name that ends in one, and a plusarg text that holds one); the replacement of the file is not modelled.
- Go assembly emitters, UVM and SystemVerilog text emitters, spreadsheet readers, sequence planning checks and simulator glue would add easy members only.
