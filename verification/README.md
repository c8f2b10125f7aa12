# Models of the kvm-unit-tests support library

kvm-unit-tests is a bare-metal support library with guest tests. This project models the parts of the
library whose invariants are hard, and proves what they promise.

- **Flattened device trees** (`Memory`, `Fdt*`): the sequential writer, the in-place editor, the editor that
  overwrites with NOPs, the reader and the navigation of `lib/libfdt`, on one byte buffer, after chapter 5 of
  the Devicetree Specification. A blob is an array of bytes with its header; a list of tokens is kept beside it,
  and every operation is proved to leave bytes that encode the right list. What `fdt_finish` leaves reads back as
  the calls that were made; an edit changes one property and no other, and keeps the tree; both ways of deleting
  read the same; children, parents and paths are recovered from the flat stream, with NOPs in it or without.
- **Extended page tables** (`Ept*`): the four-level tables of `x86/vmx.c` with 1G and 2M pages that are split
  on the way down, after section 28.2.2 of the Intel SDM, Volume 3C. An installed entry changes the translation
  of its own region and of nothing else, its word has all the bits asked for, and the pages taken are no more than
  the tables lacking. Words are numbers; fields are taken by division.
- **Allocators** (`PageList`, `PageAlloc`, `MallocSpec`, `Malloc`, `Vmalloc`): the free list inside the free
  pages, the search for aligned runs, and malloc over its two backends. Each page is free once or has one owner,
  over any sequence of calls.
- **Concurrency as steps over sequentially consistent memory**: handing work to another CPU (`SmpHandoff`), the
  waits-for graph and its deadlock check (`SmpDeadlock`), the lock-free monotonic clock (`ClockMonotonic`), the
  version protocol of the paravirtual clock (`Seqlock`), and a virtqueue with its device (`Virtio*`, section 2.6
  of VIRTIO 1.1). The theorems are about every state of every interleaving.
- **GICv3 interrupts** (`GicV3`): nested loops that roll their index back and still reach each CPU exactly once.
- **Arithmetic and formatting** (`KvmClock`, `PrintfSpec`, `Printf`): 64 by 32 bit division, fixed-point scaling
  in two forms, and the bounded `vsnprintf` as a refinement of the full rendering.

`Words`, `Wrappers` and `Arith` hold machine constants, the option type and facts about division.

Some promises do not hold in general. Each has a concrete counterexample and the exact condition under which
it holds:

- `setup_ept_range` gives a range exactly the permissions asked for if and only if the entries above it already
  granted them (`EptRange.ExactPermission`, `EptRange.PermissionLost`).
- `fdt_path_offset` inverts `fdt_get_path` if and only if no earlier sibling on the way matches under the rule
  of the optional unit address (`FdtPathSpec.PathLeadsBack`, `FdtPathSpec.PathAstray`).
- `fdt_property` refuses a name for want of room, rather than copying it below the buffer, if and only if the
  string table with the name is no larger than the buffer (`FdtSw.TableFullExact`, `FdtSw.LongNameAccepted`).
- `fdt_begin_node` stores the name it is given if and only if the length with the zero byte, cut to an int, is not
  that of a shorter name that fits (`FdtSw.NodeSpaceExact`, `FdtSw.NodeNameCut`).
- A lookup of a property looks for the name it is given if and only if the length is an int or its low 32 bits are
  no length (`FdtRo.SoughtExact`, `FdtRo.NameSoughtCut`).
- `fdt_setprop` and `fdt_add_subnode_namelen` refuse for want of room what does not fit if and only if the lengths of
  name, property and node are ints (`FdtRwSpec.RoomExact`, `FdtRwSpec.LengthsCut`, `FdtRw.NeverCut`).
- Deleting a node leaves a lookup in another node if and only if it did not run up to the node in vain with something
  to find behind it (`FdtTokens.NodeCutExact`, `FdtTokens.PropertyAdopted`).
- The editor accepts only headers with the reserve map in front if and only if the end of the map does not wrap
  around at 32 bits (`FdtRwSpec.RwAccepts`, `FdtRwSpec.RsvmapWraps`).
- `alloc_pages` fails although there is a run if and only if every run starts at a page that was compared as the
  continuation of another run, and rejected (`PageList.FindRunFails`, `PageList.RunOverlooked`).
- `vm_memalign` gives the bytes asked for if and only if their number of pages does not wrap around at 32 bits
  (`Vmalloc.PagesExact`, `Vmalloc.PagesWrap`).
- The recursion of the deadlock check ends, where it has nothing to find, if and only if it reaches no loop; with one
  wait for each CPU it never does (`SmpDeadlock.SearchEndsExactly`, `SmpDeadlock.SearchEnds`,
  `SmpDeadlock.SearchRunsOn`).
- The handoff of functions to a CPU calls no null function and overwrites no request if and only if no submitter
  passes null (`SmpHandoff.SafeIffNoNull`, `SmpHandoff.NullOverwritten`, `SmpHandoff.NullCalled`).
- `on_cpu` returns after its function has finished if and only if its store to the idle bit did not fall between
  the target's clearing of `func` and its setting of the idle bit (`SmpHandoff.OnCpuReturns`,
  `SmpHandoff.LostWakeup`).
- A snapshot of the paravirtual clock is a published state if fewer than 2^32 changes of the version fall into the
  read; with 2^32 it may be torn (`Seqlock.SnapshotIsPublished`, `Seqlock.TornAfterWrap`).
- A formatted number keeps to its field if and only if no prefix stands in front of a zero-padded field with a
  negative width larger than the digits (`PrintfSpec.UnsignedWidth`, `PrintfSpec.WidthExceeded`).

`dafny verify dfyconfig.toml` checks the whole project.

## Model

| member | source | states |
|---|---|---|
| `EptEditor.Ept.constructor` | x86/vmx_tests.c:1076-1082 | An empty root table gives a tree that translates nothing. |
| `EptWords.SplitChildOk` | x86/vmx.c:745-753 | Each of the 512 entries that replace a large entry is an aligned leaf one level down, with every bit of the whole outside the address and bit 7, at its place in the page; bit 7 is set at level 2 and not at level 1. |
| `EptWords.SplitLeafAddr` | x86/vmx.c:749-753 | An address finds in its part of a split page exactly the physical address it had in the whole. |
| `EptWords.SplitPointerOk` | x86/vmx.c:755-757 | The entry that points to the table of a split keeps every bit of the large entry outside the address and bit 7, and is not large. |
| `EptWords.PermBits` | x86/vmx.h:569-575 | Bits 0, 1 and 2 are the permissions and bit 7 the page size; an entry is present if one of the permissions is given. |
| `EptWords.FlagBits` | x86/vmx.c:803-829 | Two entries with the same flags agree in each single bit below 12 but bit 7, and in each from 52 on. |
| `EptWords.LeafForOk` | x86/vmx.c:803-829 | The entries of install_ept, install_2m_ept and install_1g_ept are leaves of their level at the given address with every other bit of `perm`; bit 7 is set for 2M and 1G pages. |
| `EptTables.ViewFrame` | x86/vmx.c:769-800 | A store to one entry is seen only by the guest addresses of that entry's region: all others keep physical address and permissions. |
| `EptTables.WalkVia` | x86/vmx.c:864-888 | Every address of a region reaches its entry through the same tables, so its translation is what the entry gives, met with the permissions above it. |
| `EptTables.SplitTable` | x86/vmx.c:729-760 | Hanging the split table below the entry keeps the table tree and the translation of every guest address. |
| `EptTables.NewTable` | x86/vmx.c:785-793 | Linking a cleared table below a missing entry keeps the table tree and the translation of every guest address. |
| `EptTables.PutEntry` | x86/vmx.c:798-799 | The final store makes the entry read back at its level, translates its region by it, and keeps every address outside the region. |
| `EptEditor.Ept.FillSplitTable` | x86/vmx.c:745-753 | The loop writes the 512 entries of the split and touches no other page. |
| `EptCount.AddingKeepsEntries` | x86/vmx.c:785-797 | Hanging a table below a missing or large entry keeps the word of every entry on another way. |
| `EptCount.StoringKeepsEntries` | x86/vmx.c:798-799 | The final store keeps the word of every entry on another way or above. |
| `EptEditor.SplitIntoWords` | x86/vmx.c:745-757 | The words that a split leaves: a pointer with the flags of the large entry, and 512 entries with its flags at their places in the page. |
| `EptEditor.Ept.SplitLargeEptEntry` | x86/vmx.c:729-760 | Splitting keeps every translation and the word of every entry on another way, leaves the words of SplitIntoWords, and the way down then ends one level lower; it fails, changing nothing, if and only if there is no free page. |
| `EptEditor.Ept.LinkEmptyTable` | x86/vmx.c:785-793 | A cleared page below a missing entry keeps every translation and becomes the next table on the way; the entry has the three permission bits and no other flag. |
| `EptEditor.Ept.TakePage` | x86/vmx.c:785-793 | The page for a missing table is the caller's spare one; without it the next one of the allocator; and without that page 0, once, which stands for the null result that the source does not test. |
| `EptEditor.Ept.Descend` | x86/vmx.c:782-797 | One level of the way down: the next table exists afterwards, whether the entry was missing, large or a table, one page fewer is needed below, and every translation is kept. |
| `EptEditor.OneStep` | x86/vmx.c:781-797 | How the whole way down ends is fixed by where it breaks off and how many pages there are, and every level of it keeps that. |
| `EptCount.AddingLosesNone` | x86/vmx.c:785-797 | Hanging a table below a missing or large entry leaves every table on the way of every address. |
| `EptCount.StoringLosesNone` | x86/vmx.c:798-799 | The final store leaves every table but those below the entry. |
| `EptCount.LackIsGap` | x86/vmx.c:781-797 | The tables that a way down lacks are those below where it breaks off. |
| `EptCount.LackingStep` | x86/vmx.c:844-859 | With each page installed, the tables lacking in the rest of the range become fewer by the pages taken. |
| `EptCount.LackingBound` | x86/vmx.c:844-859 | A range lacks no more tables than it touches regions of the levels above its pages. |
| `EptEditor.Ept.InstallEptEntry` | x86/vmx.c:769-800 | get_ept_pte at the level gives the entry, the level's region translates by it, and every address outside keeps physical address and permissions, also across 1G and 2M splits. It stops at the split's assertion, or links a null page that already serves as a table, exactly when the way breaks off with too few pages for the levels left; until then no translation changes. |
| `EptEditor.Ept.GetEptPte` | x86/vmx.c:864-888 | The entry at the level, or none exactly when the way down is missing or ends in a larger page. |
| `EptEditor.Ept.SetEptPte` | x86/vmx.c:1013-1031 | Overwriting an existing entry has the same effect and the same frame as installing it, and keeps the word of every entry on another way or above. |
| `EptEditor.Ept.InstallPage` | x86/vmx.c:803-829 | The word that get_ept_pte then gives for the page has the physical address, every other bit of `perm`, and bit 7 for 2M and 1G pages; its region translates by it and everything else is kept, or it ends early under the same exact condition. |
| `EptRange.RunStep` | x86/vmx.c:844-859 | One more page extends the run mapped, keeps its entries and all others, and takes no more pages than tables lacked. |
| `EptEditor.Ept.MapRun` | x86/vmx.c:844-859 | One loop of setup_ept_range maps whole pages one to one up to the last that fits, each by an entry with all bits of `perm`, and keeps all other translations and all entries behind it; it comes to its end if there are as many pages as tables lacking, takes no more than these, and otherwise holds up to the page it came to. |
| `EptRange.LargestPage` | x86/vmx.c:844-859 | The page that maps an address is the largest one that is enabled and lies in the range. |
| `EptEditor.Ept.SetupEptRange` | x86/vmx.c:838-860 | Every address of the range has an entry of its page's level with all bits of `perm`, and translates to itself with the permissions that its level's path grants, for all combinations of map_1g and map_2m, and nothing outside changes; it comes to its end if there are as many pages as tables lacking, and otherwise the pages are used up and the same holds of the part mapped. |
| `EptRange.ExactPermission` | x86/vmx.c:838-860 | The range gets exactly `perm` if and only if no entry above the pages withheld any of it before the call. |
| `EptRange.PermissionLost` | x86/vmx.c:769-800 | A well-formed concrete tree with a read-only 1G page: however setup_ept_range maps one page below it with all permissions, that page stays read-only. |
| `Memory.MemCpy` | lib/string.c:86-96 | The destination holds the source bytes, and no other byte changes. |
| `Memory.MemSet` | lib/string.c:75-84 | The bytes are set and no other byte changes. |
| `Memory.MemMove` | lib/string.c:112-126 | The destination holds the bytes that the source had before, for overlap on either side. |
| `Memory.MemCmp` | lib/string.c:98-110 | Zero if and only if the bytes are equal, and else the difference of the first two bytes that differ. |
| `FdtFormat.TagAlign` | lib/libfdt/fdt.c:139-139 | The least multiple of four that is not below the offset. |
| `FdtFormat.WordOfBe32` | lib/libfdt/fdt.c:101-104 | Reading the four bytes of a written word gives the word. |
| `FdtFormat.TokenBytes` | lib/libfdt/fdt.h:96-103 | Words are stored most significant byte first, and the tags are the numbers of the format. |
| `FdtFormat.SmallTreeBytes` | lib/libfdt/fdt.h:81-103 | The bytes of a node with one property: tag, length and name offset stand in front of the value. |
| `FdtFormat.NextTagOfBegin` | lib/libfdt/fdt.c:109-116 | On an encoded begin-node token fdt_next_tag gives its tag and the offset behind name, zero byte and padding. |
| `FdtFormat.NextTagOfProp` | lib/libfdt/fdt.c:118-125 | On an encoded property token fdt_next_tag gives its tag and the offset behind value and padding. |
| `FdtFormat.NextTagAt` | lib/libfdt/fdt.c:93-141 | At the offset of token i of an encoded list fdt_next_tag gives the tag of token i and the offset of token i + 1. |
| `FdtBlob.SkipNodeName` | lib/libfdt/fdt.c:109-116 | The offset behind the first zero byte, or an error if the block ends first. |
| `FdtBlob.FdtTokenEnd` | lib/libfdt/fdt.c:107-137 | The end of the token of each tag, or an error for a token that is cut short or unknown. |
| `FdtBlob.FdtNextTag` | lib/libfdt/fdt.c:93-141 | The tag and the next offset that the format defines, with the error codes, on any bytes. |
| `FdtBlob.NextToken` | lib/libfdt/fdt.c:93-141 | On a block that encodes a list of tokens, the tag of token i and the offset of token i + 1. |
| `FdtSw.FdtCreate` | lib/libfdt/fdt_sw.c:88-108 | An empty blob with no recorded call, or NOSPACE exactly if the buffer is smaller than the header. |
| `FdtSw.FdtAddReservemapEntry` | lib/libfdt/fdt_sw.c:110-136 | The entry is written and the structure block moves behind it; NOSPACE exactly if it does not fit. |
| `FdtSw.GrabSpace` | lib/libfdt/fdt_sw.c:73-86 | The space behind the structure block, or a failure exactly if it would reach the string table. |
| `FdtSw.NodeSpaceExact` | lib/libfdt/fdt_sw.c:138-147 | The test for space, on the length of the name cut to an int, decides whether the node fits if and only if the name is not cut to one that fits; below 2^31 bytes it never is. |
| `FdtSw.NodeNameCut` | lib/libfdt/fdt_sw.c:138-150 | A node name of 2^32 + 2 bytes takes the space of one of two bytes in a blob of 200. |
| `FdtSw.FdtBeginNode` | lib/libfdt/fdt_sw.c:138-152 | Records one more begin-node event with the name, or fails, exactly for want of room, with the blob unchanged; the case of a cut name is stated exactly. |
| `FdtSw.FdtEndNode` | lib/libfdt/fdt_sw.c:154-166 | Records one more end-node event, or fails with the blob unchanged. |
| `FdtSw.FindString` | lib/libfdt/fdt.c:229-239 | The first place of the string with its zero byte in the table, or none exactly if it is not there; another length is compared if and only if the length is no int. |
| `FdtSw.TableFullExact` | lib/libfdt/fdt_sw.c:183-184 | The room test, which adds in 32 bits, decides whether the string fits if and only if the table with the string is no larger than the buffer; for a longer string it always finds room. |
| `FdtSw.LongNameAccepted` | lib/libfdt/fdt_sw.c:183-184 | A concrete blob of 200 bytes in which a name of 300 bytes passes the room test. |
| `FdtSw.FindAddString` | lib/libfdt/fdt_sw.c:168-189 | The distance of the string from the end of the buffer, where it was found or added below the table, or none exactly for want of room; recorded names stay readable. The source leaves this course if and only if the string is new and longer than what the buffer has beside the table. |
| `FdtSw.FdtProperty` | lib/libfdt/fdt_sw.c:191-211 | Records one more property event with name and value, or fails, exactly for want of room, recording nothing; for names that are not too long, and too long is stated exactly. |
| `FdtSwSpec.CorrectAt` | lib/libfdt/fdt_sw.c:238-246 | Rewriting the name offset of one property corrects that token and no other. |
| `FdtSw.CorrectNames` | lib/libfdt/fdt_sw.c:235-250 | The loop corrects the name offset of every property, and only those. |
| `FdtSw.TerminateAndMove` | lib/libfdt/fdt_sw.c:223-233 | The end token is written and the string table lies unchanged behind the structure block. |
| `FdtSwSpec.ReadsBackFrom` | lib/libfdt/fdt.c:93-141 | Iterating fdt_next_tag from token i yields the remaining calls, in order, and then the end. |
| `FdtSwSpec.FinishReadsBack` | lib/libfdt/fdt_sw.c:213-256 | The corrected block with the moved table reads back as the recorded calls: names, property names through the shared table, and values. |
| `FdtSw.FdtFinish` | lib/libfdt/fdt_sw.c:213-256 | Succeeds if and only if the terminator fits, and then reading the blob yields exactly the sequence of calls that succeeded; the reading functions accept the blob, and its format is the one it was created with. |
| `FdtSw.ShortFits` | lib/libfdt/fdt_sw.c:168-189 | A name shorter than the header and reserve map in front of the structure block is never too long. |
| `FdtSw.WriteBlob` | lib/libfdt/fdt_sw.c:88-256 | For any sequence of begin-node, property and end-node calls on a new blob: if all calls and fdt_finish succeed, fdt_check_header accepts the blob and iterating fdt_next_tag yields exactly that sequence and then the end, unless a name was cut or too long; property names below 64 bytes and node names below 2^31 never are. |
| `FdtSw.WrittenHas` | lib/libfdt/fdt_sw.c:191-211 | A property that was written behind the begin of a node, the first of its name, is what a lookup finds there, with its value. |
| `FdtRw.WrittenEditable` | lib/libfdt/fdt_rw.c:70-84 | What the writer leaves passes the header check of the editor as it is. |
| `FdtRo.CheckHeader` | lib/libfdt/fdt.c:58-75 | Accepts exactly finished blobs of a supported version and unfinished ones with a structure block. |
| `FdtRo.SoughtExact` | lib/libfdt/fdt_ro.c:284-290 | A lookup looks for the name it is given if and only if its length is an int or its low 32 bits are no length; otherwise for the front part of that length. |
| `FdtRo.NameSoughtCut` | lib/libfdt/fdt_ro.c:284-290 | A lookup by a name of 2^32 + 1 letters looks for the name of one letter. |
| `FdtRo.PropWords` | lib/libfdt/fdt_ro.c:239-258 | The two words stored behind the tag of a property are its length and its name offset. |
| `FdtRo.StringEq` | lib/libfdt/fdt_ro.c:83-89 | True if and only if the string at the offset is the name sought, for every length passed as an int. |
| `FdtTokens.FindPropExact` | lib/libfdt/fdt_ro.c:260-290 | A lookup gives the first property of that name behind the node with only NOPs and other properties in between, and NOTFOUND if and only if these go up to the begin or end of a node. |
| `FdtTokens.PropValueExact` | lib/libfdt/fdt_ro.c:292-321 | A lookup of a value gives it if and only if the node's first property of that name has it. |
| `FdtTree.HasOrLacks` | lib/libfdt/fdt_ro.c:260-290 | In a tree a node lacks a property if and only if it has none of that name with any value. |
| `FdtRo.NextPropOffset` | lib/libfdt/fdt_ro.c:108-130 | The first token that is no NOP decides: a property is the result, the begin or end of a node is NOTFOUND, the end of the block BADSTRUCTURE. |
| `FdtRo.CheckNodeOffset` | lib/libfdt/fdt.c:143-150 | Accepts a begin-node token with the offset behind it and rejects any other token. |
| `FdtRo.FdtGetProperty` | lib/libfdt/fdt_ro.c:260-290 | The first property of the node with the name sought, and NOTFOUND if and only if the node's properties, none of them of that name, go up to the begin or end of a node; for names of every length. |
| `FdtRo.NextPropertyOffset` | lib/libfdt/fdt_ro.c:231-237 | From one property to the next property of the same node, by the same rule. |
| `FdtTokens.ReplaceOffsetBefore` | lib/libfdt/fdt_rw.c:97-108 | Tokens in front of an edit keep their offsets. |
| `FdtTokens.ReplaceOffsetBehind` | lib/libfdt/fdt_rw.c:97-108 | Tokens behind an edit move together by the difference of sizes. |
| `FdtTokens.ValueReplaced` | lib/libfdt/fdt_rw.c:205-221 | With a new value, the lookup of that property gives it and every other lookup of every node is as before. |
| `FdtTokens.PropertyInserted` | lib/libfdt/fdt_rw.c:223-249 | With a property inserted, its lookup finds it and every other lookup of every node gives what it gave before. |
| `FdtTokens.FoundOnce` | lib/libfdt/fdt_ro.c:260-282 | A property is found from one node and under one name only. |
| `FdtTokens.PropertyCut` | lib/libfdt/fdt_rw.c:319-332 | After fdt_delprop the next property of the same name shows, if the node has one, and every other property of every node reads as before. |
| `FdtTokens.NodeCut` | lib/libfdt/fdt_rw.c:380-392 | After fdt_del_node every property of every other node reads as before, except that a lookup that ran up to the node without success goes on behind it. |
| `FdtTokens.NodeCutExact` | lib/libfdt/fdt_rw.c:380-392 | A lookup elsewhere is kept if and only if it did not run up to the node in vain with something to find behind it. |
| `FdtTokens.NodeCutKeeps` | lib/libfdt/fdt_rw.c:380-392 | If no property follows the node, every lookup elsewhere is as before. |
| `FdtTokens.PropertyAdopted` | lib/libfdt/fdt_rw.c:380-392 | A concrete list in which a property behind a node is found only after that node is deleted. |
| `FdtTokens.NodePutIn` | lib/libfdt/fdt_rw.c:334-373 | After fdt_add_subnode every property of every other node reads as before, and the new node has none. |
| `FdtTokens.NopOutIsCutOut` | lib/libfdt/fdt_wip.c:75-118 | Overwriting tokens with NOPs and cutting them out leave the same NOP-free stream. |
| `FdtTokens.LookupIgnoresNops` | lib/libfdt/fdt_ro.c:108-130 | A lookup gives on the stream what it gives on its NOP-free form. |
| `FdtTree.NodeEndIs` | lib/libfdt/fdt_wip.c:97-105 | In a tree every node has an end, and _fdt_node_end_offset finds it. |
| `FdtTree.NodeEndByNodes` | lib/libfdt/fdt_wip.c:97-105 | Scanning node by node with fdt_next_node comes to the same end as scanning every token. |
| `FdtTree.FirstChild` | lib/libfdt/fdt.c:201-210 | fdt_first_subnode gives the first child, if and only if there is one. |
| `FdtTree.NextChild` | lib/libfdt/fdt.c:212-227 | fdt_next_subnode gives the next child of the same parent, if and only if there is one. |
| `FdtTree.ChildrenEnumerated` | lib/libfdt/fdt.c:201-227 | First and next subnode enumerate exactly the children, in ascending order, each once. |
| `FdtTree.ParentIs` | lib/libfdt/fdt_ro.c:409-464 | The last node before j that is one level up is the parent of j. |
| `FdtTree.OneParent` | lib/libfdt/fdt_ro.c:456-464 | A node is the child of one node only. |
| `FdtTree.NextNodeExact` | lib/libfdt/fdt.c:161-199 | fdt_next_node stops at the first node, unless the depth falls below zero before it, or, with NOTFOUND, at the end; its depth changes as that of the tokens does. |
| `FdtNav.FdtNextNode` | lib/libfdt/fdt.c:161-199 | The next node, or the end of the walk, with the depth that goes with it. |
| `FdtNav.NodeEndOffset` | lib/libfdt/fdt_wip.c:97-105 | The offset behind the end of the node. |
| `FdtNav.FdtFirstSubnode` | lib/libfdt/fdt.c:201-210 | The offset of the first child, or the error that the walk ends with. |
| `FdtNav.FdtNextSubnode` | lib/libfdt/fdt.c:212-227 | The offset of the next child of the same parent, or the error that the walk ends with. |
| `FdtNav.NameMatchesExactly` | lib/libfdt/fdt_ro.c:58-76 | A name matches if it is the string, or the string, which has no @, with @ and any unit address behind it. |
| `FdtNav.MatchByBytes` | lib/libfdt/fdt_ro.c:58-76 | Comparing bytes up to the end of the name decides the match with the optional unit address. |
| `FdtNav.NodeNameEq` | lib/libfdt/fdt_ro.c:58-76 | True if and only if the name of the node is the string, or the string without its unit address. |
| `FdtNav.FdtSubnodeOffset` | lib/libfdt/fdt_ro.c:132-149 | The offset of the first child that matches, or the error of the header check or of the walk. |
| `FdtPathSpec.NamedChild` | lib/libfdt/fdt_ro.c:132-149 | The lookup gives the first child whose name matches, and NOTFOUND if and only if there is none. |
| `FdtPathSpec.FindsChild` | lib/libfdt/fdt_ro.c:132-149 | A search from node b finds j if and only if b is the parent of j and no earlier child matches. |
| `FdtPathSpec.NamesLeadBack` | lib/libfdt/fdt_ro.c:132-199 | The names of a node lead back to it if and only if no earlier sibling on the way matches. |
| `FdtPathSpec.StackIsNames` | lib/libfdt/fdt_ro.c:357-407 | The names of the open nodes are the names on the way from the root. |
| `FdtPathSpec.RenderIsPath` | lib/libfdt/fdt_ro.c:382-396 | Names with a slash behind each, without the last slash, are the path; for the root alone the slash stays. |
| `FdtPathSpec.PathFromJoin` | lib/libfdt/fdt_ro.c:180-198 | The loop over a path string resolves exactly its names. |
| `FdtPathSpec.PathText` | lib/libfdt/fdt_ro.c:357-407 | The paths of the root, of a child and of a grandchild, byte by byte. |
| `FdtPathSpec.PathLeadsBack` | lib/libfdt/fdt_ro.c:157-199 | fdt_path_offset of the path of a node is that node if and only if no earlier sibling on the way matches. |
| `FdtPathSpec.PathAstray` | lib/libfdt/fdt_ro.c:58-76 | A concrete tree in which the path of a node leads to an earlier sibling that matches without its unit address. |
| `FdtPath.FdtSupernodeAtDepthOffset` | lib/libfdt/fdt_ro.c:409-443 | The ancestor at the depth and the depth of the node; the error of the header check, and NOTFOUND for a negative or too large depth. |
| `FdtPath.FdtParentOffset` | lib/libfdt/fdt_ro.c:445-464 | The offset of the parent, NOTFOUND for the root, or the error of the header check. |
| `FdtPath.FdtPathOffset` | lib/libfdt/fdt_ro.c:157-199 | The node that the components of an absolute path lead to, or the error of the header check or of the first one that is missing. |
| `FdtPath.FdtGetName` | lib/libfdt/fdt_ro.c:201-219 | The bytes of the name and their number if and only if the header is accepted and the token is a node, or else the error. |
| `FdtPath.PopName` | lib/libfdt/fdt_ro.c:371-376 | Going back to the previous slash drops exactly the last name. |
| `FdtPath.PopNames` | lib/libfdt/fdt_ro.c:371-376 | The names of nodes that are no longer open are dropped. |
| `FdtPath.PushName` | lib/libfdt/fdt_ro.c:378-388 | The name is appended with a slash exactly if its parent's name is there and it fits. |
| `FdtPath.FdtGetPath` | lib/libfdt/fdt_ro.c:357-407 | The path of the node with a zero byte if it fits in the buffer, NOSPACE exactly if it does not, or the error of the header check. |
| `FdtPath.PathRoundTrip` | lib/libfdt/fdt_ro.c:157-407 | fdt_path_offset of what fdt_get_path wrote is the node's offset if and only if no earlier sibling on the way matches. |
| `FdtRwSpec.RwAccepts` | lib/libfdt/fdt_rw.c:58-83 | Exactly the supported headers are accepted whose structure block, strings block and end are in order, and whose reserve map comes first or has an end that wraps around at 32 bits; other supported ones are BADLAYOUT. |
| `FdtRwSpec.RsvmapWraps` | lib/libfdt/fdt_rw.c:58-69 | A concrete header whose reserve map lies behind everything and is accepted. |
| `FdtRwSpec.RoomExact` | lib/libfdt/fdt_rw.c:97-121 | The room test, on a length cut to an int, decides whether there is room if and only if the length is not cut to one for which there is room; below 2^32 if and only if it is not cut. |
| `FdtRwSpec.LengthsCut` | lib/libfdt/fdt_rw.c:205-240 | The shortest value, new property and new node whose lengths are negative as an int. |
| `FdtRwSpec.NodeLenExact` | lib/libfdt/fdt_rw.c:360-360 | The length of an empty node, or a negative one exactly if it is no int. |
| `FdtRw.SpliceStructBlock` | lib/libfdt/fdt_rw.c:97-135 | The tail of the blob moves by the difference, sizes and offsets follow, block order is kept; NOSPACE exactly if it does not fit; the case of a negative length is stated exactly. |
| `FdtRwSpec.Edited` | lib/libfdt/fdt_rw.c:123-135 | After a splice at a token boundary the structure block encodes the edited list and the strings block is unchanged. |
| `FdtRwSpec.StringAdded` | lib/libfdt/fdt_rw.c:137-170 | A string added behind the strings block leaves the structure block and all earlier strings. |
| `FdtRw.FindAddStringBehind` | lib/libfdt/fdt_rw.c:150-170 | The offset at which the name reads, found or added at the end; NOSPACE exactly if it would not fit; for every name whose length is an int. |
| `FdtRw.ResizeProperty` | lib/libfdt/fdt_rw.c:205-221 | The value of an existing property is replaced, all other tokens stay; NOSPACE exactly for want of room; from 2^31 - 3 bytes on, and only then, the length is cut. |
| `FdtRw.InsertProperty` | lib/libfdt/fdt_rw.c:223-249 | The property stands behind the begin-node token, all other tokens stay; NOSPACE exactly for want of room; from 2^31 - 15 bytes on, and only then, the length is cut. |
| `FdtRwSpec.PropSetReads` | lib/libfdt/fdt_rw.c:274-290 | After fdt_setprop the property reads as set, and every other property of every node reads as before. |
| `FdtRw.NeverCut` | lib/libfdt/fdt_rw.c:274-290 | For names below 2^31 - 1 bytes and values of at most 2^31 - 16 no length is cut and the name sought is the name. |
| `FdtRw.SetpropMeans` | lib/libfdt/fdt_rw.c:205-249 | The result of fdt_setprop by the tokens: success if and only if the new value fits in place of that of a property that is there, or name, twelve bytes and aligned value of one that the node lacks. |
| `FdtRwSpec.PropSetHas` | lib/libfdt/fdt_rw.c:274-290 | After fdt_setprop the node's first property of that name has the value. |
| `FdtRw.FdtSetprop` | lib/libfdt/fdt_rw.c:274-290 | If the node lacks the property, or has it, it is set if and only if there is room, with NOSPACE otherwise (a name already in the strings block takes none), and then the node's first property of that name has the value and PropSet holds, from which PropSetReads follows, with block order kept; names and values below 2^31 - 16 bytes are never cut, and the case of a cut length is stated exactly. |
| `FdtRw.FdtDelprop` | lib/libfdt/fdt_rw.c:319-332 | The token of the node's first property of the name sought is cut out of the list; NOTFOUND, with nothing changed, if and only if the node lacks it. |
| `FdtRw.FdtDelNode` | lib/libfdt/fdt_rw.c:380-392 | The tokens of the node, up to its end, are cut out of the list. |
| `FdtRw.PlaceForSubnode` | lib/libfdt/fdt_rw.c:352-357 | The place behind the properties and NOPs of the parent. |
| `FdtRw.FdtAddSubnode` | lib/libfdt/fdt_rw.c:334-373 | In a tree: EXISTS if and only if a child already matches, and otherwise an empty node with the name stands there, or NOSPACE exactly if there is no room; the header is still accepted; the case of a cut length is stated exactly. |
| `FdtRw.AddThenDelete` | lib/libfdt/fdt_rw.c:334-392 | fdt_del_node on the offset that fdt_add_subnode_namelen returned succeeds and restores the structure and strings blocks byte for byte. |
| `FdtEdits.InsideTree` | lib/libfdt/fdt_rw.c:123-135 | A list is a tree if and only if it is one without tokens that stand inside its root and open as many nodes as they close. |
| `FdtEdits.ChildAround` | lib/libfdt/fdt_rw.c:123-135 | Putting in such tokens changes no child of any node. |
| `FdtEdits.SetpropKeepsTree` | lib/libfdt/fdt_rw.c:274-290 | After fdt_setprop the blob is a tree in which every node keeps its name, its parent and the names on the way to it. |
| `FdtEdits.DelpropKeepsTree` | lib/libfdt/fdt_rw.c:319-332 | The same after fdt_delprop. |
| `FdtEdits.DelNodeKeepsTree` | lib/libfdt/fdt_rw.c:380-392 | The same after fdt_del_node of a node other than the root, for every node outside it. |
| `FdtEdits.DelRoot` | lib/libfdt/fdt_rw.c:380-392 | After fdt_del_node of the root the blob is no tree. |
| `FdtEdits.AddSubnodeKeepsTree` | lib/libfdt/fdt_rw.c:334-373 | The same after fdt_add_subnode_namelen. |
| `FdtEdits.NewNode` | lib/libfdt/fdt_rw.c:334-373 | The new node has the parent asked for, and its name is the last on the way to it. |
| `FdtRw.NopRegion` | lib/libfdt/fdt_wip.c:75-81 | Whole words become NOPs up to and including the one with the last byte, and nothing else changes. |
| `FdtRw.FdtNopProperty` | lib/libfdt/fdt_wip.c:83-95 | The token of the node's first property of the name sought becomes NOPs of the same size; NOTFOUND, with nothing changed, if and only if the node lacks it. |
| `FdtRw.FdtNopNode` | lib/libfdt/fdt_wip.c:107-118 | The tokens of the node become NOPs of the same size. |
| `FdtRw.DeletionsAgree` | lib/libfdt/fdt_wip.c:83-118 | Deleting by NOPs and by moving leave identical NOP-free streams, and NOPs leave the offset of every other token. |
| `FdtNops.StripIsTree` | lib/libfdt/fdt_wip.c:83-118 | Without its NOPs a tree is a tree. |
| `FdtNops.SubnodeRanked` | lib/libfdt/fdt.c:201-227 | fdt_first_subnode and fdt_next_subnode find the same nodes in a stream and in its NOP-free form. |
| `FdtNops.ParentRanked` | lib/libfdt/fdt_ro.c:456-464 | fdt_parent_offset finds the same node in both. |
| `FdtNops.NamesRanked` | lib/libfdt/fdt_ro.c:357-407 | The names from the root to a node are the same in both. |
| `FdtNops.PathRanked` | lib/libfdt/fdt_ro.c:157-199 | fdt_path_offset finds the same node in both, or fails with the same error. |
| `FdtNops.DeletionsFindAlike` | lib/libfdt/fdt_wip.c:83-118 | After either way of deleting, every path leads to the same node or fails with the same error. |
| `PageList.SearchFinds` | lib/alloc_page.c:101-133 | Whatever the run search finds is a segment of consecutive pages that starts aligned. |
| `PageList.FindRunFails` | lib/alloc_page.c:101-133 | The search fails if and only if every aligned run starts at a page that was compared as the continuation of another run, and rejected. |
| `PageList.BlockHasRun` | lib/alloc_page.c:101-133 | On one block of consecutive pages the search finds a run whenever there is one. |
| `PageList.RunOverlooked` | lib/alloc_page.c:120-125 | A concrete list with an aligned run that the search does not find. |
| `PageAlloc.MaskIsAligned` | lib/alloc_page.c:91-92 | The mask test is natural alignment for every order below 64, also where the mask computation leaves 64 bits. |
| `PageAlloc.ChainCut` | lib/alloc_page.c:127-132 | Storing the next page into the page before a segment unlinks exactly that segment. |
| `PageAlloc.SoundFree` | lib/alloc_page.c:43-53 | Linking owned pages in front keeps the list acyclic and every page free once or owned by one holder. |
| `PageAlloc.SoundTake` | lib/alloc_page.c:101-138 | Taking a segment keeps the list acyclic and every page free once or owned by one holder. |
| `PageAlloc.PageAllocator.constructor` | lib/alloc_page.c:16-17 | At boot the list is empty and every page has an owner. |
| `PageAlloc.PageAllocator.LinkBlock` | lib/alloc_page.c:43-52 | Every page of the block points to the next and the last one to the old list; no other page changes. |
| `PageAlloc.PageAllocator.FreeBlock` | lib/alloc_page.c:24-54 | For a block that is not empty, the list is the block followed by the old list, and the block's pages lose their owner. |
| `PageAlloc.PageAllocator.FreePages` | lib/alloc_page.c:24-54 | The same for every size but 0, for which the whole list is dropped and its pages are lost; the allocator stays sound. |
| `PageAlloc.PageAllocator.AllocPage` | lib/alloc_page.c:61-76 | The first page of the list, zeroed, with the rest of the list left; null if and only if the list is empty. |
| `PageAlloc.PageAllocator.FreePage` | lib/alloc_page.c:142-148 | The list is the page followed by the old list. |
| `PageAlloc.PageAllocator.SearchRun` | lib/alloc_page.c:84-133 | The loop over the links gives the start of the run, the page before it and the page behind it, as the search on the list says. |
| `PageAlloc.PageAllocator.AllocPages` | lib/alloc_page.c:82-139 | 2^order consecutive, naturally aligned, zeroed pages, and the list is the old one without exactly that segment; on null nothing changes; no owned page is written. |
| `MallocSpec.FlsStep` | lib/bitops.h:42-65 | One conditional shift keeps the word a shifted original and moves its top bit up. |
| `MallocSpec.Fls` | lib/bitops.h:37-66 | The position of the highest set bit: 2^r <= word < 2^(r+1). |
| `MallocSpec.OrderOf` | lib/alloc_page.c:152-158 | The least order whose run has room for the pages. |
| `MallocSpec.Placement` | lib/alloc.c:53-64 | The result is aligned, and metadata and user region lie in the block and do not overlap. |
| `Malloc.PageMemalign` | lib/alloc_page.c:150-161 | A run of the least sufficient order, or null with nothing changed. |
| `Malloc.TagBlock` | lib/alloc.c:59-67 | The metadata words go to owned pages of the block, read back, and keep the allocator sound. |
| `Malloc.Memalign` | lib/alloc.c:43-69 | An aligned region inside the block behind its metadata; the block is the run of the least sufficient order; what others own is untouched. |
| `Malloc.Free` | lib/alloc.c:21-41 | Base and size are recovered from the metadata and exactly these pages go back to the list. |
| `Malloc.UserStore` | lib/alloc.c:21-30 | No store of the caller to any byte of its region changes the metadata. |
| `Malloc.FreedIsPrefix` | lib/alloc_page.c:150-166 | The pages freed are a prefix of those allocated, and all of them if and only if their number is a power of two. |
| `Vmalloc.NewPagesBelow` | lib/vmalloc.c:21-27 | Every virtual page in the table stays at or above the top when new pages are backed below it. |
| `Vmalloc.VmAllocator.AllocVpages` | lib/vmalloc.c:21-27 | The new block ends where the last one began and shares no page with any virtual page in the table. |
| `Vmalloc.DataPagesIn` | lib/vmalloc.c:66-70 | The data pages taken are different pages from the front of the free list. |
| `Vmalloc.PagesExact` | lib/vmalloc.c:60-65 | The pages taken hold the bytes asked for if and only if their number does not wrap around at 32 bits. |
| `Vmalloc.PagesWrap` | lib/vmalloc.c:60-65 | 2^44 bytes get no page. |
| `Vmalloc.VmAllocator.VmMemalign` | lib/vmalloc.c:57-72 | Each of the virtual pages, whose number is a 32-bit word, is backed by its own page of the list; all other translations and everything owned by others stay. |
| `Vmalloc.VmAllocator.VmFree` | lib/vmalloc.c:74-81 | Exactly the pages behind the addresses go back to the list. |
| `Vmalloc.TagData` | lib/alloc.c:59-67 | The metadata, written through the page tables, reads back even where its two words lie in different pages. |
| `Vmalloc.VmAllocator.MemalignBlock` | lib/alloc.c:43-69 | memalign over virtual pages: aligned, inside the block, behind its metadata, unless the number of pages wraps around; all earlier translations stay. |
| `Vmalloc.VmAllocator.Memalign` | lib/alloc.c:43-69 | The same for every size, with null if and only if the size is 0, and nothing changed then. |
| `Vmalloc.VmAllocator.Free` | lib/alloc.c:32-41 | Base and size are recovered through the page tables and exactly the data pages go back. |
| `Vmalloc.VmAllocator.MallocThenFree` | lib/vmalloc.c:57-81 | malloc then free returns exactly the data pages taken; the pages that serve as tables stay taken. |
| `SmpHandoff.StepKeeps` | lib/arm/smp.c:119-188 | Every step of the target and of every submitter keeps the invariant of the handoff, and no submitter that has begun loses its request or is away before its own return. |
| `SmpHandoff.RunKeeps` | lib/arm/smp.c:119-188 | Every state of every interleaving satisfies the invariant. |
| `SmpHandoff.OnItsWayStep` | lib/arm/smp.c:161-182 | A submitter keeps its request through every step, gets a ticket only when that request is accepted, and is away again only after that. |
| `SmpHandoff.Served` | lib/arm/smp.c:161-188 | In every run a submitter that is away again returned from its request on the way, after exactly this request was accepted under its ticket. |
| `SmpHandoff.OwnTicket` | lib/arm/smp.c:170-178 | In every run no ticket belongs to two requests. |
| `SmpHandoff.TicketOf` | lib/arm/smp.c:170-178 | In every run each accepted request is that of one submitter which has not returned since it began. |
| `SmpHandoff.HandoffSafe` | lib/arm/smp.c:133-188 | If no submitter passes null: no null function is called, at most one request is accepted and not started, none is overwritten, requests run in acceptance order, each at most once, and a submitter returns only after its own request was accepted, each under its own ticket. |
| `SmpHandoff.SafeIffNoNull` | lib/arm/smp.c:133-188 | All runs over a set of requests are safe in this sense if and only if none of them has a null function. |
| `SmpHandoff.NullOverwritten` | lib/arm/smp.c:173-178 | A concrete run in which a request with a null function is overwritten by the next one. |
| `SmpHandoff.NullCalled` | lib/arm/smp.c:147-147 | A concrete run in which the target calls a null function. |
| `SmpHandoff.OnCpuReturns` | lib/arm/smp.c:184-188 | When on_cpu returns, its function has finished if and only if its idle bit was not cleared between func = NULL and set_cpu_idle of the target. |
| `SmpHandoff.OnCpuRan` | lib/arm/smp.c:184-188 | When on_cpu returns and its idle bit was not cleared early, what ran under its ticket is the function it was called with. |
| `SmpHandoff.SingleSubmitter` | lib/arm/smp.c:184-188 | With a single submitter, on_cpu returns only after its function has finished. |
| `SmpHandoff.LostWakeup` | lib/arm/smp.c:147-150 | A concrete run with two submitters in which on_cpu can return although its function has not started. |
| `SmpDeadlock.ThroughEdge` | lib/arm/smp.c:126-127 | After an edge is inserted, whoever waits waited before or waits through that edge. |
| `SmpDeadlock.ClosesCycle` | lib/arm/smp.c:119-131 | Inserting an edge into an acyclic graph closes a cycle if and only if the CPU waited for already waits for the waiter. |
| `SmpDeadlock.CutWaits` | lib/arm/smp.c:94-99 | Stopping the search at the CPU looked for loses no path to it. |
| `SmpDeadlock.NoReturn` | lib/arm/smp.c:90-106 | In an acyclic graph the recursion never comes back to a CPU on its way, so it ends. |
| `SmpDeadlock.DeadlockCheckFrom` | lib/arm/smp.c:90-106 | Reports if and only if the CPU waits, directly or through others, and terminates. |
| `SmpDeadlock.SearchEnds` | lib/arm/smp.c:90-106 | With one wait for each CPU the recursion of a CPU that has just started to wait ends, whatever loops there are elsewhere. |
| `SmpDeadlock.SearchEndsExactly` | lib/arm/smp.c:90-106 | A recursion that has nothing to find ends if and only if no loop can be reached from its start. |
| `SmpDeadlock.SearchRunsOn` | lib/arm/smp.c:201-206 | A concrete graph with two waits of one CPU, as on_cpus makes them, in which the recursion ends at no depth. |
| `SmpDeadlock.StepKeeps` | lib/arm/smp.c:119-131 | Entering, checking and leaving a wait, in any interleaving, keep the edges that were checked free of cycles. |
| `SmpDeadlock.CycleReported` | lib/arm/smp.c:119-131 | In every state of every interleaving in which no CPU is between entering and checking, there is a cycle only if one has reported. |
| `SmpDeadlock.ReportsExactly` | lib/arm/smp.c:108-117 | In every interleaving a check reports if and only if the CPU that checks is in a cycle of waits at that moment. |
| `SmpDeadlock.OneOfTwoReports` | lib/arm/smp.c:126-127 | Of two CPUs that wait for each other, not both have checked without a report, whoever entered first. |
| `SmpDeadlock.CheckEnds` | lib/arm/smp.c:108-117 | In every state of every interleaving the recursion of a CPU that is about to check ends. |
| `SmpDeadlock.WaitGraph.DeadlockCheck` | lib/arm/smp.c:108-117 | Where no loop can be reached, the check reports if and only if the CPU waited for waits, directly or not. |
| `SmpDeadlock.WaitGraph.constructor` | lib/arm/smp.c:83-88 | Without waiters the graph is acyclic. |
| `SmpDeadlock.WaitGraph.StartWait` | lib/arm/smp.c:119-127 | The check after the insertion reports if and only if the edge closed a cycle; otherwise the graph stays acyclic. |
| `SmpDeadlock.WaitGraph.StartWaitAll` | lib/arm/smp.c:201-206 | The edges of on_cpus to all other CPUs, with the same exact report. |
| `SmpDeadlock.WaitGraph.EndWait` | lib/arm/smp.c:130-130 | Removing an edge keeps the graph acyclic. |
| `VirtioRing.SlotApart` | lib/virtio.c:74-75 | Slots of the ring less than its size apart are different. |
| `VirtioRing.SlotWrap` | lib/virtio.c:74-78 | An index that wrapped around at 16 bits selects the same slot. |
| `VirtioSpec.OkAdd` | lib/virtio.c:50-81 | Adding a buffer keeps chain, rings, indexes and the division of descriptors, and address and length in each descriptor in flight those of the buffer it stands for, with the new one last. |
| `VirtioSpec.OkFetch` | lib/virtio.c:74-78 | The device finds the descriptors in the order in which they were offered, and each describes the oldest buffer not yet taken. |
| `VirtioSpec.OkPublish` | lib/virtio.c:106-125 | The device may publish what it holds in any order; the invariant is kept, and buffer and reported length go with the descriptor. |
| `VirtioSpec.OkReap` | lib/virtio.c:90-125 | Reaping the next published descriptor gives its buffer and its reported length, puts it in front of the free chain and keeps the invariant. |
| `VirtioSpec.OnlyThere` | lib/virtio.c:23-125 | A descriptor of one list is in no other list, and once in its own. |
| `VirtioSpec.AllCounted` | lib/virtio.c:23-125 | Free and in-flight descriptors add up to the size of the queue. |
| `Virtio.EachOnce` | lib/virtio.c:50-125 | Nothing comes back that was not added, and everything has come back if and only if nothing is in flight. |
| `Virtio.Virtqueue.constructor` | lib/virtio.c:23-48 | All descriptors are free, in ascending order, and nothing is in flight. |
| `Virtio.Virtqueue.LinkAll` | lib/virtio.c:43-47 | Each descriptor points to the next one and has no buffer. |
| `Virtio.Virtqueue.AddOutbuf` | lib/virtio.c:50-81 | The first free descriptor is offered last and holds the address and the length of the buffer, as every descriptor in flight does of its own; -1 with nothing changed if and only if none is free. |
| `Virtio.Virtqueue.DeviceFetch` | lib/virtio.c:74-78 | The device takes the descriptor that was offered first, and reads in it the address and the length of the oldest buffer that it has not taken. |
| `Virtio.Virtqueue.DevicePublish` | lib/virtio.c:114-117 | A held descriptor becomes the last one of the used ring, with its buffer and the length reported. |
| `Virtio.Virtqueue.GetBuf` | lib/virtio.c:106-125 | The buffer that was published first, as it was added, and the length reported with it; its descriptor is then free. |
| `Virtio.Virtqueue.DetachBuf` | lib/virtio.c:90-104 | A chain of descriptors, followed through its NEXT flags, goes in front of the free chain and is counted. |
| `KvmClock.Reduce` | x86/kvmclock.c:67-78 | The reduced remainder and the quotient so far still make up n, within 64 bits. |
| `KvmClock.Double` | x86/kvmclock.c:80-83 | The divisor is doubled without leaving 64 bits until twice its value exceeds the remainder. |
| `KvmClock.Div64By32` | x86/kvmclock.c:65-96 | The true quotient and remainder for every 64-bit number and nonzero 32-bit divisor. |
| `KvmClock.ScaleExact` | x86/kvmclock.c:33-50 | The i386 form with two multiplications and the x86_64 form both give the exact product shifted by 32. |
| `KvmClock.ShiftDown` | x86/kvmclock.c:28-31 | A negative shift divides by the power of two and leaves out the remainder. |
| `KvmClock.ShiftUp` | x86/kvmclock.c:28-31 | A positive shift multiplies by the power of two and loses what is above 64 bits; if nothing is lost, the negative shift undoes it. |
| `KvmClock.ShiftByTwo` | x86/kvmclock.c:28-31 | Eight shifted by two in either direction. |
| `KvmClock.ScaleForms` | x86/kvmclock.c:21-53 | The two forms agree on all inputs and shifts, and give the shifted delta times the fraction. |
| `ClockMonotonic.StepKeeps` | x86/kvmclock.c:215-222 | Every atomic step keeps last_value from decreasing and at values that calls brought, every known value one that it had, and every returned value at or above the one of its call. |
| `ClockMonotonic.Monotonic` | x86/kvmclock.c:215-222 | last_value never decreases; each call returns its own value, or a larger one that last_value had during the call and some call brought; last_value is no less from then on; and a call that begins after another has ended returns no less. |
| `ClockMonotonic.GoesOnlyOn` | x86/kvmclock.c:216-220 | The loop of a call goes on only if last_value has risen since the call last looked. |
| `ClockMonotonic.Alone` | x86/kvmclock.c:215-222 | The steps of one call with nothing in between end with the larger of its value and last_value, which they leave there. |
| `ClockMonotonic.Clock.ReadAlone` | x86/kvmclock.c:215-222 | A call alone takes exactly these steps, from any state: it returns the larger of its value and last_value, leaves it there, and ends after at most two exchanges. |
| `Seqlock.StepKeeps` | x86/kvmclock.c:146-194 | Every step of host and reader keeps what was copied under a current even version equal to the published fields. |
| `Seqlock.AcceptedExactly` | x86/kvmclock.c:146-194 | In every run a copy is accepted if and only if the version was changed a multiple of 2^32 times since it was read; the wall-clock loop also retries while it is odd. |
| `Seqlock.Undisturbed` | x86/kvmclock.c:146-194 | A read under an even version that the host does not disturb is never retried and gives the published fields. |
| `Seqlock.SnapshotIsPublished` | x86/kvmclock.c:190-265 | Every snapshot that the clock loop or the wall-clock loop accepts is one published state, wherever the read began, unless the host has changed the 32-bit version 2^32 times or a multiple of it in the meantime. |
| `Seqlock.TornAfterWrap` | x86/kvmclock.c:190-265 | For each loop a run of 2^32 changes in which the snapshot accepted was never published. |
| `GicV3.CpumaskNext` | lib/arm/asm/cpumask.h:106-111 | The next CPU of the mask, with none of the mask in between, or the number of CPUs. |
| `GicV3.CollectPeers` | lib/arm/gic-v3.c:94-126 | The target list names exactly the CPUs of the mask in the stretch passed, and the index left off, rolled back or not, skips none. |
| `GicV3.WordReaches` | lib/arm/gic-v3.c:128-133 | The word written to ICC_SGI1R_EL1 carries the interrupt, and its affinity fields and target bits name exactly the CPUs of the cluster in the list. |
| `GicV3.IpiSendMask` | lib/arm/gic-v3.c:72-140 | The words written reach each CPU of the mask with Aff0 below 16 exactly once and no other CPU, for distinct MPIDRs in any order. |
| `PrintfSpec.DigitsReadBack` | lib/string.c:153-160 | The decimal digits of a number accumulate to the number. |
| `PrintfSpec.AtolOfInteger` | lib/string.c:138-167 | atol of the unpadded rendering of a number is that number. |
| `PrintfSpec.NaturalRenders` | lib/printf.c:95-132 | The text of a number in base 10 or 16 is made of digits of that base, read by their place as the number, without leading zeros. |
| `PrintfSpec.FormatLong` | lib/printf.c:150-257 | %ld renders every number but the most negative one as its unpadded text. |
| `PrintfSpec.FormatInt` | lib/printf.c:150-257 | %d renders every 32-bit number as its unpadded text. |
| `PrintfSpec.FormatNumber` | lib/printf.c:150-257 | %u and %x render the low 32 bits in base 10 and 16, and %c the low eight as a character. |
| `PrintfSpec.FormatRegister` | lib/printf.c:150-257 | %lx renders all 64 bits, and %p the same with the prefix. |
| `PrintfSpec.FormatText` | lib/printf.c:150-257 | %s renders the string as it is. |
| `PrintfSpec.FormatPlain` | lib/printf.c:157-166 | Text without a percent sign is rendered as it is. |
| `PrintfSpec.FormatInOrder` | lib/printf.c:150-257 | Conversions take their arguments in order, and %% takes none. |
| `PrintfSpec.FormatWide` | lib/printf.c:150-257 | %10x and %010x fill the field up with blanks or zeros, and %zu takes 64 bits. |
| `PrintfSpec.PaddedField` | lib/printf.c:33-57 | A field is as wide as the larger of width and text, with the text at the right end behind the padding character, or at the left end in front of blanks for a negative width. |
| `PrintfSpec.AlternateText` | lib/printf.c:95-132 | The prefix of the alternate form stands in front of padding zeros and behind padding blanks, the digits at the end. |
| `PrintfSpec.UnsignedWidth` | lib/printf.c:95-132 | A number takes the larger of width and text if and only if it has no prefix in front of a zero-padded field that is filled up on the right beyond its digits. |
| `PrintfSpec.WidthExceeded` | lib/printf.c:95-132 | %#0-10x of 0xab takes twelve characters. |
| `Printf.DigitsBackwards` | lib/printf.c:71-74 | The digits, last one first, fit in the digit buffer. |
| `Printf.ReverseInPlace` | lib/printf.c:82-88 | The text reversed in place. |
| `Printf.Pstream.constructor` | lib/printf.c:152-156 | An empty stream with room for all but one of the characters. |
| `Printf.Pstream.AddChar` | lib/printf.c:24-31 | One more character of the full text; the buffer holds as much of it as fits. |
| `Printf.Pstream.PrintStr` | lib/printf.c:33-57 | The padded field is added to the full text. |
| `Printf.Pstream.PrintInt` | lib/printf.c:61-93 | The padded decimal text of the number is added, for every number but the most negative. |
| `Printf.Pstream.PrintUnsigned` | lib/printf.c:95-132 | The padded text is added, with the prefix of the alternate form in front of zero padding or inside the field. |
| `Printf.ParseLong` | lib/string.c:138-167 | Blanks, sign and digits are read as atol defines. |
| `Printf.FmtNum` | lib/printf.c:134-148 | The width, cut to 32 bits, and the characters that it takes. |
| `Printf.ParseDirective` | lib/printf.c:168-252 | Flags, width and length up to the conversion, with the jumps back to the switch. |
| `Printf.Vsnprintf` | lib/printf.c:150-257 | Returns the length of the full rendering and stores its first min(size - 1, length) characters and a zero byte. |
| `Printf.FormatThenParse` | lib/printf.c:150-257 | atol of what vsnprintf stored for %ld in at least 21 characters is the number. |

## Left out

- The device-tree header is a record of fields beside the buffer, not bytes of it; its big-endian encoding, versions below 17, `fdt_open_into`, `fdt_pack`, `fdt_set_name`, memory reserve edits and alias paths are not modelled.
- Malformed blobs: `FdtBlob.FdtNextTag` is proved on any bytes with sizes that fit, but lookups, edits and navigation are about blobs that encode a list of tokens, and navigation about well-nested ones. Property lengths that wrap an offset around are excluded.
- FdtSw.FdtBeginNode: says nothing of the buffer after a name was cut to one that fits.
- FdtRw.FdtSetprop: says nothing of the blob after a length was cut, because the source then moves and copies with other lengths.
- FdtRw.FdtAddSubnode: says nothing of the blob after the length of the node was cut; `fdt_add_subnode`, which takes the length of the name, is left out.
- FdtSw.FdtProperty: says nothing of the buffer after a name that is too long, because the copy goes below it.
- FdtPath.FdtGetPath: requires a root without a name and names without a slash on the nodes up to the one asked for, because the way back over a name stops at the first slash in the buffer.
- FdtPath.PathRoundTrip: requires the same of the nodes up to the one asked for, and names that are not empty.
- FdtNav.FdtSubnodeOffset: takes the name without zero bytes and with a length that fits in an int.
- FdtPath.FdtPathOffset: is about absolute paths whose length is an int, because aliases are not modelled.
- EPT accessed and dirty bits, memory types and misconfigurations are not interpreted: an entry has permissions, a size and an address.
- EptEditor.Ept.InstallEptEntry: requires table pages that form a tree, aligned large leaves and fresh spare pages; where a null page is linked a second time, from where on two entries share page 0, its contract ends.
- EptEditor.Ept.SetEptPte: requires a way down without a large entry; the source asserts presence alone and would take the page of a large entry for a table.
- EptEditor.Ept.AllocPage: takes pages from a pool of distinct pages instead of the model of `lib/alloc_page.c`, and leaves zeroing to its callers.
- The unlocked reads of `freelist` and `vfree_top`: the allocators are sequential.
- Malloc.PageMemalign: requires a size whose number of pages does not wrap around at 64 bits.
- Malloc.Memalign: requires a size that does not wrap around when alignment and metadata are added.
- Vmalloc.VmAllocator.VmMemalign: requires enough free pages, because the source does not look at a null page; how many pages the page tables take is a parameter, and their contents are a map.
- Vmalloc.VmAllocator.MemalignBlock: requires enough free pages, as VmMemalign does; size 0 is in Vmalloc.VmAllocator.Memalign.
- Vmalloc.VmAllocator.Memalign: requires enough free pages, as VmMemalign does.
- Vmalloc.VmAllocator.MallocThenFree: requires enough free pages for data and tables, as VmMemalign does.
- Memory barriers, `sev` and `wfe`, booting of secondary CPUs, the online mask and the wait of on_cpus for idle CPUs; liveness of on_cpu with several submitters.
- SmpDeadlock.WaitGraph.StartWait: inserts the edge and checks in one step; waits that overlap are in SmpDeadlock.CycleReported, where each check reads the graph of one moment.
- SmpDeadlock.WaitGraph.StartWaitAll: does the same for each CPU in turn.
- Virtio.Virtqueue.GetBuf: requires that the device has published a buffer, because the source does not compare indexes.
- Virtio.Virtqueue.AddOutbuf: leaves out `num_added`, `vring_init`'s addresses and the notification of the device.
- Seqlock.SnapshotIsPublished: loads and stores are sequentially consistent, and the host writes fields only while the version is odd.
- ClockMonotonic.Monotonic: the raw clock value is an arbitrary input of each call; the flags that skip the correction are left out, as are `set_normalized_timespec` and the Hyper-V clock.
- GicV3.IpiSendMask: requires MPIDRs with no bits outside the four affinity levels, as `mpidr_to_cpu` does; the message for Aff0 of 16 or more is left out.
- Printf.Pstream.PrintInt: requires a number that can be negated in 64 bits.
- Printf.ParseLong: gives the unbounded number for a text beyond a long, where the source overflows.
- Printf.Vsnprintf: requires a size of at least 1, because for size 0 the count of characters left starts at -1 and bounds nothing, and no `%d` of the most negative 64-bit number; a missing argument reads as zero or an empty string, and the counter of characters is unbounded.
- Test bodies, device-tree consumers, UART, PSCI, PCI and report printing: plumbing over the parts above.
