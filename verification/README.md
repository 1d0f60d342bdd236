# Raptor kernel: verified model of its core

Raptor is a small 32-bit teaching kernel. This project models the parts of it that carry real
algorithms and proves what they keep, in Dafny 4.11:

* the kernel heap, with its block headers inside the memory it manages (`HeapModel.dfy`,
  `Heap.dfy`);
* the in-memory filesystem on linked nodes that live in that heap, with path walking, move,
  recursive delete, growing file buffers and path printing (`Paths.dfy`, `CString.dfy`,
  `TreeModel.dfy`, `TreeOps.dfy`, `TreePaths.dfy`, `TreeOwn.dfy`, `FileModel.dfy`, `FsHeap.dfy`,
  `Ramfs.dfy`), whole runs of its calls (`FsRuns.dfy`, `FsCalls.dfy`) and the `mv` command on top
  of it (`Shell.dfy`);
* the interrupt-fed keyboard ring (`Keyboard.dfy`) and the scrolling text screen (`Vga.dfy`);
* the frame bitmap (`Pmm.dfy`) and the page directory (`Paging.dfy`);
* the in-place tokenizer (`Tokenize.dfy`), number formatting (`Format.dfy`) and the hex dump
  (`Hexdump.dfy`), over a few facts on slices (`Slices.dfy`).

Files that change state in the kernel are classes or methods on arrays here, each proved against
a value (`Kheap.blocks`, `Fs.t`, `Screen.paper`, `Driver.R()`, `FrameMap.Set()`, ...), and the
laws are lemmas about those values. The command `dafny verify dfyconfig.toml` takes in the whole
project.

## How the model reads the code

* **Heap.** The region is one array of 32-bit words; a header is five words, and a `bool` takes a
  whole word. The ghost sequence `blocks` lists offset, length and free flag of every block, and
  `Kheap.Valid` says that the words spell exactly those headers and links, that the blocks tile
  4 MiB without gap or overlap, and that no two neighbours are both free. `ALIGN_UP` is modelled
  with its wrap-around: the seven sizes above 0xFFFFFFF8 round to 0, and a caller then gets a block
  smaller than it asked for. `HeapModel.GrantCoversIff` gives the exact condition.
* **Filesystem.** Node structs are objects whose `addr` is the heap block they were allocated in;
  file contents are read from and written to the heap's words byte by byte. The ghost map `t` from
  address to record is the tree the links stand for. Names and paths are sequences of nonzero
  bytes; a stored name is cut to 31 of them.
* **Where a promise fails.** `ramfs_move` looks for an existing destination under the full new
  name but stores only 31 bytes of it, so `mv` to a longer name can give two siblings one name
  (`Shell.LongNameClash`); `Shell.MvNamedIff` says exactly when. A destination with ".." need not
  lead to the moved node (`Shell.DotDotMisses`): it does if and only if its directory part avoids
  that node (`Shell.MvArrivesIff`). `ramfs_path` keeps 32 ancestors and cuts at the buffer's end, so
  a printed path can lead to another node (`TreePaths.DeepLeadsToParent`,
  `TreePaths.CutLeadsToParent`); `TreePaths.PrintedResolvesIff` says exactly when it leads back. The
  growth loop of `ramfs_write` never ends above 2^31 bytes (`FileModel.GrowthEndsIff`), and a sum
  that wraps is not grown for (`FileModel.GuardExactIff`). A character from 0x80 up loses its colour
  (`Vga.CellKeeps`). `docs/ARCHITECTURE.md` mentions none of these; the model follows the code.
* **A limit the program does not meet.** Taken alone, `split_parent` gives up on directory parts of
  256 bytes or more, where `create` does not (`Shell.SplitAgreesIff`, `Shell.SplitDisagrees`). Only
  `cmd_mv` calls it, on a word of a line that `read_line` ends after 255 bytes
  (`include/raptor/shell.h:10`, `shell/shell.c:232`), so in the kernel the two always agree
  (`Shell.ShortPathsAgree`).
* **Preconditions.** Nodes handed to the filesystem are in its tree; `kfree` gets NULL or a live
  block, so the panics on a bad magic and on a double free cannot happen and are not modelled;
  the size a write asks for neither wraps in 32 bits nor passes the growth loop's 2^31;
  `atoi_simple` gets digits that make an `int`; the reserved memory of `pmm_init` ends at or below
  1 GiB.

## Model

| member | source | states |
|---|---|---|
| HeapModel.RunSound | mm/kheap.c:45-131 | after any run of allocations and valid frees the blocks tile the 4 MiB exactly and no two free neighbours remain; a block that was not freed is still live; with nothing live the heap is one free block again |
| HeapModel.MallocSound | mm/kheap.c:57-91 | an allocation with its split keeps the blocks tiling the heap and coalesced |
| HeapModel.FreeSound | mm/kheap.c:103-131 | a free with its two merges keeps the blocks tiling the heap and coalesced |
| HeapModel.Disjoint | mm/kheap.c:57-91 | two blocks of a tiled heap never overlap, headers included, and lie inside it |
| HeapModel.MallocLive | mm/kheap.c:75-91 | an allocation adds one live block, at an address no live block has, of at least the words asked for and fewer than nine more |
| HeapModel.MallocCutsIff | mm/kheap.c:57-91 | the fitting block is cut if and only if a header of 20 bytes and at least 16 more are left over; then the grant has the size asked for and the rest, never under 16 bytes, is free behind it; otherwise the whole block is granted |
| HeapModel.FreeLive | mm/kheap.c:115-131 | a free removes its block from the live ones and no other, although neighbours merge |
| HeapModel.FreeUndoesMalloc | mm/kheap.c:57-131 | freeing the block just allocated restores the whole sequence of blocks |
| HeapModel.FreeAllRestores | mm/kheap.c:103-131 | freeing all live blocks, in any order, leaves one free block of 4 MiB less a header |
| HeapModel.NothingLive | mm/kheap.c:103-131 | a sound heap without live blocks is the initial one |
| HeapModel.MallocFailsIff | mm/kheap.c:75-91 | first fit fails exactly when the rounded size exceeds the largest free block, and otherwise returns the lowest fitting one |
| HeapModel.FreeCountBound | mm/kheap.c:103-131 | there are at most as many free blocks as live ones, plus one |
| HeapModel.EnoughFree | mm/kheap.c:75-91 | n words times (live blocks + 1) of free space guarantee that n words can be allocated, whatever the fragmentation |
| HeapModel.Conserved | mm/kheap.c:133-150 | payloads and headers always add up to the whole heap |
| HeapModel.UsedMeaning | mm/kheap.c:133-150 | nothing is in use at boot, a grant adds its length and a free takes it away |
| HeapModel.AlignUp8Iff | mm/kheap.c:25 | rounding up to 8 in 32 bits reaches the size exactly up to 0xFFFFFFF8 and gives 0 above |
| HeapModel.GrantCoversIff | mm/kheap.c:79-87 | a granted block covers the request if and only if the request is at most 0xFFFFFFF8 |
| HeapModel.WrappedRequest | mm/kheap.c:79-87 | a request of 0xFFFFFFFF bytes is granted a block of no bytes at all |
| Heap.Kheap.constructor | mm/kheap.c:45-55 | from the first page boundary after the kernel the words spell one free block |
| Heap.Kheap.Split | mm/kheap.c:57-73 | the header written into the payload and the relinked neighbours spell the split sequence, and no live payload changes |
| Heap.Kheap.Kmalloc | mm/kheap.c:75-91 | the loop over the in-band headers allocates by first fit, fails exactly when nothing fits, returns an address that was not out at the time of the call with fewer than 36 extra bytes, and changes no live payload word |
| Heap.Kheap.Kzalloc | mm/kheap.c:93-100 | likewise, with every requested byte zero |
| Heap.Kheap.Clear | lib/string.c:11-17 | memset writes exactly the bytes asked for, inside the block |
| Heap.Kheap.MergeNext | mm/kheap.c:103-113 | the two header words changed spell the merged sequence, and nothing changes when a block is missing or in use |
| Heap.Kheap.Kfree | mm/kheap.c:115-131 | exactly the block at that address stops being live, the words spell the coalesced sequence, and other payloads keep every word |
| Heap.Kheap.Stats | mm/kheap.c:133-150 | total, used and largest-free are those of the block sequence, and total plus 20 bytes a block is 4 MiB |
| Heap.SplitSpelled | mm/kheap.c:57-73 | the words a split writes spell the split blocks, back links included |
| Heap.MergeSpelled | mm/kheap.c:103-113 | the words a merge writes spell the merged blocks, back links included |
| Heap.PayloadWritten | mm/kheap.c:75-91 | a client that stays inside its payload changes no header and no other payload |
| Paths.ComponentsJoin | fs/ramfs.c:85-102 | joining two paths with a slash joins their components, however many slashes there are |
| Paths.ComponentsPrint | fs/ramfs.c:227-247 | splitting a printed path gives back its names |
| CString.HoldsUnique | lib/string.c:55-61 | a buffer holds at most one string |
| CString.Strlen | lib/string.c:55-61 | the loop finds the length of the string in the buffer |
| CString.Strlcpy | lib/string.c:90-100 | the longest prefix that fits is stored with its NUL, nothing outside the given size changes, and the length of the source is returned |
| CString.Strcmp | lib/string.c:63-70 | zero exactly for equal strings, negative exactly when the first is smaller by its first differing byte |
| CString.AppendTo | fs/ramfs.c:243-246 | copying to the end of a string appends what fits |
| CString.Memmove | lib/string.c:28-43 | every destination cell gets what its source held before, whichever way the regions overlap |
| TreeModel.FollowMeaning | fs/ramfs.c:72-128 | the walk loop is a left fold of one-step lookup over the components, and the parent it reports is the fold over all but the last |
| TreeModel.WalkConcat | fs/ramfs.c:85-127 | walking two lists of components is walking one after the other |
| TreeModel.ResolveCompose | fs/ramfs.c:130-133 | resolving p + "/" + q is resolving q from where p leads |
| TreeModel.ResolveSlashes | fs/ramfs.c:86-102 | repeated slashes make no difference anywhere, nor does a trailing one on a path that is not empty |
| TreeModel.ResolveOne | fs/ramfs.c:72-133 | the empty path is the working directory, a leading slash starts at the root, a component of 32 bytes or more leads nowhere, "." stays, ".." goes to the parent from a file too and stays at the root, a name at a file leads nowhere and in a directory to the child of that name if there is one |
| TreeOps.InsertShape | fs/ramfs.c:36-41 | attaching a new node to a directory keeps the tree a tree and adds one node |
| TreeOps.InsertNamed | fs/ramfs.c:135-150 | a created node keeps names proper and siblings distinct |
| TreeOps.InsertKeepsWalks | fs/ramfs.c:135-150 | every walk that succeeded before a create succeeds with the same result after it |
| TreeOps.InsertChangesOnly | fs/ramfs.c:135-150 | a walk that changes passes through the parent and the new name |
| TreeOps.CreateMeaning | fs/ramfs.c:135-150 | after a create that path resolves to the new node, exactly one node is new, and every earlier successful resolution stays |
| TreeOps.CreatesIff | fs/ramfs.c:85-150 | walk reports a free place exactly when all but the last component lead to a directory and the last is neither "." nor "..", has at most 31 bytes and names no child |
| TreeOps.ContentsKept | fs/ramfs.c:135-225 | create, delete and move leave the kind, name and contents of every other node alone, and a move those of the node, but for the name; a new node is empty and of the kind asked for |
| TreeOps.KidsOrder | fs/ramfs.c:36-53 | a new or a moved node comes first in its directory, and all others keep their order |
| TreeOps.DeleteShape | fs/ramfs.c:194-204 | a delete removes exactly the subtree and leaves a tree |
| TreeOps.DeleteKeepsWalks | fs/ramfs.c:194-204 | walks that do not meet the deleted node are unchanged |
| TreeOps.DeleteForgetsWalks | fs/ramfs.c:194-204 | walks that meet it fail |
| TreeOps.MoveShape | fs/ramfs.c:206-225 | a move keeps the tree a tree with the same nodes, because the cycle test excludes the moved subtree |
| TreeOps.MoveNamedIff | fs/ramfs.c:206-225 | names stay proper and siblings distinct if and only if the new name may be stored and clashes with no other child of the target |
| TreeOps.MoveKeepsBelow | fs/ramfs.c:206-225 | every path from the moved node that never takes ".." at the node itself resolves as before |
| TreeOps.MoveKeepsAway | fs/ramfs.c:206-225 | every path, with ".." or without, that resolved without meeting the node still gives the same result |
| TreeOps.MoveAddsNothing | fs/ramfs.c:206-225 | and no path that avoids the node starts to resolve |
| TreeOps.MoveForgetsWalks | fs/ramfs.c:206-225 | every path from outside the subtree that ran through the node, ".." or not, resolves no longer |
| TreeOps.MoveArrives | fs/ramfs.c:206-225 | the new name in the new parent leads to the node |
| TreeOps.MoveSteps | fs/ramfs.c:221-223 | detaching, renaming and attaching in turn amount to the move |
| TreePaths.WalkNames | fs/ramfs.c:238-246 | the names from the root to a node lead to that node |
| TreePaths.PrintedNames | fs/ramfs.c:227-247 | what is printed, when it fits, is the names from the root down to the node, or the last 32 of them; "/" for the root |
| TreePaths.PrintedResolvesIff | fs/ramfs.c:227-247 | resolving a printed path, from any working directory, gives the node back if and only if it is at most 32 deep and its whole path fits the buffer |
| FileModel.RunMeaning | fs/ramfs.c:152-179 | after any writes a file holds what successive replacement and appending of the successful ones give; capacity is 0 or 64 times a power of two and holds the size; the bytes ever copied by regrowth are at most the capacity, which above 64 is under twice the peak size |
| FileModel.WriteMeaning | fs/ramfs.c:152-179 | a write fails exactly when its bytes do not fit the capacity and no larger buffer is granted, and then changes nothing; otherwise they replace the contents or stand behind them; one that fits copies nothing |
| FileModel.CopiedAdds | fs/ramfs.c:169-170 | the bytes one write copies do not depend on what was copied before, so the counts of single writes add up to that of the run |
| FileModel.GrowthEndsIff | fs/ramfs.c:162-164 | in 32-bit arithmetic the growth loop ends if and only if the size is at most 2^31 |
| TreePaths.DeepLeadsToParent | fs/ramfs.c:235-240 | a node 33 deep whose printed path leads to its parent, however large the buffer |
| TreePaths.CutAtSlash | fs/ramfs.c:243-246 | a path cut just behind its last slash leads to the parent, in any tree |
| TreePaths.CutLeadsToParent | fs/ramfs.c:243-246 | a path one byte too long for the 256-byte buffer that every caller gives, which leads to the parent |
| FileModel.GuardExactIff | fs/ramfs.c:158-161 | the test for growing, computed in 32 bits, is the true one if and only if the sum does not wrap |
| FileModel.NewCapOK | fs/ramfs.c:162-164 | the new capacity is 64 times a power of two and holds the size |
| TreeOwn.InsertGood | fs/ramfs.c:135-150 | a create adds exactly one owned block |
| TreeOwn.WriteGood | fs/ramfs.c:152-179 | a write that regrows exchanges one owned block for another, any other write none, and no block gets two owners |
| TreeOwn.DeleteGood | fs/ramfs.c:181-204 | a delete gives up exactly the blocks of the subtree |
| TreeOwn.MoveGood | fs/ramfs.c:206-225 | a move changes no ownership |
| FsHeap.GrowTo | fs/ramfs.c:161-164 | the doubling loop computes the new capacity |
| FsHeap.RefusesIff | mm/kheap.c:75-91 | the heap refuses a request exactly when every free block is shorter than the request rounded up to 8 bytes |
| FsHeap.Regrow | fs/ramfs.c:166-173 | a larger block with the kept bytes replaces the old one, and just those bytes are copied; or nothing changes and NULL is returned |
| FsHeap.WriteBuffer | fs/ramfs.c:158-178 | the buffer holds the kept bytes and then the data, others' payloads are untouched, it fails exactly when it must grow and the heap refuses, and it reports the bytes copied by growing |
| FsHeap.ReleaseNode | fs/ramfs.c:190-191 | exactly the data block and the node block are freed |
| Ramfs.Fs.constructor | fs/ramfs.c:259-261 | a root directory in a fresh heap block |
| Ramfs.Fs.FindChild | fs/ramfs.c:55-63 | the loop over siblings finds the first child of that name, or none when there is none |
| Ramfs.Fs.Walk | fs/ramfs.c:72-128 | the loop over the path computes the model's walk, with its parent and name results and all its failures |
| Ramfs.Fs.Resolve | fs/ramfs.c:130-133 | resolution from the working directory or, without one, from the root |
| Ramfs.Fs.NodeNew | fs/ramfs.c:25-34 | a node in a new heap block, or NULL exactly when the heap is full |
| Ramfs.Fs.Attach | fs/ramfs.c:36-41 | the child becomes the parent's first child |
| Ramfs.Fs.Detach | fs/ramfs.c:43-53 | unlinking through the sibling chain removes exactly that child |
| Ramfs.Fs.Create | fs/ramfs.c:135-150 | succeeds exactly when the path names no node in an existing directory and the heap has room; adds one node and one block; a failure changes nothing |
| Ramfs.Fs.CreatableIff | fs/ramfs.c:135-150 | the paths that can be created, from the root without a working directory: all but the last component lead to a directory, and the last is a proper name of at most 31 bytes that no child has |
| Ramfs.Fs.Write | fs/ramfs.c:152-179 | succeeds exactly for a file whose data fits or whose larger buffer the heap grants; the contents are then the data, behind the old ones when appending; the tree and the heap's live blocks change as the model says, and growing copies as many bytes as the model counts; a failure changes nothing |
| Ramfs.Fs.FreeTree | fs/ramfs.c:181-192 | the recursion frees exactly the blocks of the subtree, each once |
| Ramfs.Fs.Delete | fs/ramfs.c:194-204 | succeeds exactly for a node other than the root that is empty or deleted recursively; the subtree and exactly its blocks go |
| Ramfs.Fs.Climbs | fs/ramfs.c:216-219 | the loop up the parents finds the node exactly when the target lies in its subtree |
| Ramfs.Fs.Move | fs/ramfs.c:206-225 | succeeds exactly when the node is not the root, the target is a directory without that name and not in the moved subtree; a failure changes nothing |
| Ramfs.Fs.Climb | fs/ramfs.c:235-240 | the loop collects at most 32 ancestors |
| Ramfs.Fs.Path | fs/ramfs.c:227-247 | the buffer holds the printed path, cut where it is full |
| Ramfs.BufferResolvesIff | fs/ramfs.c:227-247 | whatever string is found in the filled buffer, it resolves to the node if and only if the node is at most 32 deep and its path fits |
| Ramfs.NextComponent | fs/ramfs.c:86-102 | the scanning loops take the next component off the path |
| FsRuns.RunKeeps | fs/ramfs.c:135-225 | over any run of create, write, delete and move to any name, with any allocation failing and other clients allocating and freeing in between, the tree stays well formed, its blocks are live and owned once, and the others hold exactly what they took and did not give back: nothing leaks and nothing is freed twice |
| FsRuns.StepKeeps | fs/ramfs.c:135-225 | the same for one call |
| FsRuns.RunContents | fs/ramfs.c:135-225 | over any such run a file that stays in the tree holds at the end just what the writes addressed to it make of what it held before, whatever else is created, deleted, moved or written |
| FsRuns.NewFileContents | fs/ramfs.c:135-225 | a file that was new holds everything its successful writes appended since the last replacement |
| FsRuns.NamesKeptIff | fs/ramfs.c:135-225 | one call keeps names proper and siblings distinct if and only if it is no move, or a refused one, or one whose stored name is proper and clashes with no other child |
| FsRuns.RunKeepsNames | fs/ramfs.c:135-225 | over any run whose moves have names that may be stored, names stay proper and siblings distinct |
| FsCalls.Create | fs/ramfs.c:135-150 | a create on the linked nodes is one such step |
| FsCalls.Write | fs/ramfs.c:152-179 | a write is one such step |
| FsCalls.Remove | fs/ramfs.c:194-204 | a delete is one such step |
| FsCalls.Relocate | fs/ramfs.c:206-225 | a move, to whatever name, is one such step |
| FsCalls.Take | mm/kheap.c:75-91 | an allocation by another client leaves the filesystem valid, file contents included, and is one such step |
| FsCalls.Give | mm/kheap.c:115-131 | so does the freeing of a block that is not the filesystem's |
| FsCalls.Store | mm/kheap.c:75-91 | a byte stored in a block that is not the filesystem's leaves its state as it was |
| Shell.FindSlash | shell/commands.c:284-287 | the loop finds the last slash |
| Shell.SplitParts | shell/commands.c:280-304 | a path is its front, the last slash and its last name, which holds no slash |
| Shell.SplitParent | shell/commands.c:280-304 | the directory part resolves as the model says, and NULL comes back when it has 256 bytes or more |
| Shell.SplitAgreesIff | shell/commands.c:280-304 | for a storable last name both ways of splitting give the same directory and name, if and only if the directory part is below 256 bytes or does not resolve to a directory |
| Shell.ShortPathsAgree | shell/commands.c:280-304 | they agree for every path of at most 256 bytes, so for every word of a shell line |
| Shell.SplitDisagrees | shell/commands.c:295-303 | the length in that condition is needed: a path of 258 bytes, longer than any the shell passes, for which create finds the root and split_parent finds nothing |
| Shell.MissingName | shell/commands.c:355-368 | when the destination does not exist but its directory does, the name split off is one that may be stored once cut |
| Shell.Mv | shell/commands.c:340-375 | mv moves exactly when source, directory, name and cycle test allow it, and otherwise changes nothing |
| Shell.MvMovesIff | shell/commands.c:340-375 | mv goes ahead if and only if the source resolves to a node other than the root and either the destination resolves to a directory, outside the source, without a child of the source's name, or it does not resolve, the part before its last slash, of at most 255 bytes, leads to such a directory, and no child there has the name behind the slash |
| Shell.MvNamedIff | shell/commands.c:340-375 | after mv the names are proper and distinct if and only if the cut name clashes with no other child; always for names of at most 31 bytes |
| Shell.MvArrivesIff | shell/commands.c:340-375 | after mv the destination, or the new name inside it when it is a directory, leads to the moved node if and only if that name has at most 31 bytes and the directory part did not pass through the node |
| Shell.MvArrives | shell/commands.c:340-375 | so it always does for a destination without ".." and a name of at most 31 bytes |
| Shell.DotDotMisses | shell/commands.c:340-375 | a destination with ".." that leads nowhere after the move |
| Shell.LongNameClash | fs/ramfs.c:212-223 | a 32-byte name for which a move that is not refused leaves two siblings with one name |
| Keyboard.PushQueue | drivers/keyboard.c:46-54 | a push appends to the queue, or drops the byte exactly when 255 wait, and rewrites no slot that waits to be read |
| Keyboard.PopQueue | drivers/keyboard.c:116-124 | advancing the tail removes the first byte of the queue |
| Keyboard.InterruptInv | drivers/keyboard.c:46-54 | an interrupt between any two steps of the reader keeps the byte the reader is about to take |
| Keyboard.RunInv | drivers/keyboard.c:46-124 | for any interleaving, the bytes returned followed by the bytes queued are the accepted bytes in order |
| Keyboard.BootInv | drivers/keyboard.c:26-28 | the statically zeroed ring starts such runs, with an empty queue |
| Keyboard.ReadAlone | drivers/keyboard.c:116-124 | the three reader steps without interrupts return the oldest byte |
| Keyboard.ModsMeaning | drivers/keyboard.c:61-90 | Shift is on exactly when some press of it had no release since, Caps Lock follows the parity of its presses, and extended sequences touch neither |
| Keyboard.LetterCase | drivers/keyboard.c:97-109 | a letter is upper case exactly when one of Shift and Caps Lock is on, and Caps Lock changes nothing else |
| Keyboard.TypedMeaning | drivers/keyboard.c:56-109 | what a scancode types, from the history before it: behind 0xE0 only 0x48 and 0x50 anything, 0x80 and 0x81; otherwise releases, Shift, Caps Lock and 0xE0 nothing, a letter its upper case exactly when one of Shift and Caps Lock is on, another key its shifted character exactly under Shift |
| Keyboard.UpperRows | drivers/keyboard.c:30-44 | the digit row and the row below it carry the characters of a US keyboard |
| Keyboard.LowerRows | drivers/keyboard.c:30-44 | so do the two letter rows below |
| Keyboard.OtherKeys | drivers/keyboard.c:30-44 | Escape, backspace, tab, Enter, asterisk and space are the same under Shift, and no other scancode types anything |
| Keyboard.Driver.Push | drivers/keyboard.c:46-54 | the array and head change as the ring's push |
| Keyboard.Driver.Irq | drivers/keyboard.c:56-109 | each scancode pushes the byte it types, or none, and extends the history the modifiers stand for |
| Keyboard.Driver.Read | drivers/keyboard.c:116-124 | returns and removes the oldest byte, or -1 exactly when there is none |
| Vga.CellKeeps | drivers/vga.c:29-32 | the character always survives in a cell, the colour exactly below 0x80 or when it is 0xFF |
| Vga.ScrollShows | drivers/vga.c:44-55 | moving the rows up and blanking the last is feeding one row of paper |
| Vga.RowsFinished | drivers/vga.c:81-115 | rows above the cursor never change again, whatever is typed |
| Vga.PlainText | drivers/vga.c:104-113 | text of any length appears in order from the cursor on, wrapping and scrolling, and nothing before it changes |
| Vga.HeadMoves | drivers/vga.c:84-103 | line feed goes to the start of the next row, carriage return to the start of its own, tab to the next multiple of 8 or over the margin |
| Vga.BackspaceMeaning | drivers/vga.c:91-96 | backspace goes back one column and blanks it, and does nothing in the first one |
| Vga.TypeChanges | drivers/vga.c:44-115 | any byte changes at most the one cell, line feed, carriage return and tab none, and a row is fed in, blank, only when the cursor has left the last one |
| Vga.ColorMeaning | drivers/vga.c:71-74 | a change of colour alters no cell, and the next character has the new colour |
| Vga.ClearedBlank | drivers/vga.c:62-69 | a cleared screen has 25 rows of 80 blanks in its colour and the cursor in the corner |
| Vga.ShowsRows | drivers/vga.c:44-69 | each of the 2000 cells is that of the last 25 rows of 80, and the cursor is on one of them |
| Vga.Screen.constructor | drivers/vga.c:57-69 | the screen shows 25 blank rows |
| Vga.Screen.Clear | drivers/vga.c:62-69 | the screen shows 25 blank rows in the current colour |
| Vga.Screen.SetColor | drivers/vga.c:71-74 | only later cells change colour |
| Vga.Screen.ScrollIfNeeded | drivers/vga.c:44-55 | the framebuffer shows the last 25 rows again after an overlapping memmove |
| Vga.Screen.Play | drivers/vga.c:62-115 | from clearing on, after any sequence of bytes and colour changes, the framebuffer is the last 25 rows of the whole session's paper |
| Vga.Screen.Putc | drivers/vga.c:81-115 | after any byte the framebuffer is the last 25 rows of a typewriter that never scrolls, the cursor in range |
| Tokenize.SpansApart | shell/shell.c:130-154 | the words come in order and apart, inside the line, each ending at a space, a quote or the end |
| Tokenize.NothingLost | shell/shell.c:130-154 | below the limit every byte outside the words is a space or a quote |
| Tokenize.SpansLimit | shell/shell.c:138-139 | a smaller limit keeps the first words |
| Tokenize.SplitUndoesQuoting | shell/shell.c:130-154 | any list of words within the limit, quoted or bare, with any spaces around them and at least one behind each bare word but the last, comes back word for word; a last quotation left open takes in everything up to the end of the line |
| Tokenize.QuotedIsWord | shell/shell.c:141-149 | behind a quote the word goes up to the next one, or to the end of the line |
| Tokenize.TokenIsSpan | shell/shell.c:141-149 | the words that come back are the ones the places point out |
| Tokenize.Split | shell/shell.c:130-154 | argv holds the start of every word, and only the byte behind each word is overwritten, with NUL |
| Tokenize.TokenHolds | shell/shell.c:150-151 | every word is a NUL-terminated string in place in the line |
| Pmm.FlipBits | mm/pmm.c:29-32 | setting or clearing one bit changes no other and keeps the word's width |
| Pmm.HeldChange | mm/pmm.c:29-32 | so a change of one bitmap word changes one frame |
| Pmm.FirstFreeIsLowest | mm/pmm.c:57-62 | the scan gives the lowest free frame, or none when all are in use |
| Pmm.FreeUndoesAlloc | mm/pmm.c:55-75 | freeing the frame just allocated restores the set |
| Pmm.FreeMeaning | mm/pmm.c:66-75 | freeing takes away the frame the address lies in and no other, none beyond the memory, and the next allocation gives the lower of that frame and the one it would have given |
| Pmm.RunKept | mm/pmm.c:55-75 | after any legal run the frames in use are the reserved ones and one for every address held, and their number is the sum |
| Pmm.TakeIsNew | mm/pmm.c:55-64 | an allocated frame is neither reserved nor held |
| Pmm.AllocMeaning | mm/pmm.c:55-64 | an allocation takes the frame at the address it returns and no other; with every frame in use it takes none and returns 0 |
| Pmm.ZeroMeansNone | mm/pmm.c:55-64 | with frame 0 reserved, address 0 means exactly that memory has run out |
| Pmm.FrameMap.MarkUsed | mm/pmm.c:27-33 | the frame joins the set, and the counter stays the size of the set |
| Pmm.FrameMap.Init | mm/pmm.c:35-53 | the frame count follows the wrapped sum of 1024 and mem_upper, at most 262144, and exactly the frames that start below the reserved end are in use |
| Pmm.FrameMap.AllocFrame | mm/pmm.c:55-64 | takes the lowest free frame, or returns 0 and changes nothing |
| Pmm.FrameMap.FreeFrame | mm/pmm.c:66-75 | gives the frame back; an address of a free frame or outside memory changes nothing |
| Paging.DirectMeaning | mm/paging.c:46-57 | by section 4.3 of the Intel SDM, volume 3A, the window maps 0xC0000000 + a to a and every other address faults |
| Paging.AllMemoryMapped | mm/paging.c:46-64 | every byte of every allocatable frame is mapped at P2V of its address, injectively, and nothing below 0xC0000000 is |
| Paging.MappedExactly | mm/paging.c:46-57 | an address is translated if and only if it lies from 0xC0000000 on in a 4 MiB page that holds a byte of the memory; all others fault |
| Paging.KernelMayWrite | mm/paging.c:53-56 | what is mapped is writable, and closed to user mode |
| Paging.MibShown | mm/paging.c:35-44 | the figure printed is the memory rounded up to 4 MiB, at most 1024 |
| Paging.FrameMapped | mm/paging.c:46-57 | every byte of the frame just allocated is reachable through P2V |
| Paging.MappedIs | mm/paging.c:35-44 | counting present entries counts exactly the entries of the window |
| Paging.Directory.Init | mm/paging.c:46-57 | the loop fills exactly the entries the memory needs, at most 256 |
| Paging.Directory.MappedMib | mm/paging.c:35-44 | four MiB for every present entry |
| Format.ParseUndoesFormat | lib/kprintf.c:35-50 | reading the digits gives back the number, in bases 10 and 16 and either case |
| Format.FormatUndoesParse | lib/kprintf.c:35-50 | a digit string without superfluous zeros is the numeral of its value |
| Format.NoLeadingZero | lib/kprintf.c:42-45 | only zero starts with a zero |
| Format.NumeralCase | lib/kprintf.c:35-50 | upper-case output has no lower-case digit and lower-case output no upper-case one |
| Format.WordLength | lib/kprintf.c:39-45 | a 32-bit number takes at most ten decimal or eight hexadecimal digits |
| Format.NumeralLength | lib/kprintf.c:42-45 | a numeral has at most n digits exactly when the number is below base to the n |
| Format.FieldMeaning | lib/kprintf.c:22-32 | a field is as wide as asked for or as its string; to the left spaces follow the string, to the right the fill precedes it |
| Format.ZeroField | lib/kprintf.c:22-32 | a zero-padded field has the width asked for, or more, and still reads as the number |
| Format.DigitsOf | lib/kprintf.c:42-45 | the do-while loop leaves the digits last one first, within the temporary buffer |
| Format.FormatNum | lib/kprintf.c:35-50 | the numeral stands at the front of the buffer and nothing behind it changes |
| Format.Console.Pad | lib/kprintf.c:16-20 | the loop puts out n fill characters |
| Format.Console.Emit | lib/kprintf.c:22-32 | the padded field appears on the console |
| Format.Console.PrintUnsigned | lib/kprintf.c:107-115 | %u, %x and %X put out the number in its field |
| Format.Atoi | shell/commands.c:22-29 | the value of the leading digits, for every value an int holds |
| Format.PrefixBelow | shell/commands.c:26-27 | no step of the loop overflows before the last |
| Format.AtoiUndoesFormat | shell/commands.c:22-29 | a printed number is read back, whatever other than a digit follows it |
| Hexdump.UndumpUndoesDump | shell/commands.c:387-403 | a reader of the output recovers the size and every byte of any file |
| Hexdump.ByteRecovered | shell/commands.c:387-403 | every row tells its own offset, and every byte stands at its place in digits and as a character |
| Hexdump.RowLayout | shell/commands.c:387-403 | a row is eight lower-case digits, two spaces, the places, " |", one character for every byte (the byte itself from 0x20 to 0x7E, else a dot), "|" and a line feed |
| Hexdump.RowPlaces | shell/commands.c:387-403 | each of the sixteen places is two lower-case digits and a space, or three spaces behind the end of the file, and one more space stands behind the eighth |
| Hexdump.DumpLength | shell/commands.c:387-403 | a full row takes 79 bytes and a shorter one 63 more than it shows |
| Hexdump.Print | shell/commands.c:387-403 | the loops put out exactly those rows |

## Left out

- Aliasing of client data: the bytes given to a write are a value, so a client that appends a file's
  own buffer to it while the buffer is regrown is not covered.
- String comparison inside the filesystem: `Ramfs` compares names as values; the loop it stands for is
  CString.Strcmp.
- Node structs as words: a node's fields are object fields, while its heap block is only known to be
  live and at least 60 bytes; overlap of node fields with other payloads is excluded by ownership.
- The `free` flag of a block header is a whole word of 0 or 1.
- Panics of the heap and of `pmm_init`: their conditions are excluded by preconditions.
- Ramfs.Fs.Write: the size asked for is at most 2^31. Above that the growth loop does not end, and a
  sum of 2^32 or more wraps, skips the growth and overruns the buffer; the precondition excludes both.
- FsHeap.WriteBuffer: the same bound, for the same reasons.
- Heap.Kheap.Kzalloc: leaves out the seven sizes above 0xFFFFFFF8, for which the source clears beyond
  the empty block it was granted (HeapModel.GrantCoversIff).
- Shell.MvArrivesIff: leaves out a relative destination from a working directory inside the moved
  subtree, where a walk up through the moved node continues at its new parent.
- Keyboard.RunInv: the reader is one sequence of steps and an interrupt runs to completion, as on the
  single processor the kernel supports; port input is the scancode argument.
- Format.Atoi: values above INT_MAX, where the C arithmetic is undefined.
- The format string of kvprintf, its %d, %s, %c and %p cases: only the unsigned conversions are
  modelled.
- The files preloaded by ramfs_init: ordinary creates and writes.
- Pmm bits: a bit of a word is defined by halving, and setting or clearing it as adding or taking
  away a power of two, which is what the C operators do on a clear or a set bit.
- Loading CR3, the hardware cursor, serial output, timers and all assembly: effects outside the
  modelled state.
- GDT, IDT, exception names and interrupt controller set-up: fixed tables.
- Real-time clock conversion.
- The shell loop, line editor, history and the remaining commands. The working directory is not
  claimed to stay in the tree: `rm -r` refuses only the directory itself.
