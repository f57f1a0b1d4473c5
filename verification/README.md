# Rabbitbone in Dafny

This project models the parts of the Rabbitbone kernel and its tools where most of the state,
branching and arithmetic is, and proves what they promise over every input, every run or every
reachable state. `dafny verify dfyconfig.toml` checks all of it.

Each part has a plain definition of what is wanted (a function, a transition system, a reader) and,
where the source updates things in place, classes and methods with arrays, fields and loops that are
proved equal to it.

- **Network adapter** (`Ring`, `NicTx`, `NicRace`, `NicRx`, `NicRxRace`): the transmit ring as a
  transition system in which transmit, reclaim, descriptor fetch and write-back interleave freely, the
  receive ring together with the network device's backlog, and what becomes of both when the poll routine
  and the interrupt handler, which take no lock, run into each other. The device keeps to section 3.4 (transmit) and section 3.2.6
  (receive) of the Intel 8254x Software Developer's Manual: it takes descriptors in order between head
  and tail, and writes them back in order.
- **Live image writer** (`FatBytes`, `FatNames`, `FatRecords`, `FatVolume`, `FatTree`, `FatDirs`,
  `FatChains`, `FatImage`, `FatAliases`, `FatBuilder`, `FatWriter`): a tree of files becomes a FAT16 image,
  byte for byte. A reader that takes everything but the width of a table entry, which is 16 bits, from the
  boot sector gets back exactly the tree.
- **Console** (`Console`, `TextConsole`, `Viewport`): deferred presentation of a rotating screen buffer, the
  scrollback ring, and the view that moves back through it.
- **Path names and mounts** (`Path`, `PathC`, `VfsRoute`, `PathPolicy`, `PathAgreement`): the C and the
  Rust normaliser, joining, the shape policy and longest-prefix routing.
- **Physical memory** (`E820`, `Bitmap`, `Frames`, `FrameAllocator`): the boot memory map, the bitmap and
  the reference-counted frame allocator.
- **Line editor** (`EditText`, `EditRuns`, `EditFile`, `Editor`, `EditorIo`): a grid of lines that
  refines one flat text with a cursor, and loading and saving through reads and writes of any size.
- **Text and arithmetic** (`NumText`, `Printf`, `Math64`, `Arith`, `ShiftRegister`, `Crc32`): formatted
  output through fixed chunks, printing and parsing numbers, the saturating multiply-divide behind the
  clock, and CRC-32 (section 8 of RFC 1952).

Properties the code does not have are kept as results, each with the exact condition under which it
does:

- A flush of the console equals a full redraw exactly when every row that changed place or text is
  still marked where the flush looks for it; scrolling does not move the marks, so text written to the
  bottom row and then scrolled is left out, and stays out (`Console.SafeIffAlwaysRight`,
  `Console.BottomLineThenScrollIsUnsafe`). A view that is scrolled back always shows the lines it selects,
  and moving the view mends the picture (`Viewport.WindowIff`, `Viewport.PagingMends`).
- `path_normalize` always fails when input and output are the same buffer (`PathC.PathNormalize`).
- A format reads past its terminator exactly when it is a complete format followed by an unfinished
  directive (`Printf.OutBuf.Format`, `Printf.IncompleteIff`); a formatted append loses text exactly when
  text and room both exceed an `int` (`Printf.FormattedAppendExact`).
- With base detection decimal text is read back exactly when the word is not zero, and behind padding
  zeros exactly when it is less than eight (`NumText.DetectedBaseReadsDecimal`).
- A boot module whose last page is partly filled leaves that page to the allocator; the pages of a module
  are withheld exactly when its ends are page aligned or lie in pages withheld for another reason
  (`Frames.PartialModulePageStaysFree`, `Frames.ModuleIsKeptIff`).
- Freeing a block just allocated always restores the allocator when the kernel image is page aligned, as
  the linker script has it (`Frames.FreeUndoesAllocFromBoot`). For a kernel that began or ended inside a
  page above two megabytes this fails (`Frames.AlwaysSealedIff`, `Frames.UnalignedKernelLosesItsPage`).
- Two reclaims of the transmit ring that are not serialised (the poll and interrupt paths at
  kernel/drivers/rabbit_eth.c:611 and kernel/drivers/rabbit_eth.c:701 take no lock) wrap the in-flight count
  to 65535 exactly when both test the last outstanding descriptor before either decrement and nothing is
  sent between the two (`NicRace.WrapsIff`). The wrap passes: when the device has finished everything, both loops end as one
  reclaim would. What can remain is one descriptor, still owned by the device, that the driver takes for
  free (`NicRace.WhatTwoReclaimsLeave`, `NicRace.PassesOverIff`); if the ring is then filled before the
  device goes on, nothing is ever sent again (`NicRace.OverlapCanStall`). When frames are sent while the
  two run, there is no such bound: every frame of up to a whole ring can be lost
  (`NicRace.SendsCanAllBeLost`).
- Two passes over the receive ring hand every packet on exactly once, in order, exactly when neither takes
  a descriptor between the other's look and its clearing (`NicRxRace.HandedOnOnceIff`).
- The image is what a reader that goes by the number of clusters calls FAT16 exactly when it has at least
  4085 of them; that of an empty builder has three (`FatImage.BuiltType`, `FatBuilder.EmptyBuilderIsFat12`).
- Long and short names are one name space to a reader, but the script compares aliases with aliases only.
  A name looked up by either kind finds its own entry exactly when it is not the alias of another entry of
  the directory; the alias of `/ABCDEFGHI` is `/ABCDEF~1` (`FatAliases.EitherFindsIff`,
  `FatAliases.AliasTakesName`).
- Breaking a line and taking the break back leaves a final newline in the saved file
  (`EditRuns.BackspaceUndoesNewline`); a full buffer of 1024 lines with a final newline can be saved but
  not opened again, and an empty last line comes back as a final newline (`EditFile.LoadUndoesSave`).

## Model

| member | source | states |
|---|---|---|
| `NicTx.InitialInv` | kernel/drivers/rabbit_eth.c:375-400 | the reset ring satisfies the ring invariant |
| `NicTx.ReclaimReachesWriteBack` | kernel/drivers/rabbit_eth.c:549-558 | reclaim stops exactly where the device's write-back stands: it frees every finished descriptor and none the device still owns |
| `NicTx.TransmitInv` | kernel/drivers/rabbit_eth.c:650-690 | transmit keeps the invariant: the indices agree with the in-flight count, at most 63 are in flight, every published slot holds its frame |
| `NicTx.FetchInv` | kernel/drivers/rabbit_eth.c:663-686 | a descriptor fetch by the device between driver steps keeps the invariant |
| `NicTx.WriteBackInv` | kernel/drivers/rabbit_eth.c:549-558 | a write-back by the device between driver steps keeps the invariant |
| `NicTx.ApplyInv` | kernel/drivers/rabbit_eth.c:549-690 | every step of every interleaving keeps the invariant |
| `NicTx.AcceptedIsRecorded` | kernel/drivers/rabbit_eth.c:650-690 | over every run the frames on record are exactly those transmit reported as sent, in order |
| `NicTx.WireIsPaddedPrefix` | kernel/drivers/rabbit_eth.c:665-686 | over every run what left the device is a prefix of the accepted frames, each once, in order, zero-padded to 60 bytes |
| `NicTx.TransmitKeepsDeviceSlots` | kernel/drivers/rabbit_eth.c:650-690 | in every reachable state transmit changes no descriptor and no buffer the device owns |
| `NicTx.BusyExactly` | kernel/drivers/rabbit_eth.c:650-662 | a frame is refused as busy if and only if it passes the earlier checks and 63 accepted frames are not written back |
| `NicTx.EverythingLeaves` | kernel/drivers/rabbit_eth.c:549-558 | from every reachable state the device's own steps send every accepted frame, and the next reclaim frees the whole ring |
| `NicRace.IndexAndCountAgree` | kernel/drivers/rabbit_eth.c:549-558 | over every schedule of two reclaims, transmits and the device, while no reclaim is between its two updates, index and count together name the next free descriptor, whatever the count has wrapped to |
| `NicRace.WrapsIff` | kernel/drivers/rabbit_eth.c:552-557 | over every schedule a decrement wraps the count if and only if both tests of the last outstanding descriptor come before either decrement and nothing is sent between the two |
| `NicRace.AtMostOnePassedOver` | kernel/drivers/rabbit_eth.c:552-557 | over every schedule of two reclaims and the device the index stands at most one past the oldest descriptor the device owns |
| `NicRace.WhatTwoReclaimsLeave` | kernel/drivers/rabbit_eth.c:549-558 | when both loops end, index and count are those of one reclaim, or one descriptor further; the count is exact when the device owns two or more and zero when it owns none |
| `NicRace.PassesOverIff` | kernel/drivers/rabbit_eth.c:553-556 | a move passes over an unfinished descriptor if and only if the other reclaim took the last finished one between this one's test and its move |
| `NicRace.LostDescriptorCanStall` | kernel/drivers/rabbit_eth.c:650-690 | with one descriptor lost, filling the ring before the device takes the next one leaves 64 frames unsent whatever happens later |
| `NicRace.StalledForever` | kernel/drivers/rabbit_eth.c:549-690 | no step of driver or device changes a stalled ring |
| `NicRace.StalledIsBusy` | kernel/drivers/rabbit_eth.c:657-662 | a stalled ring refuses every frame as busy |
| `NicRace.OverlapCanStall` | kernel/drivers/rabbit_eth.c:549-690 | from every reachable state with one finished descriptor, two overlapping reclaims and enough frames stop transmission for good |
| `NicRace.StallIsReachable` | kernel/drivers/rabbit_eth.c:549-690 | two frames sent and one finished is such a state |
| `NicRace.SendBetweenIsLost` | kernel/drivers/rabbit_eth.c:549-690 | a frame sent between the two decrements of the last descriptor keeps the count from wrapping and is itself the one lost |
| `NicRace.LostSendIsTransmit` | kernel/drivers/rabbit_eth.c:650-690 | with one descriptor lost and room in the ring, transmit accepts the frame and its own reclaim frees nothing |
| `NicRace.SendsCanAllBeLost` | kernel/drivers/rabbit_eth.c:549-690 | with frames sent while two reclaims lie in step, any number up to a whole ring is lost: both end with none counted in flight while the device owns them all |
| `NicTx.SendKeepsStats` | kernel/drivers/net.c:115-133 | every send that passes the checks is counted once as sent, busy or error; packet and byte counters equal the accepted frames and their total length |
| `NicTx.EthDevice.constructor` | kernel/drivers/rabbit_eth.c:375-400 | the rings start in the state every run starts from |
| `NicTx.EthDevice.ReclaimTx` | kernel/drivers/rabbit_eth.c:549-558 | the in-place loop computes Reclaim |
| `NicTx.EthDevice.WriteFrame` | kernel/drivers/rabbit_eth.c:663-683 | the frame is copied, padded and described in its slot and nothing else changes |
| `NicTx.EthDevice.TransmitFrame` | kernel/drivers/rabbit_eth.c:650-690 | the in-place transmit computes Transmit, verdict and state |
| `NicTx.EthDevice.SendFrame` | kernel/drivers/net.c:115-133 | checks, driver call and counters compute Send |
| `NicRx.PushAppends` | kernel/drivers/net.c:158-163 | storing at the tail slot appends to the queue's contents |
| `NicRx.PopRemovesFirst` | kernel/drivers/net.c:178-188 | taking the head slot removes the first of the contents |
| `NicRx.ArriveInv` | kernel/drivers/rabbit_eth.c:560-595 | a packet arriving at the device never overwrites an undelivered descriptor |
| `NicRx.ProcessInv` | kernel/drivers/rabbit_eth.c:560-595 | processing the ring keeps ring and backlog invariant: the tail stays one behind the next descriptor and each descriptor is returned once |
| `NicRx.ReadInv` | kernel/drivers/net.c:169-191 | reading a frame keeps the invariant |
| `NicRx.ArrivedIsStored` | kernel/drivers/rabbit_eth.c:560-595 | over every run the packets the ring took are those that found room |
| `NicRx.FramesArriveInOrder` | kernel/drivers/rabbit_eth.c:560-612 | over every run the frames read, followed by the frames waiting, are the good packets in arrival order less the dropped ones; the counters describe them, and errors are the bad packets plus the interrupts that reported a fault |
| `NicRx.EveryFrameCountedOnce` | kernel/drivers/net.c:142-191 | received packets are frames popped plus frames waiting plus frames dropped; with the errors they are the packets processed plus the faults reported by interrupts |
| `NicRx.DroppedExactlyWhenFull` | kernel/drivers/net.c:147-166 | an offered frame is dropped if and only if the backlog is full, and is otherwise appended whole |
| `NicRx.NetDevice.constructor` | kernel/drivers/rabbit_eth.c:375-400 | rings, registers and backlog start in the state every run starts from |
| `NicRx.NetDevice.Receive` | kernel/drivers/net.c:142-167 | a frame of a wrong length is refused; any other is counted and kept or dropped as Offer says |
| `NicRx.NetDevice.HandleInterrupt` | kernel/drivers/rabbit_eth.c:597-612 | the interrupt is counted, a fault is counted as an error, and the ring is processed for the causes that ask for it |
| `NicRx.NetDevice.ProcessDescriptor` | kernel/drivers/rabbit_eth.c:566-593 | one descriptor is delivered or counted as an error, cleared and returned, as ProcessOne |
| `NicRx.NetDevice.ProcessRx` | kernel/drivers/rabbit_eth.c:560-595 | the loop computes Process |
| `NicRx.NetDevice.ReadFrame` | kernel/drivers/net.c:169-191 | the read computes Read: the ring is polled, then the oldest frame is cut to the caller's buffer |
| `NicRxRace.HandedOnOnceIff` | kernel/drivers/rabbit_eth.c:560-595 | over every schedule of two passes every packet is handed on exactly once, in order and from its own buffer, if and only if no pass takes a descriptor between the other's look and its clearing |
| `NicRxRace.BothTakeOne` | kernel/drivers/rabbit_eth.c:560-595 | when both look first, the packet is handed on twice and the index passes the next descriptor |
| `FatNames.DisplayUndoesUpper83` | scripts/make_live_iso.py:71-79 | an 8.3 name comes back whole from its padded field |
| `FatNames.NumberedIsInjective` | scripts/make_live_iso.py:144-151 | the number of a numbered alias can be read back from it, so different numbers give different aliases |
| `FatNames.AliasExists` | scripts/make_live_iso.py:137-152 | an alias can be refused only when 999999 names are already taken |
| `FatRecords.LongNameReadsBack` | scripts/make_live_iso.py:82-126 | the long-name records of a name, with their numbering and checksum, give exactly that name back |
| `FatRecords.ScanGroup` | scripts/make_live_iso.py:272-304 | the records written for one entry list exactly that entry, under its full name, with its first cluster and size |
| `FatVolume.ReadsGeometry` | scripts/make_live_iso.py:375-401 | the reader finds in the boot sector the geometry the writer used |
| `FatVolume.ImageShows` | scripts/make_live_iso.py:337-349 | every table entry and every cluster is read back from the image |
| `FatVolume.ReadsChain` | scripts/make_live_iso.py:351-361 | following a chain reads exactly its clusters, in order |
| `FatVolume.ImageSize` | scripts/make_live_iso.py:405-411 | the image is as long as the boot sector's sector count says, so padding adds nothing and the size test cannot fail |
| `FatVolume.TypeByCount` | scripts/make_live_iso.py:375-401 | the cluster count a reader works out from the boot sector is the number of clusters written, so the volume is FAT16 if and only if there are at least 4085 |
| `FatTree.ShortNamesDiffer` | scripts/make_live_iso.py:244-249 | no two entries of one directory have the same short name |
| `FatTree.ShortNamesExist` | scripts/make_live_iso.py:244-249 | short names run out only in a tree of a million paths |
| `FatTree.NodeIsChained` | scripts/make_live_iso.py:351-361 | every directory and every file with data has a chain in the table that ends in 0xFFFF |
| `FatTree.ChainsAreDisjoint` | scripts/make_live_iso.py:251-270 | no two chains share a cluster |
| `FatChains.EveryClusterIsUsed` | scripts/make_live_iso.py:351-364 | every data cluster belongs to some chain, so none is left to be marked free |
| `FatChains.ReadsFile` | scripts/make_live_iso.py:251-259 | following a file's chain and cutting it to its size gives its bytes |
| `FatChains.LookIsTree` | scripts/make_live_iso.py:306-335 | a path followed component by component through the directories reaches what the tree has there |
| `FatDirs.DirListing` | scripts/make_live_iso.py:326-335 | a directory's bytes list its two dot entries and exactly its own entries, directories first |
| `FatDirs.RootListing` | scripts/make_live_iso.py:366-373 | the root's bytes list exactly its own entries, the volume label aside |
| `FatImage.ImageHoldsTree` | scripts/make_live_iso.py:221-412 | the round trip: at every path the built image holds exactly what the tree has there, a file's bytes, a directory or nothing |
| `FatAliases.EitherFindsIff` | scripts/make_live_iso.py:137-152 | in every built image a name looked up among long and short names alike finds its own entry and no other if and only if no other entry of the directory has it as its alias |
| `FatAliases.AliasTakesName` | scripts/make_live_iso.py:244-249 | the files /ABCDEFGHI and /ABCDEF~1 are accepted and built, and the name of the second finds both |
| `FatAliases.RootShorts` | scripts/make_live_iso.py:366-373 | the short names in the root's bytes are the assigned ones, in order, the volume label aside |
| `FatAliases.DirShorts` | scripts/make_live_iso.py:326-335 | the short names in a directory's bytes are the two dot names and the assigned ones, in order |
| `FatImage.BuiltSize` | scripts/make_live_iso.py:337-342 | the size of every image that is built, from the number of table entries |
| `FatImage.BuiltType` | scripts/make_live_iso.py:375-401 | the FAT type of every image that is built, by its number of clusters |
| `FatImage.SmallTreeBuilds` | scripts/make_live_iso.py:221-412 | a tree of at most six nodes is refused only for the size of its files or the serial number |
| `FatBuilder.Builder.constructor` | scripts/make_live_iso.py:193-195 | the builder starts with the four fixed directories and no file, consistent |
| `FatBuilder.Builder.AddFile` | scripts/make_live_iso.py:197-219 | a path is accepted or refused for its parts, as a duplicate or for a file among its parents; accepting adds the file and the directories above it, refusing changes nothing |
| `FatBuilder.BuilderRoundTrip` | scripts/make_live_iso.py:192-412 | every added file is in the image with its bytes, every directory is one there, and there is nothing else |
| `FatBuilder.EmptyBuilderIsFat12` | scripts/make_live_iso.py:193-195 | the empty builder builds, and by its three clusters the image counts as FAT12 |
| `FatWriter.FindAlias` | scripts/make_live_iso.py:137-152 | the search loop returns Alias: the 8.3 name when it is free, else the first free numbered one |
| `FatWriter.AssignShorts` | scripts/make_live_iso.py:244-249 | the loop gives every path the alias that is free in its own directory |
| `FatWriter.AllocChain` | scripts/make_live_iso.py:251-259 | the data's clusters are appended, the last one zero-filled, and the chain starts at the first of them |
| `FatWriter.AllocAll` | scripts/make_live_iso.py:261-270 | one cluster per directory, then the clusters of every file, with every first cluster recorded |
| `FatWriter.Gather` | scripts/make_live_iso.py:315-322 | the records gathered for each directory are those of its directories, then of its files, in order |
| `FatWriter.FillFat` | scripts/make_live_iso.py:348-361 | the table filled in place is the one the chains need, and zero beyond it |
| `FatWriter.PlaceRegions` | scripts/make_live_iso.py:324-335 | each directory's bytes end up in its own cluster |
| `FatWriter.BuildImage` | scripts/make_live_iso.py:221-412 | the loops together compute Build, image or refusal |
| `Console.ScrollMovesRows` | kernel/drivers/vga.c:669-688 | a scroll turns the buffer so that the live rows move up by one and a blank row follows |
| `Console.WriteChangesOneRow` | kernel/drivers/vga.c:445-455 | a write changes one cell of one live row |
| `Console.FlushEqualsRedraw` | kernel/drivers/vga.c:623-660 | after any run a flush that the tracker calls safe equals a full redraw |
| `Console.SafeIffAlwaysRight` | kernel/drivers/vga.c:623-698 | after any run of writes, scrolls, clears, redraws and flushes, right or wrong, the next flush is right whatever the text if and only if every stale row is marked |
| `Console.GuardedScrollsAreSafe` | kernel/drivers/vga.c:689-694 | if every scroll finds the dirty rows among the bottom rows still to be drawn, every flush is right |
| `Console.BottomLineThenScrollIsUnsafe` | kernel/drivers/vga.c:669-698 | text on the bottom row followed by a scroll is left out of the picture by the flush, and by the flush after it |
| `TextConsole.LastOfLast` | kernel/drivers/vga.c:534-545 | keeping the last lines one push at a time keeps the last lines of all that was pushed |
| `TextConsole.ScrollKeepsText` | kernel/drivers/vga.c:669-688 | history and live rows together lose only the oldest line, and that only when the history is full |
| `TextConsole.ScrollMovesView` | kernel/drivers/vga.c:592-621 | a view scrolled back moves on by exactly one line at every scroll, whether the history is full or not |
| `TextConsole.Scrollback.Push` | kernel/drivers/vga.c:534-545 | the ring holds the last lines up to its capacity, oldest first |
| `TextConsole.Scrollback.LineAt` | kernel/drivers/vga.c:547-550 | line i of the history, or none |
| `TextConsole.Terminal.SetCell` | kernel/drivers/vga.c:445-455 | the in-place write computes SetCell |
| `TextConsole.Terminal.Clear` | kernel/drivers/vga.c:525-532 | the in-place clear computes ClearScreen |
| `TextConsole.Terminal.ScrollShadow` | kernel/drivers/vga.c:568-588 | the picture's rows move up by the number of scrolled rows and blank rows follow |
| `TextConsole.Terminal.CountDirty` | kernel/drivers/vga.c:387-399 | the count of rows to draw |
| `TextConsole.Terminal.PresentDirty` | kernel/drivers/vga.c:623-660 | drawing happens exactly when it is due, draws the flush (or the live rows when scrolled back) and leaves no mark |
| `TextConsole.Terminal.RenderView` | kernel/drivers/vga.c:592-621 | the picture becomes the window of history and live rows that the offset selects |
| `TextConsole.Terminal.ScrollLiveOne` | kernel/drivers/vga.c:669-698 | the top row joins the history and the rows turn; in the live view the scroll is marked and presented when due, else the view is drawn again |
| `TextConsole.Terminal.ScrollView` | kernel/drivers/vga.c:896-908 | the offset moves by the given amount, kept between the live view and the oldest line, and the window it selects is drawn |
| `TextConsole.Terminal.EnsureLiveView` | kernel/drivers/vga.c:662-667 | the view is back at the live rows, drawn again if it was not there |
| `Viewport.BackIsWindow` | kernel/drivers/vga.c:592-698 | after every session of writes, feeds, view moves, clears and presents a view that is scrolled back shows exactly the lines it selects and has nothing left to draw |
| `Viewport.SessionFollows` | kernel/drivers/vga.c:592-908 | a session is a run of the live screen in which every move and return of the view is a redraw |
| `Viewport.WindowIff` | kernel/drivers/vga.c:592-908 | after every session a present shows the selected window, whatever the text, if and only if the view is scrolled back or every stale row is marked |
| `Viewport.PagingMends` | kernel/drivers/vga.c:896-908 | after a move of the view every present is right, whatever was left out before |
| `Path.NormalIsIdempotent` | kernel/vfs/path.c:52-78 | normalising a normal path changes nothing |
| `Path.NormalFits` | kernel/vfs/path.c:52-78 | the normal form of a path fits wherever the path itself would |
| `Path.CapacityNeverBinds` | kernel/vfs/path.c:35-50 | a path shorter than the limit never outgrows it while it is resolved |
| `Path.PopUndoesAppend` | kernel/vfs/path.c:22-50 | removing the last component undoes appending it |
| `Path.JoinResolves` | kernel/vfs/path.c:87-104 | joining resolves the leaf's components on top of the base's |
| `Path.SplitUndoesJoin` | kernel/vfs/path.c:52-78 | the components of a rendered path are the components it was rendered from |
| `Path.ResolveConcat` | kernel/vfs/path.c:52-78 | resolving two component lists in a row is resolving their concatenation |
| `PathC.PopComponent` | kernel/vfs/path.c:22-28 | the last component is cut off in place; the root is refused |
| `PathC.AppendComponent` | kernel/vfs/path.c:35-50 | an empty component changes nothing; any other is appended in place exactly when its bytes, its length and the room allow it |
| `PathC.PathNormalize` | kernel/vfs/path.c:52-78 | it succeeds exactly on the paths that have a normal form in the given space and leaves that form; in place it always fails |
| `PathC.PathJoin` | kernel/vfs/path.c:87-104 | the result is the normal form of base, slash and leaf, or a refusal when they are too long |
| `PathC.NextComponent` | kernel/vfs/path.c:106-123 | the next component, found exactly when it fits and its bytes are allowed; found or refused, the cursor ends behind it |
| `VfsRoute.AppendComponent` | kernel/rust/vfs_route.rs:71-95 | the component is appended in place exactly when it may be |
| `VfsRoute.PopComponent` | kernel/rust/vfs_route.rs:97-103 | the last component is cut off in place; the root is refused |
| `VfsRoute.Normalize` | kernel/rust/vfs_route.rs:105-129 | it succeeds exactly on the paths that have a normal form and returns it |
| `VfsRoute.PathDepth` | kernel/rust/vfs_route.rs:131-143 | the number of components |
| `VfsRoute.MountMatches` | kernel/rust/vfs_route.rs:145-157 | true exactly when the mount covers the path |
| `VfsRoute.ComputeRelative` | kernel/rust/vfs_route.rs:159-180 | the path below the mount, with a leading slash |
| `VfsRoute.Route` | kernel/rust/vfs_route.rs:182-204 | the normal form, the best mount's row and the path below it, or which error |
| `VfsRoute.CoversIsPrefix` | kernel/rust/vfs_route.rs:145-157 | on normal paths a mount covers a path if and only if its components are a prefix of the path's |
| `VfsRoute.BelowIsRemainder` | kernel/rust/vfs_route.rs:159-180 | below the mount are exactly the components after the mount's |
| `VfsRoute.RoutePicksLongestPrefix` | kernel/rust/vfs_route.rs:182-204 | routing picks the longest mounted component prefix, the last row among equals, and hands on the remaining components |
| `PathPolicy.CStrLen` | kernel/rust/path_policy.rs:25-34 | the length, or the error for empty or unterminated text |
| `PathPolicy.ScanShape` | kernel/rust/path_policy.rs:56-74 | the byte loop accepts exactly the paths of allowed bytes and component lengths, without dot components when those are rejected, and names the first fault |
| `PathPolicy.ValidatePathShape` | kernel/rust/path_policy.rs:51-75 | the policy's verdict in terms of the whole path, and which error comes first |
| `PathPolicy.PolicyIsNormalWithoutDots` | kernel/rust/path_policy.rs:77-79 | the policy accepts exactly the paths that normalise and have no dot component |
| `PathAgreement.NormalizeBoth` | kernel/rust/vfs_route.rs:105-129 | the C and the Rust normaliser give the same verdict and the same path on every terminated input |
| `E820.AppendOrMerge` | boot/uefi/bootx64.c:475-494 | the entry is merged into the last one or appended in place, or the map is full |
| `E820.AppendCovers` | boot/uefi/bootx64.c:475-494 | appending adds exactly the new range's addresses, with its kind |
| `E820.InsertInPlace` | boot/uefi/bootx64.c:499-505 | the key ends up in its sorted place and the others keep their order |
| `E820.SortSorted` | boot/uefi/bootx64.c:498-506 | the map is sorted by base |
| `E820.SortPermutes` | boot/uefi/bootx64.c:498-506 | sorting keeps the entries as a multiset |
| `E820.CoalesceCovers` | boot/uefi/bootx64.c:507-521 | coalescing keeps the kind of every address |
| `E820.SortAndCoalesce` | boot/uefi/bootx64.c:496-522 | the in-place loops compute the sorted, coalesced map |
| `E820.FillMemoryMap` | boot/uefi/bootx64.c:524-550 | the map of all descriptors, or a refusal when it does not fit |
| `E820.MemoryMapKeepsMeaning` | boot/uefi/bootx64.c:524-550 | an address has a kind in the map if and only if a kept descriptor gives it that kind, and entries of one kind are apart |
| `E820.MemoryMapIsDisjoint` | boot/uefi/bootx64.c:496-522 | if the descriptors give no address two kinds, no two entries overlap |
| `Bitmap.BitmapT.Set` | kernel/lib/bitmap.c:28-31 | one bit becomes true |
| `Bitmap.BitmapT.Clear` | kernel/lib/bitmap.c:33-36 | one bit becomes false |
| `Bitmap.BitmapT.Test` | kernel/lib/bitmap.c:38-41 | the bit's value, false outside |
| `Bitmap.CountWord` | kernel/lib/bitmap.c:91-94 | clearing the lowest one-bit until none is left counts the one-bits |
| `Bitmap.BitmapT.CountSet` | kernel/lib/bitmap.c:81-97 | the number of true bits, the last word masked |
| `Frames.AllocIsFirstFit` | kernel/arch/x86_64/memory.c:108-137 | the lowest free run below the limit, or none exactly when there is none |
| `Frames.ApplyInv` | kernel/arch/x86_64/memory.c:108-200 | every operation keeps: a frame is used exactly when it is referenced, and the low two megabytes stay used |
| `Frames.RefsAreBalanced` | kernel/arch/x86_64/memory.c:108-200 | over every run each frame's count is its starting count plus the references still out |
| `Frames.FreshBlockIsUnreferenced` | kernel/arch/x86_64/memory.c:108-137 | after any run a fresh block shares no frame with anything still referenced |
| `Frames.TotalIsExact` | kernel/arch/x86_64/memory.c:108-200 | over one step the total of all counts changes by exactly the references given and taken |
| `Frames.FreeAfterAlloc` | kernel/arch/x86_64/memory.c:147-168 | freeing a fresh block is ignored if it meets a reserved range, and restores the allocator if it does not |
| `Frames.RunSealed` | kernel/arch/x86_64/memory.c:108-200 | once every frame that a reserved range touches is in use, no run of operations releases one |
| `Frames.FreeUndoesAlloc` | kernel/arch/x86_64/memory.c:147-168 | after any run from such a state freeing a fresh block restores the allocator exactly |
| `Frames.InitIsSealedIff` | kernel/arch/x86_64/memory.c:62-106 | initialisation reaches such a state if and only if the kernel's ends are page aligned or lie in frames withheld anyway |
| `Frames.AlwaysSealedIff` | kernel/arch/x86_64/memory.c:62-106 | it does so for every boot information if and only if the kernel is page aligned wherever it ends above two megabytes and outside the reference counts |
| `Frames.FreeUndoesAllocFromBoot` | kernel/arch/x86_64/memory.c:62-168 | with a page-aligned kernel, over every run from boot on, freeing a fresh block restores the allocator exactly |
| `Frames.UnalignedKernelLosesItsPage` | kernel/arch/x86_64/memory.c:62-168 | a kernel that begins inside a page: that page is handed out first and cannot be freed |
| `Frames.PartialModulePageStaysFree` | kernel/arch/x86_64/memory.c:94-99 | a boot module's partly filled last page is free after initialisation |
| `Frames.ModuleIsKeptIff` | kernel/arch/x86_64/memory.c:94-99 | initialisation withholds every frame a module touches if and only if the module's ends are page aligned or lie in frames withheld anyway |
| `Frames.CoalescingKeepsFreeFrames` | kernel/arch/x86_64/memory.c:62-106 | for page-aligned descriptors the coalesced map leaves exactly the frames free that the descriptors would |
| `FrameAllocator.Allocator.Init` | kernel/arch/x86_64/memory.c:62-106 | initialisation leaves exactly AfterInit, and the capped total of the usable ranges |
| `FrameAllocator.Allocator.MarkRange` | kernel/arch/x86_64/memory.c:47-60 | exactly the frames wholly inside the range are marked |
| `FrameAllocator.Allocator.AllocContiguousBelow` | kernel/arch/x86_64/memory.c:108-137 | the search with skips computes Alloc |
| `FrameAllocator.Allocator.FreeContiguous` | kernel/arch/x86_64/memory.c:147-168 | the free computes Free: freed, ignored or a panic |
| `FrameAllocator.Allocator.RefPage` | kernel/arch/x86_64/memory.c:174-184 | the reference computes Ref |
| `FrameAllocator.Allocator.UnrefPage` | kernel/arch/x86_64/memory.c:186-200 | the release computes Unref and frees at zero |
| `FrameAllocator.Allocator.GetStats` | kernel/arch/x86_64/memory.c:213-223 | used and free frames add up to the tracked ones, and the usable total is reported |
| `FrameAllocator.SkipIsSound` | kernel/arch/x86_64/memory.c:118-127 | skipping past a used frame misses no free run |
| `EditText.InsertCharIsInsertion` | user/bin/nano.c:347-361 | typing inserts the character at the cursor of the flat text |
| `EditText.NewlineIsInsertion` | user/bin/nano.c:363-378 | a line break inserts a newline at the cursor of the flat text |
| `EditText.BackspaceIsRemoval` | user/bin/nano.c:380-401 | backspace removes the character before the cursor, or nothing exactly when there is none or the joined line would not fit |
| `EditText.DeleteIsRemoval` | user/bin/nano.c:403-420 | delete removes the character after the cursor, in the same way |
| `EditRuns.LeftIsOneBack` | user/bin/nano.c:674-679 | left is one character back in the flat text, across line ends |
| `EditRuns.RightIsOneForward` | user/bin/nano.c:681-687 | right is one character forward |
| `EditRuns.MovesKeepText` | user/bin/nano.c:674-717 | moves change only the cursor |
| `EditRuns.CutRefines` | user/bin/nano.c:422-431 | cutting a line is going to its start and removing it with one line end |
| `EditRuns.PasteRefines` | user/bin/nano.c:433-440 | pasting is going to the line's end and typing a newline and the clip |
| `EditRuns.RunRefines` | user/bin/nano.c:347-440 | over every session text and cursor are what a flat text editor makes of the accepted keys |
| `EditRuns.UnmarkedIsUnchanged` | user/bin/nano.c:318-321 | a session that ends unmodified has every line, and what a save would write, as it was |
| `EditRuns.BackspaceUndoesType` | user/bin/nano.c:347-401 | backspace takes back a typed character, lines and cursor |
| `EditRuns.BackspaceUndoesNewline` | user/bin/nano.c:363-401 | backspace takes back a line break, but a save then ends with a newline |
| `EditRuns.PasteAfterCut` | user/bin/nano.c:422-440 | cut and paste move the line down by one; the lines are restored if and only if it was the last of several or equal to the next |
| `EditRuns.FlatInjective` | user/bin/nano.c:539-552 | lines without breaks are determined by their joined text |
| `EditFile.LoadKeepsText` | user/bin/nano.c:503-537 | after any part of a file the lines hold that part without its carriage returns, within the limits |
| `EditFile.SaveUndoesLoad` | user/bin/nano.c:503-552 | saving an unedited file writes it without its carriage returns, with a final newline exactly when it had one |
| `EditFile.LoadsExactlyWhatFits` | user/bin/nano.c:503-537 | a file loads if and only if it has at most 1024 lines of at most 511 characters |
| `EditFile.LoadUndoesSave` | user/bin/nano.c:503-552 | what was saved loads again if and only if the lines and a final newline fit, and comes back the same unless it ends in an empty line |
| `Editor.Storage.InsertAt` | user/bin/nano.c:353-359 | shifting the row's characters inserts one and keeps the terminator |
| `Editor.Storage.RemoveAt` | user/bin/nano.c:383-387 | shifting the row's characters removes one and keeps the terminator |
| `Editor.Nano.ClampCursor` | user/bin/nano.c:220-229 | the cursor is brought into range; in range it stays |
| `Editor.Nano.InsertLineAt` | user/bin/nano.c:323-335 | shifting lines down inserts one, or is refused for its limits |
| `Editor.Nano.DeleteLineAt` | user/bin/nano.c:337-345 | shifting lines up deletes one; the last line is emptied instead, and a row past the end changes nothing |
| `Editor.Nano.InsertChar` | user/bin/nano.c:347-361 | the in-place edit computes Type, four spaces for a tab |
| `Editor.Nano.InsertNewline` | user/bin/nano.c:363-378 | the in-place edit computes Newline |
| `Editor.Nano.Backspace` | user/bin/nano.c:380-401 | the in-place edit computes Backspace |
| `Editor.Nano.DeleteChar` | user/bin/nano.c:403-420 | the in-place edit computes Delete |
| `Editor.Nano.CutLine` | user/bin/nano.c:422-431 | the in-place edit computes Cut |
| `Editor.Nano.PasteLine` | user/bin/nano.c:433-440 | the in-place edit computes Paste |
| `Editor.Nano.MoveTo` | user/bin/nano.c:674-717 | the in-place moves compute theirs |
| `Editor.Nano.HandleKey` | user/bin/nano.c:719-747 | every editing key does to the buffer what Press says |
| `EditorIo.LoadFile` | user/bin/nano.c:515-537 | whatever the sizes of the reads, the lines loaded or the limit met depend only on the contents |
| `EditorIo.WriteAll` | user/bin/nano.c:43-52 | everything is written on success, a part from the front otherwise |
| `EditorIo.WriteBuffer` | user/bin/nano.c:539-552 | a save that succeeds has written the whole text, one that fails a part of it from the front |
| `NumText.DigitCount` | kernel/core/printf.c:76-87 | the digits of a 64-bit value in any base fit the 65-character buffer |
| `NumText.ScanDigits` | kernel/lib/string.c:156-172 | the digit loop consumes the whole run and returns its value or the maximum |
| `NumText.StrToU64` | kernel/lib/string.c:146-175 | value and end position as Parse defines them |
| `NumText.OverflowTest` | kernel/lib/string.c:162-169 | the division test detects exactly the digits that would not fit |
| `NumText.ParseUndoesPrint` | kernel/lib/string.c:146-175 | for every value, base, width and padding, parsing printed text returns the value and stops at its end |
| `NumText.ParseSaturates` | kernel/lib/string.c:146-175 | a digit run of any length is consumed whole and gives its value or the maximum |
| `NumText.DetectedBaseReadsDecimal` | kernel/lib/string.c:151-155 | with base detection decimal text of any width is read back if and only if the value is not zero, or is less than eight when padded with zeros |
| `NumText.DetectedBaseReadsPointer` | kernel/lib/string.c:151-155 | with base detection the text of a pointer is read back |
| `Printf.OutBuf.Flush` | kernel/core/printf.c:21-25 | the chunk is emitted once and emptied |
| `Printf.OutBuf.EmitBytes` | kernel/core/printf.c:27-61 | bytes are stored up to the limit or emitted in full chunks, and always counted |
| `Printf.OutBuf.OutRepeat` | kernel/core/printf.c:72-74 | the character as often as asked, none for a negative count |
| `Printf.OutBuf.OutUint` | kernel/core/printf.c:76-87 | the padded digits |
| `Printf.OutBuf.OutInt` | kernel/core/printf.c:89-97 | the sign and the padded magnitude, the least value included |
| `Printf.OutBuf.Format` | kernel/core/printf.c:99-157 | the output grows by exactly Text, whatever the chunk size; an overrun is reported exactly for a format that ends inside a directive |
| `Printf.Snprintf` | kernel/core/printf.c:159-168 | the first cap-1 characters and a terminator, and the whole length up to an int |
| `Printf.EmitBuffered` | kernel/core/printf.c:178-184 | the emitted blocks together are Text for every chunk size, and each fits its chunk |
| `Printf.BufOut.constructor` | kernel/lib/format.c:4-10 | an empty buffer, terminated if it has any room |
| `Printf.BufOut.AppendRaw` | kernel/lib/format.c:12-17 | as much as fits is appended and terminated |
| `Printf.BufOut.VAppendf` | kernel/lib/format.c:19-30 | as much as fits of the first INT_MAX characters is appended and terminated |
| `Printf.FormattedAppendExact` | kernel/lib/format.c:19-30 | a formatted append is exact if and only if the text or the room is within an int |
| `Printf.AppendsKeepPrefix` | kernel/lib/format.c:12-30 | any run of raw and formatted appends leaves the first characters of what was given, and of the whole text when the buffer or every formatted text is within an int |
| `Printf.IncompleteIff` | kernel/core/printf.c:106-122 | a format is read past its end if and only if it is a complete format followed by `%`, digits and at most two length modifiers |
| `Math64.ComputeMulDiv` | kernel/include/rabbitbone/math64.h:10-27 | the bit loop returns the minimum of the exact quotient and the largest word, its remainder never overflowing |
| `Math64.ClockIsMonotone` | kernel/core/timer.c:119-125 | a later counter value never reads as an earlier time |
| `Math64.ClockIsExact` | kernel/core/timer.c:119-125 | until it saturates the clock is behind by less than one nanosecond |
| `Math64.ClockDoesNotDrift` | kernel/core/timer.c:119-125 | whole seconds of ticks read as exactly that many seconds |
| `Crc32.ShiftByte` | kernel/lib/crc32.c:9-13 | eight masked steps are eight register steps |
| `Crc32.Crc32Update` | kernel/lib/crc32.c:4-16 | the nested loops compute Update |
| `Crc32.MaskSelects` | kernel/lib/crc32.c:11-12 | the mask selects the polynomial exactly when the low bit is set |
| `Crc32.UpdateStreams` | kernel/lib/crc32.c:4-16 | updating over a then b is updating over both |
| `Crc32.UpdateIsBijective` | kernel/lib/crc32.c:4-16 | over a fixed message the state map has an inverse |
| `Crc32.BurstDetected` | kernel/lib/crc32.c:4-20 | messages of one length that differ only within 32 consecutive bits share a checksum only when equal |
| `Crc32.FourByteBurstDetected` | kernel/lib/crc32.c:18-20 | every change confined to four consecutive bytes is detected |
| `ShiftRegister.NoCollisionInWindow` | kernel/lib/crc32.c:8-14 | for any register with lawful steps, two inputs that differ only within a window of its width end in different states |

## Left out

- NicTx: link state, open and close, re-opening, interrupt moderation and register access beyond ring head and tail; counters are unbounded.
- NicRx: broadcast and multicast counters, the receive callback and device registration; counters are unbounded.
- NicTx, NicRx: a driver step is one step; NicRace and NicRxRace take the unlocked ones apart.
- NicRace: an update of the index or of the count is one step, not a load and a store; a transmit's own reclaim is one of the two loops.
- NicRace.AtMostOnePassedOver: its schedules hold no send; NicRace.SendsCanAllBeLost shows that the bound does not hold with them.
- NicRace.WhatTwoReclaimsLeave: its schedules hold no send; NicRace.SendsCanAllBeLost shows what can be left with them.
- NicRace.PassesOverIff: its schedules hold no send; with them a frame sent between two decrements can be passed over too, as NicRace.SendBetweenIsLost shows.
- NicRxRace.HandedOnOnceIff: the device is at rest while the two passes run, and a packet counted as an error counts as handed on.
- FatImage.ImageHoldsTree: entries are looked up by their full names; FatAliases.EitherFindsIff says when their aliases may be used as well. Paths are lists of upper-case component names, listed in any order instead of the sorted one, and the volume label is any eleven bytes that do not start with zero; splitting path strings, `str.upper` and `fat_volume_label` are not modelled.
- FatWriter.AssignShorts: the names are assigned in one pass over the listing with the used names kept per directory, not directory by directory.
- FatWriter.FillFat: the flags that record which clusters are used are not kept, because FatChains.EveryClusterIsUsed shows that all are.
- ISO 9660 descriptors, argument parsing and atomic file replacement of the image script.
- Console: pixels, fonts, the cursor's underline (which draws straight into the picture), margins, colours and zero attributes; a row's picture is its cells.
- TextConsole.Terminal: rows are values in an array rather than slices of one flat cell array, and the dirty bits are an array of booleans rather than words; screens of one row and the legacy text mode are not modelled.
- Viewport: one blank cell per session, so changes of colour (`vga_recolor`, the colour of `vga_fill_color`) are left out, and so is resizing; the history has at most 1024 lines, so the 32-bit offset does not wrap.
- VfsRoute.Route: the mount table is a value; mounting and unmounting are not part of this model.
- PathC.PathNormalize: null pointers; arrays are never null here.
- Bitmap.BitmapT: words are numbers with digit-wise operators, and the two find-first searches are left out.
- FrameAllocator.Allocator: the memory lock and the log line.
- E820.FillMemoryMap: descriptors whose end does not fit 64 bits are dropped, as in the source; calls into the firmware are left out.
- Editor.Nano: the screen, prompts, search, the path, messages and the temporary file of a save.
- EditorIo.LoadFile: the directory and permission checks before the file is opened.
- Printf.OutBuf.Format: arguments are a list of words and strings; a missing or mistyped argument has a default value instead of being undefined. Formats and strings are sequences of known length, so a NUL character inside one does not end it.
- Math64.NowNs: calibration and the other clock sources.
- Crc32: the self-test values.
- ext4, virtual memory, processes, the scheduler, multiprocessing, system calls, RAM and tar file systems, the shell and the installer.
- The byte ring buffer (a bounded queue), the keyboard decoder (a table per scan code), the serial line and the block layer (register and request plumbing), the partition table (field reads), the terminal line discipline and the log ring (bounded appends): each would add short functions of one or two branches.
