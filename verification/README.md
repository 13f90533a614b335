# A verified model of the MaxMind DB writer

The crate inserts values for IP networks into a binary trie that lives in a flat node array,
publishes a compacted and renumbered copy of it, encodes the values with back-pointers for
repeated ones, and packs both into the bytes of a MaxMind DB file. This project models that
pipeline and proves what a reader of the file finds in it.

The reader is modelled after the MaxMind DB File Format Specification, sections "Binary Search
Tree Section", "Output Data Section" and "Data Field Format". It walks the node section, subtracts
node count and separator, decodes at that offset, and follows a pointer only backwards, to a field
that lies wholly before the pointer and is not itself a pointer.

## How the model is built

- `Bits`, `Values`, `Regrouping`, `Net`, `Networks`, `ReservedNetworks`, `ReservedAddresses`:
  addresses as bit strings, values and their merges, the range decomposition, networks and their
  paths, the list of reserved networks and the addresses in it.
- `Tries`, `Aliases`, `Canonical`: the trie as a value, with insertion, markers, aliases and
  compaction as functions, and the theorems about them.
- `Pools`, `Shapes`, `Arena`: the value pool and the node array as mutable objects. The class
  `Arena.Tree` updates `nodes` in place as the source does. A ghost shape says which index sits
  where, and every method is proved to act on the represented trie as the function in `Tries` says.
- `Wire`, `Decoding`, `DataSections`, `RoundTrips`, `Repeats`: field encodings, the reader with type
  numbers of its own, the encoder with its deduplication table (as functions and as a class that
  appends to `bytes`), round trips, and what a repeated value costs.
- `Layout`, `Output`, `Histories`, `Writers`: node packing, the finished file, whole runs of
  inserts, and the class `Writers.Writer` with the public operations.

## Main results

- **End to end.** In every reachable state whose build succeeds, the reader finds for every
  address what `get` finds, and for an address in an installed alias range what `get` finds for
  the IPv4 address that follows the prefix. There is no bound on the size of the data section. A
  stored value comes back exactly if all sizes inside it are below 65,821 + 2^24 and all its arrays
  have order-blind lengths (see below).
- **Whole runs.** `get` is the fold, in order, of the operations of exactly the accepted inserts
  whose network covers the address. Reserved addresses never have a value.
- **Canonical output.** Writers with equal options that give every address the same value build
  identical files, or fail alike.
- **Compaction** preserves lookups, keeps pinned nodes, is idempotent and is optimal: no trie with
  the same lookups has fewer nodes.
- **Range decomposition** is exact, ascending and disjoint, and no list of CIDR blocks with the same
  union is shorter.
- **Deduplication** never costs a byte, and the table holds exactly the pushed values and everything
  inside them. A repeated value adds at most the smaller of its pointer and its first emission, and
  exactly the pointer where that is shorter.
- **Merged inserts** leave at each covered address what the strategy documents for the value found
  there: per key, recursively, and array items in order. Nothing else satisfies that description.
- **Record size** is the pinned one, or the smallest of 24, 28 and 32 bits whose power of two exceeds
  nodes, separator and data together.
- **Merges** may be regrouped exactly for the values that `Regrouping` describes. The source does not
  promise more: a scalar between two maps forgets the first in either merge.

## Where the code falls short of its documentation

Each has a condition under which the property holds, and holds only then.

- Extended types are written size extension first, type byte last
  (`src/data_section.rs:206-209`), while the specification puts the type byte first. Only arrays
  reach sizes with extension bytes. A specification reader gets a value back if and only if every
  array in it has fewer than 29 elements, or exactly 33, 1,313 or 328,993, the lengths whose
  extension bytes all equal the array type byte (`Wire.ArrayHeaderBySpec`, `Decoding.SpecReads`,
  witness `RoundTrips.TwentyNineBools`).
- A size of 65,821 + 2^24 or more does not survive its control byte (`src/data_section.rs:229-232`,
  `Wire.ControlRoundTrip`, `RoundTrips.PushedValueReads`, witness `RoundTrips.OversizedBlob`).
- A repeated value may cost more than its pointer once the first emission ended at or beyond the u32
  maximum, because the recorded length saturates with it (`src/data_section.rs:127-135`). For every
  other recorded value the bound holds (`Repeats.RepeatCosts`, witness `Repeats.SaturatedRepeat`).
- `range_to_cidrs` shifts `1u128` by 128 when it is given an IPv6 range that starts at `::` and does
  not reach the last address (`src/net.rs:137-145`). A build with overflow checks stops there. The
  model takes the unchecked build, where the first block becomes `::/0`, and proves the list exact
  if and only if the range is not of that shape (`Net.RangeToCidrs`, witness `Net.ZeroAloneIsNotExact`).
- The comment at `src/writer.rs:237-238` says that data covering a blocked network is carved out at
  build time. For reserved networks that is so from the start. For aliases it is not: an alias is
  installed if and only if not all IPv4 addresses resolve alike and nothing is stored in the alias
  range, so covering data keeps the alias out. A writer that excludes reserved networks always meets
  the first condition, since `0.0.0.0/8` is reserved and `1.0.0.0` is not
  (`Writers.Writer.AliasedWhen`, witness `Writers.CoveringDataStays`).

## Model

| member | source | states |
|---|---|---|
| `Writers.Writer.ReaderAgrees` | src/writer.rs:409-456 | End to end: in every reachable state whose build succeeds, a specification reader finds for every address what `get` finds; in an installed alias range, what `get` finds for the embedded IPv4 address. |
| `Writers.Writer.Resolves` | src/writer.rs:142-150 | In every reachable state an address resolves to the fold of exactly the accepted inserts covering it; an address is reserved exactly if a reserved network covers it, and then never has a value. |
| `Writers.SameMapSameFile` | src/writer.rs:409-429 | Canonical output: two writers with equal options that give every address the same value publish the same trie and build the same file, whatever ids and garbage they hold and whether or not reserved networks are painted. |
| `Writers.Writer.AliasedWhen` | src/tree.rs:237-278 | Exactly when a build aliases a range: the range holds no value, and two IPv4 addresses differ in value or reserved networks are excluded. |
| `Writers.Writer.Ipv4RootIsNode` | src/tree.rs:237-245 | The walk of 96 left children meets nodes only, exactly if two IPv4 addresses differ in value or reserved networks are excluded. |
| `Writers.Writer.AutomaticSucceeds` | src/writer.rs:426-427 | In every reachable state with automatic record size, a build succeeds exactly if nodes, separator and data together stay below 2^32, and uses 24 bits below 2^24, 28 below 2^28, else 32; otherwise it fails as too large. |
| `Writers.Writer.PinnedSucceeds` | src/tree.rs:471-498 | In every reachable state with a pinned record size, a build uses that size and succeeds exactly if every record number is below 2 to the power of its bits. |
| `Writers.CoveringDataStays` | src/writer.rs:237-238 | A witness: a writer accepts values on `2001::/16` and `0.0.0.0/1`, and then a Teredo address keeps the covering value instead of being aliased. |
| `Writers.Writer.RefusedExactly` | src/writer.rs:235-254 | An insert is refused exactly if all its addresses lie in one alias range (aliasing on), or in one reserved network of its family, or it is IPv6 in an IPv4 tree; the checks take precedence in that order. |
| `Writers.Writer.ViewShape` | src/tree.rs:93-230 | In every reachable state no node lies at or below the address width, there are no alias records or pinned nodes before a build, and no node has two equal leaves other than reserved ones. |
| `Writers.Writer.constructor` | src/writer.rs:142-164 | A new writer is valid, has an empty log and, if asked, the reserved networks painted. |
| `Writers.Writer.InsertValue` | src/writer.rs:224-231 | Refused with the right error and without effect, or logged as one constant operation on the network's path. |
| `Writers.Writer.InsertWith` | src/writer.rs:288-302 | The same for an arbitrary pure operation. |
| `Writers.Writer.InsertValueMerged` | src/writer.rs:313-334 | Refused without effect, or every covered address holds the documented combination of its old value with the new one, and every other address what it held. |
| `Writers.Writer.MergedChange` | src/writer.rs:313-334 | The same as a law of runs: appending the logged change replaces the meaning of exactly the covered addresses by the merge of what was there. |
| `Writers.MergeOpMeans` | src/writer.rs:319-332 | An empty address gets the value; replacing gives the value; the two merges give what `merge_top_level` and `merge_deep` document, old value first. |
| `Writers.Writer.InsertRange` | src/writer.rs:365-370 | Blocks are inserted in order up to the first refused one, whose error is returned; completed, exactly the addresses of the range are overwritten; where the shift wraps, the first block is `::/0` and every unreserved address is. |
| `Writers.Writer.InsertAll` | src/writer.rs:366-369 | The loop of a range insert: how many blocks were accepted and which one explains the outcome. |
| `Writers.Writer.Get` | src/writer.rs:378-383 | Returns the meaning of the run at the address, and nothing for an IPv6 address in an IPv4 tree. |
| `Writers.Writer.Build` | src/writer.rs:409-456 | Builds exactly the file image of the published trie, or fails with it, leaving the writer as it was. |
| `Writers.Writer.PublishCopy` | src/writer.rs:409-416 | The published copy represents the trie with aliases, compacted, and its array is that trie's pre-order flattening; the writer keeps its own. |
| `Writers.Writer.EncodeIds` | src/writer.rs:417-424 | Encoding each reachable id once pushes its values in that order, and each id gets the offset of its value. |
| `Writers.Writer.PickRecordSize` | src/writer.rs:468-486 | The pinned size is returned; otherwise 24, 28 or 32 bits exactly by the literal bounds 2^24, 2^28 and 2^32 on nodes, separator and data, beyond them the error. |
| `Layout.PickExactly` | src/tree.rs:346-356 | The same of the function that the file image is built with. |
| `Layout.RecordLimits` | src/record_size.rs:29-63 | A node is two records wide, and the limit of a record is 2 to the power of its bits. |
| `Writers.PathsCoverRange` | src/net.rs:84-125 | The tree paths of the blocks cover exactly the tree paths of the range's addresses, in either family. |
| `Writers.RangePaints` | src/writer.rs:365-370 | A completed range insert changes exactly the addresses of the range, and those to the value unless reserved. |
| `Writers.DataOfIds` | src/writer.rs:417-424 | Encoding the distinct reachable ids gives the data section of the trie, whatever the ids are. |
| `Histories.RunPointwise` | src/tree.rs:109-209 | Over any run, each address resolves to the fold of the operations covering it; reserved and alias tips never change. |
| `Histories.ReservedRun` | src/writer.rs:142-150 | On a tree painted with pairwise disjoint networks, over any run, exactly their union is reserved and everything else folds. |
| `Histories.RunIsCanonical` | src/tree.rs:211-220 | Without reserved networks the trie after a run, before any compaction, depends on nothing but what addresses resolve to. |
| `Canonical.PublishedCanonical` | src/tree.rs:375-399 | Publishing two tidy tries that resolve alike gives the same trie, aliases and pinned root included. |
| `Canonical.PinnedCanonical` | src/tree.rs:401-411 | Merged tries with the same single pinned node and the same lookups are equal. |
| `Histories.EndToEnd` | src/writer.rs:409-456 | The reader of a built file answers every address with what the trie resolves it to, aliases included. |
| `Tries.InsertPointwise` | src/tree.rs:139-209 | After an insert an address under the prefix has the operation applied, unless it ends at an alias or reserved tip; every other address is unchanged. |
| `Tries.InsertHeight` | src/tree.rs:139-209 | Insertion never builds below the longer of the trie and the prefix. |
| `Tries.InsertMerged` | src/tree.rs:211-220 | Insertion leaves no plain node with two equal leaves. |
| `Tries.MarkPointwise` | src/tree.rs:286-312 | A marker changes exactly the addresses under its prefix, and only if its slot is free. |
| `Tries.MarkElsewhere` | src/tree.rs:286-312 | A marker leaves slots and nodes at disjoint prefixes as they were. |
| `Tries.CompactLeafAt` | src/tree.rs:389-411 | Compaction keeps what every address resolves to. |
| `Tries.CompactShape` | src/tree.rs:389-411 | Nothing collapsible survives compaction, and size and height never grow. |
| `Tries.CompactKeepsFixed` | src/tree.rs:401-411 | A pinned node survives compaction where it was, with its inside compacted. |
| `Tries.CompactRootIdempotent` | src/tree.rs:375-387 | Compacting again changes nothing. |
| `Tries.CompactOptimal` | src/tree.rs:375-399 | No trie with the same lookups has fewer nodes than the compacted one. |
| `Tries.RootCanonical` | src/tree.rs:211-220 | Fully merged tries with the same lookups are equal. |
| `Aliases.InstallTips` | src/tree.rs:232-278 | Installation makes exactly the free alias ranges alias tips and pins the IPv4 root. |
| `Aliases.PublishedAlias` | src/tree.rs:232-278 | After publication an address in an installed alias range looks up as the IPv4 address after the prefix. |
| `Aliases.PublishedElsewhere` | src/tree.rs:232-278 | After publication every other address looks up as before. |
| `Aliases.AliasedExactly` | src/tree.rs:237-245 | In a merged trie an alias is installed exactly if the IPv4 range is not uniform and nothing is stored under the prefix. |
| `Aliases.AliasConstants` | src/tree.rs:258-277 | The walk words of the three alias ranges start with the alias prefixes, zeros after them. |
| `Aliases.AliasesApart` | src/net.rs:74-82 | The alias ranges are disjoint from each other and from the IPv4 range. |
| `Aliases.PaintLaw` | src/tree.rs:280-284 | Painting disjoint free networks reserves exactly their union. |
| `Arena.Tree.constructor` | src/tree.rs:94-99 | A new array holds one empty node and represents the empty trie. |
| `Arena.Tree.InsertPrefix` | src/tree.rs:105-114 | The in-place insert turns the represented trie into the inserted one. |
| `Arena.Tree.InsertAtNode` | src/tree.rs:116-137 | Descends on both sides at or below the prefix end, on one side above it; nodes outside the subtree are untouched. |
| `Arena.Tree.InsertAtRecord` | src/tree.rs:139-209 | One child becomes its insertion, the other keeps its shape; carved-out records stay; terminates. |
| `Arena.Tree.Descend` | src/tree.rs:153-163 | A node child is inserted into and then merged unless pinned. |
| `Arena.Tree.UpdateLeaf` | src/tree.rs:168-192 | At the prefix end the leaf becomes the operation's result. |
| `Arena.Tree.SplitLeaf` | src/tree.rs:174-206 | Above it the leaf is split on a fresh node and the halves merged again where equal. |
| `Arena.Tree.MergeChild` | src/tree.rs:153-158 | Collapsing the pointer to a child turns the two represented subtries into their merge. |
| `Shapes.MergeMatchesFuse` | src/tree.rs:211-220 | Two records are the same leaf exactly if the subtries they represent are the same tip. |
| `Arena.Tree.InstallMarker` | src/tree.rs:286-312 | The marker walk turns the represented trie into the marked one, and a node off its path stays in place. |
| `Arena.Tree.InstallIpv4Aliases` | src/tree.rs:232-278 | The two walks and three markers turn the represented trie into the one with aliases, all leading to the pinned node. |
| `Arena.Tree.CompactTree` | src/tree.rs:375-387 | Afterwards the array represents the compacted trie, holds exactly its nodes, and they are numbered in pre-order. |
| `Arena.Tree.CompactNode` | src/tree.rs:389-399 | Both sides become compacted in place and the result is their common leaf or the node. |
| `Arena.Tree.ResolveChild` | src/tree.rs:401-411 | A child becomes its compaction; a pinned child keeps its marker. |
| `Arena.Tree.PreOrderWalk` | src/tree.rs:413-433 | The explicit stack visits exactly the reachable nodes, in pre-order, each once. |
| `Arena.Tree.RenumberReachable` | src/tree.rs:413-443 | The rewritten array represents the same trie with pre-order numbers. |
| `Arena.PackedIsFlat` | src/tree.rs:413-443 | A renumbered array is a function of its trie alone, alias target included. |
| `Arena.Tree.GetId` | src/tree.rs:314-327 | The walk returns the id of the value the address looks up to, through aliases too. |
| `Arena.Tree.ReachableDataIds` | src/tree.rs:329-344 | Lists exactly the ids of the data records, each once, in the order in which they first appear: node order, left before right. |
| `Arena.Tree.Serialize` | src/tree.rs:358-373 | Packs all nodes exactly if every record passes its range check. |
| `Arena.EncodeRecord` | src/tree.rs:471-498 | The number of a record, or an error exactly if it does not fit. |
| `Pools.ValuePool.Intern` | src/pool.rs:37-45 | Returns the id of the value, adding it at the end only if it is new; ids stay pairwise distinct in value. |
| `Pools.ValuePool.IdsAreDistinct` | src/pool.rs:30-45 | Different ids of the pool always name different values. |
| `Layout.PairRoundTripExactly` | src/tree.rs:500-535 | A pair of numbers reads back exactly if both are below the limit. |
| `Layout.PairRoundTrip` | src/tree.rs:500-535 | Every pair of records in range reads back in the 24, 28 and 32-bit layouts. |
| `Layout.PackedReads` | src/tree.rs:358-373 | Reading any record of the packed node section recovers its number. |
| `Layout.SearchLooks` | src/tree.rs:358-373 | The reader's walk of the packed section ends as the lookup in the trie does. |
| `Layout.PickSmallest` | src/writer.rs:468-486 | Automatic selection succeeds exactly if 32-bit records fit, and yields the smallest size that fits. |
| `Output.ImageReads` | src/writer.rs:409-456 | For every address the reader's answer is what the trie looks up; a value comes back exactly if the reader can take it. |
| `Output.AutomaticSizeNeverFails` | src/writer.rs:426-427 | With automatic record size, a build succeeds exactly if 32-bit records fit; serialization then never fails. |
| `Output.PinnedImage` | src/writer.rs:473-475 | With a pinned size, the image exists exactly if every record number is below 2 to the power of its bits, and has that size. |
| `Output.ImageLayout` | src/writer.rs:441-455 | The file is the packed nodes, sixteen zero bytes, the data, the marker 0xABCDEF "MaxMind.com", and the metadata of this node count and record size. |
| `Output.ImageIsSound` | src/tree.rs:346-356 | Every record targets a node of the tree or an offset inside the data section. |
| `RoundTrips.PushedValueReads` | src/data_section.rs:88-182 | After any run of pushes, with or without pointers, the offset of each pushed value holds a direct field; a reader in the source's order gets the value back exactly if its sizes are in range, a specification reader exactly if moreover its arrays are order-blind. An offset at the u32 maximum means that the section has outgrown u32. |
| `RoundTrips.EncodeGood` | src/data_section.rs:137-182 | Encoding leaves a direct field for the value at the end and every table entry valid. |
| `RoundTrips.PointerGood` | src/data_section.rs:112-135 | An emitted pointer reads back as the offset of a field that is no pointer and ends before it, and decodes to the same value. |
| `RoundTrips.DecodedSizesOk` | src/data_section.rs:211-234 | No reader ever returns a value with a size beyond the limit. |
| `RoundTrips.TwentyNineBools` | src/data_section.rs:206-209 | A witness: an array of 29 booleans is read back in the source's order and not by the specification. |
| `RoundTrips.OversizedBlob` | src/data_section.rs:229-232 | A witness: a blob of 65,821 + 2^24 bytes comes back from neither reader. |
| `RoundTrips.PushKeeps` | src/data_section.rs:88-100 | A push never changes an offset handed out before. |
| `RoundTrips.PointersNeverCost` | src/data_section.rs:112-135 | For every run of pushes the section with pointers is no longer than the one without, and both tables hold exactly the pushed values and what is inside them. |
| `RoundTrips.PointersNeverCostFresh` | src/data_section.rs:71-88 | The same from the two empty sections that the source creates. |
| `Repeats.LongRepeatIsPointer` | src/data_section.rs:117-126 | A repeat whose recorded length exceeds its pointer is emitted as exactly a pointer that a reader takes to the recorded offset. |
| `Repeats.RepeatCosts` | src/data_section.rs:112-135 | In every state of a run with pointers, emitting a recorded value again adds at most its pointer and at most its recorded length, unless that length saturated; the table does not change. |
| `Repeats.RepeatCostsAfter` | src/data_section.rs:71-135 | The same after any run of pushes on a new section. |
| `Repeats.SaturatedRepeat` | src/data_section.rs:127-135 | A witness: where the recorded length saturated, a text of 20 bytes is written out again. |
| `Repeats.TwentyBytesTwice` | src/data_section.rs:112-135 | A witness: an array of one 20-byte text twice takes 25 bytes, the last two the pointer to offset 2. |
| `RoundTrips.EncodedType` | src/data_section.rs:27-52 | The header of every encoded value announces the literal type number that the format gives its kind, in the first byte or as extended type. |
| `Decoding.DecodeExtend` | src/data_section.rs:91-135 | Appending to the section never changes a field that decodes. |
| `Decoding.SpecReads` | src/data_section.rs:206-234 | Where a reader in the source's order finds a value, a specification reader finds it exactly if all its arrays are order-blind. |
| `DataSections.DataSection.PushValue` | src/data_section.rs:91-100 | The method does to the section what the functional push does; a value pushed before leaves the bytes alone, a new one gets the old end of the section as its offset, saturated at u32. |
| `DataSections.DataSection.EmitInline` | src/data_section.rs:117-135 | The same for nested values; a repeat whose recorded length exceeds its pointer appends exactly the pointer to its recorded offset. |
| `DataSections.DataSection.EncodeValue` | src/data_section.rs:137-182 | The same for each type of value. |
| `DataSections.DataSection.WriteControlByte` | src/data_section.rs:214-234 | Appends the control field of the tag and size. |
| `DataSections.DataSection.WritePointer` | src/data_section.rs:236-269 | Appends the pointer to the offset, in the size class of the offset. |
| `Wire.ControlRoundTrip` | src/data_section.rs:214-234 | A control field reads back with its tag, and with its size exactly if the size is below 65,821 + 2^24. |
| `Wire.ExtendedRoundTrip` | src/data_section.rs:206-209 | The same for extended types, read in the source's order. |
| `Wire.ArrayHeaderBySpec` | src/data_section.rs:206-209 | A specification reader sees the source's array header as such exactly for the order-blind sizes. |
| `Wire.PointerRoundTrip` | src/data_section.rs:236-269 | Every u32 pointer offset reads back in all four size classes, in as many bytes as `pointer_bytes` says. |
| `Wire.PointerShortest` | src/data_section.rs:236-269 | No pointer that reads back as the same offset is shorter. |
| `Wire.TrimLaw` | src/data_section.rs:272-284 | Trimmed integers read back, fit their width and have no leading zero byte. |
| `Wire.EncodeUintTrimmed` | src/data_section.rs:272-284 | The scan over leading zeros computes the trimmed bytes. |
| `RoundTrips.SignedDecodes` | src/data_section.rs:286-296 | Every i32 reads back from its trimmed bit pattern. |
| `Net.RangeToCidrs` | src/net.rs:127-162 | The blocks are aligned, ascending, disjoint and adjacent, cover exactly the range if and only if no shift by 128 occurs, and no list of blocks with the same union is shorter. |
| `Net.LargestBlock` | src/net.rs:137-150 | The inner loop finds the largest aligned block that starts at the address and ends in the range, without overflow. |
| `Net.Laminar` | src/net.rs:84-87 | CIDR blocks form a laminar family. |
| `Net.Minimal` | src/net.rs:84-87 | A tiling by maximal blocks is no longer than any list of blocks with the same union. |
| `Net.TilesExact` | src/net.rs:127-162 | A tiling covers exactly its range with pairwise disjoint blocks. |
| `Net.ZeroAloneIsNotExact` | src/net.rs:137-145 | A witness of the wrapped shift: asked for `::` alone, the list also covers `::1`. |
| `Networks.TreePrefixIsPath` | src/net.rs:48-72 | The walk word and length computed by integer arithmetic are the network's path, host bits cleared; only IPv6 in an IPv4 tree is refused. |
| `Bits.ToBitsAt` | src/tree.rs:116-137 | The bit at a depth of the path is the one the source extracts from the walk word by shift and mask. |
| `Networks.PrefixIsInterval` | src/net.rs:48-72 | A network covers an address exactly if the address lies in its integer interval. |
| `Networks.AddrPathIsHost` | src/writer.rs:378-383 | The path of an address is the path of its host network. |
| `Networks.RangeToNetworks` | src/net.rs:84-125 | Refuses mixed families and reversed ends; otherwise the networks cover exactly the range, unless the shift wraps. |
| `ReservedNetworks.ReservedForCarvesOut` | src/reserved.rs:15-66 | The listed networks fit their tree, are pairwise disjoint places of it, spare the alias ranges, and take some but not all IPv4 addresses. |
| `ReservedAddresses.ReservedIpv4Exactly` | src/reserved.rs:16-33 | Octet by octet, which IPv4 addresses a tree of either version reserves. |
| `ReservedAddresses.ReservedIpv6Exactly` | src/reserved.rs:35-66 | Group by group, which other IPv6 addresses an IPv6 tree reserves. |
| `Values.MergeTopLaw` | src/value.rs:114-132 | After a top-level merge each key has the new value if the new map has the key, else the old one; key order is kept. |
| `Values.MergeDeepLaw` | src/value.rs:134-162 | After a deep merge a key in both maps has the merge of its two values, any other key the value it had. |
| `Values.MergeTopLevelLoop` | src/value.rs:121-132 | The loop over the new map: per key the new value if the new map has the key, else the old one; anything but two maps gives the new value. |
| `Values.MergeDeepLoop` | src/value.rs:142-162 | The recursive loop: per shared key the deep merge of old with new; two arrays give the old items followed by the new ones; any other pair the new value. |
| `Values.MergeTopMeans` | src/value.rs:114-132 | The functional top-level merge satisfies the same description. |
| `Values.MergeDeepMeans` | src/value.rs:134-162 | The functional deep merge satisfies the same recursive description. |
| `Values.MergeDeepUnique` | src/value.rs:134-162 | The deep merge is the only value that satisfies it. |
| `Values.MergeDeepWellFormed` | src/value.rs:134-162 | Deep merging keeps every nested map in key order. |
| `Regrouping.MergeDeepRegroups` | src/value.rs:134-162 | Deep merging three values in either grouping agrees exactly if they regroup: two arrays last, or maps whose shared keys regroup, or a last value that absorbs the first. |
| `Regrouping.AbsorbedIff` | src/value.rs:134-162 | Deep merging a value onto another leaves nothing of the old one exactly if every old key is overwritten by an absorbing value and every old array is empty. |
| `Regrouping.MergeTopRegroups` | src/value.rs:114-132 | A top-level merge of three values agrees in either grouping exactly unless a non-map stands between two maps and the first has a key the last lacks. |
| `Regrouping.ScalarForgets` | src/value.rs:114-162 | A witness for both merges: a scalar between two maps forgets the first. |
| `Values.LessIsLexicographic` | src/value.rs:54-56 | Keys are ordered lexicographically: the first byte that differs decides, and a proper prefix comes first. |
| `Values.SortedExtensional` | src/value.rs:165-183 | Maps in key order with equal lookups are equal, so equality of values is equality of contents. |

## Left out

- Node indices and pool ids are natural numbers: running out of 2^32 nodes or ids, and what a failed insert leaves behind then, is not modelled.
- Writers.Writer.InsertWith: the operation is a pure function of the old value, because the source calls it once per leaf and on both halves below the prefix, so a stateful closure has no per-address meaning.
- Net.RangeToCidrs: models the shift amount as wrapping at 128, as in a build without overflow checks; a checked build panics there.
- Strings are byte sequences ordered bytewise, and the reader does not check that they are UTF-8. Floats are fixed-width bit patterns, hash maps are Dafny maps, B-tree maps are entry lists in key order.
- Offsets beyond u32 saturate as in a release build; a debug build asserts there instead.
- The metadata map is an opaque function of node count and record size; its fields, the marker scan, the build epoch and the clock are not modelled.
- Writing to a file, parsing of networks, serde projection of Rust types (`src/ser.rs`, `src/value/serde_impls.rs`) and loading of existing files (`src/load.rs`): one-line branches or external crates.
