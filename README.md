# TSDuck binary layer in Dafny

This project models the byte-level binary layer of TSDuck, a toolkit for
MPEG transport streams, and proves properties of the model. It covers:

- the memory primitives: big- and little-endian integers of 1 to 8 bytes,
  pattern search and exclusive or (`tsMemory`);
- length-prefixed data blocks and descriptors, as laid out in section 2.6 of
  ISO/IEC 13818-1 (`tsDataBlock`, `tsDescriptor`);
- descriptor lists, edited in place under the private data specifier (PDS)
  and registration scoping rules (`tsDescriptorList`);
- PSI/SI section header fields and the count of transport packets that carry
  a set of sections (`tsSection`);
- the ordered entry maps of tables, and the serialize/deserialize control
  flow of short tables (`tsAbstractTable`);
- Modified Julian Date coding, as in Annex C of ETSI EN 300 468 (`tsMJD`);
- the TS-in-TS decapsulation state machine (`tsPacketDecapsulation`);
- the time reference and standards bookkeeping of the execution context
  (`tsDuckContext`).

There is one Dafny module per source component:

- `Memory` (memory.dfy);
- `DataBlocks` (datablock.dfy);
- `Descriptors` (descriptor.dfy);
- `DescriptorLists` (descriptorlist.dfy);
- `Sections` (section.dfy);
- `EntryMaps` (entrymap.dfy);
- `Tables` (table.dfy);
- `MJD` (mjd.dfy);
- `Decapsulation` (decapsulation.dfy);
- `DuckContexts` (duckcontext.dfy).

Two helper modules sit underneath:

- `Wrappers` holds `Option` and `Result`.
- `Bytes` holds the byte type, powers of 256, and big- and little-endian
  values and their bytes. It also holds bitwise operations defined
  arithmetically, with the lemmas relating them.

How the source maps onto Dafny:

- A memory area given as pointer plus size becomes a `seq<byte>` with an
  offset when it is read. When it is written, it becomes an `array<byte>`
  that the method `modifies`.
- A returned pointer becomes an `Option<nat>` index.
- Classes whose fields the source updates are Dafny classes: `DataBlock`,
  `Descriptor`, `DescriptorList`, `AttachedEntryMap`, `AbstractTable`,
  `PacketDecapsulation` and `DuckContext`. Each method states the whole new
  state, usually through a specification function on values, and each such
  function has its properties proved as lemmas.

## Model

| member | source | states |
|---|---|---|
| Memory.StartsWith | src/libtscore/types/tsMemory.cpp:16-19 | true exactly when the prefix is no longer than the area and equals the area's first bytes |
| Memory.MemChr | src/libtscore/types/tsMemory.cpp:26-52 | the std::memchr step of the search: the first index in a range holding the byte, or None when no index in the range holds it |
| Memory.OccursAtIsStartsWith | src/libtscore/types/tsMemory.cpp:26-52 | an occurrence of the pattern at index i is exactly the area from i starting with the pattern |
| Memory.LocatePattern | src/libtscore/types/tsMemory.cpp:26-52 | None for an empty pattern; otherwise the index of the first occurrence, with no occurrence before it, and None only when the pattern occurs nowhere |
| Memory.LocateZeroZero | src/libtscore/types/tsMemory.cpp:59-80 | the first index where 00 00 third starts, with none before it; None only when it starts nowhere |
| Memory.IdenticalBytes | src/libtscore/types/tsMemory.cpp:87-103 | true exactly when the area has at least two bytes and all of them equal the first |
| Memory.XorBytesInvolution | src/libtscore/types/tsMemory.cpp:110-133 | xor-ing the same mask twice gives the original bytes back |
| Memory.MemXor | src/libtscore/types/tsMemory.cpp:110-133 | after the 8-byte, 4-byte and single-byte loops, dest[i] is src1[i] xor src2[i] for every i below size, and the bytes after size are unchanged |
| Memory.MemCompare | src/libtscore/types/tsMemory.h:84-87 | zero exactly when the first size bytes are equal (so zero for size 0); otherwise a result with the sign of the first difference, here that difference itself |
| Memory.MemEqual | src/libtscore/types/tsMemory.h:97-100 | true for size 0, and true exactly when the first size bytes are pairwise equal |
| Memory.MemCopy | src/libtscore/types/tsMemory.h:68-73 | the destination holds the source bytes at the offset and is unchanged elsewhere |
| Memory.MemZero | src/libtscore/types/tsMemory.h:33-42 | the destination holds size zero bytes at the offset and is unchanged elsewhere |
| Memory.GetUIntBE | src/libtscore/types/tsMemory.cpp:249-317 | the big-endian value of n bytes lies below 2^(8n) |
| Memory.GetUIntLE | src/libtscore/types/tsMemory.cpp:319-387 | the little-endian value of n bytes lies below 2^(8n) |
| Memory.PutUIntBE | src/libtscore/types/tsMemory.cpp:389-457 | byte k written is v >> 8(n-1-k) truncated to 8 bits; nothing outside the n bytes changes |
| Memory.PutUIntLE | src/libtscore/types/tsMemory.cpp:459-527 | byte k written is v >> 8k truncated to 8 bits; nothing outside the n bytes changes |
| Memory.GetPutUIntBE | src/libtscore/types/tsMemory.cpp:144-238 | reading back n big-endian bytes written from v gives v modulo 2^(8n), for every width including 24, 40, 48 and 56 bits |
| Memory.GetPutUIntLE | src/libtscore/types/tsMemory.cpp:144-238 | the same round trip in little-endian order |
| Memory.PutGetUIntBE | src/libtscore/types/tsMemory.cpp:249-457 | writing back the big-endian value read from n bytes restores exactly those bytes |
| Memory.PutGetUIntLE | src/libtscore/types/tsMemory.cpp:319-527 | writing back the little-endian value read from n bytes restores exactly those bytes |
| Memory.SignExtend | src/libtscore/types/tsMemory.h:548 | the two's complement reading of n bytes lies in [-2^(8n-1), 2^(8n-1)), is congruent to the unsigned value modulo 2^(8n), and is negative exactly when the top bit is set |
| Memory.GetIntBE | src/libtscore/types/tsMemory.h:540-588 | the signed big-endian getters: in the signed range, congruent to the unsigned value, negative exactly when bit 7 of the first byte is set (bit 23 for GetInt24BE) |
| Memory.GetIntLE | src/libtscore/types/tsMemory.h:596-644 | the signed little-endian getters: the same, with the sign in the last byte |
| Memory.GetIntVarBE | src/libtscore/types/tsMemory.h:1834-1847 | 0 for a size outside 1..8; otherwise the value below 2^(8 size) whose big-endian bytes are the first size bytes |
| Memory.GetIntVarLE | src/libtscore/types/tsMemory.h:1850-1863 | 0 for a size outside 1..8; otherwise the value whose little-endian bytes are the first size bytes |
| Memory.PutIntVarBE | src/libtscore/types/tsMemory.h:1866-1879 | writes size big-endian bytes of v for a size in 1..8, and nothing otherwise |
| Memory.PutIntVarLE | src/libtscore/types/tsMemory.h:1882-1895 | writes size little-endian bytes of v for a size in 1..8, and nothing otherwise |
| Memory.IntVarRoundTripBE | src/libtscore/types/tsMemory.h:1834-1879 | PutIntVarBE then GetIntVarBE gives v modulo 2^(8 size) for every size in 1..8 |
| Memory.IntVarRoundTripLE | src/libtscore/types/tsMemory.h:1850-1895 | PutIntVarLE then GetIntVarLE gives v modulo 2^(8 size) for every size in 1..8 |
| DataBlocks.RawLengthIsField | src/libtscore/types/tsDataBlock.h:457-476 | whichever of the four alignment cases applies, the shifts and masks read exactly the bits of the length field |
| DataBlocks.GetLengthField | src/libtscore/types/tsDataBlock.h:445-483 | NPOS without a length field, for null content or content shorter than AFTER_LEN_BYTE_OFFSET, and for a zero field when unbounded lengths are allowed; otherwise the field's value |
| DataBlocks.ValidateLengthField | src/libtscore/types/tsDataBlock.h:486-503 | without a length field, true exactly for non-null content; otherwise true exactly when AFTER + length equals the size, or is below it with extra data allowed, or the length is unbounded |
| DataBlocks.ValidLengthAccepted | src/libtscore/types/tsDataBlock.h:486-503 | content whose length field announces its exact remaining size is accepted |
| DataBlocks.Resized | src/libtscore/types/tsDataBlock.h:423-431 | resizing keeps the first bytes and fills any extension with zeros |
| DataBlocks.DataBlock.Empty | src/libtscore/types/tsDataBlock.h:65 | the default block is invalid |
| DataBlocks.DataBlock.FromContent | src/libtscore/types/tsDataBlock.h:281-294 | the content is kept only when its length field validates; otherwise the block is invalid |
| DataBlocks.DataBlock.Size | src/libtscore/types/tsDataBlock.h:399-403 | the number of bytes, 0 for an invalid block |
| DataBlocks.DataBlock.Reload | src/libtscore/types/tsDataBlock.h:321-329 | consistent content replaces the block; inconsistent content leaves it invalid |
| DataBlocks.DataBlock.Clear | src/libtscore/types/tsDataBlock.h:354-357 | the block becomes invalid |
| DataBlocks.DataBlock.Equals | src/libtscore/types/tsDataBlock.h:387-390 | true only for two valid blocks, and then exactly when their bytes are equal |
| DataBlocks.DataBlock.MatchContent | src/libtscore/types/tsDataBlock.h:406-419 | false for an invalid block or one shorter than the pattern; otherwise true exactly when every pattern byte matches under the mask, which is 0xFF past its end |
| DataBlocks.MatchWithoutMask | src/libtscore/types/tsDataBlock.h:406-419 | with an empty mask, matching is byte equality with the pattern |
| DataBlocks.DataBlock.RwResize | src/libtscore/types/tsDataBlock.h:423-431 | an invalid block gets size zero bytes; a valid one is truncated or zero-extended |
| DataBlocks.DataBlock.RwSetByte | src/libtscore/types/tsDataBlock.h:233 | writing through the read-write content changes that one byte only |
| DataBlocks.DataBlock.RwAppend | src/libtscore/types/tsDataBlock.h:434-442 | the bytes are appended, to an empty block when it was invalid |
| Descriptors.DescriptorValidation | src/libtscore/types/tsDataBlock.h:486-503 | with the descriptor layout (8-bit length at byte 1), the length check accepts exactly the well-formed descriptors |
| Descriptors.Xdid | src/libtsduck/dtv/signalization/tsDescriptor.cpp:50-60 | the id is the tag; the extension is present exactly for the MPEG or DVB extension tag with a non-empty payload, and is then the first payload byte |
| Descriptors.Make | src/libtsduck/dtv/signalization/tsDescriptor.cpp:19-28 | a descriptor built from a tag and fewer than 256 payload bytes is well formed and gives the tag and the payload back |
| Descriptors.MakeOfParts | src/libtsduck/dtv/signalization/tsDescriptor.cpp:19-39 | every well-formed descriptor is the descriptor built from its own tag and payload |
| Descriptors.Descriptor.FromPayload | src/libtsduck/dtv/signalization/tsDescriptor.cpp:19-28 | byte 0 is the tag and byte 1 the size for a non-null payload below 256 bytes; otherwise the descriptor is invalid |
| Descriptors.Descriptor.FromByteBlock | src/libtsduck/dtv/signalization/tsDescriptor.cpp:30-39 | the same from a byte block |
| Descriptors.Descriptor.ReplacePayload | src/libtsduck/dtv/signalization/tsDescriptor.cpp:66-81 | more than 255 bytes invalidate the descriptor; otherwise the tag is kept and the length byte and payload are replaced |
| Descriptors.Descriptor.ResizePayload | src/libtsduck/dtv/signalization/tsDescriptor.cpp:87-99 | more than 255 bytes invalidate the descriptor; otherwise the payload is truncated or zero-extended and the length byte updated |
| Descriptors.ResizedPayload | src/libtsduck/dtv/signalization/tsDescriptor.cpp:87-99 | after resizing, the descriptor is well formed, keeps its tag, and its payload is the old one truncated or zero-extended |
| DescriptorLists.LastValueSpec | src/libtsduck/dtv/signalization/tsDescriptorList.cpp:326-379 | the backward scan gives the null value exactly when no earlier descriptor sets a value, and otherwise the value of the last one that does |
| DescriptorLists.ScanBack | src/libtsduck/dtv/signalization/tsDescriptorList.cpp:345-379 | the backward loop computes that scan |
| DescriptorLists.DescriptorList.PrivateDataSpecifier | src/libtsduck/dtv/signalization/tsDescriptorList.cpp:371-379 | the PDS of the last PDS descriptor before the clamped index that gives a non-null value, PDS_NULL when there is none |
| DescriptorLists.DescriptorList.RegistrationId | src/libtsduck/dtv/signalization/tsDescriptorList.cpp:345-364 | the same scan over registration descriptors, falling back to the table's top-level list |
| DescriptorLists.PdsRemovableSuffix | src/libtsduck/dtv/signalization/tsDescriptorList.cpp:386-411 | canRemovePDS only looks ahead: its answer at the head of a suffix does not depend on what comes before |
| DescriptorLists.DescriptorList.CanRemovePDS | src/libtsduck/dtv/signalization/tsDescriptorList.cpp:386-411 | true exactly for a PDS descriptor where every later private descriptor has another PDS descriptor before it |
| DescriptorLists.RemoveKeepsCovered | src/libtsduck/dtv/signalization/tsDescriptorList.cpp:386-411 | removing what removeByIndex allows keeps every private descriptor preceded by some PDS descriptor |
| DescriptorLists.DescriptorList.RemoveByIndex | src/libtsduck/dtv/signalization/tsDescriptorList.cpp:491-507 | fails, leaving the list unchanged, for an index out of range or a PDS descriptor still needed; otherwise removes exactly that entry |
| DescriptorLists.DescriptorList.constructor | src/libtsduck/dtv/signalization/tsDescriptorList.cpp:21-24 | a new list is empty |
| DescriptorLists.DescriptorList.Add | src/libtsduck/dtv/signalization/tsDescriptorList.cpp:81-90 | a null or invalid descriptor is rejected with the list unchanged; otherwise it is appended |
| DescriptorLists.SplitDescriptorsSpec | src/libtsduck/dtv/signalization/tsDescriptorList.cpp:120-137 | every item split off is a well-formed descriptor, and the items followed by the rest make up the whole area |
| DescriptorLists.SplitFlatten | src/libtsduck/dtv/signalization/tsDescriptorList.cpp:120-137 | splitting the binary form of a list of valid descriptors gives the list back with nothing left over |
| DescriptorLists.SplitCons | src/libtsduck/dtv/signalization/tsDescriptorList.cpp:120-137 | a well-formed descriptor in front of an area is split off first |
| DescriptorLists.DescriptorList.AddBytes | src/libtsduck/dtv/signalization/tsDescriptorList.cpp:120-137 | a null area fails; otherwise the split descriptors are appended, and true is returned exactly when the area was consumed to its end |
| DescriptorLists.DescriptorList.AddOne | src/libtsduck/dtv/signalization/tsDescriptorList.cpp:139-143 | the descriptor at the address, whose length is its second byte, is appended; false only for a null address |
| DescriptorLists.DescriptorList.BinarySize | src/libtsduck/dtv/signalization/tsDescriptorList.cpp:543-554 | the total size of the descriptors in the clamped range [start, start + count) |
| DescriptorLists.DescriptorList.Serialize | src/libtsduck/dtv/signalization/tsDescriptorList.cpp:561-572 | writes whole descriptors from start while each fits, stops at the first that does not, advances addr and size by the bytes written and returns the first unwritten index |
| DescriptorLists.SerializeFrom | src/libtsduck/dtv/signalization/tsDescriptorList.cpp:561-572 | the loop of serialize over a list of values, with the same contract |
| DescriptorLists.DescriptorList.SerializeAppend | src/libtsduck/dtv/signalization/tsDescriptorList.cpp:579-593 | the block grows by the binary size of the whole list; the descriptors from start are written into it and the unused part stays zero |
| DescriptorLists.LengthFieldDecodes | src/libtsduck/dtv/signalization/tsDescriptorList.cpp:600-620 | a length that fits its bits is read back from the low bits of the 16-bit field, and the high bits are the reserved value |
| DescriptorLists.DescriptorList.WriteLengthField | src/libtsduck/dtv/signalization/tsDescriptorList.cpp:600-620 | the 16-bit field is written big-endian at the address |
| DescriptorLists.DescriptorList.LengthSerialize | src/libtsduck/dtv/signalization/tsDescriptorList.cpp:600-620 | serialize after a 2-byte field holding the bytes written or'ed with the reserved bits shifted left by the length size |
| DescriptorLists.Descriptor32Value | src/libtsduck/dtv/signalization/tsDescriptorList.cpp:418-425 | the descriptor built by add32BitDescriptor carries its 32-bit value, big-endian |
| DescriptorLists.DescriptorList.Add32BitDescriptor | src/libtsduck/dtv/signalization/tsDescriptorList.cpp:418-425 | appends that one descriptor |
| DescriptorLists.DescriptorList.AddPrivateDataSpecifier | src/libtsduck/dtv/signalization/tsDescriptorList.cpp:434-439 | appends a PDS descriptor unless the PDS is 0, PDS_NULL or already in force; afterwards a real PDS is in force at the end of the list |
| DescriptorLists.DescriptorList.AddRegistration | src/libtsduck/dtv/signalization/tsDescriptorList.cpp:427-432 | appends a registration descriptor unless the id is REGID_NULL or already in force; afterwards it is in force at the end of the list |
| DescriptorLists.RemoveTagIsFilter | src/libtsduck/dtv/signalization/tsDescriptorList.cpp:514-536 | without a PDS condition, removing a tag other than the PDS tag removes exactly the descriptors with that tag |
| DescriptorLists.WithoutTagSpec | src/libtsduck/dtv/signalization/tsDescriptorList.cpp:514-536 | nothing with the tag is left, everything else is kept, and nothing new appears |
| DescriptorLists.DescriptorList.RemoveTagIteration | src/libtsduck/dtv/signalization/tsDescriptorList.cpp:514-536 | one iteration of the erase loop keeps the loop invariant, removing one entry or stepping over it |
| DescriptorLists.RemoveTagIsKeep | src/libtsduck/dtv/signalization/tsDescriptorList.cpp:514-536 | the loop erases exactly the descriptors with the tag for which, with the PDS check, the PDS in force before them in the original list is the requested one, and, for the PDS tag, no later private descriptor needs them; the others are kept in order |
| DescriptorLists.RemoveTagKeepsPds | src/libtsduck/dtv/signalization/tsDescriptorList.cpp:514-536 | with the PDS check, only private descriptors go, so the PDS in force after the list is unchanged |
| DescriptorLists.RemoveTagKeepsCovered | src/libtsduck/dtv/signalization/tsDescriptorList.h:345-351 | whatever the tag, a list whose private descriptors all have a PDS descriptor before them keeps that property |
| DescriptorLists.DescriptorList.RemoveByTag | src/libtsduck/dtv/signalization/tsDescriptorList.cpp:514-536 | the list becomes the original with the descriptors RemoveMask marks erased, private descriptors stay covered by a PDS descriptor, and the count is the number removed |
| DescriptorLists.CleanSound | src/libtsduck/dtv/signalization/tsDescriptorList.cpp:456-484 | after cleaning, every descriptor is valid, and every private one has a real PDS in force, computed on the cleaned list |
| DescriptorLists.CleanIdempotent | src/libtsduck/dtv/signalization/tsDescriptorList.cpp:456-484 | cleaning a cleaned list changes nothing |
| DescriptorLists.DescriptorList.CleanIteration | src/libtsduck/dtv/signalization/tsDescriptorList.cpp:456-484 | one iteration of the erase loop keeps the loop invariant |
| DescriptorLists.DescriptorList.RemoveInvalidPrivateDescriptors | src/libtsduck/dtv/signalization/tsDescriptorList.cpp:456-484 | the list becomes the cleaned list, and the count is the number removed |
| DescriptorLists.DescriptorList.Search | src/libtsduck/dtv/signalization/tsDescriptorList.cpp:627-641 | the first index from start with the tag and, for a private tag and a real PDS, that PDS in force; the list size (or start) when there is none |
| Sections.MakeShort | src/libtsduck/dtv/signalization/tsSection.h:280-380 | a short section built from a table id, a private flag and a payload gives them back through tableId, isPrivateSection, headerSize and payload; the long-only fields read 0 |
| Sections.MakeLong | src/libtsduck/dtv/signalization/tsSection.h:280-380 | a long section built from its fields gives back the table id, private flag, extension, version, current/next, section numbers and payload, with the CRC32 as its last 4 bytes |
| Sections.PayloadSize | src/libtsduck/dtv/signalization/tsSection.h:377-380 | the header, payload and (for a long section) the CRC32 add up to the size; 0 for an invalid section |
| Sections.PacketCountOf | src/libtsduck/dtv/signalization/tsSection.h:392 | the least number of 184-byte payloads that hold the section and its pointer field |
| Sections.PackStepBound | src/libtsduck/dtv/signalization/tsSection.h:590-629 | packing one more section never costs more packets than sending the section alone |
| Sections.PackedBound | src/libtsduck/dtv/signalization/tsSection.h:584-631 | the packed count never exceeds the count with each section in its own packets |
| Sections.PackedSingle | src/libtsduck/dtv/signalization/tsSection.h:584-640 | one valid section of size s needs ceil((s + 1) / 184) packets, packed or not |
| Sections.PackSection | src/libtsduck/dtv/signalization/tsSection.h:590-629 | one iteration of the packed loop computes one packing step |
| Sections.PacketCount | src/libtsduck/dtv/signalization/tsSection.h:580-643 | the packed or unpacked count, skipping null and invalid sections; the packed count is never larger |
| EntryMaps.OrderEmpty | src/libtsduck/dtv/tables/tsAbstractTable.h:654-668 | the order is empty exactly when the map has no entries |
| EntryMaps.OrderUnique | src/libtsduck/dtv/tables/tsAbstractTable.h:654-668 | there is only one order of the entries by (hint, key) |
| EntryMaps.AttachedEntryMap.GetOrder | src/libtsduck/dtv/tables/tsAbstractTable.h:654-668 | every key exactly once, sorted by order hint, ties in key order |
| EntryMaps.AssignListedSpec | src/libtsduck/dtv/tables/tsAbstractTable.h:677-701 | in the second pass, the counter advances once per listing of an existing key; a key gets count + i from its last listing i (its only one when the list has no duplicates), and no other hint changes |
| EntryMaps.SetOrderGap | src/libtsduck/dtv/tables/tsAbstractTable.h:677-701 | with a key listed twice, no key is left with the counter value of its earlier listing |
| EntryMaps.AssignOthersSpec | src/libtsduck/dtv/tables/tsAbstractTable.h:677-701 | in the third pass, the unlisted keys get the following values in their previous order |
| EntryMaps.SetOrderResult | src/libtsduck/dtv/tables/tsAbstractTable.h:677-701 | after setOrder, the order is the listed keys that exist, in list order, then the others in their previous order |
| EntryMaps.IndexOrder | src/libtsduck/dtv/tables/tsAbstractTable.h:677-701 | keys whose hints are their positions in a list of all keys are in that list's order |
| EntryMaps.AttachedEntryMap.SetOrder | src/libtsduck/dtv/tables/tsAbstractTable.h:677-701 | the keys are unchanged, and the new order is the one SetOrderResult describes |
| EntryMaps.AttachedEntryMap.NextOrder | src/libtsduck/dtv/tables/tsAbstractTable.h:709-718 | above every hint that is set: 0 when none is, otherwise one above the largest |
| EntryMaps.AttachedEntryMap.constructor | src/libtsduck/dtv/tables/tsAbstractTable.h:527-532 | a new map is empty |
| EntryMaps.AttachedEntryMap.Index | src/libtsduck/dtv/tables/tsAbstractTable.h:620-633 | creates a missing entry with an unset hint, gives an unset hint nextOrder() under auto ordering, and leaves every other entry untouched |
| EntryMaps.AttachedEntryMap.Get | src/libtsduck/dtv/tables/tsAbstractTable.h:636-645 | an out_of_range error exactly for a missing key, otherwise the entry |
| EntryMaps.AttachedEntryMap.NextIndex | src/libtsduck/dtv/tables/tsAbstractTable.h:397 | 0 for an empty map, otherwise one above the largest key, which is not in the map |
| EntryMaps.AttachedEntryMap.NewEntry | src/libtsduck/dtv/tables/tsAbstractTable.h:403 | inserts a fresh entry at nextIndex() through operator[] and changes no other entry |
| Tables.ShortSectionRoundTrip | src/libtsduck/dtv/tables/tsAbstractTable.cpp:303-316 | the section built from a payload is well formed and short, has the table id, and gives the payload back past its CRC32 check |
| Tables.CrcTail | src/libtsduck/dtv/tables/tsAbstractTable.cpp:303-316 | the CRC32 written at the end of a short section reads back as that CRC |
| Tables.SwapTwice | src/libtsduck/dtv/tables/tsAbstractTable.cpp:254-259 | swapping the buffer state twice gives the buffer back |
| Tables.AfterAddOneSectionImpl | src/libtsduck/dtv/tables/tsAbstractTable.cpp:300-321 | the first section is made of the buffer's remaining bytes; a second one is refused and sets the buffer error |
| Tables.AfterAddOneSection | src/libtsduck/dtv/tables/tsAbstractTable.cpp:278-297 | nothing happens after an error; otherwise the section is added and the buffer returns to its pushed state, or to its start when nothing is pushed |
| Tables.StepsAtMostOne | src/libtsduck/dtv/tables/tsAbstractTable.cpp:300-321 | the steps of a short table never leave more than one section |
| Tables.SerializeOneSection | src/libtsduck/dtv/tables/tsAbstractTable.cpp:216-271 | a successful serialization gives exactly one section and a failed one at most one |
| Tables.SerializeErrors | src/libtsduck/dtv/tables/tsAbstractTable.cpp:216-242 | an invalid object or a buffer error gives an empty table and false |
| Tables.SerializeAddsSection | src/libtsduck/dtv/tables/tsAbstractTable.cpp:243-246 | when the steps added no section, the remaining bytes make the one section |
| Tables.PutRoundTrip | src/libtsduck/dtv/tables/tsAbstractTable.cpp:216-271 | serializing a payload gives one section holding that payload |
| Tables.ReadSectionsAccepted | src/libtsduck/dtv/tables/tsAbstractTable.cpp:345-378 | every payload kept is its section's bytes and was read without error to its end |
| Tables.ReadSectionsComplete | src/libtsduck/dtv/tables/tsAbstractTable.cpp:345-378 | sections whose bytes all pass are read back as those bytes |
| Tables.RejectedPrefix | src/libtsduck/dtv/tables/tsAbstractTable.cpp:345-378 | one rejected section after an accepted prefix rejects the whole table |
| Tables.SerializeDeserialize | src/libtsduck/dtv/tables/tsAbstractTable.cpp:216-385 | deserializing a serialized payload, with a reader that accepts it, gives the payload back from a valid table with the object's id |
| Tables.AbstractTable.constructor | src/libtsduck/dtv/tables/tsAbstractTable.cpp:37-41 | a new table object is valid, empty and has its table id |
| Tables.AbstractTable.MaxPayloadSize | src/libtsduck/dtv/tables/tsAbstractTable.cpp:105-110 | 4093 bytes for a private table, 1021 otherwise |
| Tables.AbstractTable.Clear | src/libtsduck/dtv/tables/tsAbstractTable.cpp:52-59 | an empty, valid object with the same table id |
| Tables.AbstractTable.AddOneSectionImpl | src/libtsduck/dtv/tables/tsAbstractTable.cpp:300-321 | the binary table and buffer become what AfterAddOneSectionImpl gives |
| Tables.AbstractTable.AddOneSection | src/libtsduck/dtv/tables/tsAbstractTable.cpp:278-297 | the binary table and buffer become what AfterAddOneSection gives |
| Tables.AbstractTable.SerializeStep | src/libtsduck/dtv/tables/tsAbstractTable.cpp:231-235 | one step of serializePayload has the effect the step function gives |
| Tables.AbstractTable.SerializePayload | src/libtsduck/dtv/tables/tsAbstractTable.cpp:231-235 | the table and buffer after serializePayload are those of running its steps from an empty buffer of the maximum payload size |
| Tables.AbstractTable.CloseSections | src/libtsduck/dtv/tables/tsAbstractTable.cpp:238-265 | the final section, when one is needed, and the result, as the specification gives them |
| Tables.AbstractTable.Serialize | src/libtsduck/dtv/tables/tsAbstractTable.cpp:216-271 | the binary table is the specification's serialization, with the attribute unless the object is invalid, and the defining standards join the context's |
| Tables.AbstractTable.ReadSection | src/libtsduck/dtv/tables/tsAbstractTable.cpp:347-378 | the payload of a section that passes its CRC32 check and is read exactly to its end; otherwise the table is rejected |
| Tables.AbstractTable.DeserializeSections | src/libtsduck/dtv/tables/tsAbstractTable.cpp:345-378 | the object is valid exactly when every section is accepted, and then holds their payloads; otherwise it is cleared |
| Tables.AbstractTable.Deserialize | src/libtsduck/dtv/tables/tsAbstractTable.cpp:326-385 | valid exactly when the binary table is valid, has this id, and every section passes; an invalid or foreign table leaves the object invalid and its id unchanged |
| MJD.EncodeBCD | src/libtsduck/dtv/dvb/tsMJD.cpp:106-111 | a number below 100 becomes a valid BCD byte that decodes to it |
| MJD.BCDRoundTrip | src/libtsduck/dtv/dvb/tsMJD.cpp:49-57 | a valid BCD byte decodes below 100 and re-encodes to itself |
| MJD.TruncDiv | src/libtsduck/dtv/dvb/tsMJD.cpp:86-95 | the quotient truncated toward zero, as duration_cast gives it: r*b <= a < r*b + b for a >= 0, and r*b - b < a <= r*b for a < 0 |
| MJD.DayOf | src/libtsduck/dtv/dvb/tsMJD.cpp:43-45 | a 16-bit day value below 0x8000 stands for that value plus 0x10000, so the day lies in 0x8000..0x17FFF with the same low 16 bits |
| MJD.DecodeMJD | src/libtsduck/dtv/dvb/tsMJD.cpp:29-71 | an unknown format fails with the Unix epoch; MJD_FULL with a non-BCD hour, minute or second fails; a decoded time is not before the Time epoch |
| MJD.EncodedSeconds | src/libtsduck/dtv/dvb/tsMJD.cpp:86-103 | an encodable time has a day count in 0x8000..0x17FFF |
| MJD.Encoding | src/libtsduck/dtv/dvb/tsMJD.cpp:78-113 | a successful encoding has the size of its format |
| MJD.EncodeMJD | src/libtsduck/dtv/dvb/tsMJD.cpp:78-113 | an unknown format fails and writes nothing; otherwise it succeeds exactly when the time can be encoded, writes the encoding then, and writes zeros otherwise |
| MJD.WriteSeconds | src/libtsduck/dtv/dvb/tsMJD.cpp:106-111 | writes the day's low 16 bits, then hours, minutes and seconds in BCD |
| MJD.SecondsBytesDay | src/libtsduck/dtv/dvb/tsMJD.cpp:43-45 | the day written is the day read back |
| MJD.SecondsBytesMillis | src/libtsduck/dtv/dvb/tsMJD.cpp:43-69 | the bytes of a second count decode to that count (full format) or to its whole days (date only) |
| MJD.DecodeSecondsBytes | src/libtsduck/dtv/dvb/tsMJD.cpp:29-71 | decoding the bytes of a second count not before the Time epoch gives that time |
| MJD.EncodeDecode | src/libtsduck/dtv/dvb/tsMJD.cpp:29-113 | decoding an encoded time gives it back truncated to seconds (full) or to whole days (date only) |
| MJD.DecodeEncode | src/libtsduck/dtv/dvb/tsMJD.cpp:29-113 | encoding a decoded full date with fields in range gives the same five bytes back |
| Decapsulation.HeaderSize | src/libtsduck/dtv/encap/tsPacketDecapsulation.cpp:67 | the payload of a packet starts after its 4-byte header and adaptation field, within the packet |
| Decapsulation.PesHeader | src/libtsduck/dtv/encap/tsPacketDecapsulation.cpp:85-131 | an accepted PES header ends 9 bytes plus its optional header after the start; SYNC mode is stream id 0xFC |
| Decapsulation.AuHeader | src/libtsduck/dtv/encap/tsPacketDecapsulation.cpp:134-142 | the AU header passes exactly when its 5 bytes lie in the packet with 00, DF, 00 and a size of at most 206 |
| Decapsulation.AuHeaderAsWritten | src/libtsduck/dtv/encap/tsPacketDecapsulation.cpp:134-142 | the code's reading, which agrees with AuHeader whenever it stays within the packet |
| Decapsulation.Klv | src/libtsduck/dtv/encap/tsPacketDecapsulation.cpp:145-186 | the KLV key and length are accepted at least 17 bytes on, with the start mark from bit 0x10 of the last key byte |
| Decapsulation.PointerField | src/libtsduck/dtv/encap/tsPacketDecapsulation.cpp:205-209 | after a start mark, the pointer field must not lead past the packet (plus the PES fragment offset); without one it is 0 |
| Decapsulation.PesEnvelope | src/libtsduck/dtv/encap/tsPacketDecapsulation.cpp:85-191 | an accepted PES envelope leaves the inner data inside the packet |
| Decapsulation.OpenEnvelope | src/libtsduck/dtv/encap/tsPacketDecapsulation.cpp:67-209 | a TEI, scrambled or payload-less packet is rejected; an accepted one has its inner data after the header, and in plain mode its start mark is PUSI |
| Decapsulation.OpenEnvelopeAsWritten | src/libtsduck/dtv/encap/tsPacketDecapsulation.cpp:67-209 | the code's reading, which agrees with OpenEnvelope whenever it stays within the packet |
| Decapsulation.Desynchronized | src/libtsduck/dtv/encap/tsPacketDecapsulation.cpp:40-46 | lostSync: out of sync, next index 1, the error recorded, nothing else changed |
| Decapsulation.CheckCc | src/libtsduck/dtv/encap/tsPacketDecapsulation.cpp:211-217 | a continuity gap while synchronized loses sync; the counter is recorded in every case |
| Decapsulation.DiscontinuityLosesSync | src/libtsduck/dtv/encap/tsPacketDecapsulation.cpp:211-217 | a packet after a gap is handled as if sync had been lost just before it |
| Decapsulation.Copy | src/libtsduck/dtv/encap/tsPacketDecapsulation.cpp:233-256 | the copy keeps the next index in 1..187 and always returns true with a full-size packet |
| Decapsulation.CopyGathers | src/libtsduck/dtv/encap/tsPacketDecapsulation.cpp:250-256 | below a full inner packet, the bytes are gathered and a null packet is returned |
| Decapsulation.CopyEmits | src/libtsduck/dtv/encap/tsPacketDecapsulation.cpp:241-249 | at 188 bytes the inner packet is returned, the sync byte 0x47 followed by the first 187 gathered bytes, and the rest starts the next one after its sync byte |
| Decapsulation.Continue | src/libtsduck/dtv/encap/tsPacketDecapsulation.cpp:211-256 | once the envelope is accepted, the only failure is a pointer field that leads too far |
| Decapsulation.NoStartMarkGivesNull | src/libtsduck/dtv/encap/tsPacketDecapsulation.cpp:220-231 | out of sync and without a start mark, a null packet is returned with true |
| Decapsulation.StartMarkResyncs | src/libtsduck/dtv/encap/tsPacketDecapsulation.cpp:220-225 | a start mark resynchronizes, and the inner data resumes after the pointer field |
| Decapsulation.InSyncAppends | src/libtsduck/dtv/encap/tsPacketDecapsulation.cpp:211-239 | in sync with no gap, all the inner data after the envelope is appended |
| Decapsulation.Process | src/libtsduck/dtv/encap/tsPacketDecapsulation.cpp:59-259 | other PIDs (or a null input PID) pass unchanged with true; a bad packet loses sync with a null packet and false; the state invariant holds |
| Decapsulation.ProcessAsWritten | src/libtsduck/dtv/encap/tsPacketDecapsulation.cpp:59-259 | the code's reading, which agrees with Process whenever it stays within the packet |
| Decapsulation.AuHeaderReadsOutside | src/libtsduck/dtv/encap/tsPacketDecapsulation.cpp:134-145 | a packet on which the AU header check reads past byte 187 |
| Decapsulation.PointerLeadsOutside | src/libtsduck/dtv/encap/tsPacketDecapsulation.cpp:205-237 | a packet that passes the pointer check but makes the copy start past the packet |
| Decapsulation.PacketDecapsulation.constructor | src/libtsduck/dtv/encap/tsPacketDecapsulation.cpp:17-20 | a new decapsulator is out of sync with an empty next packet |
| Decapsulation.PacketDecapsulation.Reset | src/libtsduck/dtv/encap/tsPacketDecapsulation.cpp:27-33 | the new PID, out of sync, next index 1, no error |
| Decapsulation.PacketDecapsulation.LostSync | src/libtsduck/dtv/encap/tsPacketDecapsulation.cpp:40-46 | the state of Desynchronized, and false |
| Decapsulation.PacketDecapsulation.LostSyncPacket | src/libtsduck/dtv/encap/tsPacketDecapsulation.cpp:48-52 | the same, with the packet replaced by a null packet |
| Decapsulation.PacketDecapsulation.EmitNext | src/libtsduck/dtv/encap/tsPacketDecapsulation.cpp:241-249 | the full next packet is returned and the rest is copied after its sync byte |
| Decapsulation.PacketDecapsulation.CopyData | src/libtsduck/dtv/encap/tsPacketDecapsulation.cpp:233-256 | the packet and state become those Copy gives |
| Decapsulation.PacketDecapsulation.ContinueData | src/libtsduck/dtv/encap/tsPacketDecapsulation.cpp:211-256 | the packet and state become those Continue gives |
| Decapsulation.PacketDecapsulation.ProcessPacket | src/libtsduck/dtv/encap/tsPacketDecapsulation.cpp:59-259 | the packet, result and state become those Process gives |
| DuckContexts.Normalize | src/libtsduck/dtv/standards/tsDuckContext.cpp:181-184 | the name has no spaces and no lower-case letters left |
| DuckContexts.NormalizeAppend | src/libtsduck/dtv/standards/tsDuckContext.cpp:181-184 | normalising works character by character: it distributes over concatenation, drops a space and upper-cases any other character |
| DuckContexts.FoldNormalize | src/libtsduck/dtv/standards/tsDuckContext.cpp:181-190 | upper-casing and removing spaces first does not change what similar() compares |
| DuckContexts.ParseSimilar | src/libtsduck/dtv/standards/tsDuckContext.cpp:186-193 | any name similar to "UTC" or "JST", whatever its blanks and case, sets offset 0 or the JST offset |
| DuckContexts.OtherBlanksIgnored | src/libtsduck/dtv/standards/tsDuckContext.cpp:181-193 | "UTC" followed by a tab and "j s t" followed by a line feed are accepted as UTC and JST |
| DuckContexts.DecimalRoundTrip | src/libtsduck/dtv/standards/tsDuckContext.cpp:222-240 | scanning a number formatted with %d gives it back |
| DuckContexts.ParseRange | src/libtsduck/dtv/standards/tsDuckContext.cpp:179-215 | every accepted name denotes whole minutes, at most 12:59 either way |
| DuckContexts.ParseHours | src/libtsduck/dtv/standards/tsDuckContext.cpp:195-213 | "UTC", a character and digits is accepted exactly when the character is a sign and the hours are at most 12 |
| DuckContexts.ParseHoursMinutes | src/libtsduck/dtv/standards/tsDuckContext.cpp:195-213 | followed by ':' and digits, accepted exactly when also the minutes are at most 59 |
| DuckContexts.ParseHoursColon | src/libtsduck/dtv/standards/tsDuckContext.cpp:195-213 | followed by a lone ':', accepted as the whole hours, because the scan consumes the ':' and the end index reaches the end |
| DuckContexts.AcceptedShape | src/libtsduck/dtv/standards/tsDuckContext.cpp:186-213 | every accepted normalised name is similar to "UTC" or "JST", or is "UTC", a sign, hour digits and then nothing, ':' or ':' and minute digits |
| DuckContexts.AcceptedNames | src/libtsduck/dtv/standards/tsDuckContext.cpp:179-215 | setTimeReference accepts no name outside those: similar to "UTC" or "JST", or normalising to the offset shape |
| DuckContexts.TimeReferenceName | src/libtsduck/dtv/standards/tsDuckContext.cpp:222-240 | "UTC" for no offset, "JST" for the JST offset |
| DuckContexts.NameRoundTrip | src/libtsduck/dtv/standards/tsDuckContext.cpp:179-240 | the name of every offset setTimeReference can produce is accepted back as that offset |
| DuckContexts.NamedHours | src/libtsduck/dtv/standards/tsDuckContext.cpp:195-213 | "UTC±h" denotes ±h hours |
| DuckContexts.NamedHoursMinutes | src/libtsduck/dtv/standards/tsDuckContext.cpp:195-213 | "UTC±h:mm" denotes ±(h hours and m minutes) |
| DuckContexts.DuckContext.constructor | src/libtsduck/dtv/standards/tsDuckContext.cpp:58-73 | a new context is in its initial configuration |
| DuckContexts.DuckContext.Reset | src/libtsduck/dtv/standards/tsDuckContext.cpp:58-73 | back to the initial configuration |
| DuckContexts.DuckContext.AddStandards | src/libtsduck/dtv/standards/tsDuckContext.cpp:105-111 | the mask is or'ed into the accumulated standards and nothing else changes |
| DuckContexts.AddKeepsStandards | src/libtsduck/dtv/standards/tsDuckContext.cpp:105-111 | or-ing a mask in keeps every bit already set, sets the mask's bits, and doing it again changes nothing |
| DuckContexts.DuckContext.ResetStandards | src/libtsduck/dtv/standards/tsDuckContext.cpp:113-120 | the accumulated standards become the command-line ones or'ed with the mask |
| DuckContexts.DuckContext.ActualPDS | src/libtsduck/dtv/standards/tsDuckContext.cpp:127-141 | an explicit PDS other than 0 and PDS_NULL wins, then such a default PDS, then 0; never PDS_NULL |
| DuckContexts.ActualPDSIdempotent | src/libtsduck/dtv/standards/tsDuckContext.cpp:127-141 | actualPDS of its own result gives that result |
| DuckContexts.DuckContext.SetTimeReference | src/libtsduck/dtv/standards/tsDuckContext.cpp:179-215 | true exactly for an accepted name (similar to "UTC" or "JST", or of the offset shape, as AcceptedNames states), which then sets the offset; false changes nothing |
| DuckContexts.DuckContext.Name | src/libtsduck/dtv/standards/tsDuckContext.cpp:222-240 | the name of the current time reference is accepted back as it |

## Left out

- PSIBuffer, BinaryTable, Section storage, CRC32 and TSPacket are not part of this model. They are stand-ins:
  - `Tables.Buffer` keeps only the positions and error flag the table code reads.
  - `Tables.BinaryTable` is a list of sections.
  - The CRC32 is a function parameter.
  - Sections and packets are byte sequences.
- The per-table `serializePayload` and `deserializePayload` are not modelled:
  - The first is a list of buffer steps, given as a parameter.
  - The second is a reader function, given as a parameter.
- AbstractLongTable is not modelled: only short tables (one section at most) are serialized. The concrete table classes are not modelled either.
- Tables.SectionBytes: for a short section with a CRC32 shorter than 7 bytes, payloadSize() - 4 would wrap in `size_t`. The model saturates it at 0 instead.
- Decapsulation.HeaderSize: never goes past 188 bytes. TSPacket's own clamp is not shown, so this is an assumption.
- `DuckContext` leaves out:
  - output streams, charsets, the report, command-line arguments and the configuration file read by the constructor;
  - the CAS, PDS and registration defaults it does not use itself.
- setTimeReference parsing: `UString::scan` is not shown. It is modelled as reading "UTC", one character, decimal digits, then optionally ':' and digits. The conversion count and the end index are what the code tests.
- DuckContexts.ParseOffset: a literal ':' counts as consumed even when no minute digits follow, so "UTC+5:" is read as +5 hours (ParseHoursColon). Whether scan moves its end index past a literal it matched before a failed conversion is not shown.
- DuckContexts.ParseOffset: how scan treats blanks in its input (skipping them around fields) is not modelled; any blank other than ' ' in a UTC±h name makes the model reject it.
- DuckContexts.UpperChar: `convertToUpper()` and the case-insensitive `similar()` fold only ASCII a-z; Unicode case mapping is not modelled.
- DuckContexts.Fold: the blanks `similar()` ignores are modelled as space, tab, line feed, vertical tab, form feed and carriage return; other Unicode spaces are not modelled.
- Memory.MemCompare: returns the difference of the first differing bytes, which is one of the results `std::memcmp` may return; memcmp promises only its sign.
- Time is integer milliseconds:
  - The Time epoch and the Julian epoch offset are parameters.
  - Calendar conversion and clocks are not modelled.
- Memory.MemXor and Memory.MemCopy: the sources are values, so an overlapping destination is not modelled. memmove's overlap semantics are not modelled either.
- Memory.GetIntVarBE and Memory.GetIntVarLE: the integer type parameter is modelled as an unbounded unsigned result. The cast to a narrower or signed type is not modelled.
- Sizes are unbounded naturals; 64-bit `size_t` wrap-around is not modelled.
- Descriptor lists keep descriptors as values, so sharing between lists (the shared pointers) and the copy/share modes are not modelled.
- Other members of the core classes are not modelled, because they depend on I/O, XML, language tables or context not shown:
  - DescriptorList: merge, browseLanguages/searchLanguage/searchSubtitle, toXML/fromXML, edid, getAllRegistrations, the EDID search and addPrivateIdentifier;
  - AbstractTable: fromXML.
- The attachment of an entry map to its table (the table pointer) is not modelled.
- Concurrency, floating point, the network and device I/O do not occur in the core, or are outside it.

## Findings

| source | as written | input that shows it | evidently intended | confidence | as-written member | corrected member |
|---|---|---|---|---|---|---|
| src/libtsduck/dtv/encap/tsPacketDecapsulation.cpp:134-145 | in SYNC mode the five AU header bytes are read before the check that the index is at most 170, so a long PES optional header makes the code read past the 188-byte packet | the packet `AU_OUTSIDE` (a SYNC PES header ending at byte 187, the last byte of the packet, so the check reads byte 189) | check the bound before reading, and reject the packet as an invalid AU header | not executed | Decapsulation.AuHeaderReadsOutside | Decapsulation.OpenEnvelope |
| src/libtsduck/dtv/encap/tsPacketDecapsulation.cpp:205-237 | the pointer check allows index + pointer up to 188 + the PES fragment offset, and the resync then moves the index past 188, breaking the assertion at line 234 and making the copy read outside the packet | the packet `POINTER_OUTSIDE` processed from `FRESH_STATE` | treat a pointer leading past the packet as out of range and lose sync | not executed | Decapsulation.PointerLeadsOutside | Decapsulation.Process |
