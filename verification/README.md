# A Dafny model of UBIN

UBIN is a Python library for moving binary data: a canonical value protocol, an
encrypted container, resumable encrypted transfers, a keyed reversible
permutation of ciphertext blocks, a PNG carrier, and a few collection helpers.
This project models the parts of it that carry state or arithmetic and proves
what they promise, for all inputs, all runs and all reachable states.

Cryptography is a parameter everywhere. The authenticated cipher is ideal: it
opens exactly what it sealed, under the same key, nonce and associated data.
The keyed digest behind the permutation may be any function. The content hash
may be any function with 32-byte results: it is never taken to be injective, so
a statement about content that passed a hash comparison says "the source, or a
collision with it". zlib is a pair of stream objects that lose nothing, however
the compressed stream is cut. Both assumptions can be met, as
`IdealCipher.IdealCiphersExist` and `Png.StoringIsLossless` show. Random
bytes (ids, nonce bases, padding) are parameters.

Specifications that several members share are tied down a second time, in terms
of bytes, integers and the caller's own comparison only: which bytes a digest is
taken of, what a container, a frame, an encoding or an image consists of, byte
by byte, in which order results come, and what each side of a transfer has
checked before it goes on. Numbers in such statements are read digit by digit
(`Bytes.Number`), not with the functions that write them.

## What is modelled

**Keyed reversible permutation** (`feistel.dfy`, `cyclewalk.dfy`, `krp.dfy`,
`krp_blocks.dfy`, `krp_files.dfy`, `krp_refusal.dfy`, `krp_keys.dfy`). Six Feistel rounds over
the smallest even-width domain, cycle-walked back into the block indexes, with the limit of
128 steps. The first-return map of any permutation is a bijection; the limited
walk is injective, and it is onto when no walk is refused; the limit fires
exactly when the first 128 values stay outside, and never when fewer than 128
domain values are not indexes. Scattering and gathering, in a buffer and with
positional file writes, are each other's inverses and refuse the same lengths.
When source and destination are the same file the positional version reads the
zeros of its own truncation, which the contracts say. Every walk is a trace of
rounds over the digest of label, context, round number and right half, and both
key and context matter.

**Value protocol** (`utf8.dfy`, `protocol.dfy`, `protocol_proofs.dfy`,
`protocol_form.dfy`, `protocol_codec.dfy`). Recursive encoder and bounded stateful reader, as a
class with an offset and an item counter. Decoding an encoding gives the value
back, lists for tuples and entries in key order, exactly when its item count
and its length are within the limits; every accepted byte string is the
encoding of what was decoded. The keys of a map ascend in the order of their
code points. UTF-8 follows sections 3 and 4 of RFC 3629.

**Sorting, trees, graphs, workflows** (`stable_order.dfy`, `merge_sort.dfy`,
`quick_sort.dfy`, `binary_search_tree.dfy`, `graph.dfy`, `workflow.dfy`). The
algorithms on arrays, linked nodes and maps, proved against independent
definitions: the unique stable arrangement, recursive preorder, reachability by
paths, longest dependency chains, the unique solution of a system of tasks.

**Container** (`framing.dfy`, `ideal_cipher.dfy`, `container_form.dfy`,
`format.dfy`, `container.dfy`, `container_exchange.dfy`). Header, nonces, associated data and both frame loops. A saved
container restores to its source, an accepted container is byte for byte the
one that its header and plaintext make, and no two of its records share a nonce.
A container does not accept the first frame or the final record of one with
another header, unless the cipher seals two texts alike under their two
associated data.

**Resumable transfer, on the wire** (`transfer_format.dfy`, `transfer.dfy`).
Headers of both variants, checkpoints, replies, tickets, associated data, and
the frame loops of sender and receiver, with the blocks of every ciphertext
permuted in the second variant.

**Resumable transfer, with crashes** (`resume_machine.dfy`,
`resume_safety.dfy`, `resume_theorems.dfy`, `resume_tickets.dfy`,
`resume_completion.dfy`, `resume_checks.dfy`, `resume_source.dfy`,
`resume_destinations.dfy`, `resume_server.dfy`, `resume_acceptance.dfy`,
`resume_delivery.dfy`). A step system of client, server, network and disk.
Every change of a file is a step of its own, and after any step there may be a
disconnect, a crash that leaves arbitrary bytes behind the synced part of any
partial file (or loses the file), an edit of the client's source, or, between
attempts, any alteration of a partial file. The network may deliver anything
that was sent in a connection, in any order and repeatedly. The steps are:

- client, `src/ubin/secure/resume.py`: `StartNew` and `StartResume` 447-490,
  `ReadStatus` 518-572, `SealFrame` 574-608, `SealFinal` 610-621, `ReadAck`
  623-657
- opening, `src/ubin/secure/resume.py`: `AcceptNew`, `CreatePartial` and
  `FirstCheckpoint` 711-740, `AcceptResume` 741-746 with 291-342,
  `SyncTruncation` 337-340, `CheckDestination` 747-750, `SendStatus` 752-759
- frames, `src/ubin/secure/resume.py`: `WriteFrame` 771-814, `SyncFrame`
  820-821, `SaveCheckpoint` 822-828, `AcceptFinal` 849-889
- closing, `src/ubin/secure/resume.py`: `Publish` 891-908, `RejectContent`
  902-906, `DropCheckpoint` 345-357 and 909, `SendAck` 911-919

`resume_server.dfy` has the receiving side as methods over its files; each
method extends a recorded run of the step system that begins in an initial
state, so what holds in every reachable state holds between any two of its
statements. `resume_delivery.dfy` runs these methods against a client that sends
what it has to. A transfer is *clean* while neither its source nor its partial file
has been altered.

**PNG carrier** (`png.dfy`, `png_form.dfy`). Chunks, dimensions, rows, and the encoder and
decoder loops, after sections 3.2 and 6.2 of RFC 2083.

## Findings

- A lost acknowledgement is final. The server has published the file and
  dropped its state, the client keeps its state file, every later resume
  request is refused and no receipt ever comes (`AcknowledgementCanBeLost` from
  every initial state with a free destination, `NoReceiptAfterLoss`). A client
  that holds the state of a clean transfer passes the checks of a resume
  request exactly while the partial file is there (`ResumableIffPartialIsThere`);
  that file is lost only by publication or by a crash (`PartialWasLost`).
  An uninterrupted connection of an honest client of a clean transfer fails
  exactly for a taken destination or a lost partial file, and otherwise ends
  with the source delivered and a receipt (`ServeHonestClient`).
- Permuting a file onto itself, or restoring it onto its own carrier, destroys
  it: the destination is truncated before it is read, and only zeros are left,
  with no error. Restoring over the original is safe (`RoundTripFile`).
- A refused walk is found only after the destination was emptied and partly
  written, so an existing destination is lost with the error: the blocks before
  the refused one are there, and zeros (`PermuteFile`, `RestoreFile`).
- Packing a transfer header does not check the flags; unpacking does. The round
  trip holds exactly for the flags of the variant (`UnpackUndoesPack`), and every
  other value packs and is refused (`WrongFlagsArePacked`). The same holds for
  version, algorithm, flags and frame count of the container header.
- The encoder's flush threshold is no bound on its chunks: one wide row of
  compressed data can exceed the decoder's chunk limit. A caller is safe when
  what the compressor puts out at once is at most 66,060,289 bytes for a row,
  the limit less one byte short of a mebibyte (`CompactStreamsSurvive`). With a
  compressor that stores its input the payload comes back exactly for widths up
  to 16,777,215, and a wider image is written but cannot be read, or cannot be
  written at all from 2^30 pixels on (`StoredRowsSurvive`).
- The walk limit makes the permutation partial, in both directions for the same
  lengths (`RefusedBothWays`). For up to 64 blocks and for more than 4096 the
  exact condition is one that a caller can compute from the block count: no
  digest function, key and context refuse a walk if and only if fewer than 128
  domain values are no index (`LimitExactly`; for every count over 4096 where
  that fails, `WalksCanBeRefused` has a digest function). In between the
  condition is shown to suffice only (`GuardCannotFire`). For one keying, `GuardFiresExactly` says which
  walks are refused.
- Membership of a value that cannot be compared with the tree's is decided at
  the root: it is found exactly if it equals the value inserted first
  (`Contains`).

## Model

| member | source | states |
|---|---|---|
| Bitwise.XorCancels | src/ubin/secure/krp.py:49 | combining a half with the same round value twice gives it back |
| Bitwise.XorDigits | src/ubin/secure/krp.py:49 | each binary digit of the combination is 1 exactly where the digits differ |
| Bytes.ToBytesIsNumber | src/ubin/secure/krp.py:30-34 | a number written into a field is the one that its bytes stand for, most significant first |
| Bytes.FromBytesIsNumber | src/ubin/secure/krp.py:37 | a field is read as the number that its bytes stand for |
| Feistel.EncipherPermutes | src/ubin/secure/krp.py:40-51 | for every round function the six rounds permute the domain, and running them backwards is the inverse |
| CycleWalk.WalkIsFirstReturn | src/ubin/secure/krp.py:75-79 | the guarded walk gives the first value below the count, and fails exactly when none of its steps is |
| CycleWalk.WalkFinishes | src/ubin/secure/krp.py:71-79 | from an index, one of the first size - count + 1 steps of any permutation returns |
| CycleWalk.WalkInjective | src/ubin/secure/krp.py:75-79 | two indexes whose guarded walks end in the same value are equal |
| CycleWalk.ReturnIsBijection | src/ubin/secure/krp.py:71-79 | the unguarded first-return map of any permutation is a bijection of the indexes |
| Krp.FeistelOnce | src/ubin/secure/krp.py:40-51 | the loop computes the six-round permutation and stays in the domain; its result is the end of a trace of seven pairs of halves, each the right half before it and the left one combined with the masked big-endian front of the digest, under the key, of label, context length, context, round number and right half |
| Krp.MessageDetermines | src/ubin/secure/krp.py:28-34 | the bytes under the digest determine context, round number and right half |
| KrpKeys.KeyAndContextMatter | src/ubin/secure/krp.py:27-79 | for any two different keys or contexts there is a digest function with which block 1 of 4 has different targets |
| Krp.DomainBounds | src/ubin/secure/krp.py:66-71 | the domain holds the count and is at most 4 * (count - 1) |
| Krp.WidthIsSmallest | src/ubin/secure/krp.py:66-68 | no smaller even width holds the count |
| Krp.PermutedIndex | src/ubin/secure/krp.py:54-79 | the specified target; for two or more blocks the end of a walk of such rounds over half the least even width, in which all values in between are no index, or the refusal after 128 steps; otherwise the range check, the identity, or the context that is too long |
| Krp.TargetIsWalked | src/ubin/secure/krp.py:54-79 | the target as specified is the end of exactly such a walk |
| Krp.TargetInjective | src/ubin/secure/krp.py:54-79 | no two indexes have the same target, for every digest function, key, context and count |
| Krp.TargetSurjective | src/ubin/secure/krp.py:54-79 | when no walk is refused every index is a target |
| Krp.GuardFiresExactly | src/ubin/secure/krp.py:75-79 | a walk is refused exactly when none of its first 128 values is an index |
| Krp.GuardCannotFire | src/ubin/secure/krp.py:71-79 | no walk is refused when fewer than 128 domain values are not indexes |
| Krp.SmallCountsAlwaysFinish | src/ubin/secure/krp.py:71-79 | no walk is refused for up to 64 blocks |
| KrpRefusal.WalksCanBeRefused | src/ubin/secure/krp.py:71-79 | for every count over 4096 that leaves 128 or more domain values outside there are a digest function, a key and a block whose walk is refused |
| KrpRefusal.LimitExactly | src/ubin/secure/krp.py:54-79 | for counts up to 64 and over 4096: no digest function, key and context make the limit fire, if and only if fewer than 128 domain values are outside |
| KrpBlocks.ScatterStep | src/ubin/secure/krp.py:105-109 | writing a block at its target leaves the blocks written before it: every block is written once |
| KrpBlocks.PermuteBlocks | src/ubin/secure/krp.py:82-112 | every complete block is, at multiples of the block size, where its walk ends, and the short tail in place; or the first reason to refuse: a key under 16 bytes, no block size, a context too long for its field, a walk that finds no index |
| KrpBlocks.RestoreBlocks | src/ubin/secure/krp.py:115-144 | the result is a byte string whose blocks, moved like that, give the input, or the same refusal |
| KrpBlocks.PermutedIsRearranged | src/ubin/secure/krp.py:105-112 | the relation that buffer and file versions are proved against puts each block where its walk ends and moves nothing else |
| KrpBlocks.RestoreInvertsPermute | src/ubin/secure/krp.py:115-144 | only one byte string permutes to a given one, so restoring recovers it |
| KrpBlocks.PermuteInvertsRestore | src/ubin/secure/krp.py:82-112 | permuting has one result, so permuting what was restored gives it back |
| KrpBlocks.RefusedBothWays | src/ubin/secure/krp.py:82-144 | a length is accepted exactly when every byte string of it has an image, and exactly when every one has a preimage |
| KrpFiles.PermuteFile | src/ubin/secure/krp.py:166-231 | the positional writes compute the same relation as the buffer version; with source and destination the same file, on zeros; a bad key or block size leaves the destination alone, a refused walk leaves the blocks before it at their targets and zeros |
| KrpFiles.RestoreFile | src/ubin/secure/krp.py:234-299 | likewise for restoring; a refused walk leaves the blocks before it and zeros behind them |
| KrpFiles.RoundTripFile | src/ubin/secure/krp.py:166-299 | for any three files, the same or not: permuting into a carrier and restoring gives the source again, or zeros where one call read what it had just truncated; it fails exactly on a refused size |
| StableOrder.ValuesCorrect | src/ubin/sort.py:9-11 | the reference arrangement is sorted, a permutation, and keeps ties in order |
| StableOrder.ValuesUnique | src/ubin/sort.py:9-11 | it is the only list that is sorted and keeps ties in order |
| StableOrder.ValuesByKey | src/ubin/sort.py:9-11 | the reference arrangement under a key and a direction ascends or descends by the given comparison and keeps items with tied keys in order |
| StableOrder.ValuesConcat | src/ubin/sort.py:35-62 | merging two arranged runs arranges their concatenation |
| MergeSort.MergeRuns | src/ubin/sort.py:35-62 | one merge writes exactly the merged run, and keys stay with their items |
| MergeSort.MergePass | src/ubin/sort.py:33-64 | one pass leaves runs of twice the width arranged |
| MergeSort.Merge | src/ubin/sort.py:14-70 | for every key: ascending, or descending if reversed, written out with the given comparison; a permutation; items that tie, neither key before the other, in the order given; so it is the reference arrangement |
| QuickSort.Partition | src/ubin/sort.py:93-106 | the scan and swap loop separates the interval, permutes only it, and keeps keys with items |
| QuickSort.SortTop | src/ubin/sort.py:91-119 | finishing one interval stacks the larger parts and keeps everything pending covered by the stack |
| QuickSort.DepthBound | src/ubin/sort.py:108-119 | two to the stack depth is at most the number of items |
| QuickSort.Quick | src/ubin/sort.py:73-121 | terminates with a permutation that ascends by key, or descends if reversed, written out with the given comparison, for every strict weak order; the recorded stack goes from the whole array to empty by single pushes and pops and never holds more than log2(n) intervals |
| BinarySearchTrees.AttachOrdered | src/ubin/ds.py:98-109 | hanging a node keeps left < node <= right and puts its value after its ties in traversal order |
| BinarySearchTrees.Hang | src/ubin/ds.py:98-109 | the descent links the node at exactly that place and changes no other link |
| BinarySearchTrees.BinarySearchTree.constructor | src/ubin/ds.py:85-89 | the tree of a list of values has inserted exactly those |
| BinarySearchTrees.BinarySearchTree.Insert | src/ubin/ds.py:91-110 | one more value has been inserted; order, shape and size stay right |
| BinarySearchTrees.BinarySearchTree.Contains | src/ubin/ds.py:112-121 | true exactly for inserted values, and for a value that cannot be compared exactly if it equals the first inserted one |
| BinarySearchTrees.BinarySearchTree.InorderValues | src/ubin/ds.py:123-134 | the explicit-stack traversal lists the stable arrangement of the inserted values |
| BinarySearchTrees.BinarySearchTree.Len | src/ubin/ds.py:136-137 | the number of inserted values |
| Graphs.Graph.AddNode | src/ubin/ds.py:152-153 | a node that is there is left alone, a new one has no neighbours |
| Graphs.Graph.AddEdge | src/ubin/ds.py:155-160 | exactly this edge is added, and its reverse in an undirected graph; earlier neighbours keep their order |
| Graphs.Graph.Neighbors | src/ubin/ds.py:162-165 | the neighbours in order, or the error for an unknown node |
| Graphs.WithinIffPath | src/ubin/ds.py:167-180 | distance as used below is the length of a shortest path |
| Graphs.Turn | src/ubin/ds.py:173-179 | one turn of the outer loop keeps the two distance levels in the queue apart |
| Graphs.Graph.Bfs | src/ubin/ds.py:167-180 | exactly the reachable nodes, once each, by non-decreasing distance; every node is the first new neighbour of the earliest listed node that has one |
| Graphs.WorklistIsPreorder | src/ubin/ds.py:187-194 | a stack with duplicate entries visits what the recursion visits, in the same order |
| Graphs.PreorderIsReachability | src/ubin/ds.py:182-195 | recursive preorder lists exactly the reachable nodes, once each |
| Graphs.PreorderIsDepthFirst | src/ubin/ds.py:182-195 | in recursive preorder every node is the first new neighbour of the latest node that has one |
| Graphs.Graph.Dfs | src/ubin/ds.py:182-195 | exactly the reachable nodes, once each; every node is the first new neighbour of the latest listed node that has one; the iterative search gives the recursive preorder |
| Workflow.LongChainMeansCycle | src/ubin/_workflow.py:43-45 | a dependency chain as long as there are tasks contains a cycle |
| Workflow.TakeLayer | src/ubin/_workflow.py:43-50 | one round takes exactly the open tasks of the next depth, or there is a cycle |
| Workflow.Flow.AddTask | src/ubin/_workflow.py:21-28 | empty, repeated and self-dependent names are refused, others appended |
| Workflow.Flow.Layers | src/ubin/_workflow.py:30-51 | succeeds exactly on known and acyclic dependencies; the layers hold the tasks, each right behind the last layer with one of its dependencies, and within a layer the names ascend by code point |
| Workflow.LayersAreScheduled | src/ubin/_workflow.py:41-50 | layering by the longest chain of dependencies is layering as early as the dependencies allow |
| Workflow.NameLessIff | src/ubin/_workflow.py:46 | names are compared at the first code point in which they differ, and a proper prefix comes first |
| Workflow.OutcomeIsSolution | src/ubin/_workflow.py:53-68 | a result gives every task its function's value on its dependencies' values, and a failed task means that no such map exists |
| Workflow.SolutionUnique | src/ubin/_workflow.py:53-68 | an acyclic flow has at most one such map |
| Workflow.RunInParallel | src/ubin/_workflow.py:56-63 | a layer run at once gives what it gives in order |
| Workflow.Flow.Run | src/ubin/_workflow.py:53-68 | the outcome is the same for parallel and sequential runs: a value for every task, what its function gives on the values of exactly its dependencies; or the missing names; or a cycle; or the error of the first task to fail, in order of layers and names, and then no such values exist |
| Utf8.DecodeEncode | src/ubin/protocol.py:59-60 | strings of Unicode scalar values survive UTF-8 |
| Utf8.EncodeDecode | src/ubin/protocol.py:119-122 | accepted UTF-8 re-encodes to the same bytes, so overlong and surrogate forms are refused |
| Utf8.EncodeExactly | src/ubin/protocol.py:60 | the bytes of a text are its code points one after the other, each in its shortest form of marker and six-bit groups, and no other bytes are |
| ProtocolCodec.Encode | src/ubin/protocol.py:37-75 | the recursive encoder with its growing buffer computes the specified encoding, or the first error: depth, range, infinities, text, length, keys, unsupported types; the bytes are tags, big-endian numbers and contents as written out, maps in ascending order of their keys |
| ProtocolCodec.Reader.Take | src/ubin/protocol.py:87-92 | exactly the next bytes, or truncation with the offset unmoved |
| ProtocolCodec.Reader.ReadOne | src/ubin/protocol.py:94-144 | the stateful reader with depth and item limits refines reading as a function |
| ProtocolCodec.Decode | src/ubin/protocol.py:147-165 | limits, one value and nothing behind it; what is accepted consists of the bytes written out for that value, and the keys of all its maps ascend |
| ProtocolForm.BytesLessIsBefore | src/ubin/protocol.py:70 | one key comes before another if its UTF-8 bytes are a proper prefix, or smaller at the first place where they differ |
| ProtocolForm.ByteOrderIsTextOrder | src/ubin/protocol.py:70 | the order of the UTF-8 bytes is that of the code points |
| ProtocolForm.EncodingShows | src/ubin/protocol.py:37-75 | the encoding of a value is, byte by byte, the form written out for it |
| ProtocolForm.DecodedShows | src/ubin/protocol.py:94-165 | accepted bytes have the form of their value, with ascending keys |
| ProtocolForm.ScalarIsAccepted | src/ubin/protocol.py:37-62 | which integers, floats, byte strings and texts have an encoding |
| ProtocolProofs.ReadEncoded | src/ubin/protocol.py:94-143 | reading an encoding at any depth gives the value and the rest, or the item limit: the early count checks refuse nothing more |
| ProtocolProofs.ReadCanonical | src/ubin/protocol.py:94-143 | whatever is read is in canonical form and encodes to the bytes it was read from |
| ProtocolProofs.DecodeUndoesEncode | src/ubin/protocol.py:147-165 | the decoded value, or exactly which limit refuses it |
| ProtocolProofs.EncodeUndoesDecode | src/ubin/protocol.py:147-165 | every accepted byte string is the encoding of its value |
| ProtocolProofs.AcceptsExactlyEncodings | src/ubin/protocol.py:147-165 | the accepted byte strings are the encodings within the limits |
| ProtocolProofs.SameEncodingIffSameCanon | src/ubin/protocol.py:37-75 | two values share an encoding exactly when they have the same canonical form |
| ProtocolProofs.CanonHasSameEncoding | src/ubin/protocol.py:37-75 | putting a value into canonical form changes nothing in its encoding, and nothing when done twice |
| ProtocolProofs.InsertionOrderIsInvisible | src/ubin/protocol.py:66-74 | the order in which map entries were inserted does not change the encoding |
| ProtocolCodec.EnvelopeRoundTrip | src/ubin/protocol.py:168-201 | an envelope gives back type, flags and payload, or the payload limit |
| ProtocolCodec.EnvelopeCanonical | src/ubin/protocol.py:180-201 | an accepted envelope is the one that its parts make |
| ProtocolCodec.EnvelopeForm | src/ubin/protocol.py:168-177 | an envelope is twelve bytes of magic, version, type, flags and length, and the payload; and which types, flags and lengths it has |
| ProtocolCodec.DepthIsLimited | src/ubin/protocol.py:37-40 | 64 levels of nesting can be encoded and no more |
| ProtocolCodec.MessageRoundTrip | src/ubin/protocol.py:204-219 | a message gives back its value, or exactly which limit refuses it |
| ProtocolCodec.MessageCanonical | src/ubin/protocol.py:204-219 | an accepted message is the one that its value and flags make |
| Framing.FrameCountStep | src/ubin/secure/container.py:187-191 | taking one frame off leaves one frame less |
| Framing.NonceInjective | src/ubin/secure/format.py:135-147 | different frame numbers have different nonces |
| Framing.NonceExactly | src/ubin/secure/format.py:135-147 | a nonce is the base with the frame number combined into its last eight bytes as a big-endian number |
| Framing.CountExactly | src/ubin/secure/container.py:187-191 | the frame count is the number of frames that hold the size while one less does not |
| Framing.FrameMetaFields | src/ubin/secure/format.py:28 | the three numbers of a frame record are read back |
| Framing.RecordExactly | src/ubin/secure/format.py:28 | a record is the frame number in eight bytes, the length in four, and the length with the tag in four |
| Format.UnpackUndoesPack | src/ubin/secure/format.py:53-132 | a packed header unpacks to itself exactly when version, algorithm, flags and frame count are the ones required |
| Format.PackUndoesUnpack | src/ubin/secure/format.py:79-132 | an accepted header packs to the bytes it came from |
| Format.HeaderExactly | src/ubin/secure/format.py:53-77 | a packed header, byte by byte |
| Format.FrameAadBinds | src/ubin/secure/format.py:149-157 | equal associated data of two frames means equal header bytes, frame number and length |
| Format.FinalAadBinds | src/ubin/secure/format.py:159-160 | the associated data of a final record determines the header and is never a frame's |
| Container.NoncesDistinct | src/ubin/secure/container.py:219-260 | no two of the frame_count + 1 records of a container share a nonce |
| Container.Save | src/ubin/secure/container.py:165-269 | the destination gets the whole container, byte by byte as written out: each frame sealed under the nonce of its number with the header and its record as associated data; or it stays as it was, exactly for a bad frame size, an existing destination, a missing source, the same path twice, an unpackable header or a source that has become shorter, in that order |
| Container.DecryptFrames | src/ubin/secure/container.py:330-378 | the frame loop computes reading frames as a function, with the first failing check deciding |
| Container.DecryptFile | src/ubin/secure/container.py:297-415 | the destination is replaced by the plaintext exactly if the source is, byte by byte, a container of it; otherwise it stays, with the error of the first failing check, from an existing destination and the same path to the final digest |
| Container.RestoreUndoesSave | src/ubin/secure/container.py:181-415 | every source comes back at every legal frame size |
| Container.SaveUndoesRestore | src/ubin/secure/container.py:314-415 | an accepted container is byte for byte the one of its header and plaintext |
| Container.RestoreExactly | src/ubin/secure/container.py:314-415 | a plaintext is restored exactly from the byte strings that are its containers as written out |
| ContainerExchange.ForeignFrameRefused | src/ubin/secure/container.py:355-372 | no byte string that starts with another header and the first frame of an accepted container is accepted, whatever follows, unless the cipher seals two texts alike under the two associated data |
| ContainerExchange.ForeignFinalRefused | src/ubin/secure/container.py:393-402 | nor one that ends with the final record of a container with another header |
| ContainerExchange.SeparatingSuite | src/ubin/secure/container.py:236-241 | for any two associated data there is a lawful cipher that never seals two texts alike under them |
| TransferFormat.UnpackUndoesPack | src/ubin/secure/resume_format.py:64-157 | a packed header unpacks to itself exactly for the variant's flags |
| TransferFormat.WrongFlagsArePacked | src/ubin/secure/resume_format.py:64-131 | a header that packs also packs with any other flags, and is then refused for them |
| TransferFormat.SomeHeaderPacks | src/ubin/secure/resume_format.py:64-103 | both variants have headers that pack |
| TransferFormat.PackUndoesUnpack | src/ubin/secure/krp_format.py:106-158 | an accepted header packs to the bytes it came from |
| TransferFormat.HeaderExactly | src/ubin/secure/resume_format.py:64-103 | a packed header, byte by byte |
| TransferFormat.ExpectedStep | src/ubin/secure/resume_format.py:160-170 | every frame is non-empty and leads from its checkpoint's byte count to the next one |
| TransferFormat.ExpectedExactly | src/ubin/secure/resume_format.py:160-170 | a checkpoint's byte count is that of its complete frames, and the whole size at the end |
| TransferFormat.FramesLeft | src/ubin/secure/resume_format.py:160-170 | the frames left at a checkpoint are the frames of the bytes left |
| TransferFormat.ExpectedGrows | src/ubin/secure/krp_format.py:161-171 | a later checkpoint has strictly more bytes |
| TransferFormat.StatusFields | src/ubin/secure/resume_format.py:32 | the status gives back position and ticket |
| TransferFormat.StatusExactly | src/ubin/secure/resume_format.py:32 | a status, byte by byte |
| TransferFormat.AckFields | src/ubin/secure/resume_format.py:35 | the acknowledgement gives back size, digest and transfer id |
| TransferFormat.AckExactly | src/ubin/secure/resume_format.py:35 | an acknowledgement, byte by byte |
| TransferFormat.FrameAadBinds | src/ubin/secure/resume_format.py:173-187 | equal associated data means equal header, status, frame number and length |
| TransferFormat.FinalAadBinds | src/ubin/secure/resume_format.py:190-195 | final associated data tells header and status, and is never a frame's |
| TransferFormat.TicketBindsStable | src/ubin/secure/krp_transfer.py:227-239 | two headers share a ticket payload only if they share variant and everything but the nonce base |
| Transfer.FrameContextBinds | src/ubin/secure/krp.py:147-163 | every frame of every connection has its own permutation context |
| Transfer.SendFrame | src/ubin/secure/krp_transfer.py:601-628 | one frame on the wire: its record, then the ciphertext, sealed under the nonce of its number with header, status and record as associated data, or that ciphertext with its blocks of 4096 bytes rearranged under the frame's context; or the refusal by the walk limit |
| Transfer.RecordShows | src/ubin/secure/krp_transfer.py:595-628 | the frames of the model are the frames written out byte by byte |
| Transfer.SendFrames | src/ubin/secure/krp_transfer.py:588-628 | from a checkpoint exactly the frames of the rest of the source go out, byte by byte as written out, frame_count - next_frame of them; otherwise the first frame that cannot go is named, with its reason: the source ends early, or the walk limit |
| Transfer.SmallFramesAreSendable | src/ubin/secure/krp_transfer.py:612-620 | a frame of up to 64 complete blocks is never refused |
| Transfer.ReceiveFrame | src/ubin/secure/krp_transfer.py:796-846 | the plaintext of an honest frame, byte by byte as written out, or exactly the first check that fails |
| Transfer.RejectedIsNoRecord | src/ubin/secure/krp_transfer.py:800-843 | a refused frame is no honest frame of any plaintext |
| Transfer.ReceiveFrames | src/ubin/secure/krp_transfer.py:788-852 | succeeds exactly when the wire starts with frames, as written out, of some plaintext of the missing length, and returns it |
| Transfer.CarriesUnique | src/ubin/secure/resume.py:768-814 | a wire carries at most one plaintext from a checkpoint |
| Transfer.HonestFramesArrive | src/ubin/secure/resume.py:574-621 | what an honest sender sends can only be received as the source behind the checkpoint |
| Transfer.KrpCarriesPlainCiphertext | src/ubin/secure/krp_transfer.py:818-839 | the receiver restores exactly the ciphertext that the plain variant sends |
| Transfer.FinalAccepted | src/ubin/secure/resume.py:854-886 | a final record is accepted exactly when it is the sender's, byte for byte |
| Transfer.FinalShows | src/ubin/secure/resume.py:610-621 | the sender's final record, byte by byte |
| ResumeSafety.AcceptResumeKeeps | src/ubin/secure/resume.py:329-342 | truncation on recovery keeps what every checkpoint counts |
| ResumeSafety.WriteFrameKeeps | src/ubin/secure/resume.py:812-814 | an accepted frame extends the file by the next part of the source and spoils no checkpoint |
| ResumeSafety.SaveCheckpointKeeps | src/ubin/secure/resume.py:816-828 | the new checkpoint counts only bytes that have been synced |
| ResumeSafety.CrashKeeps | src/ubin/secure/resume.py:816-828 | a crash leaves what the checkpoints count, whatever it does to the rest |
| ResumeSafety.StepKeeps | src/ubin/secure/resume.py:679-919 | every step of client, server, disk and environment keeps the invariant |
| ResumeSource.RequestsDescribeSource | src/ubin/secure/resume.py:447-490 | in every run, a request that a client starts with describes the source as it is then: its size, its hash, the configured name and frame size; a resume request also keeps the saved transfer and ticket |
| ResumeSource.ChangedSourceIsSilent | src/ubin/secure/resume.py:455-462 | in every run, a resting client whose source differs from its saved state in size or hash sends no request and seals no frame until that changes |
| ResumeChecks.StatusIsChecked | src/ubin/secure/resume.py:518-572 | the client goes on only with a status of its connection, at a consistent position and, on resuming, with its ticket, which it has saved |
| ResumeChecks.FramesAreSealedInOrder | src/ubin/secure/resume.py:574-608 | frame after frame of the source is sealed, each with its number, connection, header and status |
| ResumeChecks.FinalIsSealedLast | src/ubin/secure/resume.py:610-621 | the final record is sealed after all frames, with the hash in the header |
| ResumeChecks.AcknowledgementIsChecked | src/ubin/secure/resume.py:623-657 | a receipt is taken only for the acknowledgement of the connection, with size, hash and transfer id |
| ResumeChecks.OpensOnlyChecked | src/ubin/secure/resume.py:711-746 | a request is taken up only if it was sent, not answered before, has the right ticket, and its checkpoint and partial file are there and agree |
| ResumeChecks.FrameIsChecked | src/ubin/secure/resume.py:771-814 | a frame is written only if the client sealed it for this connection, header, status and number, with the right length |
| ResumeChecks.FinalIsChecked | src/ubin/secure/resume.py:849-889 | a final record is accepted only after all frames, and only the client's |
| ResumeChecks.AnyCrash | src/ubin/secure/resume.py:816-828 | the step system has every crash that keeps the synced bytes, at every moment |
| ResumeChecks.AnyStop | src/ubin/secure/resume.py:455-462 | it lets either side give up, and the source become anything, at every moment |
| ResumeChecks.AnyTampering | src/ubin/secure/resume.py:329-342 | and a partial file become anything between attempts |
| ResumeDestinations.NothingIsOverwritten | src/ubin/secure/resume.py:711-750 | in every run without overwriting, what is at a destination stays there |
| ResumeTheorems.CheckpointsCountFrames | src/ubin/secure/resume.py:307-319 | in every reachable state a checkpoint belongs to a started transfer and its bytes are those expected for its frame |
| ResumeTheorems.PartialStartsWithSource | src/ubin/secure/resume.py:812-828 | in every reachable state the partial file of a clean transfer starts with the source up to its checkpoint |
| ResumeTheorems.RecoveryLeavesExactlyThat | src/ubin/secure/resume.py:329-342 | after recovery, and before every frame, the partial file is exactly that |
| ResumeTheorems.StepAdvances | src/ubin/secure/resume.py:814-828 | a step leaves a checkpoint, advances it by one frame, or removes it |
| ResumeTheorems.CheckpointsOnlyAdvance | src/ubin/secure/resume.py:814-828 | from any state of a run to any later one a checkpoint never goes back, whatever happens in between, and its bytes grow with its frames |
| ResumeTheorems.DroppedNeverReturns | src/ubin/secure/resume.py:345-357 | a checkpoint that has been dropped never returns |
| ResumeTheorems.OnlyVerifiedContentIsPublished | src/ubin/secure/resume.py:891-909 | in every run, whatever was altered, a destination changes only to content with the header's hash: the source, or a collision |
| ResumeTheorems.ReceiptMeansDelivered | src/ubin/secure/resume.py:623-657 | a receipt means that an earlier step put the source, or a collision, into the destination |
| ResumeTheorems.CleanTransfersAreNotRejected | src/ubin/secure/resume.py:891-906 | a clean transfer never fails the final hash |
| ResumeTheorems.PublishedAtMostOnce | src/ubin/secure/resume.py:908-909 | a clean transfer is published at most once |
| ResumeTheorems.PublishedIsNotResumed | src/ubin/secure/resume.py:291-327 | after publication every resume request for a clean transfer is refused |
| ResumeCompletion.InterruptedTransferCompletes | src/ubin/secure/resume.py:741-919 | in every reachable resting state in which a saved clean transfer has its partial file and a free destination, some run delivers the source and ends with a receipt |
| ResumeCompletion.NewTransferCompletes | src/ubin/secure/resume.py:711-919 | from every reachable resting state any source can be delivered to a free destination |
| ResumeCompletion.LoseAcknowledgement | src/ubin/secure/resume.py:908-919 | after any delivery the connection can break so that nothing but the acknowledgement is lost: files, history and the client's state stay |
| ResumeAcceptance.ResumableIffPartialIsThere | src/ubin/secure/resume.py:291-332 | in every run, the checks on a client's saved clean transfer pass exactly while its partial file is there |
| ResumeAcceptance.AnswerExactly | src/ubin/secure/resume.py:711-750 | and the request as a whole is answered by the first of: no state, which means published; no partial file; destination taken; accepted |
| ResumeAcceptance.WhyResumeFails | src/ubin/secure/resume.py:291-332 | in every run, what stored state can be refused for: gone, which a clean transfer's is only after publication; no partial file; or too short a file, which has been altered |
| ResumeAcceptance.PartialWasLost | src/ubin/secure/resume.py:891-909 | the partial file of a kept clean transfer is missing only because an earlier step published it or was a crash |
| ResumeAcceptance.AcknowledgementCanBeLost | src/ubin/secure/resume.py:908-919 | from every initial state with a free destination a run delivers the source and leaves the client with its state file and no receipt |
| ResumeAcceptance.NoReceiptAfterLoss | src/ubin/secure/resume.py:908-919 | after that no later state has a receipt, and no resume request of the client passes |
| ResumeServer.Store.WriteServerState | src/ubin/secure/resume.py:269-288 | the checkpoint is replaced and nothing else changes |
| ResumeServer.Store.ValidateServerState | src/ubin/secure/resume.py:291-342 | the first failing check, or the stored position with the file cut back to it |
| ResumeServer.Store.DiscardServerState | src/ubin/secure/resume.py:345-357 | partial file and checkpoint go, the destination stays |
| ResumeServer.Store.OpenTransfer | src/ubin/secure/resume.py:711-759 | accepted exactly for a request with the right ticket whose state is there, if the destination is free or may be overwritten; otherwise refused as the checks say; then a status that matches checkpoint and file |
| ResumeServer.AcceptedExactly | src/ubin/secure/resume.py:711-750 | no check fails exactly for such a request |
| ResumeServer.FrameAcceptedExactly | src/ubin/secure/resume.py:771-806 | a frame is accepted exactly with its number, both lengths, and sealed data of that length for this connection, header and status |
| ResumeServer.FinalAcceptedExactly | src/ubin/secure/resume.py:849-889 | a final record is accepted exactly with its magic, its length, and the header's hash sealed for this connection |
| ResumeServer.Store.StoreFrame | src/ubin/secure/resume.py:812-828 | written, synced, counted: three durable steps that append the data |
| ResumeServer.Store.ReceiveFrames | src/ubin/secure/resume.py:768-828 | the frames before the first bad one are stored and counted, and the error is that frame's |
| ResumeServer.Store.FinishTransfer | src/ubin/secure/resume.py:849-919 | published with acknowledgement, discarded on a wrong hash, or left as it is on a bad final record |
| ResumeServer.Store.ServeTransfer | src/ubin/secure/resume.py:679-919 | a whole connection, with the client acting once it is open: refused as the checks say, or else exactly the outcome of what arrives, the content published or the first failing check |
| ResumeServer.Store.Receive | src/ubin/secure/resume.py:768-919 | an open connection publishes what the file held and the frames bring, or fails with the first bad frame, the final record or the hash, and then no destination changes |
| ResumeDelivery.AllAccepted | src/ubin/secure/resume.py:574-828 | the receiver accepts every frame that the sender makes of its source, and they hold the source from the checkpoint on |
| ResumeDelivery.HonestIsAccepted | src/ubin/secure/resume.py:574-908 | once open, a connection of an honest client of a clean transfer has one outcome: the source is published |
| ResumeDelivery.RefusedExactly | src/ubin/secure/resume.py:711-750 | the request of a clean transfer is refused exactly if the destination is taken or the partial file to resume is gone |
| ResumeDelivery.ServeHonestClient | src/ubin/secure/resume.py:518-919 | exactly then the connection fails; otherwise the destination gets the source, the stored state goes, and the client has its receipt |
| ResumeDelivery.DeliverFirst | src/ubin/secure/resume.py:447-919 | from an initial state a first transfer succeeds exactly if its destination is free, and then that is the only destination changed, to the source |
| Png.ReadWrittenChunk | src/ubin/secure/png_codec.py:28-31 | a written chunk is read back exactly when it is within the limit |
| Png.ReadChunkIsWritten | src/ubin/secure/png_codec.py:103-128 | an accepted chunk is byte for byte how it is written |
| Png.RowsFit | src/ubin/secure/png_codec.py:38-47 | the image holds the payload, and only its last row has room to spare |
| Png.EncodeFileToPng | src/ubin/secure/png_codec.py:50-100 | the loops write the image whose chunks are cut from the compressed rows by the flush rule, or fail with the first error |
| Png.CutIsStream | src/ubin/secure/png_codec.py:69-91 | cut by the flush rule, the chunks hold the compressed rows, and none is empty |
| Png.CutBounded | src/ubin/secure/png_codec.py:80-91 | no chunk is longer than a mebibyte by more than the compressor puts out at once |
| Png.DecodePngToFile | src/ubin/secure/png_codec.py:131-233 | the decoder's loops compute decoding as a function, with the first failing check deciding |
| Png.DecodedSize | src/ubin/secure/png_codec.py:202-229 | every accepted file gives width * height * 4 bytes |
| Png.DecodeUndoesEncode | src/ubin/secure/png_codec.py:50-233 | an image decodes to its pixels exactly when no chunk is over the limit, however the stream was cut |
| Png.PayloadSurvives | src/ubin/secure/png_codec.py:50-233 | the payload is the front of what is decoded from an encoded file, whatever the padding, exactly when no chunk got over the limit |
| Png.CompactStreamsSurvive | src/ubin/secure/png_codec.py:50-233 | if the compressor's output for one row leaves room for a mebibyte, every payload of every size is encoded and comes back |
| Png.StoredRowsSurvive | src/ubin/secure/png_codec.py:50-233 | with a storing compressor the payload comes back exactly if a row with its filter byte is within the chunk limit |
| PngForm.EncodedCarries | src/ubin/secure/png_codec.py:50-100 | what is encoded is, byte by byte, a PNG file of the least number of rows that hold the payload: payload and padding in rows behind zero bytes, compressed in order, in chunks that all but the last have a mebibyte |
| PngForm.CarrierDecodes | src/ubin/secure/png_codec.py:131-233 | any such file within the chunk limit decodes to its pixels, wherever its stream was cut |
| PngForm.DimensionsExactly | src/ubin/secure/png_codec.py:38-47 | the least number of rows, or the error, exactly for a width or a payload out of range |
| PngForm.OtherChunks | src/ubin/secure/png_codec.py:195-196 | a chunk of another type is refused if its name starts with a capital letter and skipped if with a small one |
| PngForm.NothingMayFollow | src/ubin/secure/png_codec.py:212-213 | nothing may follow an accepted image |

## Left out

- TLS, sockets, key exchange, key derivation and the internals of AES-GCM, SHA-256, HMAC, CRC-32 and zlib: parameters with the laws named above
- `src/ubin/secure/network.py`: its frame loop is a special case of the container and resume loops
- `src/ubin/secure/image_carrier.py`: composes container, permutation and PNG carrier
- `interop/`: repeats the value protocol in C, C++ and Java
- `src/ubin/core.py`, `src/ubin/_resource.py`, `src/ubin/_pipeline.py`, `src/ubin/hash.py`, providers, SDK, command line, environment, CSV, database, plotting and statistics helpers: wrappers and lookup tables
- `Stack`, `Queue`, `Graph.__contains__`, `Graph.__len__` and the search helpers: they would only add easy members
- File permissions, short raw writes, disk-full errors and directory syncing: writes are whole and renames are durable when they return
- JSON syntax of checkpoint and client state files: they are read as written; only partial files are altered by others
- Path handling: two files are the same or not, without links that resolve differently later; name clashes between partial files and destinations, and files that others put at a destination
- Several clients at once, several connections to one transfer, and the simulated interruption of the server: one client and one connection at a time
- ResumeServer.Store.ReceiveFrames: takes what arrives as sealed records and numbers; bytes on the wire are in Transfer.ReceiveFrames
- Png.EncodeFileToPng: sizes up to 2^53, where the floating-point ceilings of the code are exact; beyond that rounding is not modelled; the payload stays as it is while it is read, so the error of a short read is not modelled
- KrpRefusal.LimitExactly: counts from 65 to 4096 are not covered; there fewer than 128 values outside is shown to suffice, not to be needed
- MergeSort.Merge: needs a strict weak order, so keys that cannot be compared, or NaN, are not modelled
- QuickSort.Quick: the same
- BinarySearchTrees.BinarySearchTree.Insert: the same
- Workflow.Flow.Run: task functions are pure, and the number of worker threads plays no part
