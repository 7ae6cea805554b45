# WHY2: a verified model

A Dafny model of three layers of the WHY2 repository and of the properties they are built for.

**The REX block cipher and its counter mode** (`core/src`). A grid of W x H 64-bit cells, W at least 2 and
H one of 4, 8, 16, is a flat run of `bv64` in row order. `Field` defines the product in GF(2^64) and shows
that `xtime` is multiplication by x modulo x^64 + x^4 + x^3 + x + 1; `Hadamard` and `Mds` define the
diffusion matrices; `Columns`, `Rows`, `Limbs`, `Arx` and `Layers` give every layer its plain definition;
`Lanes` and `Grids` hold the code that runs (a class over an array, the lane-wise xtime chains, the masked
barrel shifter, the carry loop) proved equal to those definitions for every width. `Cipher` composes the
layers for an arbitrary schedule of at least two round keys and shows that the result is a permutation, so
under one key and nonce two counters never share a keystream block; `CipherShape` says column by column and
key by key what it computes. `Branch` proves that the height-4 layer has branch number five over all 2^256
columns. The mode is counter mode in the sense of section 6.5 of NIST SP 800-38A.

**The streams built on it.** `StreamSpec` says what a stream computes and `StreamRuns` follows whole runs of
mixed calls: cutting a message differently changes nothing, and no counter is spent twice. `Streams.RexStream`
is the buffering code. `PacketSpec` and `PacketStreams` add encrypt-then-MAC with a packet counter,
`DiskSpec`, `DiskLayout`, `DiskCuts` and `DiskStore` the picture store, `OneShotSpec`, `OneShot` and `Text`
the one-shot encryption of cells and strings, `AuthSpec`, `Auth` and `SessionPackets` the packets of the chat.

**Three server state machines.** `HistorySpec`, `HistoryLaws`, `HistoryPages`, `HistoryFiles` and `HistoryStore`
are the message history: as values, message by message, as paged walks interleaved with other people's
changes, with the files it names, and as the class that binary-searches its records. `ViewerQueues` and
`ScreenShare` are a viewer's queue and the interleaved tasks of a screen share.
`HandshakeSpec` and `Handshakes` are the handshake budget, in small interleaved steps and as whole calls;
`RateSpec` and `Rates` the packet-rate bucket.

Classes carry the state the code updates in place. Each of their methods is proved against a function of the
old state, and the lemmas in the table are about those functions: what they keep over whole runs, and, one
operation at a time, what they compute in terms that do not use them.

What the code cannot promise is stated as exactly as it can be:

- **Reading a picture back.** The reader cuts the file into full chunks, and the server stores an upload
  however it was cut. A picture reads back exactly when every chunk that holds anything starts, and every cut
  of the reader falls, a whole number of grids past the other's last boundary (`DiskCuts.MirrorsIff`): a
  chunk may stop short of a whole grid only where the reader cuts too, or at the end, and where a full chunk
  is no whole number of grids the reader's cuts have to be chunk starts (`DiskCuts.CutsAreStarts`). "Reads
  back" is meant under every schedule of any given number of round keys (`DiskLayout.ReadsBackIff`), and also
  for any one secret with those that differ from it in the last whitening key only
  (`DiskLayout.ReadsBackNearIff`, `DiskCuts.ReadsBackExactly`). It fails for the two bytes `BM`, which pass
  the picture check, followed by one more (`DiskLayout.BitmapFails`).
- **Files the history names.** Files are removed after the history is unlocked. No named file is ever missing
  exactly when whatever starts to name a file finds it on disk and every removal finds its file unnamed
  (`HistoryFiles.NothingLostIff`). Uploading a dropped file again before its removal breaks it, whether the
  message is stored before the removal (`HistoryFiles.LateRemovalLoses`) or after
  (`HistoryFiles.LateMessageLoses`).
- **Keystream reuse.** A stream keeps its blocks apart for exactly 2^64 of them
  (`StreamRuns.KeystreamDistinctIff`). The block counter wraps there only in builds without overflow checks,
  as optimised builds are by default; with them `update` or `finalize` panics instead.
- **Packet counters.** Under dropping, repeating and reordering the receiver holds a prefix of what was
  sealed exactly as long as fewer than 2^64 packets were (`PacketSpec.ReplayedIsPrefixIff`): after that an
  old packet verifies again. This too is the wrap of a build without overflow checks; with them the counter's
  increment panics.
- **Ids after a restart.** The history continues after its newest kept record. Over any run no id is handed
  out twice exactly when every restart that ids are handed out after finds the highest id ever handed out on
  the newest kept record, or nothing handed out yet (`HistorySpec.RestartFreshIff`,
  `HistorySpec.IdsDifferentIff`). Deleting the newest message before a restart breaks it
  (`HistorySpec.RestartReuses`), and a second restart does not notice (`HistorySpec.SecondRestartReuses`).
- **The rate bucket.** Login copies the configured burst before it is clamped, so the bound on credit holds
  exactly when that value is not negative (`RateSpec.BoundedIff`).

The MAC is a parameter: any function from byte strings to 32-byte tags. A function into 32 bytes cannot be
injective on all strings, so the packet theorems ask only that it does not collide on the inputs of the run
at hand (`PacketSpec.InjectiveOnRun`), or, weaker, that no delivered packet carries a valid tag for an input
that was never authenticated (`PacketSpec.NoForgery`).

## Model

| member | source | states |
|---|---|---|
| `Field.XtimeIsTimesX` | core/src/gf.rs:53-56 | the branchless step is multiplication by x in GF(2^64): shift with a 65th bit of room, subtract the polynomial if it is set |
| `Field.XtimeXor` | core/src/gf.rs:53-56 | xtime is linear over XOR |
| `Field.MulXor` | core/src/gf.rs:47-52 | the field product is linear in its second factor |
| `Field.MulSum` | core/src/gf.rs:47-52 | the field product is linear in its first factor |
| `Field.MulCommute` | core/src/grid.rs:212-219 | all coefficients are polynomials in xtime, so they commute |
| `Field.MulOne` | core/src/gf.rs:47-52 | the coefficient 1 changes nothing |
| `Branch.MulDouble` | core/src/gf.rs:50-52 | a coefficient one power of x higher costs one more xtime step, which with the sum rule fixes the product by any coefficient |
| `Hadamard.ProductIsDot` | core/src/grid.rs:188-192 | the block recursion [[A, B], [B, A]] is the matrix product whose entry (i, k) is m[i xor k], for every power-of-two order |
| `Hadamard.Involution` | core/src/grid.rs:209-219 | a Hadamard matrix of any order whose generating row XORs to one is its own inverse: cross terms cancel in pairs, squares add up to the square of the row sum |
| `Mds.MatrixIsHadamard` | core/src/grid.rs:193-211 | every row of MDS_4, MDS_8 and MDS_16 as written down is the one row 0 generates |
| `Mds.GeneratorSumsToOne` | core/src/grid.rs:220-240 | the generating row of each of the three matrices XORs to one |
| `Mds.SingleSpreads` | core/src/consts/mds.rs:23-107 | the multiples of a single top cell that each of the three matrices puts into the rows |
| `Mds.MixColumnIsProduct` | core/src/consts/mds.rs:23-29 | multiplying a column by the written-down matrix is the Hadamard product with its first row |
| `Mds.MixColumnInvolution` | core/src/grid.rs:973-976 | multiplying a column twice restores it, at heights 4, 8 and 16 |
| `Branch.KernelPrime` | core/src/gf.rs:53-56 | multiplication by x, x+1, x^2+x+1 and x^3+x^2+1 has no kernel |
| `Branch.KernelDeterminant` | core/src/grid.rs:967-971 | nor has any determinant of a 2x2 minor of MDS_4 |
| `Branch.MatrixMinors` | core/src/consts/mds.rs:23-29 | every 2x2 minor of MDS_4 has one of those determinants |
| `Branch.SingleCell` | core/src/grid.rs:967-971 | one nonzero input cell makes all four output cells nonzero |
| `Branch.TwoZeros` | core/src/grid.rs:967-971 | two input cells never cancel in two output cells at once |
| `Branch.BranchNumber` | core/src/grid.rs:967-971 | a nonzero column and its image have at least five nonzero cells between them, for all 2^256 columns |
| `Arx.ComputeCell` | core/src/grid.rs:248-273 | the masked 64-bit loop computes the five ARX rounds between the two tweaks |
| `Arx.CellOnWords` | core/src/grid.rs:248-273 | on the two 32-bit words a cell is five rounds of wrapping 32-bit arithmetic, the tweak on the low word before and the high word after: bits shifted above a word and the unmasked sum do not show |
| `Arx.RoundsUndone` | core/src/grid.rs:261-267 | any number of ARX rounds is undone, in both directions, by running them backwards |
| `Arx.CellInverse` | core/src/grid.rs:248-273 | the cell transform is a bijection for every round tweak, with the inverse given |
| `Rows.Stage` | core/src/grid.rs:915-936 | one masked stage equals rotating by the stride when the bit is set and nothing otherwise |
| `Rows.BarrelRotate` | core/src/grid.rs:899-941 | for every width, power of two or not, and every shift below it, the masked barrel shifter equals rotate_left |
| `Rows.ShiftAmountInRange` | core/src/grid.rs:853-862 | the high half of fold times width lies below the width, which is what the shifter needs |
| `Rows.ShiftAmountIsFloor` | core/src/grid.rs:857-859 | the amount is the fold times the width over 2^64, rounded down |
| `Rows.FoldChange` | core/src/grid.rs:857 | changing one cell of a row changes the fold by just the difference |
| `Rows.FoldZeros` | core/src/grid.rs:857 | a row of zeros folds to zero |
| `Rows.ShiftRowsAt` | core/src/grid.rs:891-949 | cell c of row r comes from its shift further on, around the row |
| `Rows.ShiftRowsUndone` | core/src/grid.rs:891-949 | rotating every row by the complement of its amount undoes the layer, in either order |
| `Limbs.IncrementAdds` | core/src/grid.rs:1064-1079 | increment adds to the little-endian integer modulo 2^(64 n), and no other grid has that value |
| `Limbs.IncrementTwice` | core/src/grid.rs:1064-1079 | incrementing by a and then by b is incrementing by a + b |
| `Limbs.IncrementInjective` | core/src/grid.rs:1086-1112 | two different u64 amounts give different grids, even where the grid wraps |
| `Limbs.ValueSplit` | core/src/grid.rs:1075-1079 | little-endian: the cells before a run weigh it by a power of 2^64 |
| `Limbs.ValueOne` | core/src/grid.rs:1075-1079 | one cell is worth its unsigned value |
| `Limbs.IncrementFullScan` | core/src/grid.rs:1094-1110 | the constant-time carry loop over the array computes that sum |
| `Limbs.IncrementEarlyExit` | core/src/grid.rs:1094-1105 | so does the variant that stops at the first limb without a carry |
| `Columns.ColumnOfMixed` | core/src/grid.rs:960-965 | every column of the mixed grid is the matrix times that column |
| `Columns.MixColumnsInvolution` | core/src/grid.rs:973-976 | mixing a whole grid twice restores it |
| `Lanes.MixTerms` | core/src/grid.rs:291-306 | one input row's xtime chain adds exactly its matrix terms to every output lane |
| `Lanes.MixHadamard` | core/src/grid.rs:308-353 | the chains of all input rows give every output lane its whole matrix row, with no field product |
| `Lanes.DotLaneAt` | core/src/grid.rs:276-289 | a lane computes each of its four columns independently |
| `Layers.SubcellsUndone` | core/src/grid.rs:773-816 | the cell layer over a grid is a bijection |
| `Layers.ShiftsAt` | core/src/grid.rs:848-863 | row r of a round key gives the amount of row r |
| `Grids.Grid.constructor` | core/src/grid.rs:407-416 | a new grid is all zero |
| `Grids.Grid.FromFlat` | core/src/grid.rs:551-559 | row by row, surplus cells ignored, missing ones zero |
| `Grids.Grid.XorGrids` | core/src/grid.rs:615-652 | every cell is XORed with the key's and nothing else changes |
| `Grids.Grid.Subcell` | core/src/grid.rs:773-816 | every cell goes through the ARX transform with the round tweak |
| `Grids.Grid.PrecalculateShifts` | core/src/grid.rs:848-863 | one amount per row: the floor of fold times width over 2^64 |
| `Grids.Grid.RotateRow` | core/src/grid.rs:893-947 | one row rotated left in place, the rest untouched |
| `Grids.Grid.ShiftRows` | core/src/grid.rs:891-949 | every row rotated left by its own amount |
| `Grids.Grid.Gather` | core/src/grid.rs:1035-1040 | a lane holds the columns from col on; what lies past the width is zero |
| `Grids.Grid.Scatter` | core/src/grid.rs:1052-1056 | exactly the lane's columns are overwritten |
| `Grids.Grid.MixColumns` | core/src/grid.rs:1028-1060 | for every width, the lane-wise xtime code equals the matrix product on every column, tail lane included |
| `Grids.Grid.Increment` | core/src/grid.rs:1086-1112 | the grid plus the amount modulo 2^(64 W H) |
| `Cipher.RoundUndone` | core/src/crypto.rs:347-354 | one round is undone by its layers' inverses in reverse, in both directions |
| `CipherShape.RoundColumn` | core/src/crypto.rs:347-354 | every column of a round's result is the matrix times the cells its shifts gather, each with the key added and transformed under the round number |
| `CipherShape.EncipherTwoKeys` | core/src/crypto.rs:249-254 | a schedule of the two whitening keys alone adds both |
| `CipherShape.EncipherOneMoreKey` | core/src/crypto.rs:322-332 | one more key undoes the last whitening, drives one more round with the key that whitened, and whitens with the new one |
| `CipherShape.KeystreamInput` | core/src/crypto.rs:338-342 | the keystream of a counter is the image of the nonce with the counter added as one large number |
| `CipherShape.CtrCell` | core/src/crypto.rs:283-316 | cell p of grid i is xored with cell p of the keystream under offset + i |
| `Cipher.EncipherIsBijection` | core/src/crypto.rs:329-362 | for every schedule of at least two keys the block cipher has a two-sided inverse |
| `Cipher.KeystreamInjective` | core/src/crypto.rs:329-362 | under one schedule and nonce, two different u64 counters never give the same keystream block |
| `Cipher.KeystreamShift` | core/src/crypto.rs:239 | a nonce advanced by a is a counter advanced by a |
| `Cipher.KeystreamEqualIff` | core/src/crypto.rs:258-260 | two nonces give the same keystream block exactly when the sums of nonce and counter agree modulo 2^(64 W H) |
| `Cipher.RangesDisjointIff` | core/src/crypto.rs:258-260 | two ranges of counters under one schedule give no common keystream block exactly when neither reaches the other's nonce, so distinct nonces are not enough |
| `Cipher.MessagesDisjointIff` | core/src/crypto.rs:283-316 | two messages of any length share no keystream block exactly when the counters they use, all 2^64 of them once the index wraps, do not |
| `Cipher.CtrTwice` | core/src/crypto.rs:283-316 | applying the mode twice restores the grids |
| `CtrMode.DeriveRoundShifts` | core/src/crypto.rs:211-218 | one row of amounts per key between the whitening keys, all below the width |
| `CtrMode.RunRound` | core/src/crypto.rs:350-353 | the four in-place calls compute one round |
| `CtrMode.KeystreamBlock` | core/src/crypto.rs:329-362 | the grid is XORed with the keystream of the counter |
| `CtrMode.ApplyCtrWithShifts` | core/src/crypto.rs:283-316 | grid i is combined with counter offset + i, wrapping at 2^64; no other grid, key or nonce changes |
| `StreamSpec.CtrSplit` | core/src/stream.rs:188-207 | whole blocks can be cut off the front of a message, the counter advancing by their number |
| `StreamSpec.CtrTwice` | core/src/stream.rs:221-250 | counter mode over cells, short tail included, undoes itself |
| `StreamSpec.CtrWraps` | core/src/stream.rs:179 | only the counter modulo 2^64 matters |
| `StreamSpec.CtrAt` | core/src/stream.rs:157-250 | counter mode cell by cell: cell i is xored with cell i mod WH of the keystream block start + i / WH |
| `StreamSpec.KeyCellIs` | core/src/stream.rs:188-199 | cell j of block q of the keystream is its cell q * WH + j |
| `StreamRuns.FeedResult` | core/src/stream.rs:157-250 | from any state, feeding chunks and finalizing gives counter mode over buffer and chunks, and spends exactly the blocks they fill |
| `StreamRuns.ChunkingInvisible` | core/src/stream.rs:157-250 | however a message is cut into updates, the output is one-shot counter mode over the whole of it |
| `StreamRuns.StreamAt` | core/src/stream.rs:157-250 | every cell a fresh stream puts out is the message's, xored with its cell of the keystream, however the message was cut |
| `StreamRuns.MirrorRestores` | core/src/stream.rs:157-250 | running the output through the other end, cut in any other way, returns the message and leaves both ends in the same state |
| `StreamRuns.RunSafe` | core/src/stream.rs:157-250 | over any run of mixed calls the buffer stays shorter than a grid, and the i-th block used counter start + i |
| `StreamRuns.NoCounterReuse` | core/src/stream.rs:157-250 | up to 2^64 blocks, no two blocks of a run share their counter or their keystream |
| `StreamRuns.KeystreamDistinctIff` | core/src/stream.rs:157-250 | and exactly up to 2^64 blocks: beyond that two blocks share their keystream |
| `Streams.RexStream.constructor` | core/src/stream.rs:114-132 | a new stream has an empty buffer and counter zero |
| `Streams.RexStream.Shape` | core/src/stream.rs:194-196 | the data in consecutive grids, each in its own memory |
| `Streams.RexStream.Leftovers` | core/src/stream.rs:162-186 | topping up the buffer, and combining it once full, leaves the same update still to do |
| `Streams.RexStream.WholeGrids` | core/src/stream.rs:188-207 | with an empty buffer, all whole grids are combined and less than one remains |
| `Streams.RexStream.Update` | core/src/stream.rs:157-213 | the code takes the step of the specification: output, counter and buffer |
| `Streams.RexStream.Finalize` | core/src/stream.rs:221-250 | the buffer is combined with a truncated block, the counter advances, the buffer is empty |
| `Bytes.U64OfCell` | core/src/grid.rs:1095-1098 | a cell holds a number modulo 2^64 |
| `Bytes.CellOfU64` | core/src/grid.rs:1095-1098 | and is determined by it |
| `Bytes.U64Sum` | core/src/grid.rs:1095-1098 | the numbers the limbs are worth are those wrapping 64-bit addition adds |
| `Bytes.CellsOfBytes` | chat/src/crypto/mod.rs:286-300 | packing and unpacking bytes only adds the zero padding of the last cell |
| `Bytes.CellSpells` | chat/src/crypto/mod.rs:286-295 | each cell spells its eight bytes, the first most significant, zeros past the end |
| `Bytes.XorPacked` | chat/src/crypto/mod.rs:155-167 | encrypting packed cells and truncating is encrypting the bytes |
| `PacketSpec.MacInputInjective` | chat/src/crypto/mod.rs:131-140 | counter, length and ciphertext are all determined by what the MAC is fed |
| `PacketSpec.MacInputSpells` | chat/src/crypto/mod.rs:135-137 | eight bytes spell the counter, eight the length, the rest is the ciphertext |
| `PacketSpec.StreamByteAt` | chat/src/crypto/mod.rs:155-167 | every byte of a packet is xored with its byte of the keystream |
| `PacketSpec.SealedIs` | chat/src/crypto/mod.rs:169-179 | a frame is 32 bytes of tag over counter, length and ciphertext, then ciphertext of the plaintext's length |
| `PacketSpec.OpenIff` | chat/src/crypto/mod.rs:193-219 | accepted exactly with 32 bytes that are the tag over the rest at the current counter |
| `PacketSpec.StreamBytesTwice` | chat/src/crypto/mod.rs:202-215 | the byte stream undoes itself for packets of any length |
| `PacketSpec.OpenSealed` | chat/src/crypto/mod.rs:153-219 | opening a packet in the state it was sealed in returns the plaintext and advances like the sender |
| `PacketSpec.InOrder` | chat/src/crypto/mod.rs:153-219 | in-order delivery accepts everything and ends in the sender's state |
| `PacketSpec.AcceptedFrom` | chat/src/crypto/mod.rs:193-219 | after any deliveries the accepted plaintexts are a prefix, and the receiver's state is the sender's after that prefix |
| `PacketSpec.AcceptedIsPrefix` | chat/src/crypto/mod.rs:182-192 | whatever arrives, without forgeries the accepted plaintexts are a prefix of those sealed |
| `PacketSpec.ReplayIsNoForgery` | chat/src/crypto/mod.rs:182-192 | a channel that only drops, repeats and reorders forges nothing if the MAC does not collide on the run |
| `PacketSpec.ReplayedIsPrefix` | chat/src/crypto/mod.rs:131-219 | so under dropping, repeating and reordering the receiver holds a prefix, byte for byte |
| `PacketSpec.ReplayedIsPrefixIff` | chat/src/crypto/mod.rs:131-219 | and always so exactly when fewer than 2^64 packets were sealed: replaying the packet sent 2^64 packets ago is accepted |
| `PacketSpec.AcceptedIsPrefixIff` | chat/src/crypto/mod.rs:182-192 | the same bound for every channel that forges nothing |
| `PacketStreams.Through` | chat/src/crypto/mod.rs:155-167 | update, finalize, unpack, truncate is the byte stream, and leaves an empty buffer |
| `PacketStreams.RexPacketStream.Tagged` | chat/src/crypto/mod.rs:131-140 | the tag over counter, length and ciphertext |
| `PacketStreams.RexPacketStream.Seal` | chat/src/crypto/mod.rs:153-180 | tag then ciphertext, and the state after one more packet |
| `PacketStreams.RexPacketStream.Open` | chat/src/crypto/mod.rs:193-219 | accepts exactly a valid tag at the current counter; a rejected packet changes neither stream nor counter |
| `DiskSpec.DiskOpenSealed` | chat/src/crypto/mod.rs:511-551 | the tag fed chunk by chunk verifies over the whole file and gives the ciphertext back |
| `DiskSpec.DiskOpenIff` | chat/src/crypto/mod.rs:538-551 | a file opens exactly when its last 32 bytes are the tag over the ones before and their number |
| `DiskSpec.SealedFileIs` | chat/src/network/file/server.rs:487-495 | a stored file is as long as what was taken plus 32 bytes of tag over that and its length |
| `DiskSpec.ReadBackIff` | chat/src/network/file/server.rs:766-803 | however an upload was cut the stored file verifies, and under a given key it reads back byte for byte exactly when the reader's cut meets the same keystream |
| `DiskLayout.KeyedIs` | chat/src/network/file/server.rs:419-437 | each stored byte is combined with the keystream byte its place in the chunk sizes determines, every chunk starting a block of its own |
| `DiskLayout.TellApart` | chat/src/network/file/server.rs:419-437 | whatever the secret, flipping at most one bit of its last key makes the keystream differ at two different positions |
| `DiskLayout.ReadsBackNearIff` | chat/src/network/file/server.rs:788-800 | for any secret: a picture reads back under all that share everything but the last key with it exactly when its chunk sizes put each byte where the reader's full chunks do |
| `DiskLayout.ReadsBackIff` | chat/src/network/file/server.rs:788-800 | the same for all schedules of any given number of round keys |
| `DiskLayout.ShortFirstChunkFails` | chat/src/network/file/server.rs:419-437 | any first chunk that is neither full nor a whole number of grids, with something after it, fails under a key next to any given one |
| `DiskLayout.BitmapFails` | chat/src/misc.rs:230-252 | so do two bytes that pass the picture check and one more |
| `DiskCuts.MirrorsIff` | chat/src/network/file/server.rs:788-800 | chunk sizes put each byte where the reader does exactly when every chunk starts, and every cut of the reader falls, a whole number of grids past the other's last boundary |
| `DiskCuts.CutsAreStarts` | chat/src/network/file/server.rs:788-791 | where a full chunk is no whole number of grids, that means the reader's cuts are chunk starts |
| `DiskCuts.ReadsBackExactly` | chat/src/network/file/server.rs:766-803 | for any secret: a picture reads back under all that share everything but the last key with it exactly when its chunk sizes pass those two checks |
| `DiskSpec.CanonicalReadsBack` | chat/src/network/file/server.rs:757-761 | chunks that are all full except the last read back byte for byte, although no full chunk ends where a grid does |
| `DiskStore.Upload.Chunk` | chat/src/network/file/server.rs:375-443 | the first chunk received has to look like what was announced, a chunk that is too long is dropped, any other is taken |
| `DiskStore.Upload.Take` | chat/src/network/file/server.rs:426-505 | what a chunk does in every case: past the announced size, running, or complete, then with the file sealed |
| `DiskStore.Upload.Complete` | chat/src/network/file/server.rs:477-524 | the file ends in the tag over everything written, and the file is handed on exactly when its digest matches and a clip can be parsed |
| `DiskStore.ReadImageFile` | chat/src/network/file/server.rs:766-803 | the chunked reader computes the picture a verified file holds, or nothing |
| `OneShotSpec.PadChunksFlat` | core/src/encrypter.rs:88 | cutting into grids only adds the zeros of the last one |
| `OneShotSpec.DecryptEncrypt` | core/src/decrypter.rs:69-91 | decrypting what encrypt put out returns the input, zero-padded to whole grids |
| `OneShotSpec.EncryptIsCtr` | core/src/encrypter.rs:75-109 | the ciphertext is counter mode from block zero over the padded input |
| `OneShotSpec.DecryptIsCtr` | core/src/decrypter.rs:69-91 | decrypting is counter mode from block zero over the grids' cells |
| `OneShotSpec.EncryptIsStream` | core/src/encrypter.rs:100 | the input's own cells come out as a fresh stream puts them out |
| `OneShotSpec.EncryptAt` | core/src/encrypter.rs:100 | every one of them is xored with its cell of the keystream |
| `OneShot.Shape` | core/src/encrypter.rs:88 | the input in grids of their own memory, the last one padded |
| `OneShot.Encrypt` | core/src/encrypter.rs:75-109 | the code's grids are those of the specification |
| `OneShot.Decrypt` | core/src/decrypter.rs:69-91 | so are the cells it decrypts in place and flattens |
| `Text.ReadString` | core/src/decrypter.rs:104-136 | the nested loop with its early exit reads units up to the terminator, or fails on a unit that is no scalar value and on a missing terminator |
| `Text.ReadIff` | core/src/decrypter.rs:93-101 | a string is read exactly when its code points and the terminator open the units, whatever follows |
| `Text.UnpackPacked` | core/src/encrypter.rs:136-139 | the units come back from the packed cells, first unit in the high half |
| `Text.StringCellIs` | core/src/encrypter.rs:126-139 | cell by cell: code points, terminator and parity zero, two units to a cell with the first in the high half |
| `Text.EncryptStringAt` | core/src/encrypter.rs:124-143 | encrypt_string xors each of these cells with its cell of the keystream |
| `Text.ReadErrors` | core/src/decrypter.rs:125-133 | every refusal is InvalidUnicode |
| `Text.StringRoundTrip` | core/src/encrypter.rs:111-118 | every string survives, empty, with embedded or with trailing NULs, under any zero padding |
| `Text.DecryptEncryptString` | core/src/encrypter.rs:124-143 | decrypt_string of encrypt_string returns the string |
| `AuthSpec.SerializedLength` | core/src/auth.rs:193-226 | a packet takes 32 + (1 + n) * 8WH bytes |
| `AuthSpec.ParseSerialized` | core/src/auth.rs:228-261 | parsing inverts serialization |
| `AuthSpec.ParseIff` | core/src/auth.rs:232-260 | parsing succeeds exactly on lengths 32 + k * 8WH with k at least one, and serializing the result gives the bytes back |
| `AuthSpec.ParseErrors` | core/src/auth.rs:237-247 | a packet is refused with the grid size and its length, or its length after the tag when only that is no whole number of grids |
| `AuthSpec.SerializedAt` | core/src/auth.rs:195-225 | where every byte is: tag, then nonce and ciphertext grid by grid, cell by cell, most significant byte first |
| `Auth.FeedGrid` | core/src/auth.rs:270-276 | the nested loops feed a grid as its big-endian bytes in row order |
| `Auth.FeedAll` | core/src/auth.rs:264-291 | nonce and ciphertext grids in one run of bytes |
| `Auth.SerializePacket` | core/src/auth.rs:195-225 | tag, nonce, ciphertext |
| `SessionPackets.PacketRoundTrip` | chat/src/crypto/mod.rs:328-385 | decrypting an encrypted packet returns it zero-padded to whole grids and to no more than needed, whether or not the key is stretched |
| `SessionPackets.EncryptPacketIs` | chat/src/crypto/mod.rs:328-350 | what goes out: a tag over the rest under the MAC key, the nonce, and ciphertext that starts with the packet as a fresh stream encrypts it under the session key, stretched if it has the wrong size |
| `SessionPackets.DecryptAcceptsIff` | chat/src/crypto/mod.rs:363-385 | accepted exactly when it parses, the MAC key has 32 bytes and the tag is the one over everything after it |
| `HistorySpec.Position` | chat/src/config/messages.rs:190-193 | everything before the position is older, the record there is not |
| `HistorySpec.Find` | chat/src/config/messages.rs:196-200 | the record found has the id; none is found only if none has it |
| `HistorySpec.ToggledDistinct` | chat/src/config/messages.rs:435-450 | toggling flips one name's membership and never makes a duplicate |
| `HistorySpec.ToggledTwice` | chat/src/config/messages.rs:435-450 | toggling twice restores who hearted a message |
| `HistorySpec.PushBounds` | chat/src/config/messages.rs:370-376 | with a nonzero limit a push keeps exactly the newest records up to it, the new one last |
| `HistoryLaws.PushLaw` | chat/src/config/messages.rs:347-384 | a push uses up the next id; with a limit it adds the message at the end and drops the oldest over the limit, without one it keeps nothing |
| `HistoryLaws.EditLaw` | chat/src/config/messages.rs:458-473 | the author's own text message with that id gets the new text and the mark; every other message stays as and where it was |
| `HistoryLaws.HeartLaw` | chat/src/config/messages.rs:435-450 | that message's heart of that name goes, the others in order, or comes last; nothing else changes |
| `HistoryLaws.PinLaw` | chat/src/config/messages.rs:480-496 | that message's pin flips unless it would be set with the pins full; nothing else changes |
| `HistoryLaws.DeleteLaw` | chat/src/config/messages.rs:414-429 | exactly the message with that id goes, the others stay in order |
| `HistoryLaws.OthersLaw` | chat/src/config/messages.rs:173-187 | handing out an id and restarting keep the records |
| `HistorySpec.ApplyKeeps` | chat/src/config/messages.rs:347-498 | every operation keeps ids increasing and below next, hearts distinct and pins within their limit |
| `HistorySpec.ReachableInv` | chat/src/config/messages.rs:173-498 | so does every run, restarts included |
| `HistorySpec.ReachableBounded` | chat/src/config/messages.rs:370-376 | over any run the history never holds more records than its limit |
| `HistorySpec.RunCovered` | chat/src/config/messages.rs:173-187 | over any run every id below the highest one was handed out, and neither next nor a kept record is past it |
| `HistorySpec.RestartFreshIff` | chat/src/config/messages.rs:173-179 | at any point of a run a restart continues past every id ever handed out exactly when none was or the newest kept record has the highest |
| `HistorySpec.IssuedDifferentIff` | chat/src/config/messages.rs:182-187 | over any run no id is handed out twice exactly when each is handed out at the high-water mark |
| `HistorySpec.IdsDifferentIff` | chat/src/config/messages.rs:173-187 | and exactly when every restart that an id is handed out after continues past all earlier ids |
| `HistorySpec.RestartReuses` | chat/src/config/messages.rs:173-179 | storing a message, deleting it and restarting hands its id out again |
| `HistorySpec.SecondRestartReuses` | chat/src/config/messages.rs:173-179 | after two restarts an id is handed out twice although the newest kept id was just below next |
| `HistoryFiles.FilesSafe` | chat/src/config/messages.rs:215-224 | what a trim or delete puts up for removal is exactly what only the dropped records named: nothing a record, avatar or icon still names |
| `HistoryFiles.DiskKeeps` | chat/src/config/messages.rs:372-384 | at the moment of the change nothing that is named is put up for removal |
| `HistoryFiles.StepNames` | chat/src/config/messages.rs:372-384 | every file an operation starts from or adds is named by what it keeps or by what it drops |
| `HistoryFiles.OrphanList` | chat/src/config/messages.rs:217-224 | the filtered list holds exactly the files nothing else names |
| `HistoryFiles.DroppedFile` | chat/src/config/messages.rs:164-167 | a dropped message puts up its picture if it has one, otherwise its clip |
| `HistoryFiles.DueLaw` | chat/src/config/messages.rs:529-557 | how many removals of a file each event adds or takes |
| `HistoryFiles.StepKeepsIff` | chat/src/config/messages.rs:379-392 | one event keeps every named file on disk exactly when what starts to name a file finds it there and a removal finds its file unnamed |
| `HistoryFiles.NothingLostIff` | chat/src/config/messages.rs:347-429 | over any interleaving of changes, uploads, sweeps and removals that come after the unlock, no named file is ever missing exactly when every event was of that kind |
| `HistoryFiles.DroppedIsDue` | chat/src/config/messages.rs:372-384 | over any interleaving a file that records named and none names any more is gone or still due for removal |
| `HistoryFiles.DiskHolds` | chat/src/config/messages.rs:215-224 | once nothing is due for a file and nothing named was lost, it is on disk exactly when it was uploaded and is named, or was neither named nor removed since |
| `HistoryFiles.LateRemovalLoses` | chat/src/config/messages.rs:424-426 | delete, upload again, store, then the delete's removal: a message names a missing file |
| `HistoryFiles.LateMessageLoses` | chat/src/network/file/server.rs:544-622 | delete, upload again, the delete's removal, then store: the message stored names a missing file |
| `HistoryPages.PageFromFits` | chat/src/config/messages.rs:578-587 | walking back keeps the page within count, and within the budget once it holds two |
| `HistoryLaws.SizeIsShown` | chat/src/config/messages.rs:583 | the size counted for a message is the length of author, text and hearts together |
| `HistoryPages.PageHolds` | chat/src/config/messages.rs:567-595 | a page is the newest records before the cursor, oldest first, as many as count and budget allow, and at least one if any is left |
| `HistoryPages.RequestCovers` | chat/src/config/messages.rs:589-591 | every record before the cursor is on the page or before the page's start |
| `HistoryPages.WalkReaches` | chat/src/network/server/mod.rs:238-259 | what every interleaving of requests with stores, trims, deletes, hearts, edits and pins keeps |
| `HistoryPages.WalkNeverRepeats` | chat/src/config/messages.rs:559-595 | a walk never returns a message twice, nor one stored after it began |
| `HistoryPages.WalkCollectsAll` | chat/src/config/messages.rs:559-595 | once there is no more, every message kept throughout has been returned exactly once |
| `HistoryPages.WalkTerminates` | chat/src/config/messages.rs:565-566 | a walk is over after one request more than there were messages when it began |
| `HistoryStore.FindIs` | chat/src/config/messages.rs:196-200 | checking the record at the position is a linear search by id |
| `HistoryStore.Messages.constructor` | chat/src/config/messages.rs:173-179 | loading continues the id sequence |
| `HistoryStore.Messages.TakeId` | chat/src/config/messages.rs:182-187 | the id handed out is the old next |
| `HistoryStore.Messages.FindPosition` | chat/src/config/messages.rs:190-193 | the binary search finds the position a linear one does |
| `HistoryStore.Messages.FindRecord` | chat/src/config/messages.rs:196-200 | and the record |
| `HistoryStore.Messages.Store` | chat/src/config/messages.rs:347-384 | id, trimmed records and files to delete are those of the specification |
| `HistoryStore.Messages.Remove` | chat/src/config/messages.rs:414-429 | true exactly if the message was kept; records and files to delete as specified |
| `HistoryStore.Messages.HeartsAfter` | chat/src/config/messages.rs:442-446 | the position scan and removal toggle one name |
| `HistoryStore.Messages.ToggleHeart` | chat/src/config/messages.rs:435-452 | the new set of names, or none if the message is not kept |
| `HistoryStore.Messages.Reword` | chat/src/config/messages.rs:458-473 | true exactly for the author's own text message; anything else is left alone |
| `HistoryStore.Messages.TogglePin` | chat/src/config/messages.rs:480-498 | the new state, or none exactly when the message is not kept or the pins are full |
| `HistoryStore.Messages.WalkBack` | chat/src/config/messages.rs:575-587 | the loop with its running size stops where the page begins |
| `HistoryStore.Messages.ReadPage` | chat/src/config/messages.rs:567-595 | the code computes the page |
| `ViewerQueues.ViewerQueue.PushVideo` | chat/src/network/screen/server.rs:304-334 | a keyframe replaces the queue; a full queue sheds a delta, keeping only a keyframe already on its way; the bound holds |
| `ViewerQueues.ViewerQueue.PushAudio` | chat/src/network/screen/server.rs:337-347 | the oldest packet makes room for the newest; the bound holds |
| `ViewerQueues.ViewerQueue.Next` | chat/src/network/screen/server.rs:350-358 | audio first, then video, each in order |
| `ScreenShare.ForwardedOk` | chat/src/network/screen/server.rs:864-888 | forwarding a frame leaves a viewer playable, and either caught up or waiting for a keyframe |
| `ScreenShare.OpenedOk` | chat/src/network/screen/server.rs:666-670 | opening on the share's last keyframe keeps a viewer playable |
| `ScreenShare.StepKeepsSafe` | chat/src/network/screen/server.rs:650-894 | every step of attach, relay or writer keeps every viewer playable and within its bounds |
| `ScreenShare.RunSafe` | chat/src/network/screen/server.rs:650-894 | so does every interleaving |
| `ScreenShare.SentIsPlayable` | chat/src/network/screen/server.rs:864-894 | what any viewer was sent starts with a keyframe, keeps the relay's order without repeating a frame, and each delta comes directly after the frame forwarded just before it; queues keep their bounds |
| `ScreenShare.KeyframeRecovers` | chat/src/network/screen/server.rs:870-876 | the next keyframe reaches every serving viewer alone in its queue and ends its wait |
| `ScreenShare.ShedIff` | chat/src/network/screen/server.rs:864-888 | of all steps, only a delta that meets a full queue makes a caught-up viewer fall behind, or its leaving |
| `ScreenShare.TurnLaw` | chat/src/network/screen/server.rs:864-888 | what a turn does to the frames queued and sent in every case: keyframe, waiting, room, full with and without a keyframe queued |
| `ScreenShare.KeyframeKept` | chat/src/network/screen/server.rs:304-334 | over any run a keyframe a viewer had its turn for stays sent or queued until its turn for the next, whatever is shed |
| `ScreenShare.CaughtUpUntilShed` | chat/src/network/screen/server.rs:864-888 | over any run a viewer whose turn came for a keyframe is level with the relay until a delta meets its full queue |
| `ScreenShare.WaitsUntilKeyframe` | chat/src/network/screen/server.rs:870-876 | and one that shed gets nothing more queued until its turn comes for a keyframe |
| `ScreenShare.CachedIsLatest` | chat/src/network/screen/server.rs:889-893 | in every reachable state the cached keyframe is the last one among the frames the relay is done with |
| `ScreenShare.OpensOnLatest` | chat/src/network/screen/server.rs:666-670 | a viewer opens on that keyframe as its attach found it, or on nothing |
| `ScreenShare.EveryViewerGetsATurn` | chat/src/network/screen/server.rs:805-893 | every viewer that serves or waits when a frame is taken up gets its turn before the relay is done with it |
| `ScreenShare.AudioIsLatest` | chat/src/network/screen/server.rs:337-347 | the audio queue holds the latest eight packets at most, in order |
| `ScreenShare.AudioTurnLaw` | chat/src/network/screen/server.rs:896-907 | an audio packet goes to the end of a serving viewer's queue and touches nothing else |
| `ScreenShare.PopLaw` | chat/src/network/screen/server.rs:350-358 | the writer takes the oldest audio packet, the oldest frame only after it found no audio, and sends what it takes |
| `ScreenShare.AdoptedNext` | chat/src/network/screen/server.rs:805-812 | a viewer left by its attach serves from the next packet the relay takes up, unless it went away |
| `HandshakeSpec.AddressKeeps` | chat/src/network/server/handshake.rs:94-136 | every step keeps an address's count equal to the slots held and under way, within its limit, and at zero only while it is about to be removed |
| `HandshakeSpec.StepKeeps` | chat/src/network/server/handshake.rs:94-136 | every step keeps the whole budget consistent |
| `HandshakeSpec.RunInv` | chat/src/bin/server.rs:242-265 | so does every interleaving of one accept loop with any number of drops |
| `HandshakeSpec.BudgetHolds` | chat/src/network/server/handshake.rs:22-29 | the global count stays between zero and the budget and never exceeds the sum of the per-address counts, none of which passes eight |
| `HandshakeSpec.NoUnderflow` | chat/src/network/server/handshake.rs:124-132 | no decrement starts from zero, so the saturation never happens |
| `HandshakeSpec.NothingLeft` | chat/src/network/server/handshake.rs:128-135 | once nothing is held or under way, both counters are empty |
| `Handshakes.Budget.Reserve` | chat/src/network/server/handshake.rs:94-118 | a slot is granted exactly when both budgets have room, and the call is the three small steps in a row |
| `Handshakes.Budget.Drop` | chat/src/network/server/handshake.rs:121-137 | the slot returns to both budgets and an address without slots disappears, in the small steps' way |
| `RateSpec.WaitRefills` | chat/src/network/server/connection.rs:505-510 | serving the wait of an overdrawn packet brings its credit back to zero, no more and no less |
| `RateSpec.WaitsAreBounded` | chat/src/network/server/connection.rs:519-541 | with waits served, credit never falls below minus one and no wait exceeds 1/r |
| `RateSpec.BoundedIff` | chat/src/network/server/mod.rs:643-645 | that bound holds for every schedule of packets exactly when the configured burst is not negative |
| `RateSpec.CreditPays` | chat/src/network/server/connection.rs:527-529 | credit never exceeds burst plus refill minus the packets paid for |
| `RateSpec.CreditAtMost` | chat/src/network/server/connection.rs:527-529 | the credit is at most what a bucket full at any earlier packet, or at login, would have left |
| `RateSpec.CreditAttains` | chat/src/network/server/connection.rs:527-529 | and equal to one of these, so the cap takes nothing more |
| `RateSpec.WaitsIff` | chat/src/network/server/connection.rs:519-541 | a packet waits exactly when from some packet on more have come than burst + r t could pay for |
| `RateSpec.BurstIsFree` | chat/src/network/server/mod.rs:643-645 | the first packets after login, as many as the burst, never wait |
| `RateSpec.EarnedIs` | chat/src/network/server/connection.rs:528 | a bucket earns rate times time |
| `RateSpec.HandledBounded` | chat/src/network/mod.rs:598-652 | at most b + r t packets are handled by time t after login |
| `RateSpec.ThrottlesCount` | chat/src/network/server/connection.rs:531-538 | throttles is the length of the latest run of packets with a wait |
| `Rates.Connection.TakeCredit` | chat/src/network/server/connection.rs:519-541 | an authenticated connection pays as specified, another is never charged |

## Left out

- SHA-256, HMAC, HKDF, ChaCha20, key generation and the derivation of round keys and key grids: parameters or arbitrary values; the schedule is any sequence of at least two grids, the MAC any function.
- AVX2 code, `wide` vectors and the rayon pool: the scalar meaning of each; blocks of the mode are independent and are run in order.
- The branch numbers of the height-8 and height-16 matrices: too many minors to enumerate in a proof; their involution and refinement are proved.
- The builds without the constant-time feature: their `rotate_left` is the specification of `Rows.BarrelRotate`; their early-exit carry loop is `Limbs.IncrementEarlyExit`.
- Constant-time behaviour and zeroization: not functional properties.
- `wincode` encoding, TOML, the history file and its older formats: the history is what was loaded, files are a set of hashes.
- HistoryFiles.DiskHolds: for files no avatar or icon has used; those go when the sweep that follows a profile change judges them, which is an event of its own with its removals after it.
- The display side of a page (sender colors, hidden timestamps) and the list of pinned messages: copies of the records.
- Integer widths of history ids and of byte sizes: ids are u64 in the code and unbounded here; a text's length is the length of its UTF-8 form.
- Limits that change while the server runs: the history's limits are fixed over a run; the handshake budget is read again at every step, below a fixed bound.
- Write failures, sockets, timeouts and task scheduling beyond the interleavings modelled.
- The muted-share placeholder as a source of its own: frames are numbered in the order the relay forwards them, and whether one is a keyframe is given.
- Keyframe requests, their throttling, and the feedback sent to the sharer.
- Rounding of f32 in the packet-rate bucket: exact reals, and a clock that counts seconds since login.
- PacketSpec.AcceptedFrom: for fewer than 2^64 packets, where the u64 counter wraps; PacketSpec.AcceptedIsPrefixIff shows the bound to be exact.
- PacketSpec.AcceptedIsPrefix: the same bound, exact by PacketSpec.AcceptedIsPrefixIff.
- PacketSpec.ReplayedIsPrefix: the same bound, exact by PacketSpec.ReplayedIsPrefixIff.
- The form a voice clip or an avatar has to have: parameters of an upload; only the picture check is spelled out.
- StreamRuns.NoCounterReuse: for at most 2^64 blocks, which StreamRuns.KeystreamDistinctIff shows to be exact.
- SessionPackets.PacketRoundTrip: key stretching and schedule expansion are assumed to give a key and a schedule of the right size, which is what HKDF and the key schedule do for every key.
- HistoryPages.WalkReaches: no restart inside a walk, since a restart closes every connection.
