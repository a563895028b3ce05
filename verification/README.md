# Verified model of the Spacemesh Ledger application's hashing, encoding and upload core

The Spacemesh Ledger application derives addresses, and shows and signs transactions and
messages. This project models its three most intricate parts in Dafny and proves what they are
for, for all inputs and all runs:

1. **The incremental BLAKE3 hasher** (`deps/BLAKE3-c`) under the application's bounded wrapper
   (`app/src/zxblake3.c`). `Blake3Spec` is the hash as a short recursive function (BLAKE3 paper,
   sections 2.1, 2.4, 2.5, 2.6) over an arbitrary compression function. The imperative hasher -
   chunk state, lazily merged stack of chaining values, subtree splitter, recursive wide
   compressor, output loop - is proved to compute that function for every sequence of updates and
   every power-of-two SIMD degree, and to compress the root of what it has absorbed for nothing
   but output.
2. **The SCALE codec, the parsers and the hashed account descriptions.** Encoder and decoder are
   inverse on the whole range the decoder admits and refuse each other's excess exactly; the
   transaction parser accepts exactly the spellings of well-formed transactions; different
   accounts never hash the same bytes; the keys shown are the keys hashed.
3. **The chunked-upload state machine** (`app/src/apdu_handler.c`), with a characterisation over
   all runs of when an upload is in progress and what a complete one contains.

## How the modules build on each other

| module | content |
|---|---|
| `Bits`, `Bytes`, `Errors` | powers of two, population count, masks, top bit; little-endian numbers; result codes |
| `Blake3Spec` | the tree hash as a function |
| `Blake3Equations` | the same function as equations between bytes, in numbers only |
| `Blake3Compressor` | the compression primitive with a log of what each compression was for |
| `Blake3Forest`, `Blake3Stack` | the forest of complete subtrees and how it is rolled up, the unmerged top of the stack, room on the stack |
| `Blake3Chunk` | the chunk state, and hashing whole blocks without one |
| `Blake3Wide`, `Blake3Subtree` | lists of chaining values as trees; batches, the wide compressor, condensation |
| `Blake3Output`, `Blake3Hasher`, `Blake3Keys`, `ZxBlake3` | output stream, the hasher, its keyed modes, the application's wrapper |
| `Scale` | the two halves of the compact integer codec |
| `TxGrammar`, `TxParser`, `Message` | formats as grammars, and the parsers as they run |
| `TxBytes` | every kind of transaction byte by byte |
| `AccountHash`, `AddressEncoder`, `AddressRequest`, `AddressFlow` | what an address commits to, how it is computed, the request it is computed for, and all of it from upload to address |
| `ApduSpec`, `ApduHandler` | uploads as steps and runs, and the handler |

The code's objects are classes here (`ChunkState`, `Hasher`, `HashSession`, `ParserContext`,
`TxObject`, `MessageObject`, `AddressRequests`, `Handler`), their buffers arrays, their methods
proved against the specification functions; the lemmas are about those functions. A `Mode` holds
the compression primitive, the key words and the mode flags, so plain, keyed and derive-key
hashing are all instances. Sizes and offsets inside the tree are in bytes.

The primitive in a `Mode` is ghost, and so are the functions that apply it. Code compresses only
through the methods of a `Compressor`, which holds the one executable copy of the primitive and
adds an entry to a ghost log: an inner block of a chunk, the node over a piece of the message, or
output of the root of a message. An entry has to be proved of what is compressed (`Honest`), so the
log cannot call the root by another name.

The specification functions are not taken on trust. For each of them there are equations that
mention no other function of the model and no named constant, only bytes and numbers: how a block, a
parent and the root are compressed (`Blake3Equations`), which bytes are hashed for an account and
where its address is in the hash (`WalletBytes`, `SharedBytes`, `VaultBytes`, `AddressBytes`), the
bytes of a number (`EncodeBytes`), of every transaction (`TxBytes`) and message (`MessageBytes`,
`DomainDecides`), the words of a path and the bytes of a command (`PathWords`, `ExtractOkIff`,
`RequestBytes`, `Statuses`), and the positions in a request (`Overlay`, `OverlayNumbers`).

## What the proofs show that a reader may not expect

- Lazy merging is a statement about compressions, and is proved as one. Each update only compresses
  nodes shorter than all that is absorbed when it returns (`Hasher.Update`); finalisation adds nodes
  that are shorter than the whole, and then the root itself, for output, once for each block of
  output (`Hasher.FinalizeSeek`). Over a whole run nothing else carries the ROOT flag (`HashPieces`,
  `RootFlagOnlyOnOutput`).
- The BLAKE3 header sizes the stack as `BLAKE3_MAX_DEPTH` + 1 slots. The exact bound in bytes is
  1024 * 2^(depth + 1). Below it, depth + 1 slots suffice for every way of cutting up the input: the
  hasher with that many slots is proved for all of them. At it, and so with every longer input that
  starts this way, they do not: the run in pieces of two chunks ends with depth + 2 CVs on the stack
  (`FillSlots`). With depth 2 that is at most 8191 bytes. `zxblake3_hash` does not reset the running
  total of `zxblake3_hash_update`, so a run that mixes them can hold up to 8190 bytes, more than the
  4095-byte cap suggests, and still fits.
- `readAddressRequest` keeps the length of the key section in one byte. A complete request in
  order is accepted if and only if it has at most eight participants, although ten keys are
  allowed everywhere else (`CompleteRequestAccepted`).
- The same byte wraps around below the fixed part of a request, too. Of all messages that do not
  even hold the two counts exactly one kind can be accepted: two bytes for a vault, when the storage
  still shows eight participants in order (`AcceptedWithoutCounts`). After any complete vault request
  for eight, an upload of two bytes that repeats the device's index is accepted, with the counts and
  keys of the request before (`TwoByteVaultAccepted`).
- Whenever the indices of a request are checked, whether it is accepted or refused, the check reads
  only bytes that were sent if and only if the fixed part was sent and: the device's index is below
  the number of participants, or the key section wrapped around, or a key that was sent is already
  out of order (`LooksWithinMessage`). `LooksPastTheKeys` and `TwoByteVaultAccepted` give the inputs
  where it does not.
- Every device of a group of at most eight computes the same address, each from a request that holds
  the other keys: that of the group's own list (`CoSignersAgree`, `CoSignerAddress`,
  `CoSignerVaultAddress`).
- The message object is not cleared before a parse, and an empty prefix or message is skipped
  rather than stored. What remains in the field is a place in the upload storage, so it shows bytes
  of the new upload or, past its end, of earlier ones: a leftover prefix starts with the domain byte
  of the very message it is shown with (`StalePrefix`, `StaleMessage`, with concrete pairs in
  `StaleExample` and `StaleExamplePastTheEnd`). Over every run a message is shown as it was sent if
  and only if no empty part meets a leftover (`ShownAfterRun`), and a refused upload leaves its
  prefix's place behind as well (`RefusedLeavesPrefix`). The signed bytes are not affected.
- A number of 2^56 or more takes nine bytes and does not fit the eight-byte buffer of
  `updateScaleEncodedNumber` (`EncodeFits`). A complete vault request is accepted whatever its
  numbers are, and they all fit if and only if both amounts are below 2^56 (`AnyVaultAccepted`); the
  hashing of vaults is modelled below that.
- A number has exactly these accepted spellings: its encoding; four bytes for 16383, although two
  would do; and four to eight value bytes in the big mode, with or without zeros on top
  (`Scale.SpellingIff`).
- `_read` accepts a spawn whose template ends in an unknown account type, with no arguments; the
  account type of the object then stays as it was.
- An upload does not remember the instruction of its INIT: no state depends on which of the chunked
  instructions its commands came under (`InstructionsAreForgotten`). It is handed on under the
  instruction of its last command, whichever its INIT came under (`UploadInstruction`); `MixedRun` opens one as a transaction and completes it as a message.

## Model

| member | source | states |
|---|---|---|
| Blake3Hasher.HashPieces | deps/BLAKE3-c/blake3.c:462-618 | for any list of updates of any lengths, any power-of-two degree, any stack depth that has the capacity: finalisation is the recursive tree hash of the concatenation, at any seek position; of all compressions of the run the last ones, one for each block of output, are of the root, and every other node is shorter |
| Blake3Hasher.Hasher.Update | deps/BLAKE3-c/blake3.c:462-569 | whatever the state and the length, the bytes absorbed grow by exactly the input and the stack-as-forest invariant is kept; no node as long as all that is then absorbed is compressed |
| Blake3Hasher.Hasher.RootOutput | deps/BLAKE3-c/blake3.c:586-617 | rolling the chunk state, or the unmerged top pair, up the stack gives the root node of the spec tree over everything absorbed, by compressing only shorter nodes |
| Blake3Hasher.Hasher.FinalizeSeek | deps/BLAKE3-c/blake3.c:576-618 | the output is the window of the spec hash at the seek position; the hasher is unchanged; the root of exactly what is absorbed is compressed, for output only, once for each block the window touches |
| Blake3Hasher.Hasher.StackLength | deps/BLAKE3-c/blake3.c:559-568 | in every valid state: one CV per one bit of the chunk counter while the chunk state holds bytes; at least two CVs when it is empty but chunks were absorbed |
| Blake3Hasher.Hasher.RootNotCompressed | deps/BLAKE3-c/blake3.c:419-453 | in every valid state, whatever updates and finalisations led to it: every node that was ever compressed to a CV is a piece of what is absorbed and shorter than it, and root output was only made of messages it starts with |
| Blake3Hasher.Hasher.MergeCvStack | deps/BLAKE3-c/blake3.c:411-420 | merging the first n of more than n known bytes turns a forest with a pending subtree into exactly their forest, as long as the population count; every node merged is shorter than the known bytes |
| Blake3Hasher.Hasher.PushCv | deps/BLAKE3-c/blake3.c:454-460 | the write is in bounds; the new CV ends up unmerged on top of the forest of everything before it |
| Blake3Hasher.Hasher.AbsorbSubtree | deps/BLAKE3-c/blake3.c:510-557 | one round of the update loop keeps the forest invariant, consumes input, and if it consumes all of it leaves two unmerged halves |
| Blake3Hasher.PickSubtree | deps/BLAKE3-c/blake3.c:510-530 | the splitter picks the largest power of two that fits the input and divides the bytes so far, never less than a chunk; the mask test is the divisibility test |
| Blake3Hasher.FillSlots | deps/BLAKE3-c/blake3.h:51-60 | a run that absorbs 1024 * 2^(depth + 1) bytes in pieces of two chunks ends with depth + 2 CVs on the stack, so depth + 1 slots are too few from there on |
| Blake3Stack.StackRoomIsExact | deps/BLAKE3-c/blake3.h:51-60 | the numbers behind it: each of the numbers below n has at most depth one bits if and only if n < 2^(depth + 1) |
| Blake3Stack.MergeDone | deps/BLAKE3-c/blake3.c:411-420 | the stack is no longer than the population count exactly when the pending subtree is not the second half of a larger one, and then it is the forest |
| Blake3Stack.MergeStep | deps/BLAKE3-c/blake3.c:411-420 | otherwise the top two CVs are siblings: their parent leaves a pending subtree of twice the size |
| Blake3Stack.TopPair | deps/BLAKE3-c/blake3.c:604-609 | two unmerged halves are the children of the node over both, behind the forest of what precedes them |
| Blake3Forest.RollTop | deps/BLAKE3-c/blake3.c:610-616 | one step of the finalisation loop: the parent of the last CV and the node over the rest is the node over the bytes of both, and the CVs that are left are the forest of what precedes it |
| Blake3Forest.RollUpForest | deps/BLAKE3-c/blake3.c:594-617 | the whole loop on a forest and the node of what follows gives the node of it all, when what follows is no longer than a subtree that divides the forest |
| Blake3Forest.LastTree | deps/BLAKE3-c/blake3.c:402-420 | a forest ends with a tree as long as the lowest one bit of its length |
| Blake3Forest.ForestAppend | deps/BLAKE3-c/blake3.c:402-420 | adding a subtree of p bytes to a length divisible by 2p appends its CV |
| Blake3Forest.ForestLength | deps/BLAKE3-c/blake3.c:402-420 | a forest has as many CVs as its length has one bits |
| Blake3Compressor.RootFlagOnlyOnOutput | deps/BLAKE3-c/blake3.c:89-110 | in a mode without the ROOT flag: whatever is compressed carries it if and only if it is output of the root of a message |
| Blake3Compressor.SealedFinished | deps/BLAKE3-c/blake3.c:576-618 | finalisation keeps the log free of a compressed root, so it can be repeated and followed by updates |
| Blake3Keys.DerivedKey | deps/BLAKE3-c/blake3.c:385-395 | stored and loaded again, the key words for the material are the first eight words of the compression of the context's root |
| Blake3Keys.KeysDiffer | deps/BLAKE3-c/blake3.c:378-383 | keyed hashing under two keys is the same mode if and only if the keys are the same bytes |
| Blake3Keys.InitKeyed | deps/BLAKE3-c/blake3.c:378-383 | a fresh hasher whose key words are loaded from the key's bytes |
| Blake3Keys.InitDeriveKey | deps/BLAKE3-c/blake3.c:385-395 | a fresh hasher keyed by the hash of the context, which a hasher of its own computes |
| Blake3Equations.ThirtyTwoBytes | deps/BLAKE3-c/blake3.c:576-618 | the 32-byte hash of a message of more than a chunk is one compression of the left and then the right half's CV under the key words, 64 bytes, number 0, flags 4 and 8 |
| Blake3Equations.RootOfTree | deps/BLAKE3-c/blake3.c:89-110 | every byte of the output for more than a chunk, at any position: the same compression numbered by the block of output |
| Blake3Equations.RootOfChunk | deps/BLAKE3-c/blake3.c:89-110 | every byte of the output for a single chunk: its last block, padded with zeros and counted by its length, flags 1 if it is the first, 2 and 8 |
| Blake3Equations.ParentNode | deps/BLAKE3-c/blake3.c:152-155 | a parent's CV: left and then right, under the key words, 64 bytes, number 0, flag 4 |
| Blake3Equations.Split | deps/BLAKE3-c/blake3.c:157-165 | every message of more than a chunk has one left part, a power of two of at least 1024 bytes, that leaves a right part no longer than itself |
| Blake3Equations.ChunkCv | deps/BLAKE3-c/blake3.c:145-150 | a chunk's CV from the CV of its blocks before the last: the chunk's number, length, padding and flags |
| Blake3Equations.ChunkBlocks | deps/BLAKE3-c/blake3.c:112-143 | one more inner block: the key words to begin with, 64 bytes, the chunk's number, flag 1 on the first only |
| Blake3Equations.StoredByte | deps/BLAKE3-c/blake3_impl.h:164-182 | the four bytes of every stored word, low byte first |
| Blake3Equations.LoadedWord | deps/BLAKE3-c/blake3_impl.h:147-162 | every loaded word from its four bytes |
| Blake3Keys.ModeNumbers | deps/BLAKE3-c/blake3.c:376-395 | the words and flags of keyed hashing (16) and of both derive-key steps (32, 64) as numbers |
| Blake3Spec.LoadStored | deps/BLAKE3-c/blake3_impl.h:147-182 | loading stored words gives them back |
| Blake3Subtree.CompressSubtreeWide | deps/BLAKE3-c/blake3.c:267-324 | for every power-of-two degree: at most one CV per lane but at least two above one chunk, cutting the tree over the input; a whole power of two of chunks fills every lane; above one chunk only nodes shorter than the input are compressed |
| Blake3Subtree.CompressHalves | deps/BLAKE3-c/blake3.c:285-310 | the number of left CVs is the adjusted degree, so the right CVs follow them without a gap; both sides cut the trees over their halves |
| Blake3Subtree.CompressSubtreeToParentNode | deps/BLAKE3-c/blake3.c:336-367 | the condensing loop ends with the CVs of the left and right spec subtrees, whatever the degree |
| Blake3Subtree.CompressParentsParallel | deps/BLAKE3-c/blake3.c:215-248 | one layer of parents over the children, an odd one carried over, nothing else written; with more than two children no parent is the root of their tree |
| Blake3Subtree.CompressChunksParallel | deps/BLAKE3-c/blake3.c:171-209 | the CVs of all chunks of the input in order, the last possibly partial, nothing else written |
| Blake3Subtree.FoldsToSubtree | deps/BLAKE3-c/blake3.c:267-324 | the CVs the wide compressor leaves, folded as a tree, are the spec subtree's CV, and its node above one chunk |
| Blake3Subtree.LeftLenOf | deps/BLAKE3-c/blake3.c:160-165 | the rounding of whole chunks equals the spec's left length: the largest power of two below the length |
| Blake3Subtree.HashMany | deps/BLAKE3-c/blake3_portable.c:145-161 | each input hashed at its counter, results side by side, nothing else written; the nodes compressed are those of the inputs |
| Blake3Wide.PairIsNode | deps/BLAKE3-c/blake3.c:215-248 | the parent of each pair of CVs that cut a tree is the spec node over the bytes under them, and not the root unless they are all there is |
| Blake3Wide.PairUpCut | deps/BLAKE3-c/blake3.c:215-248 | a layer of parents over CVs that cut a tree cuts it again |
| Blake3Wide.PairUpFolds | deps/BLAKE3-c/blake3.c:215-248 | forming a layer of parents does not change the tree a list of CVs stands for, down to its top pair |
| Blake3Wide.ChunkCvsCut | deps/BLAKE3-c/blake3.c:171-209 | the chunk CVs of any input cut its tree |
| Blake3Wide.ChunkCvsFold | deps/BLAKE3-c/blake3.c:171-209 | the chunk CVs of any input, folded as a tree, are the spec subtree |
| Blake3Wide.LeftLenSizes | deps/BLAKE3-c/blake3.c:160-165 | above one chunk, the left length is a power of two of whole chunks, positive, below the length, and at least half of it |
| Blake3Chunk.ChunkState.Update | deps/BLAKE3-c/blake3.c:112-143 | the bytes fed grow by the input however it is cut, all blocks but the last compressed, the last one held back; no node is compressed |
| Blake3Chunk.ChunkState.FillBuf | deps/BLAKE3-c/blake3.c:34-44 | as much as fits is copied behind the held bytes, the rest of the block stays zero |
| Blake3Chunk.ChunkState.Finish | deps/BLAKE3-c/blake3.c:145-150 | the output is the spec chunk node of everything fed; at most 15 blocks were compressed |
| Blake3Chunk.HashOnePortable | deps/BLAKE3-c/blake3_portable.c:125-143 | the counting loop chains the blocks with start and end flags only on the first and last, which is the node over the piece it is called for |
| Blake3Chunk.HashOneIsChunk | deps/BLAKE3-c/blake3_portable.c:125-143 | on 1024 bytes the second way of hashing a chunk agrees with the spec chunk node |
| Blake3Chunk.HashOneIsParent | deps/BLAKE3-c/blake3_portable.c:125-143 | on one block without start and end flags it agrees with the spec parent node |
| Blake3Output.OutputRootBytes | deps/BLAKE3-c/blake3.c:89-110 | the block loop writes exactly the requested window of the root's output stream, with one compression of the root for each block the window touches |
| Blake3Output.OutputIsStream | deps/BLAKE3-c/blake3.c:576-618 | any window of an output equals the output asked for directly at that position: length never changes content |
| Bits.Popcnt | deps/BLAKE3-c/blake3_impl.h:122-133 | clearing lowest bits counts the one bits |
| Bits.HighestOne | deps/BLAKE3-c/blake3_impl.h:92-119 | the six mask-and-shift steps find the top bit of any nonzero 64-bit value |
| Bits.RoundDownToPowerOf2 | deps/BLAKE3-c/blake3_impl.h:137-139 | the largest power of two not above the argument; one for zero |
| Bits.MaskIsMod | deps/BLAKE3-c/blake3.c:528-530 | masking with a power of two less one is the remainder by that power |
| Bits.PopCountAdd | deps/BLAKE3-c/blake3.c:402-420 | adding a power of two that divides a number raises its bit count by one if the bit was clear and never raises it otherwise |
| ZxBlake3.PlainOneBlock | app/src/zxblake3.c:37-52 | the plain hash of up to 64 bytes: one compression under the eight initial words, padded with zeros, flags 1, 2 and 8 |
| ZxBlake3.HashSession.Init | app/src/zxblake3.c:59-65 | a fresh plain hash and a zero running total |
| ZxBlake3.HashSession.Update | app/src/zxblake3.c:74-87 | accepted if and only if there is input and the total stays within 4095; then the hash absorbs it; refused, nothing at all changes |
| ZxBlake3.HashSession.Finalize | app/src/zxblake3.c:96-104 | the hash of everything absorbed, or an error with the buffer untouched |
| ZxBlake3.HashSession.HashOnce | app/src/zxblake3.c:37-52 | the one-shot hash, its error cases, and that the running total is left alone; for up to 64 bytes the one compression it is, in numbers |
| Scale.RoundTrip | app/src/parser_impl_common.c:22-103 | reading any encoded 64-bit value followed by anything: the value and exactly its bytes below 2^62, out of range from there on |
| Scale.EncodeBytes | app/src/crypto_helper.c:45-100 | the bytes of the encoding in each of its four modes, and no more than needed |
| Scale.RefusedNumber | app/src/parser_impl_common.c:22-55 | exactly where the announced bytes are missing, and the only other error |
| Scale.SpellingIff | app/src/parser_impl_common.c:22-103 | a value is read off some bytes if and only if they start with its encoding, with the four-byte 16383, or with four to eight big-mode bytes that hold it |
| Scale.PrefixFree | app/src/crypto_helper.c:87-100 | if two encoded values with any continuations give the same bytes, values and continuations are equal |
| Scale.EncodeFits | app/src/crypto_helper.c:102-107 | the encoding has at most eight bytes if and only if the value is below 2^56 |
| Scale.ScaleEncodeUint64 | app/src/crypto_helper.c:45-100 | mode by range, and the right bytes at the front of the buffer, nothing else written |
| Scale.ScaleEncodeBigUint | app/src/crypto_helper.c:76-85 | the leading-zero count gives the minimal byte count; the shifting loop writes exactly those bytes |
| Scale.GetValue | app/src/parser_impl_common.c:57-103 | the decoded value in every mode, out of range exactly where the decoder says so |
| Scale.BigValue | app/src/parser_impl_common.c:83-99 | the or-and-shift loop computes the little-endian value and never leaves 64 bits |
| TxGrammar.ReadTxIff | app/src/parser_impl.c:23-50 | a buffer is accepted as a transaction if and only if the transaction keeps all limits and the buffer is exactly a concatenation of accepted spellings of its fields |
| TxGrammar.StripIff | app/src/parser_impl_common.c:22-103 | what an accepted spelling of a single field is: a byte string itself, or any of a number's spellings |
| TxBytes.Header | app/src/parser_impl.c:28-46 | 20 bytes, version 0, 24 bytes and a method byte 0, 0x40 or 0x44; other versions and methods refused with their errors |
| TxBytes.SpendBytes | app/src/parser_impl_common.c:171-178 | the bytes of every spend are read as that spend; with anything behind them they are refused |
| TxBytes.DrainBytes | app/src/parser_impl_common.c:180-188 | the same for a drain, the vault before the destination |
| TxBytes.SpawnBytes | app/src/parser_impl_common.c:123-169 | a spawn's template, nonce and gas price, and then the arguments its template's last byte asks for |
| TxBytes.SpawnWallet | app/src/parser_impl_common.c:131-133 | the bytes of every wallet spawn (template type 1) are read as that spawn |
| TxBytes.SpawnMultisig | app/src/parser_impl_common.c:134-152 | the bytes of a multisig or vesting spawn (2, 3), for any counts: read as that spawn if approvers <= keys <= 10, else refused |
| TxBytes.SpawnVault | app/src/parser_impl_common.c:153-166 | the bytes of every vault spawn (4) are read as that spawn |
| TxBytes.VaultArgBytes | app/src/parser_impl_common.c:153-166 | the vault arguments for any numbers, with the error for each limit that is not kept |
| TxBytes.OtherArgBytes | app/src/parser_impl_common.c:130-167 | every other template type has no arguments |
| TxGrammar.ParsePrint | app/src/parser_impl.c:23-50 | the canonical serialisation of every well-formed spawn, spend or drain is read back as itself with nothing left over |
| TxGrammar.SpawnIff | app/src/parser_impl_common.c:123-169 | the same equivalence for spawns of every template, unknown ones included |
| TxGrammar.MultisigIff | app/src/parser_impl_common.c:134-152 | for the multisig arguments: approvers <= keys <= 10 and as many keys as announced |
| TxGrammar.VaultIff | app/src/parser_impl_common.c:153-166 | for the vault arguments: unlock <= total and start <= end, both 32-bit |
| TxGrammar.SpendIff | app/src/parser_impl_common.c:171-178 | for spends |
| TxGrammar.DrainIff | app/src/parser_impl_common.c:180-188 | for drains |
| TxParser.Read | app/src/parser_impl.c:23-50 | the parser's error or result is the reader's; on success the object is well-formed and spells the buffer; on any outcome the offset has not moved back or past the end; the account type is the last byte of a spawn's template if that is 1 to 4 |
| TxParser.Parse | app/src/parser.c:43-62 | the same from a whole message, the empty one refused |
| TxParser.ReadSpawnTx | app/src/parser_impl_common.c:123-169 | result or error as read off the bytes; the account type follows the template, or is left alone for an unknown one |
| TxParser.ReadKeys | app/src/parser_impl_common.c:149-151 | the key loop reads exactly the announced number of keys or fails where the bytes end |
| TxParser.ParserContext.ReadCompactInt | app/src/parser_impl_common.c:22-55 | success hands over exactly the announced bytes; failure happens only on a short buffer and moves nothing |
| TxParser.ParserContext.ReadCompactU64 | app/src/scale_helper.c:44-52 | value or error of the compact integer in front |
| TxParser.ParserContext.ReadCompactUpTo | app/src/scale_helper.c:54-86 | the same for the 32-bit and 8-bit fields, out of range above their maximum |
| TxParser.ParserContext.ReadFixedArray | app/src/scale_helper.c:34-42 | the slice lies inside the buffer between the old and the new offset |
| Message.ReadMsgIff | app/src/parser_message.c:136-159 | into a zeroed object, a buffer is accepted and shown as a message, whatever lies behind it, if and only if it is the serialisation of that message with a listed domain |
| Message.MessageBytes | app/src/parser_message.c:136-159 | the bytes of a message: two lengths, low byte first, prefix, domain, text |
| Message.DomainDecides | app/src/parser_message.c:52-69 | for these bytes with any domain byte: accepted for 0 to 4, 10 and 11, refused for every other |
| Message.CutOrExtended | app/src/parser_message.c:136-159 | cut short anywhere, or followed by anything, a message is refused with the error for that |
| Message.AcceptedIff | app/src/parser_message.c:136-159 | whatever the object held, exactly the serialisations of messages with a listed domain are accepted |
| Message.StaleFields | app/src/parser_message.c:146-152 | into any object, the message is shown as it was sent if and only if no empty part meets a leftover |
| Message.StalePrefix | app/src/parser_message.c:146-148 | what a leftover prefix of n bytes shows: the first n of the new domain byte, the new message and what lies behind it in the storage |
| Message.StaleMessage | app/src/parser_message.c:150-152 | what a leftover message shows: the same place of the new prefix, domain byte and what lies behind them |
| Message.ShownAfterRun | app/src/common/tx.c:85-96 | over every run of uploads, parsed or not, accepted or not: the next message is shown as sent if and only if no empty part meets a field set before; a stale prefix starts with the message's own domain byte |
| Message.RefusedLeavesPrefix | app/src/scale_helper.c:34-42 | an upload refused for a short prefix still sets the prefix's place, past its own end |
| Message.StaleExample | app/src/parser_message.c:146-152 | two messages in a row where the second one, with an empty prefix, shows its domain byte as the prefix |
| Message.StaleExamplePastTheEnd | app/src/parser_message.c:146-152 | after a longer prefix it shows its text too, and bytes of the first message behind its end |
| Message.SignedBytes | app/src/common/actions.h:92-98 | the bytes signed are prefix, domain byte and message as they were sent, whatever the object shows |
| Message.ReadMessage | app/src/parser_message.c:136-159 | the parser's result and what it leaves in the object, on success and on every failure |
| Message.ParseMessage | app/src/parser_message.c:161-166 | the same from a whole upload, the empty one refused with the object untouched |
| Message.ReadUInt | app/src/parser_impl.h:46-55 | the byte-by-byte reader gives the little-endian value or stops at the end |
| AccountHash.WalletBytes | app/src/crypto_helper.c:109-127 | the bytes hashed for a wallet: 23 zeros, 1, the key |
| AccountHash.SharedBytes | app/src/crypto_helper.c:129-178 | for a shared account: 23 zeros, its type, four times each count, and the i-th key at 26 + 32 * i |
| AccountHash.VaultBytes | app/src/crypto_helper.c:180-210 | for a vault: 23 zeros, 4, the owner, and the encodings of total, unlock, start and end |
| AccountHash.AddressBytes | app/src/crypto_helper.c:122-124 | an address is four zeros and then bytes 12 to 32 of the plain hash |
| AccountHash.PreimageInjective | app/src/crypto_helper.c:129-210 | two accounts of any types, with any 64-bit numbers, whose hashed bytes are equal are the same account, in every field and key |
| AccountHash.NumbersInjective | app/src/crypto_helper.c:198-201 | four encoded numbers in a row determine each of them |
| AccountHash.AddressIndependentOfLength | app/src/crypto_helper.c:109-127 | the address bytes are the same whatever output length is asked of the hash |
| AddressEncoder.EncodeWalletPubkey | app/src/crypto_helper.c:109-127 | every error case, and the address of the wallet's description; in bytes, that of 23 zeros, 1 and the key |
| AddressEncoder.EncodeAccountPubkey | app/src/crypto_helper.c:129-178 | for every account type: every error case, and the address of the wallet's description or of the shared one with the device key merged in, also byte by byte; hashing is never refused |
| AddressEncoder.EncodeVaultPubkey | app/src/crypto_helper.c:180-210 | every error case, and the address of the vault around its owner's vesting address, also byte by byte |
| AddressEncoder.SharedPreimageIs | app/src/crypto_helper.c:154-169 | every byte hashed for a shared account from the request's keys and the device's own |
| AddressEncoder.HashKeys | app/src/crypto_helper.c:160-169 | the key loop hashes the participant list: the external keys with the device's put in at its index |
| AddressEncoder.MergedAt | app/src/addr.c:159-173 | the key shown for participant i is the i-th key of the hashed list |
| AddressRequest.AddressRequests.Read | app/src/addr.c:43-124 | accepted if and only if the key section holds whole keys, one fewer than participants, carrying the other participants' indices in order; and how many key slots are read on every outcome |
| AddressRequest.AddressRequests.IndicesInOrder | app/src/addr.c:72-83 | the running-index loop decides that order, reading all its slots or those up to the first that is out of order |
| AddressRequest.AddressRequests.GetPublicKey | app/src/addr.c:159-173 | the key shown for a participant is the one at its place in the hashed list |
| AddressRequest.Overlay | app/src/crypto_helper.h:44-61 | the byte positions of counts, indices and keys in a shared request and in a vault request |
| AddressRequest.OverlayNumbers | app/src/crypto_helper.h:55-61 | the vault's numbers from their bytes |
| AddressRequest.SectionNumbers | app/src/addr.c:57-96 | the length of the key section: without 3 bytes, or 27 for a vault, in one byte |
| AddressRequest.TraversalsAgree | app/src/addr.c:72-83 | for an accepted request with the device among the participants, for every i: shown key, hashed key and announced index are the same participant's |
| AddressRequest.CompleteRequestAccepted | app/src/addr.c:59-70 | the request as sent, complete and in order, is accepted if and only if it has at most eight participants |
| AddressRequest.AccountOfPrinted | app/src/crypto_helper.h:44-61 | the structure laid over the buffer shows the counts, indices and keys of the request that was sent, whatever follows it |
| AddressRequest.AcceptedLength | app/src/addr.c:59-70 | an accepted message holds exactly the external keys of its participants if and only if its key section is neither negative nor too long for one byte |
| AddressRequest.AcceptedWithoutCounts | app/src/addr.c:86-101 | a message shorter than the fixed part is accepted if and only if it is two bytes for a vault and the storage shows eight participants in order |
| AddressRequest.TwoByteVaultAccepted | app/src/addr.c:86-116 | after any complete vault request for eight participants, two bytes that repeat the device's index are accepted with its counts and keys |
| AddressRequest.LooksWithinMessage | app/src/addr.c:72-83 | whenever the indices are checked, accepted or not: the slots read lie within the message if and only if the fixed part was sent and the device is one of the participants or the key section wrapped around or a key that was sent is out of order |
| AddressRequest.LooksPastTheKeys | app/src/addr.c:72-83 | an accepted 36-byte request with one key for which the check looks at two |
| AddressFlow.CoSignersAgree | app/src/crypto_helper.c:160-169 | for any group of at most eight keys and any of its devices: the request with the other keys is accepted, and the list hashed is the whole group in order |
| AddressFlow.CoSignerAddress | app/src/crypto.c:129-166 | from upload to address, a multisig or vesting device computes the address of the whole group, whichever device it is |
| AddressFlow.CoSignerVaultAddress | app/src/crypto.c:168-203 | the same for a vault: the address of the numbers sent and of the vesting address of the whole group |
| AddressFlow.AnyVaultAccepted | app/src/crypto_helper.h:55-61 | a complete vault request is accepted with any numbers and shows them; all their encodings fit eight bytes if and only if both amounts are below 2^56 |
| AddressFlow.FillAddress | app/src/crypto.c:129-166 | the address of the request that was read, and its error cases |
| AddressFlow.FillVaultAddress | app/src/crypto.c:168-203 | the address of the vault request that was read, and its error cases |
| ApduSpec.PathWords | app/src/apdu_handler.c:60 | the path is the 20 bytes as five numbers in order, low byte first |
| ApduSpec.ExtractOkIff | app/src/apdu_handler.c:62-67 | exactly the paths whose first eight bytes are 44' and 540', or 44' and 1', are accepted |
| ApduSpec.RequestBytes | app/src/apdu_handler.c:70-110 | the bytes of every command that has to do with uploads |
| ApduSpec.InitializedIff | app/src/apdu_handler.c:53-110 | over every run: an upload is in progress if and only if some INIT with a valid path was followed only by commands that do not end it |
| ApduSpec.OpenUpload | app/src/apdu_handler.c:53-110 | then the path is the five words of that INIT's bytes, a mainnet or testnet path, and the buffer is all chunk data since, in order |
| ApduSpec.CompleteUpload | app/src/apdu_handler.c:95-106 | over every run: a completed upload is exactly the chunk data since the most recent INIT, on that INIT's valid path, and it is over |
| ApduSpec.EndedUploadsStayEnded | app/src/apdu_handler.c:85-114 | after a short append, a finished upload or an address request nothing completes without a new INIT |
| ApduHandler.Statuses | app/src/apdu_handler.c:244-329 | the status of a command from its bytes, in the order in which the errors are found |
| ApduHandler.InstructionsAreForgotten | app/src/apdu_handler.c:70-110 | over every run: replacing the instruction of upload commands by any other chunked one changes no state |
| ApduHandler.UploadInstruction | app/src/apdu_handler.c:130-180 | over every run: a completed upload is handed on with the path and data since its INIT, under the instruction of its last command |
| ApduHandler.MixedRun | app/src/apdu_handler.c:130-171 | an upload opened as a transaction and completed as a message, with any data |
| ApduHandler.Handler.ExtractHDPath | app/src/apdu_handler.c:53-68 | no upload in progress afterwards; the path is overwritten, word by word, before it is checked; exact error cases in bytes |
| ApduHandler.Handler.ProcessChunk | app/src/apdu_handler.c:70-110 | moves by the step function and hands an upload on exactly when one completes |
| ApduHandler.Handler.HandleApdu | app/src/apdu_handler.c:244-329 | the dispatcher answers every command as specified, a completed upload under the instruction of its last command; an empty command is judged by the class byte left in the buffer |

## Left out

- The rounds, the message schedule and the tables of the compression function: it is an arbitrary function of chaining value, block, length, counter and flags.
- CPU detection, SIMD kernels and compiler built-ins: the degree is any power of two, `hash_many`, `popcnt` and `highest_one` are their portable versions.
- Machine words: the tree works on unbounded numbers. Lengths are below 2^64 and the capacity keeps counters far below that in this application.
- Memory before a hash is initialised anew: `Init` puts a fresh hasher in place of clearing the same storage.
- Null checks on pointers that the callers in this repository never pass as null, and the null output of the SCALE encoders.
- AddressEncoder.EncodeVaultPubkey: amounts of 2^56 and above are not modelled, because their encoding does not fit the eight-byte buffer the code gives it.
- AddressRequest.AddressRequests.Read: the storage behind the upload buffer is taken to be large enough for the packed structures that overlay it.
- Blake3Compressor.Compressor.Compress: that nothing else calls the primitive is a convention of the code here, which keeps its only executable copy in this class.
- TxParser.TxObject: the union's members are one value, set when a body has been read completely; fields after a failed parse are not described, except that the offset stays in range.
- `readBytes`, which nothing in the parsers calls.
- Key derivation, signing and Bech32: calls into libraries that are not part of this model; the statuses thrown when they fail are not modelled.
- Rendering, paging, item labels, `parser_validate` and number formatting.
- The buffering library behind `tx_append`: it takes some first bytes of a chunk and says how many. That it moves an upload from RAM to flash when RAM is full is not modelled: uploads share one storage here.
- The version reply's content, the test instruction, reset exceptions and the layout of status words.
