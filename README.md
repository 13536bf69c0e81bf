# gordiff signature generation in Dafny

gordiff writes rdiff-compatible signature files. A signature is a 12-byte header followed
by one 12-byte record per block of the baseline file:

- the header is `'r' 's' 0x01 0x36`, then the block size, then the strong-sum length (8),
  each a big-endian uint32;
- a record is the block's 4-byte weak sum, then the first 8 bytes of the block's MD4 digest.

The weak sum is gordiff's port of librsync's RollSum (`simpleRoller`). It keeps two 16-bit
accumulators, s1 and s2. For each byte, s1 grows by the byte and s2 grows by the new s1.
Once per buffer it adds the offset 31·n to s1 and 31·n(n+1)/2 to s2. The digest is s2
then s1, each big-endian.

The project has five modules:

- `Bytes` (`bytes.dfy`) declares the Go integer types the others share: `byte`, `uint16`
  and `uint32`, as ranges of `int`.
- `RollSum` (`rollsum.dfy`) models `simpleRoller` as a class with the fields `count`, `s1`
  and `s2`. `Update`'s byte loop is a method with loop invariants, in uint64 arithmetic, and its
  offset term is computed in Go's 64-bit int arithmetic with wrap-around.
  The closed forms `NextS1` and `NextS2` specify `Update`. The lemmas prove that updates
  compose over concatenation, that an empty buffer changes nothing, and what the
  accumulators are from scratch.
- `Streams` (`streams.dfy`) models the `io.Reader` and `io.Writer` that `Compute` is given.
  The reader holds the bytes it still has to deliver. Each `Read` delivers as many as the
  buffer, the reader and a fixed per-reader limit `chunk` allow, so a reader that
  delivers less than asked can be modelled. The writer has room for a fixed number of bytes;
  a write that does not fit writes what fits and fails. `ReadFull` models `io.ReadFull`.
- `StrongHash` (`strong.dfy`) models the MD4 `hash.Hash`. The digest is a parameter: any
  deterministic function to 16 bytes.
- `Signature` (`signature.dfy`) models `NewSigGen`, `writeHeader` and `Compute` as the
  class `SigGen`. `Compute` is the method with the read loop. It is proved to write
  `SignatureOf(input)` cut off at the room the writer had, and to return the error of the
  first write that fails. `SignatureOf` is the header followed by the records of
  `Blocks(input)`, the blocks the loop reads. The lemmas about `Blocks` and `SignatureOf`
  state the record count, the output length, the header and record layout, and which
  bytes each record covers.

Inputs that gordiff takes from outside are parameters: the reader's data and its
per-Read limit, the writer's room, and the MD4 function.

## Model

| member | source | states |
|---|---|---|
| RollSum.SimpleRoller.constructor | pkg/hashing/rollsum.go:24-26 | NewSimpleRoller gives a roller whose count, s1 and s2 are all zero |
| RollSum.SimpleRoller.Init | pkg/hashing/rollsum.go:34-38 | Init resets count, s1 and s2 to zero |
| RollSum.SimpleRoller.Update | pkg/hashing/rollsum.go:40-55 | count grows by exactly the buffer length; s1 and s2 become the 16-bit closed forms NextS1/NextS2 of the old s1, s2 and the buffer, independent of count, with the offset term's int overflow included |
| RollSum.NextS1 | pkg/hashing/rollsum.go:42-53 | defines the s1 that Update leaves: the old s1, plus the sum of the bytes, plus 31 per byte, modulo 2^16 |
| RollSum.NextS2 | pkg/hashing/rollsum.go:43-54 | defines the s2 that Update leaves: the old s2, plus n times the old s1, plus each byte times the number of running s1 sums it enters, plus 31·n(n+1)/2, modulo 2^16 |
| RollSum.Accumulate | pkg/hashing/rollsum.go:42-48 | the byte loop leaves tempS1 = (s1 + Σ b[i]) mod 2^64 and tempS2 = (s2 + n·s1 + Σ (n−i)·b[i]) mod 2^64 |
| RollSum.UpdateStep | pkg/hashing/rollsum.go:45-48 | one iteration of the byte loop (s1 += byte, then s2 += s1) advances the uint64 running sums by exactly one byte |
| RollSum.UpdateFinish | pkg/hashing/rollsum.go:51-54 | adding the offset 31·n in uint64 and the offset term as Go computes it, then truncating to uint16, gives NextS1/NextS2: neither the 2^64 wrap-around nor the int overflow is visible modulo 2^16 |
| RollSum.TriangleFormula | pkg/hashing/rollsum.go:52 | inLen·(inLen+1)/2 is the triangular number 1 + 2 + … + inLen, the count of (byte, later s1) pairs |
| RollSum.TriangleDouble | pkg/hashing/rollsum.go:52 | inLen·(inLen+1) is twice the triangular number, so the division by 2 is exact |
| RollSum.WrapInt64 | pkg/hashing/rollsum.go:52 | Go's 64-bit int result lies in [−2^63, 2^63) and differs from the exact value by a multiple of 2^64 |
| RollSum.HalfTrunc | pkg/hashing/rollsum.go:52 | Go's `/ 2` on int truncates toward zero: the remainder a − 2h is 0 or 1 for a ≥ 0, and 0 or −1 for a < 0 |
| RollSum.OffsetS2 | pkg/hashing/rollsum.go:52 | defines the uint64 offset term as Go computes it: int64 wrap of n(n+1), truncating /2, int64 wrap of ×31, then mod 2^64; the result is below 2^64 |
| RollSum.OffsetS2Exact | pkg/hashing/rollsum.go:52 | while n(n+1) fits in an int64, the offset term is exactly 31·Triangle(n) modulo 2^64 |
| RollSum.OffsetS2Narrow | pkg/hashing/rollsum.go:52-54 | the offset term as Go computes it, with int overflow in inLen·(inLen+1) and in the multiplication by 31, truncating division and the uint64 conversion, agrees with 31·Triangle(inLen) modulo 2^16, after any addend: the overflow never changes s2 |
| RollSum.OffsetS2Overflows | pkg/hashing/rollsum.go:52 | the overflow is real: for a buffer of 2^32 bytes the uint64 offset term is not 31·Triangle(inLen) modulo 2^64 |
| RollSum.FromScratch | pkg/hashing/rollsum.go:42-54 | after Init, Update(b) leaves s1 = (Σ b[i] + 31·n) mod 2^16 and s2 = (Σ (n−i)·b[i] + 31·n(n+1)/2) mod 2^16 |
| RollSum.UpdateEmpty | pkg/hashing/rollsum.go:45-54 | Update of an empty buffer leaves s1 and s2 unchanged |
| RollSum.UpdateComposes | pkg/hashing/rollsum.go:40-55 | Update(a) followed by Update(b) leaves the same s1 and s2 as Update(a + b) |
| RollSum.S1Composes | pkg/hashing/rollsum.go:42-53 | the s1 half of UpdateComposes |
| RollSum.S2Composes | pkg/hashing/rollsum.go:43-54 | the s2 half of UpdateComposes |
| RollSum.WeightedAppend | pkg/hashing/rollsum.go:45-48 | the weighted sum of a + b is that of a, plus len(b) times the byte sum of a, plus that of b: every byte of a meets len(b) more running sums |
| RollSum.SumAppend | pkg/hashing/rollsum.go:45-47 | the byte sum accumulated into s1 is additive over concatenation |
| RollSum.TriangleAppend | pkg/hashing/rollsum.go:52 | the s2 offset count for m + n bytes is that of m, plus m·n, plus that of n |
| RollSum.SimpleRoller.Digest | pkg/hashing/rollsum.go:57-65 | returns four bytes, s2 high, s2 low, s1 high, s1 low, and changes nothing |
| RollSum.DigestBytes | pkg/hashing/rollsum.go:57-65 | the digest is 4 bytes long |
| RollSum.DigestBytesValues | pkg/hashing/rollsum.go:59-62 | bytes 0–1 of the digest read back big-endian as s2 and bytes 2–3 as s1 |
| RollSum.DigestBytesUnique | pkg/hashing/rollsum.go:57-65 | any 4 bytes whose halves read back as s2 and s1 are the digest: the digest decodes uniquely |
| Streams.Reader.Read | pkg/hashing/singature.go:51 | a Read delivers min(room in the buffer, per-Read limit, bytes left) bytes into the front of the buffer and consumes them |
| Streams.Writer.Write | pkg/hashing/singature.go:68-79 | a write appends the bytes that fit and reports failure exactly when it was short |
| Streams.ReadFull | pkg/hashing/singature.go:51 | io.ReadFull fills the buffer with min(buffer length, bytes left) bytes, whatever the per-Read limit |
| StrongHash.Md4Hasher.Reset | pkg/hashing/singature.go:49 | Reset empties what the hasher has absorbed |
| StrongHash.Md4Hasher.constructor | pkg/hashing/singature.go:22 | md4.New(): a hasher over the given digest function that has absorbed nothing |
| StrongHash.Md4Hasher.Write | pkg/hashing/singature.go:58-61 | hashing a block absorbs all of it and reports its full length |
| StrongHash.Md4Hasher.Sum | pkg/hashing/singature.go:74 | Sum is the 16-byte MD4 digest of what was absorbed since Reset |
| Signature.BigEndian32 | pkg/hashing/singature.go:99-100 | PutUint32 writes 4 bytes |
| Signature.Uint32OfBigEndian32 | pkg/hashing/singature.go:99-100 | the 4 bytes PutUint32 writes read back big-endian as the value written |
| Signature.BigEndian32OfUint32 | pkg/hashing/singature.go:99-100 | every 4 bytes are the encoding of their big-endian value: the encoding is a bijection |
| Signature.PutUint32 | pkg/hashing/singature.go:99-100 | PutUint32 into a buffer sets exactly the 4 bytes at the offset to the big-endian value |
| Signature.Header | pkg/hashing/singature.go:92-100 | the header is 12 bytes |
| Signature.HeaderLayout | pkg/hashing/singature.go:92-100 | the header is 'r' 's' 0x01 0x36, then blockSize and strongSumLen, each truncated to uint32, big-endian at offsets 4 and 8 |
| Signature.SigGen.WriteHeader | pkg/hashing/singature.go:89-107 | writes the header in one call, cut off by the room left; reports an error exactly when the write was short |
| Signature.SigGen.constructor | pkg/hashing/singature.go:19-27 | NewSigGen keeps blockSize, sets weakSumLen 4 and strongSumLen 8, and makes a fresh hasher that has absorbed nothing and a fresh roller whose count, s1 and s2 are zero |
| Signature.OutcomeFor | pkg/hashing/singature.go:41-79 | defines Compute's result: success when the signature fits the room, else the error of the write the cut falls in |
| Signature.FailureAt | pkg/hashing/singature.go:41-79 | defines which write fails first: the header write if the cut is in the first 12 bytes, else the write of the record the cut falls in |
| Signature.RecordFailureAt | pkg/hashing/singature.go:68-79 | defines which half of a record fails: the weak-sum write when the cut is in its first 4 bytes, else the strong-sum write |
| Signature.WeakSum | pkg/hashing/singature.go:63-65 | a block's weak sum is 4 bytes |
| Signature.WeakSumClosedForm | pkg/hashing/singature.go:49-65 | the weak sum of a block, with a freshly reset roller, holds s2 = (Σ (n−i)·b[i] + 31·n(n+1)/2) mod 2^16 and s1 = (Σ b[i] + 31·n) mod 2^16, big-endian |
| Signature.Record | pkg/hashing/singature.go:63-75 | a record is 12 bytes |
| Signature.RecordLayout | pkg/hashing/singature.go:63-75 | a record is the block's weak sum followed by the first 8 bytes of its MD4 digest |
| Signature.RecordPrefix | pkg/hashing/singature.go:68-78 | what a cut-off record write leaves is a prefix of the weak sum, or the weak sum and a prefix of the strong sum |
| Signature.Records | pkg/hashing/singature.go:47-84 | the records of k blocks are 12·k bytes |
| Signature.RecordsAppend | pkg/hashing/singature.go:47-84 | the records of consecutive runs of blocks are their records in order |
| Signature.RecordAt | pkg/hashing/singature.go:47-84 | record k of the signature body is at offset 12·k and is the record of block k |
| Signature.ConcatAppend | pkg/hashing/singature.go:47-84 | the bytes of the blocks read, with one more block, are those bytes followed by it |
| Signature.Blocks | pkg/hashing/singature.go:46-84 | defines the blocks the loop reads: each Read asks for a block; a Read of 0 bytes stops before any block, a Read short of a block stops after its block, a full block lets the loop go on |
| Signature.BlocksShape | pkg/hashing/singature.go:46-84 | for any reader, the blocks read are a prefix of the input in order; each has 1 to blockSize bytes, and all but the last are full |
| Signature.SignatureOf | pkg/hashing/singature.go:38-87 | defines the signature Compute writes when every write succeeds: the header, then the records of Blocks(input) in order |
| Signature.FullReadBlocks | pkg/hashing/singature.go:46-84 | when every Read fills the buffer, the blocks join back to the input, there are ceil(n / blockSize) of them, none is empty, and all but the last are full |
| Signature.FullReadConcat | pkg/hashing/singature.go:46-84 | when every Read fills the buffer, the blocks join back to the input |
| Signature.FullReadCount | pkg/hashing/singature.go:51-55 | when every Read fills the buffer there are ceil(n / blockSize) blocks, with no trailing empty block for a multiple of blockSize |
| Signature.FullReadSizes | pkg/hashing/singature.go:51-83 | when every Read fills the buffer, every block has 1 to blockSize bytes and all but the last have blockSize |
| Signature.FullReadBlockAt | pkg/hashing/singature.go:46-84 | when every Read fills the buffer, block k exists whenever k·blockSize < n and is input[k·blockSize .. min((k+1)·blockSize, n)] |
| Signature.ChunkBeyondBlock | pkg/hashing/singature.go:46-51 | a reader that delivers at least a block per Read gives the same blocks whatever its limit |
| Signature.EmptyBaseline | pkg/hashing/singature.go:51-55 | an empty baseline gives a signature that is exactly the header |
| Signature.ZeroBlockSize | pkg/hashing/singature.go:46-55 | blockSize 0 reads nothing, and the signature is the bare header |
| Signature.SignatureLength | pkg/hashing/singature.go:19-27 | with full reads the signature is 12 + 12·ceil(n / blockSize) bytes and starts with the header |
| Signature.SignatureRecordAt | pkg/hashing/singature.go:49-75 | the record at offset 12 + 12·k is the weak sum and 8-byte strong sum of block k alone, so roller and hasher start afresh on each block |
| Signature.SignaturePrefix | pkg/hashing/singature.go:41-44 | a write cut off inside the header leaves a prefix of the header, whatever follows |
| Signature.ShortReadDropsData | pkg/hashing/singature.go:80-83 | a reader that delivers less than a block per Read ends the signature after its first Read, and the blocks no longer join back to the input |
| Signature.ShortReadExample | pkg/hashing/singature.go:80-83 | "ABCDEFGH", 4-byte blocks, 2 bytes per Read: the signature covers "AB" only; full reads give "ABCD" and "EFGH" |
| Signature.HeaderThenRecords | pkg/hashing/singature.go:41-44 | the header written in full, then the records cut off, is the signature cut off; a record failure here is the signature's first failure |
| Signature.CutInRecord | pkg/hashing/singature.go:68-79 | a failure inside the record after k whole records leaves the signature cut off at the room there was; the weak write fails if the cut is in its first 4 bytes, else the strong write |
| Signature.WroteRecord | pkg/hashing/singature.go:68-79 | writing a whole record after the records of the blocks so far gives the records of those blocks and the new one |
| Signature.BlockStep | pkg/hashing/singature.go:51-83 | one Read of n bytes takes block n: none if n is 0; then more blocks follow if n is blockSize, none otherwise |
| Signature.SigGen.Absorb | pkg/hashing/singature.go:58-65 | after reset, feeding a block to the hasher and roller gives its weak sum, leaves exactly the block in the hasher, leaves the roller at the from-scratch s1 and s2 of the block, and counts the block's bytes |
| Signature.SigGen.WriteBlock | pkg/hashing/singature.go:57-79 | the output grows by the block's record cut off at the room left, and the room shrinks by as much; the error is the weak-sum write failing if fewer than 4 bytes fit, else the strong-sum write failing if fewer than 12 fit; hasher and roller hold the block |
| Signature.SigGen.ComputeStep | pkg/hashing/singature.go:49-79 | a turn of the loop resets hasher and roller and reads one block into the buffer; a Read of 0 bytes ends without writing; else it writes that block's record as WriteBlock does, and hasher and roller hold exactly that block |
| Signature.ReadThroughCut | pkg/hashing/singature.go:46-83 | when the cut falls in the record of block k (0-based), the reader has delivered exactly blocks 0 to k, which is room / 12 + 1 blocks |
| Signature.RecordsCut | pkg/hashing/singature.go:46-83 | a record write that fails after the records of the blocks before it leaves the records of all blocks cut off at the room there was, the room used up, the weak or strong error by where the cut falls, and the reader just past the block whose record failed |
| Signature.RecordsWhole | pkg/hashing/singature.go:80-86 | when the loop ends with every record written, the output is the records in full, which fitted in the room, and the room shrank by their length |
| Signature.SigGen.ComputeTurn | pkg/hashing/singature.go:47-84 | one turn of the loop keeps its invariant: on success the blocks read so far grow by the block read, their records are the output, and the input is those blocks and what is left; when it goes on, it has consumed input and the blocks still to come are Blocks of what is left; when it stops on success, the blocks read are all of Blocks(input); on failure the output and room are the records cut off at the room and the reader stopped after the failing block |
| Signature.SigGen.ComputeRecords | pkg/hashing/singature.go:46-86 | the loop writes the records of the blocks read, cut off at the room there was, and the room shrinks by as much; its error is that of the record the cut falls in, and the reader has then delivered exactly the blocks up to that record; on success the blocks read and what is left are the input |
| Signature.SigGen.ComputeWith | pkg/hashing/singature.go:38-87 | what Compute and ComputeReadFull state, for a reader whose Read delivers at most the per-Read limit, or a whole block when read by io.ReadFull |
| Signature.SigGen.Compute | pkg/hashing/singature.go:38-87 | the output is SignatureOf(input) cut off at the room there was, and the room left shrinks by as much; the error is that of the first write to fail; a header failure reads nothing; a record failure leaves the reader just past the first (room − 12) / 12 + 1 blocks; on success the blocks read and what is left are the input |
| Signature.SigGen.ComputeReadFull | pkg/hashing/singature.go:51 | like Compute with each block read by io.ReadFull: the output is the full-read signature cut off at the room there was, the room shrinks by as much, a record failure leaves the reader just past the failing block, on success with blockSize > 0 the whole input has been read, and with blockSize 0 nothing has |

## Left out

- MD4 itself (RFC 1320, from golang.org/x/crypto/md4) is a parameter: any deterministic function to 16 bytes.
- The check of the hasher's Write result (pkg/hashing/singature.go:58-61) is not modelled as a branch: hash.Hash's Write never fails, so the branch cannot be taken.
- Logging (`logrus.Debug`) is left out because it has no effect on the output.
- Error messages and the `%w` wrapping are left out. `Outcome` names which write failed: the header, the weak sum or the strong sum.
- Read errors are left out. gordiff discards them (pkg/hashing/singature.go:51), so a reader that fails looks like one that ran out of data. `Reader.rest` is what it delivers before that point.
- Streams.Reader.Read: a reader's per-Read limit `chunk` is one fixed number, so every Read delivers min(buffer room, `chunk`, bytes left). A reader whose count varies from call to call, such as a pipe on standard input whose first Reads fill a block and a later one falls short, is not covered: `Compute`'s contract then says nothing about where the signature stops. The single-limit reader already exhibits the short-read finding below.
- A writer that returns an error yet reports a full count is not modelled. `Writer.Write` fails exactly when it writes short, as io.Writer requires.
- Signature.SigGen.Compute: the state it leaves in the roller and the hasher is not stated. Compute resets both before every Read, so no later result depends on it.
- Signature.SigGen.ComputeReadFull: likewise, as are ComputeWith, ComputeRecords and ComputeTurn: what they leave in the roller and the hasher is not stated, for the same reason, and no other method of the generator reads them.
- `NewSigGen` (the `SigGen` constructor) takes blockSize as a `nat`: a negative block size, for which `make` panics, is not modelled.
- `RollSum.SimpleRoller.Update`: Go's int is taken to be 64 bits wide. On a 32-bit platform the offset term wraps at 2^32 instead, which also leaves s2 unchanged, but that case is not modelled.
- `RollSum.SimpleRoller.Update`: `count` is an unbounded int, so its overflow is not modelled; nothing reads it.
- The signature file reading side, delta generation (`pkg/hashing/delta.go`, a placeholder), the command line (`cmd/gordiff`), file opening (`pkg/files`) and the error values (`pkg/common`) are not part of this model.

## Findings

| source | as written | input that shows it | evidently intended | confidence | as-written member | corrected member |
|---|---|---|---|---|---|---|
| pkg/hashing/singature.go:51-83 | a single `Read` fills the block buffer, and any Read shorter than a block is taken as the end of the data | 8 bytes "ABCDEFGH", block size 4, a reader (a pipe) that delivers 2 bytes per Read: one record for "AB", and "CDEFGH" is never signed | read each block with `io.ReadFull`, so that only the end of the data gives a short block | medium, not executed | Signature.ShortReadDropsData | Signature.SigGen.ComputeReadFull |
