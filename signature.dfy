/** gordiff's rdiff-compatible signature generator: a 12-byte header, then one
    12-byte record per block of the baseline (the 4-byte weak sum of the block and the
    first 8 bytes of its MD4 digest). */
module Signature {
  import opened Bytes
  import opened RollSum
  import opened Streams
  import opened StrongHash

  const HeaderLen: nat := 12
  const WeakSumLen: nat := 4
  const StrongSumLen: nat := 8
  const RecordLen: nat := 12
  const Modulus32: nat := 0x1_0000_0000

  /** 'r', 's', 0x01 (signature file), 0x36 (rollsum + MD4). */
  const Magic: seq<byte> := [0x72, 0x73, 0x01, 0x36]

  // ---------------------------------------------------------------------------
  // Wire format

  /** binary.BigEndian.Uint32: the value of four big-endian bytes. */
  function Uint32Of(b: seq<byte>): uint32
    requires |b| == 4
  {
    b[0] as int * 0x100_0000 + b[1] as int * 0x1_0000 + b[2] as int * 0x100 + b[3]
  }

  /** binary.BigEndian.PutUint32: v as four big-endian bytes, byte(v>>24),
      byte(v>>16), byte(v>>8), byte(v). */
  function BigEndian32(v: uint32): (r: seq<byte>)
    ensures |r| == 4
  {
    [(v / 0x100_0000) % 0x100, (v / 0x1_0000) % 0x100, (v / 0x100) % 0x100, v % 0x100]
  }

  /** Encoding then decoding a uint32 gives it back. */
  lemma Uint32OfBigEndian32(v: uint32)
    ensures Uint32Of(BigEndian32(v)) == v
  {
    var a := v / 0x100;
    var c := a / 0x100;
    var d := c / 0x100;
    assert v == a * 0x100 + v % 0x100;
    assert a == c * 0x100 + a % 0x100;
    assert c == d * 0x100 + c % 0x100;
    assert v / 0x1_0000 == c && v / 0x100_0000 == d by {
      DivDiv(v);
    }
    assert d % 0x100 == d;
    var r := BigEndian32(v);
    assert r[0] == d && r[1] == c % 0x100 && r[2] == a % 0x100 && r[3] == v % 0x100;
  }

  /** Dividing by 2^16 or 2^24 is dividing by 2^8 two or three times. */
  lemma DivDiv(v: nat)
    ensures v / 0x1_0000 == (v / 0x100) / 0x100
    ensures v / 0x100_0000 == ((v / 0x100) / 0x100) / 0x100
  {
  }

  /** Decoding then re-encoding four bytes gives them back. */
  lemma BigEndian32OfUint32(b: seq<byte>)
    requires |b| == 4
    ensures BigEndian32(Uint32Of(b)) == b
  {
    var v := Uint32Of(b);
    var c := b[0] as int * 0x100 + b[1];
    var a := c * 0x100 + b[2];
    assert v == a * 0x100 + b[3];
    DivExact(a, b[3]);
    DivExact(c, b[2]);
    DivExact(b[0], b[1]);
    DivDiv(v);
    var r := BigEndian32(v);
    assert r[0] == b[0] && r[1] == b[1] && r[2] == b[2] && r[3] == b[3];
  }

  /** q·2^8 + r, with r a byte, divides back into q and r. */
  lemma DivExact(q: int, r: byte)
    ensures (q * 0x100 + r) / 0x100 == q && (q * 0x100 + r) % 0x100 == r
  {
  }

  /** The header: magic, then the block size and the strong-sum length, each converted
      to uint32 (so truncated modulo 2^32) and written big-endian. */
  function Header(blockSize: nat, strongSumLen: nat): (h: seq<byte>)
    ensures |h| == HeaderLen
  {
    Magic + BigEndian32(blockSize % Modulus32) + BigEndian32(strongSumLen % Modulus32)
  }

  /** The header starts with the magic and holds the two lengths, modulo 2^32, as
      big-endian uint32 values at offsets 4 and 8. */
  lemma HeaderLayout(blockSize: nat, strongSumLen: nat)
    ensures var h := Header(blockSize, strongSumLen);
      && h[..4] == Magic
      && Uint32Of(h[4..8]) == blockSize % Modulus32
      && Uint32Of(h[8..12]) == strongSumLen % Modulus32
  {
    var h := Header(blockSize, strongSumLen);
    assert h[4..8] == BigEndian32(blockSize % Modulus32);
    assert h[8..12] == BigEndian32(strongSumLen % Modulus32);
    Uint32OfBigEndian32(blockSize % Modulus32);
    Uint32OfBigEndian32(strongSumLen % Modulus32);
  }

  /** The weak sum of a block: the roller digest after Init and Update(block). */
  function WeakSum(block: seq<byte>): (w: seq<byte>)
    ensures |w| == WeakSumLen
  {
    DigestBytes(NextS1(0, block), NextS2(0, 0, block))
  }

  /** The weak sum is s2 then s1, big-endian, with s1 and s2 the rdiff closed forms:
      s1 = Σ b[i] + 31·n and s2 = Σ (n - i)·b[i] + 31·n(n+1)/2, both modulo 2^16. */
  lemma WeakSumClosedForm(block: seq<byte>)
    ensures var w := WeakSum(block);
      && w[0] as int * 0x100 + w[1] == (Weighted(block) + RollsumOffset * Triangle(|block|)) % Modulus16
      && w[2] as int * 0x100 + w[3] == (Sum(block) + RollsumOffset * |block|) % Modulus16
  {
    FromScratch(block);
    DigestBytesValues(NextS1(0, block), NextS2(0, 0, block));
  }

  /** One record: the weak sum, then the first 8 bytes of the block's MD4 digest. */
  function Record(block: seq<byte>, md4: Md4Func): (r: seq<byte>)
    ensures |r| == RecordLen
  {
    WeakSum(block) + md4(block)[..StrongSumLen]
  }

  /** A record is the 4-byte weak sum followed by the 8-byte truncated MD4 digest. */
  lemma RecordLayout(block: seq<byte>, md4: Md4Func)
    ensures var r := Record(block, md4);
      && r[..WeakSumLen] == WeakSum(block)
      && r[WeakSumLen..] == md4(block)[..StrongSumLen]
  {
  }

  /** The first m bytes of a record: a prefix of the weak sum, or the weak sum and a
      prefix of the strong sum. */
  lemma RecordPrefix(block: seq<byte>, md4: Md4Func, m: nat)
    requires m <= RecordLen
    ensures m <= WeakSumLen ==> Record(block, md4)[..m] == WeakSum(block)[..m]
    ensures WeakSumLen <= m ==>
      Record(block, md4)[..m] == WeakSum(block) + md4(block)[..StrongSumLen][..m - WeakSumLen]
  {
    var w, s := WeakSum(block), md4(block)[..StrongSumLen];
    assert Record(block, md4) == w + s;
    if WeakSumLen <= m {
      assert (w + s)[..m] == w + s[..m - WeakSumLen];
    }
  }

  /** Writing all of x and then the first k bytes of y appends x + y[..k]. */
  lemma WriteAfter(w: seq<byte>, x: seq<byte>, y: seq<byte>, k: nat)
    requires k <= |y|
    ensures w + x[..|x|] + y[..k] == w + (x + y[..k])
  {
    assert x[..|x|] == x;
  }

  /** The records of a sequence of blocks, in order. */
  function Records(blocks: seq<seq<byte>>, md4: Md4Func): (r: seq<byte>)
    ensures |r| == RecordLen * |blocks|
  {
    if blocks == [] then [] else Record(blocks[0], md4) + Records(blocks[1..], md4)
  }

  /** The bytes of a sequence of blocks, joined. */
  function Concat(blocks: seq<seq<byte>>): seq<byte>
  {
    if blocks == [] then [] else blocks[0] + Concat(blocks[1..])
  }

  // ---------------------------------------------------------------------------
  // Block splitting

  /** The blocks Compute reads from a reader that holds `data` and delivers at most
      `chunk` bytes per Read: each Read asks for blockSize bytes; a Read of zero bytes
      ends the signature, and so does any Read shorter than blockSize, after its block. */
  function Blocks(data: seq<byte>, blockSize: nat, chunk: nat): seq<seq<byte>>
    decreases |data|
  {
    var n := Min(blockSize, Min(chunk, |data|));
    if n == 0 then []
    else if n != blockSize then [data[..n]]
    else [data[..n]] + Blocks(data[n..], blockSize, chunk)
  }

  /** The signature Compute writes for `data`, when every write succeeds. */
  function SignatureOf(data: seq<byte>, blockSize: nat, chunk: nat, md4: Md4Func): seq<byte>
  {
    Header(blockSize, StrongSumLen) + Records(Blocks(data, blockSize, chunk), md4)
  }

  function CeilDiv(n: nat, d: nat): nat
    requires d > 0
  {
    (n + d - 1) / d
  }

  lemma {:induction false} ConcatAppend(blocks: seq<seq<byte>>, b: seq<byte>)
    ensures Concat(blocks + [b]) == Concat(blocks) + b
  {
    if blocks == [] {
      assert [] + [b] == [b];
    } else {
      assert (blocks + [b])[1..] == blocks[1..] + [b];
      ConcatAppend(blocks[1..], b);
    }
  }

  lemma {:induction false} RecordsAppend(x: seq<seq<byte>>, y: seq<seq<byte>>, md4: Md4Func)
    ensures Records(x + y, md4) == Records(x, md4) + Records(y, md4)
  {
    if x == [] {
      assert x + y == y;
    } else {
      assert (x + y)[1..] == x[1..] + y;
      RecordsAppend(x[1..], y, md4);
    }
  }

  /** Record k of Records(blocks) is Record(blocks[k]), at offset 12·k. */
  lemma {:induction false} RecordAt(blocks: seq<seq<byte>>, md4: Md4Func, k: nat)
    requires k < |blocks|
    ensures Records(blocks, md4)[RecordLen * k..RecordLen * (k + 1)] == Record(blocks[k], md4)
  {
    if k > 0 {
      RecordAt(blocks[1..], md4, k - 1);
      var r := Records(blocks, md4);
      var t := Records(blocks[1..], md4);
      assert r == Record(blocks[0], md4) + t;
      assert r[RecordLen * k..RecordLen * (k + 1)] == t[RecordLen * (k - 1)..RecordLen * k];
    }
  }

  lemma DivUnique(x: nat, d: nat, q: nat)
    requires d > 0 && q * d <= x < (q + 1) * d
    ensures x / d == q
  {
    var q', r := x / d, x % d;
    assert x == q' * d + r && 0 <= r < d;
    if q' < q {
      MulMono(q' + 1, q, d);
    } else if q' > q {
      MulMono(q + 1, q', d);
    }
  }

  lemma MulMono(a: nat, b: nat, d: nat)
    requires a <= b
    ensures a * d <= b * d
  {
  }

  /** With reads that fill the buffer (chunk >= blockSize > 0) the blocks are the
      consecutive blockSize slices of data, the last one possibly shorter but never
      empty; they join back to data, and there are ceil(|data| / blockSize) of them,
      so a length that is a multiple of blockSize has no trailing empty block. */
  lemma FullReadBlocks(data: seq<byte>, blockSize: nat, chunk: nat)
    requires 0 < blockSize <= chunk
    ensures var bl := Blocks(data, blockSize, chunk);
      && Concat(bl) == data
      && |bl| == CeilDiv(|data|, blockSize)
      && (forall k :: 0 <= k < |bl| ==> 1 <= |bl[k]| <= blockSize)
      && (forall k :: 0 <= k < |bl| - 1 ==> |bl[k]| == blockSize)
  {
    FullReadConcat(data, blockSize, chunk);
    FullReadCount(data, blockSize, chunk);
    FullReadSizes(data, blockSize, chunk);
  }

  lemma {:induction false} FullReadConcat(data: seq<byte>, blockSize: nat, chunk: nat)
    requires 0 < blockSize <= chunk
    ensures Concat(Blocks(data, blockSize, chunk)) == data
    decreases |data|
  {
    var bl := Blocks(data, blockSize, chunk);
    if 0 < |data| < blockSize {
      assert data[..|data|] == data;
      assert bl == [data];
      assert Concat(bl) == data + Concat([]);
    } else if |data| >= blockSize {
      var tail := data[blockSize..];
      FullReadConcat(tail, blockSize, chunk);
      assert bl == [data[..blockSize]] + Blocks(tail, blockSize, chunk);
      assert bl[1..] == Blocks(tail, blockSize, chunk);
      assert data == data[..blockSize] + tail;
    }
  }

  lemma {:induction false} FullReadCount(data: seq<byte>, blockSize: nat, chunk: nat)
    requires 0 < blockSize <= chunk
    ensures |Blocks(data, blockSize, chunk)| == CeilDiv(|data|, blockSize)
    decreases |data|
  {
    var n := |data|;
    if n == 0 {
      DivUnique(blockSize - 1, blockSize, 0);
    } else if n < blockSize {
      DivUnique(n + blockSize - 1, blockSize, 1);
    } else {
      var tail := data[blockSize..];
      FullReadCount(tail, blockSize, chunk);
      CeilStep(n, blockSize);
    }
  }

  /** One full block fewer is one record fewer: ceil(n/d) == ceil((n-d)/d) + 1. */
  lemma CeilStep(n: nat, d: nat)
    requires 0 < d <= n
    ensures CeilDiv(n, d) == CeilDiv(n - d, d) + 1
  {
    var x := n - 1;
    var q := x / d;
    assert x == q * d + x % d;
    assert CeilDiv(n - d, d) == q;
    DivUnique(n + d - 1, d, q + 1) by {
      MulSucc(q, d);
      MulSucc(q + 1, d);
    }
  }

  lemma {:induction false} FullReadSizes(data: seq<byte>, blockSize: nat, chunk: nat)
    requires 0 < blockSize <= chunk
    ensures forall k :: 0 <= k < |Blocks(data, blockSize, chunk)| ==>
      1 <= |Blocks(data, blockSize, chunk)[k]| <= blockSize
    ensures forall k :: 0 <= k < |Blocks(data, blockSize, chunk)| - 1 ==>
      |Blocks(data, blockSize, chunk)[k]| == blockSize
    decreases |data|
  {
    var bl := Blocks(data, blockSize, chunk);
    if 0 < |data| < blockSize {
      assert data[..|data|] == data;
      assert bl == [data];
    } else if |data| >= blockSize {
      var tail := data[blockSize..];
      var tl := Blocks(tail, blockSize, chunk);
      FullReadSizes(tail, blockSize, chunk);
      assert bl == [data[..blockSize]] + tl;
      forall k | 0 <= k < |bl|
        ensures 1 <= |bl[k]| <= blockSize && (k < |bl| - 1 ==> |bl[k]| == blockSize)
      {
        if k > 0 {
          assert bl[k] == tl[k - 1];
          assert 1 <= |tl[k - 1]| <= blockSize;
          assert k - 1 < |tl| - 1 ==> |tl[k - 1]| == blockSize;
        } else {
          assert bl[0] == data[..blockSize];
        }
      }
    }
  }

  /** Whatever a Read delivers, the blocks read are a prefix of the data, in order;
      none is empty or longer than a block, and every one but the last is a full block,
      since only a full block lets the loop go on. */
  lemma {:induction false} BlocksShape(data: seq<byte>, blockSize: nat, chunk: nat)
    ensures Concat(Blocks(data, blockSize, chunk)) <= data
    ensures forall k :: 0 <= k < |Blocks(data, blockSize, chunk)| ==>
      1 <= |Blocks(data, blockSize, chunk)[k]| <= blockSize
    ensures forall k :: 0 <= k < |Blocks(data, blockSize, chunk)| - 1 ==>
      |Blocks(data, blockSize, chunk)[k]| == blockSize
    decreases |data|
  {
    var bl := Blocks(data, blockSize, chunk);
    var n := Min(blockSize, Min(chunk, |data|));
    if n != 0 {
      var head := data[..n];
      var tl := if n == blockSize then Blocks(data[n..], blockSize, chunk) else [];
      assert bl == [head] + tl;
      assert bl[1..] == tl;
      assert Concat(bl) == head + Concat(tl);
      if n == blockSize {
        BlocksShape(data[n..], blockSize, chunk);
      }
      assert Concat(tl) <= data[n..];
      assert data == head + data[n..];
      forall k | 0 <= k < |bl|
        ensures 1 <= |bl[k]| <= blockSize && (k < |bl| - 1 ==> |bl[k]| == blockSize)
      {
        if k > 0 {
          assert bl[k] == tl[k - 1];
        }
      }
    }
  }

  /** With full reads, every k with k·blockSize < |data| indexes a block, and block k
      is exactly data[k·blockSize .. min(k·blockSize + blockSize, |data|)]. */
  lemma {:induction false} FullReadBlockAt(data: seq<byte>, blockSize: nat, chunk: nat, k: nat)
    requires 0 < blockSize <= chunk
    requires k * blockSize < |data|
    ensures k < |Blocks(data, blockSize, chunk)|
    ensures Blocks(data, blockSize, chunk)[k] == data[k * blockSize..Min(k * blockSize + blockSize, |data|)]
    decreases k
  {
    if |data| < blockSize {
      assert k == 0 by {
        if k >= 1 {
          MulMono(1, k, blockSize);
        }
      }
      assert data[..|data|] == data;
    } else if k > 0 {
      FullReadBlockAtLater(data, blockSize, chunk, k);
    }
  }

  /** The step of FullReadBlockAt: block k of data is block k - 1 of what follows the
      first block. */
  lemma {:induction false} FullReadBlockAtLater(data: seq<byte>, blockSize: nat, chunk: nat, k: nat)
    requires 0 < blockSize <= chunk && blockSize <= |data|
    requires 0 < k && k * blockSize < |data|
    ensures k < |Blocks(data, blockSize, chunk)|
    ensures Blocks(data, blockSize, chunk)[k] == data[k * blockSize..Min(k * blockSize + blockSize, |data|)]
    decreases k, 1
  {
    var tail := data[blockSize..];
    var tl := Blocks(tail, blockSize, chunk);
    assert Blocks(data, blockSize, chunk) == [data[..blockSize]] + tl;
    var lo := (k - 1) * blockSize;
    assert lo + blockSize == k * blockSize by { MulSucc(k - 1, blockSize); }
    FullReadBlockAt(tail, blockSize, chunk, k - 1);
    var hi := Min(lo + blockSize, |tail|);
    assert tl[k - 1] == tail[lo..hi];
    assert hi + blockSize == Min(k * blockSize + blockSize, |data|);
    SliceShift(data, blockSize, lo, hi);
  }

  lemma SliceShift(data: seq<byte>, d: nat, lo: nat, hi: nat)
    requires d <= |data| && lo <= hi <= |data| - d
    ensures data[d..][lo..hi] == data[lo + d..hi + d]
  {
  }

  lemma MulSucc(k: nat, d: nat)
    ensures (k + 1) * d == k * d + d
  {
  }

  /** How much the reader delivers per Read stops mattering once it is at least a block. */
  lemma {:induction false} ChunkBeyondBlock(data: seq<byte>, blockSize: nat, chunk: nat)
    requires blockSize > 0 && chunk >= blockSize
    ensures Blocks(data, blockSize, chunk) == Blocks(data, blockSize, blockSize)
    decreases |data|
  {
    if |data| >= blockSize {
      ChunkBeyondBlock(data[blockSize..], blockSize, chunk);
    }
  }

  /** An empty baseline gives a signature that is exactly the header. */
  lemma EmptyBaseline(blockSize: nat, chunk: nat, md4: Md4Func)
    ensures SignatureOf([], blockSize, chunk, md4) == Header(blockSize, StrongSumLen)
  {
  }

  /** With full reads the signature is 12 + 12·ceil(n / blockSize) bytes long and
      starts with the header. */
  lemma SignatureLength(data: seq<byte>, blockSize: nat, chunk: nat, md4: Md4Func)
    requires 0 < blockSize <= chunk
    ensures var sig := SignatureOf(data, blockSize, chunk, md4);
      && |sig| == HeaderLen + RecordLen * CeilDiv(|data|, blockSize)
      && sig[..HeaderLen] == Header(blockSize, StrongSumLen)
  {
    FullReadBlocks(data, blockSize, chunk);
  }

  /** The record at offset 12 + 12·k is the weak sum and the 8-byte strong sum of
      block k alone: roller and hasher start afresh on every block. (FullReadBlockAt
      says which bytes block k holds.) */
  lemma SignatureRecordAt(data: seq<byte>, blockSize: nat, chunk: nat, md4: Md4Func, k: nat)
    requires k < |Blocks(data, blockSize, chunk)|
    ensures var sig := SignatureOf(data, blockSize, chunk, md4);
      var block := Blocks(data, blockSize, chunk)[k];
      var off := HeaderLen + RecordLen * k;
      && off + RecordLen <= |sig|
      && sig[off..off + WeakSumLen] == WeakSum(block)
      && sig[off + WeakSumLen..off + RecordLen] == md4(block)[..StrongSumLen]
  {
    var bl := Blocks(data, blockSize, chunk);
    var rs := Records(bl, md4);
    var off := HeaderLen + RecordLen * k;
    assert rs[RecordLen * k..RecordLen * k + RecordLen] == Record(bl[k], md4) by {
      RecordAt(bl, md4, k);
    }
    var sig := SignatureOf(data, blockSize, chunk, md4);
    assert sig == Header(blockSize, StrongSumLen) + rs;
    assert sig[off..off + RecordLen] == rs[RecordLen * k..RecordLen * k + RecordLen];
    RecordLayout(bl[k], md4);
  }

  /** The first m <= 12 bytes of a signature are those of its header. */
  lemma SignaturePrefix(data: seq<byte>, blockSize: nat, chunk: nat, md4: Md4Func, m: nat)
    requires m < HeaderLen
    ensures var sig := SignatureOf(data, blockSize, chunk, md4);
      HeaderLen <= |sig| && sig[..m] == Header(blockSize, StrongSumLen)[..m]
  {
    var h, rs := Header(blockSize, StrongSumLen), Records(Blocks(data, blockSize, chunk), md4);
    assert (h + rs)[..m] == h[..m];
  }

  /** A block size of zero reads nothing: the signature is the bare header. */
  lemma ZeroBlockSize(data: seq<byte>, chunk: nat, md4: Md4Func)
    ensures SignatureOf(data, 0, chunk, md4) == Header(0, StrongSumLen)
  {
  }

  /** As written, the first Read shorter than a block ends the signature, although
      io.Reader allows short reads before the end of the data: whatever follows is
      silently left out. */
  lemma ShortReadDropsData(data: seq<byte>, blockSize: nat, chunk: nat)
    requires 0 < chunk < blockSize && chunk < |data|
    ensures Blocks(data, blockSize, chunk) == [data[..chunk]]
    ensures Concat(Blocks(data, blockSize, chunk)) != data
  {
    assert Concat([data[..chunk]]) == data[..chunk] + Concat([]);
    assert |data[..chunk]| < |data|;
  }

  /** "ABCDEFGH" with 4-byte blocks from a reader that delivers 2 bytes per Read: the
      signature covers "AB" only, where full reads give "ABCD" and "EFGH". */
  lemma ShortReadExample()
    ensures Blocks([0x41, 0x42, 0x43, 0x44, 0x45, 0x46, 0x47, 0x48], 4, 2) == [[0x41, 0x42]]
    ensures Blocks([0x41, 0x42, 0x43, 0x44, 0x45, 0x46, 0x47, 0x48], 4, 4)
         == [[0x41, 0x42, 0x43, 0x44], [0x45, 0x46, 0x47, 0x48]]
  {
    var data: seq<byte> := [0x41, 0x42, 0x43, 0x44, 0x45, 0x46, 0x47, 0x48];
    assert data[..4] == [0x41, 0x42, 0x43, 0x44];
    assert data[4..] == [0x45, 0x46, 0x47, 0x48];
    assert data[4..][..4] == data[4..];
    assert data[4..][4..] == [];
    assert Blocks(data[4..][4..], 4, 4) == [];
    assert Blocks(data[4..], 4, 4) == [data[4..]];
    assert data[..2] == [0x41, 0x42];
  }

  // ---------------------------------------------------------------------------
  // The generator

  datatype SigError = HeaderWriteFailed | WeakSumWriteFailed | StrongSumWriteFailed
  datatype Outcome = Ok | Failed(error: SigError)

  /** The write that fails first when the signature stream has room for only `room`
      bytes: the header, or the weak or strong half of the record the cut falls in. */
  function FailureAt(room: nat): SigError
  {
    if room < HeaderLen then HeaderWriteFailed else RecordFailureAt(room - HeaderLen)
  }

  /** The write that fails first when the records have room for only `room` bytes. */
  function RecordFailureAt(room: nat): SigError
  {
    if room % RecordLen < WeakSumLen then WeakSumWriteFailed else StrongSumWriteFailed
  }

  /** What Compute returns when the signature is `total` bytes and the stream has
      room for `room`. */
  function OutcomeFor(total: nat, room: nat): Outcome
  {
    if total <= room then Ok else Failed(FailureAt(room))
  }

  /** binary.BigEndian.PutUint32 into b[off..off + 4]. */
  method PutUint32(b: array<byte>, off: nat, v: uint32)
    requires off + 4 <= b.Length
    modifies b
    ensures b[off..off + 4] == BigEndian32(v)
    ensures b[..off] == old(b[..off]) && b[off + 4..] == old(b[off + 4..])
  {
    b[off] := (v / 0x100_0000) % 0x100;
    b[off + 1] := (v / 0x1_0000) % 0x100;
    b[off + 2] := (v / 0x100) % 0x100;
    b[off + 3] := v % 0x100;
  }

  /** Writing the 12-byte header and then the records, each cut off by the room left,
      is writing the signature cut off by the room there was; and the first write to
      fail is the one FailureAt names. */
  lemma HeaderThenRecords(w: seq<byte>, h: seq<byte>, rs: seq<byte>, room: nat)
    requires |h| == HeaderLen <= room
    ensures var m := Min(|rs|, room - HeaderLen);
      w + h + rs[..m] == w + (h + rs)[..Min(|h + rs|, room)]
    ensures (if |rs| <= room - HeaderLen then Ok else Failed(RecordFailureAt(room - HeaderLen)))
         == OutcomeFor(|h + rs|, room)
    ensures HeaderLen + Min(|rs|, room - HeaderLen) == Min(|h + rs|, room)
  {
    var m := Min(|rs|, room - HeaderLen);
    assert (h + rs)[..HeaderLen + m] == h + rs[..m];
  }

  lemma AppendAssoc<T>(a: seq<T>, b: seq<T>, c: seq<T>)
    ensures a + (b + c) == (a + b) + c
  {
  }

  /** One Read of Compute's loop, from a reader that still holds `before` after the
      blocks `done` have been read from `data`: a Read of n bytes takes block n, and
      then either more blocks follow (n == blockSize) or none do. */
  lemma BlockStep(data: seq<byte>, done: seq<seq<byte>>, before: seq<byte>, n: nat, blockSize: nat, chunk: nat)
    requires Blocks(data, blockSize, chunk) == done + Blocks(before, blockSize, chunk)
    requires data == Concat(done) + before
    requires n == Min(blockSize, Min(chunk, |before|))
    ensures n == 0 ==> Blocks(data, blockSize, chunk) == done && Blocks(before, blockSize, chunk) == []
    ensures 0 < n ==> data == Concat(done + [before[..n]]) + before[n..]
    ensures 0 < n == blockSize ==>
      Blocks(data, blockSize, chunk) == (done + [before[..n]]) + Blocks(before[n..], blockSize, chunk)
    ensures 0 < n != blockSize ==> Blocks(data, blockSize, chunk) == done + [before[..n]]
    ensures 0 < n ==>
      Blocks(before, blockSize, chunk) == [before[..n]] + (if n == blockSize then Blocks(before[n..], blockSize, chunk) else [])
  {
    if 0 < n {
      var block, rest := before[..n], before[n..];
      var later := if n == blockSize then Blocks(rest, blockSize, chunk) else [];
      assert Blocks(before, blockSize, chunk) == [block] + later;
      AppendAssoc(done, [block], later);
      assert data == Concat(done + [block]) + rest by {
        assert before == block + rest;
        ConcatAppend(done, block);
      }
    }
  }

  /** Writing a whole record after the records of done gives the records of done and
      the new block. */
  lemma WroteRecord(w: seq<byte>, done: seq<seq<byte>>, block: seq<byte>, md4: Md4Func, m: int)
    requires m == RecordLen
    ensures w + Records(done, md4) + Record(block, md4)[..m]
         == w + Records(done + [block], md4)
  {
    RecordsAppend(done, [block], md4);
    assert Records([block], md4) == Record(block, md4) + Records([], md4);
    assert Record(block, md4)[..RecordLen] == Record(block, md4);
  }

  /** A write failure inside the record that follows the records p: what was written
      is the records cut off at the room there was, and which write failed depends on
      where in its record the cut falls. */
  lemma CutInRecord(w: seq<byte>, p: seq<byte>, rec: seq<byte>, t: seq<byte>, d: nat, room: nat)
    requires |p| == RecordLen * d && |rec| == RecordLen
    requires |p| <= room < |p| + RecordLen
    ensures |p + (rec + t)| > room
    ensures w + p + rec[..Min(RecordLen, room - |p|)] == w + (p + (rec + t))[..Min(|p + (rec + t)|, room)]
    ensures RecordFailureAt(room)
         == if room - |p| < WeakSumLen then WeakSumWriteFailed else StrongSumWriteFailed
  {
    var m := room - |p|;
    assert (p + (rec + t))[..|p| + m] == p + (rec + t)[..m];
    assert (rec + t)[..m] == rec[..m];
    assert room % RecordLen == m by {
      assert room == RecordLen * d + m;
    }
  }

  /** When the write of block k's record fails, with `room` bytes of room for the
      records, the reader has delivered blocks 0..k and no more: k is room / 12, the
      number of records that fit whole. */
  lemma ReadThroughCut(data: seq<byte>, bl: seq<seq<byte>>, done: seq<seq<byte>>, block: seq<byte>,
                       later: seq<seq<byte>>, rest: seq<byte>, room: nat)
    requires bl == (done + [block]) + later
    requires data == Concat(done + [block]) + rest
    requires RecordLen * |done| <= room < RecordLen * |done| + RecordLen
    ensures DeliveredThrough(data, bl, room, rest)
  {
    DivUnique(room, RecordLen, |done|);
    assert bl[..|done| + 1] == done + [block];
  }

  /** Compute's loop when the write of block k's record fails: what was written is the
      records of all the blocks cut off at the room there was, the room is used up, and
      the reader has delivered blocks 0..k. */
  lemma RecordsCut(w0: seq<byte>, data: seq<byte>, bl: seq<seq<byte>>, done: seq<seq<byte>>, block: seq<byte>,
                   later: seq<seq<byte>>, rest: seq<byte>, md4: Md4Func, room0: nat, written: seq<byte>, room: nat)
    requires bl == (done + [block]) + later
    requires data == Concat(done + [block]) + rest
    requires RecordLen * |done| <= room0 < RecordLen * |done| + RecordLen
    requires written == w0 + Records(done, md4) + Record(block, md4)[..room0 - RecordLen * |done|]
    requires room == room0 - |written| + |w0|
    ensures var rs := Records(bl, md4);
      && |rs| > room0
      && written == w0 + rs[..Min(|rs|, room0)]
      && room == room0 - Min(|rs|, room0)
    ensures RecordFailureAt(room0)
         == if room0 - RecordLen * |done| < WeakSumLen then WeakSumWriteFailed else StrongSumWriteFailed
    ensures DeliveredThrough(data, bl, room0, rest)
  {
    var rs, p, rec, t := Records(bl, md4), Records(done, md4), Record(block, md4), Records(later, md4);
    assert rs == p + (rec + t) by {
      AppendAssoc(done, [block], later);
      RecordsAppend(done, [block] + later, md4);
      RecordsAppend([block], later, md4);
      assert Records([block], md4) == rec + Records([], md4);
    }
    assert |rs| > room0 && written == w0 + rs[..Min(|rs|, room0)] by {
      CutInRecord(w0, p, rec, t, |done|, room0);
    }
    assert RecordFailureAt(room0)
        == if room0 - RecordLen * |done| < WeakSumLen then WeakSumWriteFailed else StrongSumWriteFailed by {
      CutInRecord(w0, p, rec, t, |done|, room0);
    }
    assert room == room0 - Min(|rs|, room0);
    ReadThroughCut(data, bl, done, block, later, rest, room0);
  }

  /** Compute's loop when every block's record was written whole: the output is the
      records of all the blocks, and they fitted in the room there was. */
  lemma RecordsWhole(w0: seq<byte>, done: seq<seq<byte>>, md4: Md4Func, room0: nat, written: seq<byte>, room: nat)
    requires written == w0 + Records(done, md4)
    requires room == room0 - |written| + |w0|
    ensures var rs := Records(done, md4);
      && |rs| <= room0
      && written == w0 + rs[..Min(|rs|, room0)]
      && room == room0 - Min(|rs|, room0)
  {
    var rs := Records(done, md4);
    assert rs[..|rs|] == rs;
  }

  /** When the write of a record fails with `room` bytes of room for the records, the
      reader has delivered exactly the blocks whose records fit whole and the block whose
      record the cut falls in, the first room / 12 + 1 blocks of bl, and still holds rest. */
  ghost predicate DeliveredThrough(data: seq<byte>, bl: seq<seq<byte>>, room: nat, rest: seq<byte>)
  {
    var k := room / RecordLen + 1;
    k <= |bl| && data == Concat(bl[..k]) + rest
  }

  /** The loop invariant of Compute: the blocks `done` have been read from `data`, and
      the reader still holds `rest`. */
  ghost predicate ReadSoFar(data: seq<byte>, done: seq<seq<byte>>, rest: seq<byte>, blockSize: nat, chunk: nat)
  {
    && Blocks(data, blockSize, chunk) == done + Blocks(rest, blockSize, chunk)
    && data == Concat(done) + rest
  }

  /** sgen: the signature generator NewSigGen builds. */
  class SigGen {
    const blockSize: nat
    const md4hasher: Md4Hasher
    const weakSumLen: nat
    const strongSumLen: nat
    const roller: SimpleRoller

    ghost predicate Valid()
    {
      weakSumLen == WeakSumLen && strongSumLen == StrongSumLen
    }

    /** NewSigGen(blockSize): 4-byte weak sums, 8-byte strong sums, a fresh MD4 hasher
        and a fresh roller. `md4` stands for golang.org/x/crypto/md4. */
    constructor (blockSize: nat, md4: Md4Func)
      ensures Valid()
      ensures this.blockSize == blockSize && md4hasher.md4 == md4
      ensures fresh(md4hasher) && fresh(roller)
      ensures roller.count == 0 && roller.s1 == 0 && roller.s2 == 0 && md4hasher.data == []
    {
      this.blockSize := blockSize;
      md4hasher := new Md4Hasher(md4);
      weakSumLen := WeakSumLen;
      strongSumLen := StrongSumLen;
      roller := new SimpleRoller();
    }

    /** writeHeader: fills a 12-byte buffer with the header and writes it in one call;
        a short or failed write is an error. */
    method WriteHeader(out: Writer) returns (r: Outcome)
      modifies out
      ensures var m := Min(HeaderLen, old(out.room));
        && out.written == old(out.written) + Header(blockSize, strongSumLen)[..m]
        && out.room == old(out.room) - m
      ensures r == if HeaderLen <= old(out.room) then Ok else Failed(HeaderWriteFailed)
    {
      var headerBuff := new byte[HeaderLen];
      headerBuff[0] := 0x72;  // 'r'
      headerBuff[1] := 0x73;  // 's'
      headerBuff[2] := 0x01;  // signature file
      headerBuff[3] := 0x36;  // rollsum + MD4
      PutUint32(headerBuff, 4, blockSize % Modulus32);
      PutUint32(headerBuff, 8, strongSumLen % Modulus32);
      assert headerBuff[..] == headerBuff[..4] + headerBuff[4..8] + headerBuff[8..];
      assert headerBuff[..] == Header(blockSize, strongSumLen);
      var n, failed := out.Write(headerBuff[..]);
      if n != headerBuff.Length || failed {
        return Failed(HeaderWriteFailed);
      }
      r := Ok;
    }

    /** Feeds a block to a fresh hasher and a fresh roller and returns the roller's
        digest, the block's weak sum. */
    method Absorb(block: seq<byte>) returns (wSum: seq<byte>)
      requires roller.s1 == 0 && roller.s2 == 0 && md4hasher.data == []
      modifies roller, md4hasher
      ensures wSum == WeakSum(block) && md4hasher.data == block
      ensures roller.s1 == NextS1(0, block) && roller.s2 == NextS2(0, 0, block)
      ensures roller.count == old(roller.count) + |block|
    {
      var mdCnt := md4hasher.Write(block);
      roller.Update(block);
      wSum := roller.Digest();
    }

    /** The body of Compute's loop once a block has been read into the buffer: hash the
        block, absorb it into the roller, write its weak sum, then the first 8 bytes of
        its MD4 digest; a short or failed write is an error. */
    method WriteBlock(block: seq<byte>, sigFile: Writer) returns (r: Outcome)
      requires Valid()
      requires roller.s1 == 0 && roller.s2 == 0 && md4hasher.data == []
      modifies roller, md4hasher, sigFile
      ensures var m := Min(RecordLen, old(sigFile.room));
        && sigFile.written == old(sigFile.written) + Record(block, md4hasher.md4)[..m]
        && sigFile.room == old(sigFile.room) - m
      ensures r == if RecordLen <= old(sigFile.room) then Ok
                   else if old(sigFile.room) < WeakSumLen then Failed(WeakSumWriteFailed)
                   else Failed(StrongSumWriteFailed)
      ensures md4hasher.data == block
      ensures roller.s1 == NextS1(0, block) && roller.s2 == NextS2(0, 0, block)
      ensures roller.count == old(roller.count) + |block|
    {
      ghost var rec := Record(block, md4hasher.md4);
      ghost var w0 := sigFile.written;
      var wSumBuffer := Absorb(block);
      var wrCnt, failed := sigFile.Write(wSumBuffer);
      if wrCnt != weakSumLen || failed {
        RecordPrefix(block, md4hasher.md4, wrCnt);
        return Failed(WeakSumWriteFailed);
      }
      var mdSum := md4hasher.Sum();
      wrCnt, failed := sigFile.Write(mdSum[..strongSumLen]);
      RecordPrefix(block, md4hasher.md4, WeakSumLen + wrCnt);
      WriteAfter(w0, wSumBuffer, mdSum[..strongSumLen], wrCnt);
      if wrCnt != strongSumLen || failed {
        return Failed(StrongSumWriteFailed);
      }
      r := Ok;
    }

    /** Compute: writes the header, then one record per block read from inFile, and
        stops at the first Read that delivers nothing or less than a block. The output
        is the signature of the blocks read, cut off where the stream ran out of room;
        the result says whether, and which write, failed. */
    method Compute(inFile: Reader, sigFile: Writer) returns (r: Outcome)
      requires Valid()
      modifies inFile, sigFile, roller, md4hasher
      ensures var full := SignatureOf(old(inFile.rest), blockSize, inFile.chunk, md4hasher.md4);
        && sigFile.written == old(sigFile.written) + full[..Min(|full|, old(sigFile.room))]
        && sigFile.room == old(sigFile.room) - Min(|full|, old(sigFile.room))
        && r == OutcomeFor(|full|, old(sigFile.room))
      ensures r == Failed(HeaderWriteFailed) ==> inFile.rest == old(inFile.rest)
      ensures r.Failed? && r.error != HeaderWriteFailed ==> (HeaderLen <= old(sigFile.room) &&
        DeliveredThrough(old(inFile.rest), Blocks(old(inFile.rest), blockSize, inFile.chunk),
                         old(sigFile.room) - HeaderLen, inFile.rest))
      ensures r == Ok ==> old(inFile.rest) == Concat(Blocks(old(inFile.rest), blockSize, inFile.chunk)) + inFile.rest
    {
      r := ComputeWith(inFile, sigFile, false);
    }

    /** Compute with each block read by io.ReadFull, which Reads until the block is full
        or the reader is exhausted: the signature then covers every byte of the input,
        however few bytes each Read delivers. */
    method ComputeReadFull(inFile: Reader, sigFile: Writer) returns (r: Outcome)
      requires Valid()
      modifies inFile, sigFile, roller, md4hasher
      ensures var full := SignatureOf(old(inFile.rest), blockSize, blockSize, md4hasher.md4);
        && sigFile.written == old(sigFile.written) + full[..Min(|full|, old(sigFile.room))]
        && sigFile.room == old(sigFile.room) - Min(|full|, old(sigFile.room))
        && r == OutcomeFor(|full|, old(sigFile.room))
      ensures r == Failed(HeaderWriteFailed) ==> inFile.rest == old(inFile.rest)
      ensures r.Failed? && r.error != HeaderWriteFailed ==> (HeaderLen <= old(sigFile.room) &&
        DeliveredThrough(old(inFile.rest), Blocks(old(inFile.rest), blockSize, blockSize),
                         old(sigFile.room) - HeaderLen, inFile.rest))
      ensures r == Ok ==> old(inFile.rest) == Concat(Blocks(old(inFile.rest), blockSize, blockSize)) + inFile.rest
      ensures r == Ok && blockSize > 0 ==> inFile.rest == []
      ensures r == Ok && blockSize == 0 ==> inFile.rest == old(inFile.rest)
    {
      r := ComputeWith(inFile, sigFile, true);
      if r == Ok && blockSize > 0 {
        FullReadConcat(old(inFile.rest), blockSize, blockSize);
      }
    }

    /** The bytes one read of a block delivers at most: a block for io.ReadFull, the
        reader's own limit for a single Read. */
    function ReadSize(readFull: bool, chunk: nat): nat
    {
      if readFull then blockSize else chunk
    }

    /** Compute's body, with single Reads or with io.ReadFull. */
    method ComputeWith(inFile: Reader, sigFile: Writer, readFull: bool) returns (r: Outcome)
      requires Valid()
      modifies inFile, sigFile, roller, md4hasher
      ensures var full := SignatureOf(old(inFile.rest), blockSize, ReadSize(readFull, inFile.chunk), md4hasher.md4);
        && sigFile.written == old(sigFile.written) + full[..Min(|full|, old(sigFile.room))]
        && sigFile.room == old(sigFile.room) - Min(|full|, old(sigFile.room))
        && r == OutcomeFor(|full|, old(sigFile.room))
      ensures r == Failed(HeaderWriteFailed) ==> inFile.rest == old(inFile.rest)
      ensures r.Failed? && r.error != HeaderWriteFailed ==> (HeaderLen <= old(sigFile.room) &&
        DeliveredThrough(old(inFile.rest), Blocks(old(inFile.rest), blockSize, ReadSize(readFull, inFile.chunk)),
                         old(sigFile.room) - HeaderLen, inFile.rest))
      ensures r == Ok ==>
        old(inFile.rest) == Concat(Blocks(old(inFile.rest), blockSize, ReadSize(readFull, inFile.chunk))) + inFile.rest
    {
      ghost var data, size := inFile.rest, ReadSize(readFull, inFile.chunk);
      r := WriteHeader(sigFile);
      if r.Failed? {
        SignaturePrefix(data, blockSize, size, md4hasher.md4, old(sigFile.room));
        return;
      }
      assert strongSumLen == StrongSumLen;
      ghost var h := Header(blockSize, StrongSumLen);
      assert h[..HeaderLen] == h;
      var buffer := new byte[blockSize];
      r := ComputeRecords(inFile, sigFile, buffer, readFull);
      ghost var rs := Records(Blocks(data, blockSize, size), md4hasher.md4);
      HeaderThenRecords(old(sigFile.written), h, rs, old(sigFile.room));
    }

    /** One turn of Compute's loop: reset the hasher and the roller, read up to a
        block into buffer and, unless the read delivered nothing, write its record. */
    method ComputeStep(inFile: Reader, sigFile: Writer, buffer: array<byte>, readFull: bool)
      returns (n: nat, r: Outcome)
      requires Valid() && buffer.Length == blockSize
      modifies inFile, sigFile, roller, md4hasher, buffer
      ensures n == Min(blockSize, Min(ReadSize(readFull, inFile.chunk), |old(inFile.rest)|))
      ensures inFile.rest == old(inFile.rest)[n..]
      ensures n == 0 ==> r == Ok && unchanged(sigFile)
      ensures 0 < n ==> var m := Min(RecordLen, old(sigFile.room));
        && sigFile.written == old(sigFile.written) + Record(old(inFile.rest)[..n], md4hasher.md4)[..m]
        && sigFile.room == old(sigFile.room) - m
        && r == if RecordLen <= old(sigFile.room) then Ok
                else if old(sigFile.room) < WeakSumLen then Failed(WeakSumWriteFailed)
                else Failed(StrongSumWriteFailed)
      ensures buffer[..n] == old(inFile.rest)[..n]
      ensures md4hasher.data == old(inFile.rest)[..n]
      ensures roller.s1 == NextS1(0, old(inFile.rest)[..n]) && roller.s2 == NextS2(0, 0, old(inFile.rest)[..n])
      ensures roller.count == n
    {
      md4hasher.Reset();
      roller.Init();
      if readFull {
        n := ReadFull(inFile, buffer);
      } else {
        n := inFile.Read(buffer, 0);
      }
      if n == 0 {
        return n, Ok;
      }
      r := WriteBlock(buffer[..n], sigFile);
      assert buffer[..n] == old(inFile.rest)[..n];
    }

    /** Compute's loop: one record per block read into buffer, until a Read delivers
        nothing or less than a block, or a write fails. */
    method ComputeRecords(inFile: Reader, sigFile: Writer, buffer: array<byte>, readFull: bool)
      returns (r: Outcome)
      requires Valid() && buffer.Length == blockSize
      modifies inFile, sigFile, roller, md4hasher, buffer
      ensures var rs := Records(Blocks(old(inFile.rest), blockSize, ReadSize(readFull, inFile.chunk)), md4hasher.md4);
        && sigFile.written == old(sigFile.written) + rs[..Min(|rs|, old(sigFile.room))]
        && sigFile.room == old(sigFile.room) - Min(|rs|, old(sigFile.room))
        && r == if |rs| <= old(sigFile.room) then Ok else Failed(RecordFailureAt(old(sigFile.room)))
      ensures r.Failed? ==>
        DeliveredThrough(old(inFile.rest), Blocks(old(inFile.rest), blockSize, ReadSize(readFull, inFile.chunk)),
                         old(sigFile.room), inFile.rest)
      ensures r == Ok ==>
        old(inFile.rest) == Concat(Blocks(old(inFile.rest), blockSize, ReadSize(readFull, inFile.chunk))) + inFile.rest
    {
      ghost var data, w0, room0 := inFile.rest, sigFile.written, sigFile.room;
      ghost var done: seq<seq<byte>> := [];
      while true
        invariant ReadSoFar(data, done, inFile.rest, blockSize, ReadSize(readFull, inFile.chunk))
        invariant sigFile.written == w0 + Records(done, md4hasher.md4)
        invariant sigFile.room == room0 - |sigFile.written| + |w0|
        decreases |inFile.rest|
      {
        var more;
        more, r, done := ComputeTurn(inFile, sigFile, buffer, readFull, data, done, w0, room0);
        if r.Failed? {
          return;
        }
        if !more {
          break;
        }
      }
      RecordsWhole(w0, done, md4hasher.md4, room0, sigFile.written, sigFile.room);
      r := Ok;
    }

    /** One turn of Compute's loop, after the blocks `done` of `data` have been read and
        their records written after w0: read the next block and write its record. The loop
        goes on (`more`) only after a full block whose record was written whole. */
    method ComputeTurn(inFile: Reader, sigFile: Writer, buffer: array<byte>, readFull: bool,
                       ghost data: seq<byte>, ghost done: seq<seq<byte>>, ghost w0: seq<byte>, ghost room0: nat)
      returns (more: bool, r: Outcome, ghost done': seq<seq<byte>>)
      requires Valid() && buffer.Length == blockSize
      requires ReadSoFar(data, done, inFile.rest, blockSize, ReadSize(readFull, inFile.chunk))
      requires sigFile.written == w0 + Records(done, md4hasher.md4)
      requires sigFile.room == room0 - |sigFile.written| + |w0|
      modifies inFile, sigFile, roller, md4hasher, buffer
      ensures r == Ok ==>
        && data == Concat(done') + inFile.rest
        && sigFile.written == w0 + Records(done', md4hasher.md4)
        && sigFile.room == room0 - |sigFile.written| + |w0|
      ensures more ==> r == Ok && |inFile.rest| < |old(inFile.rest)|
      ensures more ==> ReadSoFar(data, done', inFile.rest, blockSize, ReadSize(readFull, inFile.chunk))
      ensures r == Ok && !more ==> Blocks(data, blockSize, ReadSize(readFull, inFile.chunk)) == done'
      ensures r.Failed? ==>
        var bl := Blocks(data, blockSize, ReadSize(readFull, inFile.chunk));
        var rs := Records(bl, md4hasher.md4);
        && |rs| > room0
        && sigFile.written == w0 + rs[..Min(|rs|, room0)]
        && sigFile.room == room0 - Min(|rs|, room0)
        && r == Failed(RecordFailureAt(room0))
        && DeliveredThrough(data, bl, room0, inFile.rest)
    {
      ghost var md4, size := md4hasher.md4, ReadSize(readFull, inFile.chunk);
      ghost var before, roomBefore := inFile.rest, sigFile.room;
      var rdCnt;
      rdCnt, r := ComputeStep(inFile, sigFile, buffer, readFull);
      BlockStep(data, done, before, rdCnt, blockSize, size);
      if rdCnt == 0 {
        return false, Ok, done;
      }
      ghost var block := before[..rdCnt];
      ghost var later := if rdCnt == blockSize then Blocks(inFile.rest, blockSize, size) else [];
      if r.Failed? {
        assert Blocks(data, blockSize, size) == (done + [block]) + later;
        RecordsCut(w0, data, Blocks(data, blockSize, size), done, block, later, inFile.rest,
                   md4, room0, sigFile.written, sigFile.room);
        return false, r, done;
      }
      WroteRecord(w0, done, block, md4, Min(RecordLen, roomBefore));
      done' := done + [block];
      more := rdCnt == blockSize;
    }
  }
}
