/** The strong hash of a block. gordiff uses MD4 (RFC 1320) from golang.org/x/crypto,
    through Go's hash.Hash interface; the digest itself is not modelled, only that it
    is a deterministic function of the bytes written since the last Reset and that it
    is 16 bytes long. */
module StrongHash {
  import opened Bytes

  const Md4Len: nat := 16

  /** An MD4 digest: 16 bytes. */
  type Md4Digest = d: seq<byte> | |d| == Md4Len witness seq(16, i => 0)

  /** A digest function of MD4's shape: any deterministic map to 16 bytes. */
  type Md4Func = seq<byte> -> Md4Digest

  /** A hash.Hash over an MD4 digest: it buffers what is written and digests it on Sum. */
  class Md4Hasher {
    const md4: Md4Func
    var data: seq<byte>

    /** md4.New(): a hasher that has absorbed nothing. */
    constructor (md4: Md4Func)
      ensures this.md4 == md4 && data == []
    {
      this.md4 := md4;
      data := [];
    }

    method Reset()
      modifies this
      ensures data == []
    {
      data := [];
    }

    /** Absorbs p; hash.Hash's Write never fails and always takes all of p. */
    method Write(p: seq<byte>) returns (n: nat)
      modifies this
      ensures n == |p|
      ensures data == old(data) + p
    {
      data := data + p;
      n := |p|;
    }

    /** Sum(nil): the 16-byte digest of everything absorbed since the last Reset. */
    method Sum() returns (d: seq<byte>)
      ensures |d| == Md4Len
      ensures d == md4(data)
    {
      d := md4(data);
    }
  }
}
