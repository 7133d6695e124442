/** The content hasher: SHA-1 hex digests and the reusable digest accumulator
    that file_sha1 resets and feeds chunk by chunk. */
module Digests {
  import opened Wrappers

  /** Width of a SHA-1 hex digest (sha1_len in verify). */
  const SHA1_LEN := 40

  /** file_sha1 reads the file in chunks of 4 MiB. */
  const CHUNK_SIZE := 4 * 1024 * 1024

  predicate IsLowerHex(c: char)
  {
    '0' <= c <= '9' || 'a' <= c <= 'f'
  }

  /** What Digest#hexdigest returns for SHA-1: 40 lower-case hex digits. */
  type HexDigest = s: string | |s| == SHA1_LEN && forall i | 0 <= i < |s| :: IsLowerHex(s[i])
    witness "0000000000000000000000000000000000000000"

  /** The SHA-1 algorithm of the Digest library, from the bytes absorbed to
      the hex digest; it is not modelled, only passed around. */
  type Sha1Function = string -> HexDigest

  /** IO#read(length) for a positive length on a file whose read position is
      pos: nil at the end of the file, otherwise the next bytes, at most length
      of them. */
  function Read(contents: string, pos: nat, length: nat): (chunk: Option<string>)
    requires length > 0
    ensures chunk.None? <==> pos >= |contents|
    ensures chunk.Some? ==> 0 < |chunk.value| <= length && pos + |chunk.value| <= |contents|
    ensures chunk.Some? ==> chunk.value == contents[pos..pos + |chunk.value|]
    ensures chunk.Some? && |chunk.value| < length ==> pos + |chunk.value| == |contents|
  {
    if pos >= |contents| then None
    else if pos + length <= |contents| then Some(contents[pos..pos + length])
    else Some(contents[pos..])
  }

  /** A Digest::SHA1 object: the bytes fed to it since it was created or
      last reset. */
  class Sha1Digestor {
    const sha1: Sha1Function
    var absorbed: string

    /** Digest::SHA1.new */
    constructor (sha1: Sha1Function)
      ensures this.sha1 == sha1 && absorbed == []
    {
      this.sha1 := sha1;
      absorbed := [];
    }

    /** Digest#reset */
    method Reset()
      modifies this
      ensures absorbed == []
    {
      absorbed := [];
    }

    /** Digest#<< */
    method Absorb(chunk: string)
      modifies this
      ensures absorbed == old(absorbed) + chunk
    {
      absorbed := absorbed + chunk;
    }

    /** Digest#hexdigest without an argument: the digest of everything
        absorbed, leaving the state as it is. */
    function HexDigest(): HexDigest
      reads this
    {
      sha1(absorbed)
    }
  }
}
