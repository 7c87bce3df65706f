/** XOR file encryption: the test-file generator, the buffered sequential
    encryptor, the chunk-parallel encryptor and the byte-by-byte verifier.
    Files are byte sequences; reading and writing them is not modelled.
 */
module Encryption {
  import opened Partition

  type Byte = bv8

  /** The size of the I/O buffer of the generator and of the sequential encryptor. */
  const BufferSize: nat := 4096

  /** The chunk size the parallel encryptor is run with (1 MiB). */
  const DefaultChunkSize: nat := 1024 * 1024

  /** The reference: every byte XORed with the key. */
  function XorAll(data: seq<Byte>, key: Byte): seq<Byte> {
    seq(|data|, i requires 0 <= i < |data| => data[i] ^ key)
  }

  /** Encrypting twice with the same key gives back the original: decryption is encryption. */
  lemma XorInvolution(data: seq<Byte>, key: Byte)
    ensures XorAll(XorAll(data, key), key) == data
  {
    forall i | 0 <= i < |data|
      ensures XorAll(XorAll(data, key), key)[i] == data[i]
    {
      XorTwice(data[i], key);
    }
  }

  lemma XorTwice(b: Byte, key: Byte)
    ensures (b ^ key) ^ key == b
  {
  }

  /** The sequential encryptor: read up to BufferSize bytes, XOR them, append them, until the input is exhausted. */
  method EncryptSequential(input: seq<Byte>, key: Byte) returns (output: seq<Byte>)
    ensures output == XorAll(input, key)
  {
    output := [];
    var pos := 0;
    while pos < |input|
      invariant 0 <= pos <= |input|
      invariant output == XorAll(input[..pos], key)
      decreases |input| - pos
    {
      var bytesRead := Min(|input| - pos, BufferSize);
      var buffer := XorBuffer(input[pos..pos + bytesRead], key);
      XorAllAppend(input, key, pos, pos + bytesRead);
      output := output + buffer;
      pos := pos + bytesRead;
    }
    assert input[..pos] == input;
  }

  /** One buffer XORed with the key in place, byte by byte. */
  method XorBuffer(piece: seq<Byte>, key: Byte) returns (buffer: seq<Byte>)
    ensures buffer == XorAll(piece, key)
  {
    buffer := piece;
    for i := 0 to |piece|
      invariant |buffer| == |piece|
      invariant forall j :: 0 <= j < |piece| ==> buffer[j] == if j < i then piece[j] ^ key else piece[j]
    {
      buffer := buffer[i := buffer[i] ^ key];
    }
  }

  lemma XorAllAppend(input: seq<Byte>, key: Byte, pos: nat, end: nat)
    requires pos <= end <= |input|
    ensures XorAll(input[..end], key) == XorAll(input[..pos], key) + XorAll(input[pos..end], key)
  {
  }

  /** The loop body of a chunk: XOR one byte with the key. */
  function XorByte(key: Byte): (int, Byte) --> Byte {
    (i: int, b: Byte) => b ^ key
  }

  /** The parallel encryptor: the file is cut into chunks of chunkSize bytes
      (the last one shorter), each chunk is XORed in place by whichever
      thread owns it, the chunks completing in the order `order`. */
  function EncryptParallel(data: seq<Byte>, key: Byte, chunkSize: nat, order: seq<nat>): (out: seq<Byte>)
    requires chunkSize >= 1 && IsOrdering(order, CeilDiv(|data|, chunkSize))
    ensures out == XorAll(data, key)
  {
    ChunkRangesPartition(|data|, chunkSize);
    ReorderPartition(ChunkRanges(|data|, chunkSize), order, |data|);
    RunOverPartition(data, Reorder(ChunkRanges(|data|, chunkSize), order), XorByte(key));
    Run(data, Reorder(ChunkRanges(|data|, chunkSize), order), XorByte(key))
  }

  /** The parallel and the buffered sequential encryptor write the same file. */
  method EncryptBoth(data: seq<Byte>, key: Byte, order: seq<nat>) returns (sequential: seq<Byte>, parallel: seq<Byte>)
    requires IsOrdering(order, CeilDiv(|data|, DefaultChunkSize))
    ensures sequential == parallel
    ensures XorAll(parallel, key) == data
  {
    sequential := EncryptSequential(data, key);
    parallel := EncryptParallel(data, key, DefaultChunkSize, order);
    XorInvolution(data, key);
  }

  /** What the verifier accepts: the encrypted stream is at least as long as
      the original and agrees with original XOR key on the original's length. */
  predicate IsEncryptionOf(enc: seq<Byte>, orig: seq<Byte>, key: Byte) {
    |enc| >= |orig| && forall i :: 0 <= i < |orig| ==> enc[i] == orig[i] ^ key
  }

  /** The positions below n where enc is not orig XOR key. */
  function BadPositions(orig: seq<Byte>, enc: seq<Byte>, key: Byte, n: nat): set<int>
    requires n <= |orig| && n <= |enc|
  {
    set i | 0 <= i < n && enc[i] != orig[i] ^ key
  }

  /** The verifier: walk the original byte by byte; a missing encrypted byte
      is one error and stops the walk; a wrong byte is one error.
      Passes iff no error occurred. */
  method VerifyEncryption(orig: seq<Byte>, enc: seq<Byte>, key: Byte) returns (passed: bool, errors: nat)
    ensures errors == |BadPositions(orig, enc, key, Min(|orig|, |enc|))| + (if |enc| < |orig| then 1 else 0)
    ensures passed <==> IsEncryptionOf(enc, orig, key)
    ensures |enc| < |orig| ==> !passed
  {
    errors := 0;
    var pos := 0;
    while pos < |orig|
      invariant 0 <= pos <= |orig| && pos <= |enc|
      invariant errors == |BadPositions(orig, enc, key, pos)|
      decreases |orig| - pos
    {
      if pos >= |enc| {
        errors := errors + 1;
        break;
      }
      BadPositionsStep(orig, enc, key, pos);
      if enc[pos] != orig[pos] ^ key {
        errors := errors + 1;
      }
      pos := pos + 1;
    }
    if |enc| >= |orig| {
      NoBadPositions(orig, enc, key);
    }
    passed := errors == 0;
  }

  lemma BadPositionsStep(orig: seq<Byte>, enc: seq<Byte>, key: Byte, n: nat)
    requires n < |orig| && n < |enc|
    ensures |BadPositions(orig, enc, key, n + 1)|
            == |BadPositions(orig, enc, key, n)| + (if enc[n] != orig[n] ^ key then 1 else 0)
  {
    if enc[n] != orig[n] ^ key {
      assert BadPositions(orig, enc, key, n + 1) == BadPositions(orig, enc, key, n) + {n};
    } else {
      assert BadPositions(orig, enc, key, n + 1) == BadPositions(orig, enc, key, n);
    }
  }

  /** Over the whole original, there is no bad position exactly when enc is its encryption. */
  lemma NoBadPositions(orig: seq<Byte>, enc: seq<Byte>, key: Byte)
    requires |enc| >= |orig|
    ensures |BadPositions(orig, enc, key, |orig|)| == 0 <==> IsEncryptionOf(enc, orig, key)
  {
    if !IsEncryptionOf(enc, orig, key) {
      var i :| 0 <= i < |orig| && enc[i] != orig[i] ^ key;
      assert i in BadPositions(orig, enc, key, |orig|);
    }
  }

  /** The verifier accepts the parallel encryptor's output, and extra trailing bytes do not change that. */
  lemma VerifierAcceptsEncryption(data: seq<Byte>, key: Byte, chunkSize: nat, order: seq<nat>, trailing: seq<Byte>)
    requires chunkSize >= 1 && IsOrdering(order, CeilDiv(|data|, chunkSize))
    ensures IsEncryptionOf(EncryptParallel(data, key, chunkSize, order) + trailing, data, key)
  {
  }

  /** The test-file generator: `size` pseudo-random bytes written in pieces of
      min(remaining, BufferSize); byte i is the i-th draw modulo 256. */
  method GenerateTestFile(size: int, draws: seq<nat>) returns (content: seq<Byte>, pieces: seq<nat>)
    requires |draws| >= size
    ensures |content| == if size > 0 then size else 0
    ensures forall i :: 0 <= i < |content| ==> content[i] == ByteOf(draws[i])
    ensures Sum(pieces) == |content|
    ensures forall k :: 0 <= k < |pieces| ==> 1 <= pieces[k] <= BufferSize
    ensures forall k :: 0 <= k < |pieces| - 1 ==> pieces[k] == BufferSize
  {
    content := [];
    pieces := [];
    var remaining := size;
    while remaining > 0
      invariant remaining > 0 ==> |content| + remaining == size
      invariant remaining <= 0 ==> |content| == if size > 0 then size else 0
      invariant forall i :: 0 <= i < |content| ==> content[i] == ByteOf(draws[i])
      invariant Sum(pieces) == |content|
      invariant forall k :: 0 <= k < |pieces| ==> 1 <= pieces[k] <= BufferSize
      invariant forall k :: 0 <= k < |pieces| ==> pieces[k] == BufferSize || (k == |pieces| - 1 && remaining <= 0)
      decreases remaining
    {
      var writeSize := if remaining < BufferSize as int then remaining else BufferSize;
      var buffer := DrawBytes(draws, |content|, writeSize);
      SumSnoc(pieces, writeSize);
      content := content + buffer;
      pieces := pieces + [writeSize];
      remaining := remaining - writeSize;
    }
  }

  /** n buffer bytes filled from the draws starting at `from`, each draw modulo 256. */
  function DrawBytes(draws: seq<nat>, from: nat, n: nat): (buffer: seq<Byte>)
    requires from + n <= |draws|
    ensures |buffer| == n
    ensures forall j :: 0 <= j < n ==> buffer[j] == ByteOf(draws[from + j])
  {
    seq(n, j requires 0 <= j < n => ByteOf(draws[from + j]))
  }

  /** A draw stored into an unsigned char: its value modulo 256. */
  function ByteOf(draw: nat): Byte {
    (draw % 256) as Byte
  }

  function Sum(s: seq<nat>): nat {
    if |s| == 0 then 0 else Sum(s[..|s| - 1]) + s[|s| - 1]
  }

  lemma SumSnoc(s: seq<nat>, x: nat)
    ensures Sum(s + [x]) == Sum(s) + x
  {
    assert (s + [x])[..|s|] == s;
  }
}
