/** The derivation of the AES key and IV from the PBKDF2 byte stream. */
module KeyDerivation {
  import opened Common
  import opened Library

  /** The AES instance's key material. */
  datatype KeyMaterial = KeyMaterial(key: seq<byte>, iv: seq<byte>)

  predicate ValidKeyMaterial(k: KeyMaterial) {
    |k.key| == KeyBytes && |k.iv| == BlockBytes
  }

  /** `count` bytes of the PBKDF2 stream for `password` and `salt`, from `start`. */
  function StreamBytes(p: Primitives, password: string, salt: seq<byte>, start: nat, count: nat): seq<byte>
    decreases count
  {
    if count == 0 then [] else [p.pbkdf2(password, salt, start)] + StreamBytes(p, password, salt, start + 1, count - 1)
  }

  /** A slice of the stream has the requested length and holds the stream's bytes. */
  lemma {:induction false} StreamBytesAt(p: Primitives, password: string, salt: seq<byte>, start: nat, count: nat)
    ensures |StreamBytes(p, password, salt, start, count)| == count
    ensures forall i :: 0 <= i < count ==>
              StreamBytes(p, password, salt, start, count)[i] == p.pbkdf2(password, salt, start + i)
    decreases count
  {
    if count > 0 {
      StreamBytesAt(p, password, salt, start + 1, count - 1);
    }
  }

  /** Two consecutive reads give the same bytes as one read of their total length. */
  lemma {:induction false} StreamBytesSplit(p: Primitives, password: string, salt: seq<byte>, start: nat, m: nat, n: nat)
    ensures StreamBytes(p, password, salt, start, m) + StreamBytes(p, password, salt, start + m, n)
            == StreamBytes(p, password, salt, start, m + n)
    decreases m
  {
    if m > 0 {
      StreamBytesSplit(p, password, salt, start + 1, m - 1, n);
    }
  }

  /** The key and IV `CreateKey` installs: the first 32 bytes of the stream and
      the 16 after them, i.e. together the stream's first 48 bytes. */
  function DeriveKeyMaterial(p: Primitives, seed: string, salt: seq<byte>): (k: KeyMaterial)
    ensures ValidKeyMaterial(k)
    ensures k.key + k.iv == StreamBytes(p, seed, salt, 0, KeyBytes + BlockBytes)
  {
    StreamBytesAt(p, seed, salt, 0, KeyBytes);
    StreamBytesAt(p, seed, salt, KeyBytes, BlockBytes);
    StreamBytesSplit(p, seed, salt, 0, KeyBytes, BlockBytes);
    KeyMaterial(StreamBytes(p, seed, salt, 0, KeyBytes), StreamBytes(p, seed, salt, KeyBytes, BlockBytes))
  }

  /** An `Rfc2898DeriveBytes` generator: each `GetBytes` call continues the
      stream where the previous one stopped. */
  class DeriveBytesGenerator {
    const prims: Primitives
    const password: string
    const salt: seq<byte>
    var position: nat

    constructor (prims: Primitives, password: string, salt: seq<byte>)
      requires |salt| >= MinSaltBytes
      ensures this.prims == prims && this.password == password && this.salt == salt
      ensures position == 0
    {
      this.prims := prims;
      this.password := password;
      this.salt := salt;
      position := 0;
    }

    method GetBytes(cb: nat) returns (r: seq<byte>)
      modifies this
      ensures r == StreamBytes(prims, password, salt, old(position), cb)
      ensures position == old(position) + cb
    {
      r := StreamBytes(prims, password, salt, position, cb);
      position := position + cb;
    }
  }
}
