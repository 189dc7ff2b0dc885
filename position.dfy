/**
 * Where a string lives on the 16-bit ring: the first two bytes of its MD5
 * digest (RFC 1321), read big-endian. MD5 itself is not modelled; it is the
 * parameter `md5`, a total function from strings to 16-byte digests.
 */
module Position {

  type Byte = b: int | 0 <= b < 256

  type Digest = d: seq<Byte> | |d| == 16 witness [0, 0, 0, 0, 0, 0, 0, 0, 0, 0, 0, 0, 0, 0, 0, 0]

  /** A stand-in for md5.Sum over the bytes of a string. */
  type Hasher = string -> Digest

  /** The number the bytes of bs spell, most significant byte first. */
  function BigEndian(bs: seq<Byte>): nat {
    if bs == [] then 0 else BigEndian(bs[..|bs| - 1]) * 256 + bs[|bs| - 1]
  }

  /** The ring position of key: its digest's first byte times 256 plus its second byte. */
  function RingPosition(md5: Hasher, key: string): (p: int)
    ensures 0 <= p < 0x1_0000
    ensures p == BigEndian(md5(key)[..2])
  {
    var d := md5(key);
    assert d[..2][..1] == [d[0]] && [d[0]][..0] == [];
    assert BigEndian([d[0]]) == d[0];
    (d[0] as int) * 256 + d[1]
  }

  /** The position's high byte is the digest's first byte and its low byte the second. */
  lemma RingPositionBytes(md5: Hasher, key: string)
    ensures RingPosition(md5, key) / 256 == md5(key)[0]
    ensures RingPosition(md5, key) % 256 == md5(key)[1]
  {
  }

  /** Two keys share a position exactly when their digests share the first two bytes. */
  lemma RingPositionCollision(md5: Hasher, a: string, b: string)
    ensures RingPosition(md5, a) == RingPosition(md5, b) <==> md5(a)[..2] == md5(b)[..2]
  {
    if RingPosition(md5, a) == RingPosition(md5, b) {
      RingPositionBytes(md5, a);
      RingPositionBytes(md5, b);
      assert md5(a)[0] == md5(b)[0] && md5(a)[1] == md5(b)[1];
    }
  }

  /** computeRingPosition: folds the first two digest bytes into `result` with a shift-and-add loop. */
  method ComputeRingPosition(md5: Hasher, key: string) returns (result: int)
    ensures result == RingPosition(md5, key)
  {
    var digest := md5(key);
    var prefix := digest[..2];
    result := 0;
    for k := 0 to |prefix|
      invariant result == BigEndian(prefix[..k])
    {
      assert prefix[..k + 1][..k] == prefix[..k];
      result := result * 256 + prefix[k] as int;  // shift left one byte, add the next
    }
    assert prefix[..2] == prefix;
  }
}
