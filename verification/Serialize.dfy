/** Compact sizes, ReadCompactSize and WriteCompactSize (src/serialize.h). Bytes are numbers below 256. */
module Serialize {
  import opened Arithmetic
  import opened BitStream

  datatype Option<T> = None | Some(value: T)

  const MAX_SIZE: nat := 0x0200_0000

  function LittleEndian(x: nat, n: nat): (b: seq<nat>)
    ensures |b| == n && forall i | 0 <= i < n :: b[i] < 256
  {
    if n == 0 then [] else [x % 256] + LittleEndian(x / 256, n - 1)
  }

  function FromLittleEndian(b: seq<nat>): nat {
    if b == [] then 0 else b[0] + 256 * FromLittleEndian(b[1..])
  }

  function SizeBytes(n: nat): seq<nat> {
    if n < 253 then [n]
    else if n <= 0xFFFF then [253] + LittleEndian(n, 2)
    else if n <= 0xFFFF_FFFF then [254] + LittleEndian(n, 4)
    else [255] + LittleEndian(n, 8)
  }

  /** ReadCompactSize: the number and the bytes after it, or failure. */
  function ReadSize(b: seq<nat>): Option<(nat, seq<nat>)> {
    if b == [] then None
    else
      var len := if b[0] < 253 then 0 else if b[0] == 253 then 2 else if b[0] == 254 then 4 else 8;
      var least := if b[0] < 253 then 0 else if b[0] == 253 then 253 else if b[0] == 254 then 0x1_0000 else 0x1_0000_0000;
      if |b| < 1 + len then None
      else
        var n := if b[0] < 253 then b[0] else FromLittleEndian(b[1..1 + len]);
        if n < least || n > MAX_SIZE then None else Some((n, b[1 + len..]))
  }

  lemma LittleEndianRoundTrip(x: nat, n: nat)
    requires x < Pow2(8 * n)
    ensures FromLittleEndian(LittleEndian(x, n)) == x
  {
    if n > 0 {
      assert Pow2(8 * n) == 256 * Pow2(8 * (n - 1)) by {
        WordIsPower();
        Pow2Add(8, 8 * (n - 1));
      }
      LittleEndianRoundTrip(x / 256, n - 1);
      assert LittleEndian(x, n)[1..] == LittleEndian(x / 256, n - 1);
    }
  }

  /** A size is read back exactly when it is within the limit. */
  lemma SizeRoundTrip(n: nat, rest: seq<nat>)
    requires n < WORD
    ensures ReadSize(SizeBytes(n) + rest) == if n <= MAX_SIZE then Some((n, rest)) else None
  {
    WordIsPower();
    PowersUsed();
    hide Pow2;
    var b := SizeBytes(n) + rest;
    if n < 253 {
      assert b[1..] == rest;
    } else {
      var len := if n <= 0xFFFF then 2 else if n <= 0xFFFF_FFFF then 4 else 8;
      LittleEndianRoundTrip(n, len);
      assert b[1..1 + len] == LittleEndian(n, len) && b[1 + len..] == rest;
    }
  }

  /** One over the limit is written but not read back, so a set of that many elements is not parsed again. */
  lemma JustOverLimit(rest: seq<nat>)
    ensures ReadSize(SizeBytes(MAX_SIZE + 1) + rest) == None
  {
    hide ReadSize, SizeBytes;
    SizeRoundTrip(MAX_SIZE + 1, rest);
  }

  lemma PowersUsed()
    ensures Pow2(16) == 0x1_0000 && Pow2(32) == 0x1_0000_0000
  {
    WordIsPower();
    Pow2Add(8, 8);
    Pow2Add(16, 16);
  }

  lemma ReadSizeBytes(b: seq<nat>)
    requires AreBytes(b) && ReadSize(b).Some?
    ensures AreBytes(ReadSize(b).value.1) && ReadSize(b).value.0 <= MAX_SIZE
  {
  }
}
