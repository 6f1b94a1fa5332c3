/** The one-time pad: the plaintext's bytes, read as one big-endian integer, are XOR-ed
    with a random key of the same byte length; XOR-ing the two results gives the
    plaintext's integer back, which is written out as the shortest big-endian byte
    string that holds it. */
module UnbreakableEncryption {
  import opened Wrappers
  import opened PythonInt

  newtype byte = x: int | 0 <= x < 256

  /** `int.from_bytes(bs, "big")`. */
  function FromBytes(bs: seq<byte>): (n: nat)
    ensures n < Pow2(8 * |bs|)
  {
    if bs == [] then 0
    else
      var prefix := bs[..|bs| - 1];
      Pow2Byte(8 * |prefix|);
      FromBytes(prefix) * 256 + bs[|bs| - 1] as nat
  }

  /** A leading zero byte adds nothing to the value. */
  lemma {:induction false} LeadingZero(bs: seq<byte>)
    ensures FromBytes([0] + bs) == FromBytes(bs)
  {
    if bs != [] {
      var prefix := bs[..|bs| - 1];
      assert ([0] + bs)[..|bs|] == [0] + prefix;
      LeadingZero(prefix);
    }
  }

  /** A byte string whose first byte is not zero is worth at least `256^(length-1)`. */
  lemma {:induction false} LeadingNonZero(bs: seq<byte>)
    requires bs != [] && bs[0] != 0
    ensures Pow2(8 * (|bs| - 1)) <= FromBytes(bs)
  {
    if |bs| > 1 {
      var prefix := bs[..|bs| - 1];
      LeadingNonZero(prefix);
      Pow2Byte(8 * (|prefix| - 1));
    }
  }

  /** A byte string that starts with a zero byte is worth less than `256^(length-1)`. */
  lemma LeadingZeroBound(bs: seq<byte>)
    ensures bs != [] && bs[0] == 0 ==> FromBytes(bs) < Pow2(8 * (|bs| - 1))
  {
    if bs != [] && bs[0] == 0 {
      LeadingZero(bs[1..]);
      assert [0] + bs[1..] == bs;
    }
  }

  /** `n.to_bytes(length, "big")`: nothing (an `OverflowError`) when `n` does not fit in
      `length` bytes. */
  function ToBytes(n: nat, length: nat): (r: Option<seq<byte>>)
    ensures r.Some? <==> n < Pow2(8 * length)
    ensures r.Some? ==> |r.value| == length && FromBytes(r.value) == n
  {
    if length == 0 then
      (if n == 0 then Some([]) else None)
    else
      Pow2Byte(8 * (length - 1));
      match ToBytes(n / 256, length - 1)
      case None => None
      case Some(high) =>
        assert (high + [(n % 256) as byte])[..length - 1] == high;
        Some(high + [(n % 256) as byte])
  }

  /** Two byte strings of the same length and value are the same. */
  lemma {:induction false} FromBytesInjective(a: seq<byte>, b: seq<byte>)
    requires |a| == |b| && FromBytes(a) == FromBytes(b)
    ensures a == b
  {
    if a != [] {
      FromBytesInjective(a[..|a| - 1], b[..|b| - 1]);
      assert a == a[..|a| - 1] + [a[|a| - 1]];
      assert b == b[..|b| - 1] + [b[|b| - 1]];
    }
  }

  /** Rounding a bit count up to whole bytes adds fewer than eight bits. */
  lemma RoundUp(bits: nat)
    ensures bits <= 8 * ((bits + 7) / 8) <= bits + 7
  {
  }

  /** A number of `bits` binary digits fits in `8 k` bits, and needs more than
      `8 (k - 1)` of them, when `8 k` rounds `bits` up by less than a byte. */
  lemma WholeBytes(n: nat, bits: nat, k: nat)
    requires n < Pow2(bits) && (n > 0 ==> Pow2(bits - 1) <= n)
    requires bits <= 8 * k <= bits + 7
    ensures n < Pow2(8 * k)
    ensures n > 0 ==> Pow2(8 * (k - 1)) <= n
  {
    if bits < 8 * k {
      Pow2Monotone(bits, 8 * k);
    }
    if n > 0 && 8 * (k - 1) < bits - 1 {
      Pow2Monotone(8 * (k - 1), bits - 1);
    }
  }

  /** The number of bytes `decrypt` writes `n` out in: its bit length, rounded up to
      whole bytes. */
  function ByteLength(n: nat): (length: nat)
    ensures n < Pow2(8 * length)
    ensures n > 0 ==> Pow2(8 * (length - 1)) <= n
  {
    var bits := BitLength(n);
    var length := (bits + 7) / 8;
    RoundUp(bits);
    BitLengthBounds(n);
    WholeBytes(n, bits, length);
    length
  }

  /** A number that fits in `k` bytes does not need more than `k` of them. */
  lemma NoMoreBytes(n: nat, k: nat, m: nat)
    requires n < Pow2(8 * k)
    requires m >= 1 && Pow2(8 * (m - 1)) <= n
    ensures m <= k
  {
    if 8 * k < 8 * (m - 1) {
      Pow2Monotone(8 * k, 8 * (m - 1));
    }
  }

  /** A byte string with no leading zero byte is as long as its value's byte length. */
  lemma ByteLengthOf(bs: seq<byte>)
    requires bs == [] || bs[0] != 0
    ensures ByteLength(FromBytes(bs)) == |bs|
  {
    if bs != [] {
      LeadingNonZero(bs);
      var n := FromBytes(bs);
      NoMoreBytes(n, ByteLength(n), |bs|);
      NoMoreBytes(n, |bs|, ByteLength(n));
    }
  }

  /** Python's `^` on non-negative integers, bit by bit. */
  function Xor(a: nat, b: nat): nat
    decreases a + b
  {
    if a == 0 && b == 0 then 0
    else 2 * Xor(a / 2, b / 2) + (if a % 2 != b % 2 then 1 else 0)
  }

  lemma {:induction false} XorCommutative(a: nat, b: nat)
    ensures Xor(a, b) == Xor(b, a)
    decreases a + b
  {
    if a != 0 || b != 0 {
      XorCommutative(a / 2, b / 2);
    }
  }

  /** XOR-ing with the same key twice gives the original back (`C ^ B = A`). */
  lemma {:induction false} XorCancel(a: nat, b: nat)
    ensures Xor(Xor(a, b), b) == a
    decreases a + b
  {
    if a != 0 || b != 0 {
      XorCancel(a / 2, b / 2);
      var c := Xor(a, b);
      assert c / 2 == Xor(a / 2, b / 2) && c % 2 == (if a % 2 != b % 2 then 1 else 0);
    }
  }

  /** XOR-ing two numbers of `m` bits gives a number of `m` bits. */
  lemma {:induction false} XorBound(a: nat, b: nat, m: nat)
    requires a < Pow2(m) && b < Pow2(m)
    ensures Xor(a, b) < Pow2(m)
  {
    if m > 0 && (a != 0 || b != 0) {
      XorBound(a / 2, b / 2, m - 1);
    }
  }

  /** `encrypt` of the plaintext bytes with `keyBytes`, the `token_bytes` draw of
      `random_key`, which has the plaintext's length: the key's integer and the
      plaintext's integer XOR the key. The pair XOR-ed gives the plaintext's integer
      back, and the ciphertext is no longer than the plaintext. */
  function Encrypt(originalBytes: seq<byte>, keyBytes: seq<byte>): (r: (nat, nat))
    requires |keyBytes| == |originalBytes|
    ensures Xor(r.0, r.1) == FromBytes(originalBytes) && Xor(r.1, r.0) == FromBytes(originalBytes)
    ensures r.0 < Pow2(8 * |originalBytes|) && r.1 < Pow2(8 * |originalBytes|)
  {
    var dummy := FromBytes(keyBytes);
    var originalKey := FromBytes(originalBytes);
    var encrypted := Xor(originalKey, dummy);
    XorCancel(originalKey, dummy);
    XorCommutative(encrypted, dummy);
    XorBound(originalKey, dummy, 8 * |originalBytes|);
    (dummy, encrypted)
  }

  /** `decrypt`, before the bytes are read as UTF-8: the value of the two keys XOR-ed,
      as the shortest big-endian byte string, which has no leading zero byte. */
  function Decrypt(key1: nat, key2: nat): (plain: seq<byte>)
    ensures FromBytes(plain) == Xor(key1, key2)
    ensures plain == [] || plain[0] != 0
  {
    var decrypted := Xor(key1, key2);
    var temp := ToBytes(decrypted, ByteLength(decrypted)).value;
    LeadingZeroBound(temp);
    temp
  }

  /** Decryption does not depend on which key comes first. */
  lemma DecryptSymmetric(key1: nat, key2: nat)
    ensures Decrypt(key1, key2) == Decrypt(key2, key1)
  {
    XorCommutative(key1, key2);
  }

  /** The plaintext without its leading zero bytes. */
  function StripLeadingZeros(bs: seq<byte>): (r: seq<byte>)
    ensures r == [] || r[0] != 0
    ensures |r| <= |bs| && r == bs[|bs| - |r|..]
    ensures forall i :: 0 <= i < |bs| - |r| ==> bs[i] == 0
  {
    if bs != [] && bs[0] == 0 then StripLeadingZeros(bs[1..]) else bs
  }

  lemma {:induction false} StripValue(bs: seq<byte>)
    ensures FromBytes(StripLeadingZeros(bs)) == FromBytes(bs)
  {
    if bs != [] && bs[0] == 0 {
      StripValue(bs[1..]);
      LeadingZero(bs[1..]);
      assert [0] + bs[1..] == bs;
    }
  }

  /** Two byte strings without leading zeros and with the same value are the same. */
  lemma MinimalUnique(a: seq<byte>, b: seq<byte>)
    requires a == [] || a[0] != 0
    requires b == [] || b[0] != 0
    requires FromBytes(a) == FromBytes(b)
    ensures a == b
  {
    ByteLengthOf(a);
    ByteLengthOf(b);
    FromBytesInjective(a, b);
  }

  /** Decrypting an encryption gives the plaintext back without its leading zero bytes,
      whatever the key. */
  lemma RoundTrip(originalBytes: seq<byte>, keyBytes: seq<byte>)
    requires |keyBytes| == |originalBytes|
    ensures Decrypt(Encrypt(originalBytes, keyBytes).0, Encrypt(originalBytes, keyBytes).1)
            == StripLeadingZeros(originalBytes)
  {
    var keys := Encrypt(originalBytes, keyBytes);
    StripValue(originalBytes);
    MinimalUnique(Decrypt(keys.0, keys.1), StripLeadingZeros(originalBytes));
  }

  /** The round trip is exact exactly when the plaintext is empty or does not start with
      a zero byte. */
  lemma RoundTripExact(originalBytes: seq<byte>, keyBytes: seq<byte>)
    requires |keyBytes| == |originalBytes|
    ensures Decrypt(Encrypt(originalBytes, keyBytes).0, Encrypt(originalBytes, keyBytes).1) == originalBytes
            <==> originalBytes == [] || originalBytes[0] != 0
  {
    RoundTrip(originalBytes, keyBytes);
  }

  /** The bytes of the program's message, "One Time Pad!". */
  function Message(): (bs: seq<byte>)
    ensures |bs| == 13 && bs[0] != 0
  {
    [79, 110, 101, 32, 84, 105, 109, 101, 32, 80, 97, 100, 33]
  }

  /** The program's run: whatever key is drawn, the message comes back unchanged. */
  lemma OneTimePad(keyBytes: seq<byte>)
    requires |keyBytes| == 13
    ensures Decrypt(Encrypt(Message(), keyBytes).0, Encrypt(Message(), keyBytes).1) == Message()
  {
    RoundTripExact(Message(), keyBytes);
  }
}
