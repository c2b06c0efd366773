/** Lamport one-time signatures and the tree-authenticated signatures built from them. */
module Lamport {
  import opened Results
  import opened Numerals

  const HASH_BITS := 256

  datatype Pair = Pair(zero: string, one: string)

  datatype KeyPair = KeyPair(privateKey: seq<Pair>, publicKey: seq<Pair>)

  /** The hash functions in use; `secret` answers nothing for text that is not hexadecimal. */
  datatype Hashes = Hashes(message: seq<int> -> seq<int>, secret: string -> Option<string>, text: string -> string)

  ghost predicate ProperHashes(h: Hashes)
  {
    (forall m :: |h.message(m)| == 32) && forall x :: |h.text(x)| == 64
  }

  function Pick(p: Pair, bit: bool): string { if bit then p.one else p.zero }

  function BitOf(byte: int, position: nat): bool
    requires position < 8
  {
    var weight := if position == 0 then 128 else if position == 1 then 64 else if position == 2 then 32
                  else if position == 3 then 16 else if position == 4 then 8 else if position == 5 then 4
                  else if position == 6 then 2 else 1;
    (byte / weight) % 2 == 1
  }

  /** The bits of a digest, each byte from its most significant bit down. */
  function DigestBits(digest: seq<int>): (bits: seq<bool>)
    ensures |bits| == 8 * |digest|
  {
    seq(8 * |digest|, k requires 0 <= k < 8 * |digest| => BitOf(digest[k / 8], k % 8))
  }

  // ---------------------------------------------------------------- what the bits say

  /** Bits as the digits of a binary numeral. */
  function BinaryDigits(bits: seq<bool>): (s: seq<int>)
    ensures |s| == |bits|
  {
    seq(|bits|, i requires 0 <= i < |bits| => if bits[i] then 1 else 0)
  }

  function ByteBits(x: int): (s: seq<int>)
    ensures |s| == 8
  {
    BinaryDigits(seq(8, p requires 0 <= p < 8 => BitOf(x, p)))
  }

  lemma {:induction false} EightDigits(front: seq<int>, s: seq<int>)
    requires |s| == 8
    ensures Num(2, front + s)
            == 256 * Num(2, front) + 128 * s[0] + 64 * s[1] + 32 * s[2] + 16 * s[3] + 8 * s[4] + 4 * s[5] + 2 * s[6]
               + s[7]
  {
    hide Num;
    var t := front + s;
    var n := |front|;
    forall i | 0 <= i < 8 ensures Num(2, t[..n + i + 1]) == 2 * Num(2, t[..n + i]) + s[i] {
      assert t[..n + i + 1] == t[..n + i] + [s[i]];
      NumSnoc(2, t[..n + i], s[i]);
    }
    assert t[..n] == front && t[..n + 8] == t;
    assert Num(2, t[..n + 1]) == 2 * Num(2, front) + s[0];
    assert Num(2, t[..n + 2]) == 2 * Num(2, t[..n + 1]) + s[1];
    assert Num(2, t[..n + 3]) == 2 * Num(2, t[..n + 2]) + s[2];
    assert Num(2, t[..n + 4]) == 2 * Num(2, t[..n + 3]) + s[3];
    assert Num(2, t[..n + 5]) == 2 * Num(2, t[..n + 4]) + s[4];
    assert Num(2, t[..n + 6]) == 2 * Num(2, t[..n + 5]) + s[5];
    assert Num(2, t[..n + 7]) == 2 * Num(2, t[..n + 6]) + s[6];
    assert Num(2, t[..n + 8]) == 2 * Num(2, t[..n + 7]) + s[7];
  }

  /** The eight bits of a byte weigh as much as the byte. */
  lemma BitsWeighByte(x: int)
    requires 0 <= x < 256
    ensures var s := ByteBits(x);
            x == 128 * s[0] + 64 * s[1] + 32 * s[2] + 16 * s[3] + 8 * s[4] + 4 * s[5] + 2 * s[6] + s[7]
  {
    var s := ByteBits(x);
    assert x / 128 == s[0];
    assert x / 64 == 2 * (x / 128) + s[1];
    assert x / 32 == 2 * (x / 64) + s[2];
    assert x / 16 == 2 * (x / 32) + s[3];
    assert x / 8 == 2 * (x / 16) + s[4];
    assert x / 4 == 2 * (x / 8) + s[5];
    assert x / 2 == 2 * (x / 4) + s[6];
    assert x == 2 * (x / 2) + s[7];
  }

  lemma DigestBitsSnoc(digest: seq<int>)
    requires digest != []
    ensures var n := |digest| - 1;
            BinaryDigits(DigestBits(digest)) == BinaryDigits(DigestBits(digest[..n])) + ByteBits(digest[n])
  {
    hide BitOf;
    var n := |digest| - 1;
    var s, front := BinaryDigits(DigestBits(digest)), BinaryDigits(DigestBits(digest[..n]));
    forall k | 0 <= k < 8 * n + 8 ensures s[k] == (front + ByteBits(digest[n]))[k] {
      if k < 8 * n {
        assert k / 8 < n;
      } else {
        assert k / 8 == n && k % 8 == k - 8 * n;
      }
    }
    assert s == front + ByteBits(digest[n]);
  }

  /** The message bits in order are the binary numeral of the number that the digest is in base 256. */
  lemma {:induction false} BitsDenoteDigest(digest: seq<int>)
    requires Below(256, digest)
    ensures Num(2, BinaryDigits(DigestBits(digest))) == Num(256, digest)
  {
    hide BitOf, DigestBits, BinaryDigits, ByteBits;
    if digest != [] {
      var n := |digest| - 1;
      BitsDenoteDigest(digest[..n]);
      DigestBitsSnoc(digest);
      EightDigits(BinaryDigits(DigestBits(digest[..n])), ByteBits(digest[n]));
      BitsWeighByte(digest[n]);
    } else {
      assert |BinaryDigits(DigestBits(digest))| == 0;
    }
  }

  /** Different digests differ in some message bit. */
  lemma {:induction false} DigestBitsDiffer(a: seq<int>, b: seq<int>) returns (i: nat)
    requires Below(256, a) && Below(256, b) && |a| == |b| && a != b
    ensures i < 8 * |a| && DigestBits(a)[i] != DigestBits(b)[i]
  {
    hide BitOf;
    var j :| 0 <= j < |a| && a[j] != b[j];
    BitsWeighByte(a[j]);
    BitsWeighByte(b[j]);
    var p: nat :| p < 8 && BitOf(a[j], p) != BitOf(b[j], p);
    i := 8 * j + p;
    assert i / 8 == j && i % 8 == p;
  }

  predicate WellFormed(h: Hashes, k: KeyPair)
  {
    && |k.privateKey| == |k.publicKey| == HASH_BITS
    && forall i | 0 <= i < HASH_BITS ::
         h.secret(k.privateKey[i].zero) == Some(k.publicKey[i].zero)
           && h.secret(k.privateKey[i].one) == Some(k.publicKey[i].one)
  }

  function Sign(h: Hashes, k: KeyPair, message: seq<int>): seq<string>
    requires |k.privateKey| == |DigestBits(h.message(message))|
  {
    var bits := DigestBits(h.message(message));
    seq(|bits|, i requires 0 <= i < |bits| => Pick(k.privateKey[i], bits[i]))
  }

  /** Each revealed secret hashes to the half of the public pair that the message bit selects. */
  predicate Verifies(h: Hashes, message: seq<int>, signature: seq<string>, publicKey: seq<Pair>)
  {
    var bits := DigestBits(h.message(message));
    && |signature| == |publicKey| == |bits| == HASH_BITS
    && forall i | 0 <= i < HASH_BITS :: h.secret(signature[i]) == Some(Pick(publicKey[i], bits[i]))
  }

  method Verify(h: Hashes, message: seq<int>, signature: seq<string>, publicKey: seq<Pair>) returns (ok: bool)
    requires |h.message(message)| == 32
    ensures ok == Verifies(h, message, signature, publicKey)
    ensures ok <==> && |signature| == HASH_BITS && |publicKey| == HASH_BITS
                    && forall i | 0 <= i < HASH_BITS ::
                         h.secret(signature[i])
                         == Some(if h.message(message)[i / 8] / Power2(7 - i % 8) % 2 == 1 then publicKey[i].one
                                 else publicKey[i].zero)
  {
    SmallPowers();
    if |signature| != HASH_BITS || |publicKey| != HASH_BITS { return false; }
    var bits := DigestBits(h.message(message));
    for i := 0 to |bits|
      invariant forall k | 0 <= k < i :: h.secret(signature[k]) == Some(Pick(publicKey[k], bits[k]))
    {
      if h.secret(signature[i]) != Some(Pick(publicKey[i], bits[i])) { return false; }
    }
    return true;
  }

  lemma SmallPowers()
    ensures Power2(0) == 1 && Power2(1) == 2 && Power2(2) == 4 && Power2(3) == 8 && Power2(4) == 16
            && Power2(5) == 32 && Power2(6) == 64 && Power2(7) == 128
  {
  }

  /** Some row of a key has two equal halves. */
  predicate EqualHalves(publicKey: seq<Pair>)
  {
    exists i | 0 <= i < |publicKey| :: publicKey[i].zero == publicKey[i].one
  }

  /** A signature that verifies for one message verifies for another exactly when every row on which their digests
      differ has equal halves. */
  lemma VerifiesForBothIff(h: Hashes, m: seq<int>, n: seq<int>, signature: seq<string>, publicKey: seq<Pair>)
    requires Verifies(h, m, signature, publicKey) && |h.message(n)| == 32
    ensures var a, b := DigestBits(h.message(m)), DigestBits(h.message(n));
            Verifies(h, n, signature, publicKey)
            <==> forall i | 0 <= i < HASH_BITS && a[i] != b[i] :: publicKey[i].zero == publicKey[i].one
  {
    hide BitOf, DigestBits;
    var a, b := DigestBits(h.message(m)), DigestBits(h.message(n));
    forall i | 0 <= i < HASH_BITS
      ensures h.secret(signature[i]) == Some(Pick(publicKey[i], b[i]))
              <==> a[i] == b[i] || publicKey[i].zero == publicKey[i].one
    {
    }
  }

  /** Unless a row of the key has equal halves, a signature verifies for one digest alone. */
  lemma OneDigestPerSignature(h: Hashes, m: seq<int>, n: seq<int>, signature: seq<string>, publicKey: seq<Pair>)
    requires Verifies(h, m, signature, publicKey) && Verifies(h, n, signature, publicKey)
    requires Below(256, h.message(m)) && Below(256, h.message(n))
    ensures h.message(m) == h.message(n) || EqualHalves(publicKey)
  {
    hide BitOf, DigestBits;
    if h.message(m) != h.message(n) {
      var i := DigestBitsDiffer(h.message(m), h.message(n));
      VerifiesForBothIff(h, m, n, signature, publicKey);
      assert publicKey[i].zero == publicKey[i].one;
    }
  }

  function Serialized(publicKey: seq<Pair>): string
  {
    if publicKey == [] then ""
    else Serialized(publicKey[..|publicKey| - 1]) + publicKey[|publicKey| - 1].zero + publicKey[|publicKey| - 1].one
  }

  lemma {:induction false} SerializedConcat(a: seq<Pair>, b: seq<Pair>)
    ensures Serialized(a + b) == Serialized(a) + Serialized(b)
  {
    if b == [] {
      assert a + b == a;
    } else {
      assert (a + b)[..|a + b| - 1] == a + b[..|b| - 1];
      SerializedConcat(a, b[..|b| - 1]);
    }
  }

  /** Corresponding halves are equally long, as they are when all are digests of 64 characters. */
  predicate SameWidths(a: seq<Pair>, b: seq<Pair>)
  {
    |a| == |b| && forall i | 0 <= i < |a| :: |a[i].zero| == |b[i].zero| && |a[i].one| == |b[i].one|
  }

  predicate DigestHalves(a: seq<Pair>) { forall i | 0 <= i < |a| :: |a[i].zero| == 64 && |a[i].one| == 64 }

  /** The joined text determines the key when the halves are equally long. */
  lemma {:induction false} SerializedBinds(a: seq<Pair>, b: seq<Pair>)
    requires SameWidths(a, b) && Serialized(a) == Serialized(b)
    ensures a == b
  {
    if a != [] {
      var n := |a| - 1;
      var x, y := Serialized(a[..n]), Serialized(b[..n]);
      var s, t := Serialized(a), Serialized(b);
      assert s == x + a[n].zero + a[n].one && t == y + b[n].zero + b[n].one;
      assert |x| == |y|;
      assert s[..|x|] == x && t[..|y|] == y;
      assert s[|x|..|x| + |a[n].zero|] == a[n].zero && t[|y|..|y| + |b[n].zero|] == b[n].zero;
      assert s[|x| + |a[n].zero|..] == a[n].one && t[|y| + |b[n].zero|..] == b[n].one;
      SerializedBinds(a[..n], b[..n]);
    }
  }

  function Address(h: Hashes, publicKey: seq<Pair>): string { h.text(Serialized(publicKey)) }
}

module Xmss {
  import opened Results
  import opened Numerals
  import opened MerkleTree
  import opened Lamport

  datatype XmssKey = XmssKey(
    height: nat, root: string, leaves: seq<KeyPair>, leafHashes: seq<string>, authPaths: seq<seq<string>>,
    nextIndex: nat)

  datatype PublicKey = PublicKey(root: string, height: int)

  datatype Signature = Signature(leafIndex: int, leafPublicKey: seq<Pair>, lamport: seq<string>, authPath: seq<string>)

  lemma {:induction false} PowerIsPowerOfTwo(n: nat)
    ensures IsPowerOfTwo(Power2(n)) && Log2(Power2(n)) == n
  {
    if n > 0 {
      PowerIsPowerOfTwo(n - 1);
    }
  }

  function LeafHash(h: Hashes, publicKey: seq<Pair>): string { h.text("leaf:" + Address(h, publicKey)) }

  function LeafHashes(h: Hashes, leaves: seq<KeyPair>): (s: seq<string>)
    ensures |s| == |leaves|
  {
    seq(|leaves|, i requires 0 <= i < |leaves| => LeafHash(h, leaves[i].publicKey))
  }

  predicate Sound(h: Hashes, k: XmssKey)
  {
    && k.height > 0
    && |k.leaves| == Power2(k.height) && IsPowerOfTwo(|k.leaves|)
    && (forall i | 0 <= i < |k.leaves| :: WellFormed(h, k.leaves[i]))
    && k.leafHashes == LeafHashes(h, k.leaves)
    && k.root == Root(h.text, k.leafHashes)
    && |k.authPaths| == |k.leaves|
    && forall i | 0 <= i < |k.leaves| :: k.authPaths[i] == AuthPath(h.text, k.leafHashes, i)
  }

  /** Assembles a key from fresh leaf pairs, with nothing issued yet. */
  method Generate(h: Hashes, height: nat, leaves: seq<KeyPair>) returns (r: Result<XmssKey>)
    requires |leaves| == Power2(height) && forall i | 0 <= i < |leaves| :: WellFormed(h, leaves[i])
    ensures r.Ok? == (height > 0)
    ensures r.Ok? ==> Sound(h, r.value) && r.value.nextIndex == 0 && r.value.leaves == leaves
  {
    if height == 0 { return Rejected("XMSS tree height must be positive"); }
    PowerIsPowerOfTwo(height);
    var root, paths := BuildTree(h.text, LeafHashes(h, leaves));
    return Ok(XmssKey(height, root, leaves, LeafHashes(h, leaves), paths, 0));
  }

  /** Takes the next unused leaf, advancing the key, or nothing when all are used. */
  function Reserve(k: XmssKey): Option<(XmssKey, nat)>
  {
    if k.nextIndex >= |k.leaves| then None else Some((k.(nextIndex := k.nextIndex + 1), k.nextIndex))
  }

  /** The same as a value, which a signer hands to the wallet database. */
  function Reserver(): XmssKey -> Option<(XmssKey, nat)> { k => Reserve(k) }

  function ExportPublic(k: XmssKey): PublicKey { PublicKey(k.root, k.height) }

  function SignReserved(h: Hashes, k: XmssKey, message: seq<int>, leaf: nat): Signature
    requires leaf < |k.leaves| && leaf < |k.authPaths|
    requires |k.leaves[leaf].privateKey| == |DigestBits(h.message(message))|
  {
    Signature(leaf, k.leaves[leaf].publicKey, Sign(h, k.leaves[leaf], message), k.authPaths[leaf])
  }

  /** What it takes for a signature to be accepted. */
  predicate Accepted(h: Hashes, message: seq<int>, s: Signature, p: PublicKey)
  {
    && p.root != "" && 0 < p.height <= 64
    && 0 <= s.leafIndex < Power2(p.height)
    && |s.authPath| == p.height
    && Verifies(h, message, s.lamport, s.leafPublicKey)
    && RootFromPath(h.text, LeafHash(h, s.leafPublicKey), s.leafIndex, s.authPath) == p.root
  }

  method VerifySignature(h: Hashes, message: seq<int>, s: Signature, p: PublicKey) returns (ok: bool)
    requires |h.message(message)| == 32
    ensures ok == Accepted(h, message, s, p)
  {
    if p.root == "" || p.height <= 0 || p.height > 64 { return false; }
    if s.leafIndex < 0 || s.leafIndex >= Power2(p.height) || |s.authPath| != p.height { return false; }
    var signed := Verify(h, message, s.lamport, s.leafPublicKey);
    if !signed { return false; }
    var derived := RecomputeRoot(h.text, LeafHash(h, s.leafPublicKey), s.leafIndex, s.authPath);
    return derived == p.root;
  }

  /** A one-time signature of a well-formed key pair verifies under its public half. */
  lemma SignedVerifies(h: Hashes, k: KeyPair, message: seq<int>)
    requires |h.message(message)| == 32 && WellFormed(h, k)
    ensures Verifies(h, message, Sign(h, k, message), k.publicKey)
  {
    hide BitOf;
  }

  lemma ReserveKeepsSound(h: Hashes, k: XmssKey)
    requires Sound(h, k) && Reserve(k).Some?
    ensures Sound(h, Reserve(k).value.0)
  {
    hide WellFormed, LeafHashes, Root, AuthPath;
  }

  lemma RootIsNotEmpty(h: Hashes, k: XmssKey)
    requires ProperHashes(h) && Sound(h, k)
    ensures k.root != ""
  {
    hide WellFormed, AuthPath;
    RootLength(h.text, k.leafHashes);
  }

  /** Completeness: whatever leaf is reserved from a generated key, its signature on any message is accepted. */
  lemma ReservedSignatureVerifies(h: Hashes, k: XmssKey, message: seq<int>)
    requires ProperHashes(h) && Sound(h, k) && k.height <= 64 && Reserve(k).Some?
    ensures var (next, leaf) := Reserve(k).value;
            Sound(h, next) && Accepted(h, message, SignReserved(h, next, message, leaf), ExportPublic(next))
  {
    hide Verifies, WellFormed, Sign, AuthPath, Root, RootFromPath;
    PowerIsPowerOfTwo(k.height);
    ReserveKeepsSound(h, k);
    RootIsNotEmpty(h, k);
    SignedVerifies(h, k.leaves[k.nextIndex], message);
    PathRecomputesRoot(h.text, k.leafHashes, k.nextIndex);
    assert k.leafHashes[k.nextIndex] == LeafHash(h, k.leaves[k.nextIndex].publicKey);
  }

  lemma {:induction false} RootLength(sha: Digest, level: seq<string>)
    requires IsHash(sha) && IsPowerOfTwo(|level|) && forall i | 0 <= i < |level| :: |level[i]| == DIGEST_LENGTH
    ensures |Root(sha, level)| == DIGEST_LENGTH
    decreases |level|
  {
    if |level| > 1 {
      RootLength(sha, Above(sha, level));
    }
  }

  /** Binding: signatures accepted at one leaf index of one public key carry the same leaf digest and path, or the
      walks from their two leaves to the root hash two different texts to one digest at the same step. */
  lemma AcceptedAtOneIndexAgree(h: Hashes, p: PublicKey, m1: seq<int>, s1: Signature, m2: seq<int>, s2: Signature)
    requires ProperHashes(h)
    requires Accepted(h, m1, s1, p) && Accepted(h, m2, s2, p) && s1.leafIndex == s2.leafIndex
    ensures var l1, l2 := LeafHash(h, s1.leafPublicKey), LeafHash(h, s2.leafPublicKey);
            || (l1 == l2 && s1.authPath == s2.authPath)
            || WalksCollide(h.text, l1, s1.authPath, l2, s2.authPath, s1.leafIndex)
  {
    var l1, l2 := LeafHash(h, s1.leafPublicKey), LeafHash(h, s2.leafPublicKey);
    if l1 != l2 || s1.authPath != s2.authPath {
      DifferentPathsCollide(h.text, l1, s1.authPath, l2, s2.authPath, s1.leafIndex);
    }
  }

  /** The texts behind two leaves, or behind their addresses, are different and have one digest. */
  predicate LeavesCollide(h: Hashes, a: seq<Pair>, b: seq<Pair>)
  {
    || Collides(h.text, "leaf:" + Address(h, a), "leaf:" + Address(h, b))
    || Collides(h.text, Serialized(a), Serialized(b))
  }

  lemma LeafTextBinds(x: string, y: string)
    requires "leaf:" + x == "leaf:" + y
    ensures x == y
  {
    assert ("leaf:" + x)[5..] == x && ("leaf:" + y)[5..] == y;
  }

  /** Two leaves of one digest have one joined text, or their texts collide. */
  lemma LeafDigestBinds(h: Hashes, a: seq<Pair>, b: seq<Pair>)
    requires LeafHash(h, a) == LeafHash(h, b) && !LeavesCollide(h, a, b)
    ensures Serialized(a) == Serialized(b)
  {
    LeafTextBinds(Address(h, a), Address(h, b));
  }

  /** Two leaves of one digest whose texts do not collide are the same key exactly when their halves are equally
      long: the halves are joined without separators, so the digest alone does not tell where one ends. */
  lemma SameLeafIff(h: Hashes, a: seq<Pair>, b: seq<Pair>)
    requires LeafHash(h, a) == LeafHash(h, b) && !LeavesCollide(h, a, b)
    ensures a == b <==> SameWidths(a, b)
  {
    LeafDigestBinds(h, a, b);
    if SameWidths(a, b) { SerializedBinds(a, b); }
  }

  /** When all halves are digests, signatures accepted at one index carry the same leaf key and path, or two of the
      texts hashed for them collide. */
  lemma AcceptedKeysAgree(h: Hashes, p: PublicKey, m1: seq<int>, s1: Signature, m2: seq<int>, s2: Signature)
    requires ProperHashes(h)
    requires Accepted(h, m1, s1, p) && Accepted(h, m2, s2, p) && s1.leafIndex == s2.leafIndex
    requires DigestHalves(s1.leafPublicKey) && DigestHalves(s2.leafPublicKey)
    ensures || (s1.leafPublicKey == s2.leafPublicKey && s1.authPath == s2.authPath)
            || LeavesCollide(h, s1.leafPublicKey, s2.leafPublicKey)
            || WalksCollide(h.text, LeafHash(h, s1.leafPublicKey), s1.authPath,
                            LeafHash(h, s2.leafPublicKey), s2.authPath, s1.leafIndex)
  {
    hide Verifies, LeavesCollide, LeafHash, RootFromPath, WalksCollide;
    AcceptedAtOneIndexAgree(h, p, m1, s1, m2, s2);
    assert |s1.leafPublicKey| == |s2.leafPublicKey| by { AcceptedSize(h, m1, s1, p); AcceptedSize(h, m2, s2, p); }
    var same := LeafHash(h, s1.leafPublicKey) == LeafHash(h, s2.leafPublicKey);
    if same && !LeavesCollide(h, s1.leafPublicKey, s2.leafPublicKey) {
      SameLeafIff(h, s1.leafPublicKey, s2.leafPublicKey);
    }
  }

  lemma AcceptedSize(h: Hashes, m: seq<int>, s: Signature, p: PublicKey)
    requires Accepted(h, m, s, p)
    ensures |s.leafPublicKey| == |DigestBits(h.message(m))| == HASH_BITS
  {
  }

  /** An accepted signature is accepted for no message of another digest, unless a row of its leaf key has equal
      halves. */
  lemma AcceptedForOneDigest(h: Hashes, p: PublicKey, m: seq<int>, n: seq<int>, s: Signature)
    requires Accepted(h, m, s, p) && Accepted(h, n, s, p)
    requires Below(256, h.message(m)) && Below(256, h.message(n))
    ensures h.message(m) == h.message(n) || EqualHalves(s.leafPublicKey)
  {
    OneDigestPerSignature(h, m, n, s.lamport, s.leafPublicKey);
  }

  /** Leaf indices have one representative each: adding multiples of the tree's width gives no accepted signature. */
  lemma LeafIndexIsUnique(h: Hashes, p: PublicKey, m: seq<int>, s: Signature, n: seq<int>, t: Signature)
    requires Accepted(h, m, s, p) && Accepted(h, n, t, p)
    requires s.leafIndex % Power2(p.height) == t.leafIndex % Power2(p.height)
    ensures s.leafIndex == t.leafIndex
  {
    hide Verifies, RootFromPath;
    QuotientRemainder(0, s.leafIndex, Power2(p.height));
    QuotientRemainder(0, t.leafIndex, Power2(p.height));
  }

  /** A leaf digest is never that of an inner node, unless their texts collide. */
  lemma LeafIsNoNode(h: Hashes, k: seq<Pair>, left: string, right: string)
    requires LeafHash(h, k) == Parent(h.text, left, right)
    ensures Collides(h.text, "leaf:" + Address(h, k), "node:" + left + ":" + right)
  {
    assert ("leaf:" + Address(h, k))[0] != ("node:" + left + ":" + right)[0];
  }

  /** A leaf key with the last character of the right half of row `i` moved to the left half of the next row. */
  function Moved(k: seq<Pair>, i: nat): (r: seq<Pair>)
    requires i + 1 < |k| && k[i].one != ""
    ensures |r| == |k|
  {
    k[..i] + MovedRows(k[i], k[i + 1]) + k[i + 2..]
  }

  function MovedRows(p: Pair, q: Pair): (r: seq<Pair>)
    requires p.one != ""
    ensures |r| == 2
  {
    var n := |p.one| - 1;
    [Pair(p.zero, p.one[..n]), Pair(p.one[n..] + q.zero, q.one)]
  }

  lemma TwoRows(p: Pair, q: Pair)
    ensures Serialized([p, q]) == p.zero + p.one + (q.zero + q.one)
  {
    assert [p, q][..1] == [p] && [p][..0] == [];
    assert Serialized([p]) == "" + p.zero + p.one;
  }

  lemma RowsSerialized(p: Pair, q: Pair)
    requires p.one != ""
    ensures Serialized(MovedRows(p, q)) == Serialized([p, q])
  {
    var n := |p.one| - 1;
    TwoRows(p, q);
    TwoRows(Pair(p.zero, p.one[..n]), Pair(p.one[n..] + q.zero, q.one));
    assert p.one == p.one[..n] + p.one[n..];
    assert p.zero + p.one[..n] + (p.one[n..] + q.zero + q.one) == p.zero + p.one + (q.zero + q.one);
  }

  lemma ThreeParts(a: seq<Pair>, m: seq<Pair>, b: seq<Pair>)
    ensures Serialized(a + m + b) == Serialized(a) + Serialized(m) + Serialized(b)
  {
    hide Serialized;
    SerializedConcat(a, m);
    SerializedConcat(a + m, b);
  }

  lemma AroundRows(k: seq<Pair>, i: nat)
    requires i + 1 < |k|
    ensures k == k[..i] + [k[i], k[i + 1]] + k[i + 2..]
  {
  }

  lemma MovedDiffers(k: seq<Pair>, i: nat)
    requires i + 1 < |k| && k[i].one != ""
    ensures Moved(k, i) != k
  {
    assert Moved(k, i)[i] == MovedRows(k[i], k[i + 1])[0];
    assert |Moved(k, i)[i].one| < |k[i].one|;
  }

  lemma MovedSerialized(k: seq<Pair>, i: nat)
    requires i + 1 < |k| && k[i].one != ""
    ensures Serialized(Moved(k, i)) == Serialized(k) && Moved(k, i) != k
  {
    hide Serialized, MovedRows;
    MovedDiffers(k, i);
    AroundRows(k, i);
    RowsSerialized(k[i], k[i + 1]);
    ThreeParts(k[..i], [k[i], k[i + 1]], k[i + 2..]);
    ThreeParts(k[..i], MovedRows(k[i], k[i + 1]), k[i + 2..]);
  }

  /** The digest does not bind the key: wherever the message bits of two neighbouring rows are 0 and 1, the halves on
      both sides of their border are unused, and an accepted signature stays accepted with another leaf key. */
  lemma OtherLeafAccepted(h: Hashes, m: seq<int>, s: Signature, p: PublicKey, i: nat)
    requires Accepted(h, m, s, p) && i + 1 < HASH_BITS
    requires |DigestBits(h.message(m))| == HASH_BITS
             && !DigestBits(h.message(m))[i] && DigestBits(h.message(m))[i + 1]
    requires |s.leafPublicKey| == HASH_BITS && s.leafPublicKey[i].one != ""
    ensures var t := s.(leafPublicKey := Moved(s.leafPublicKey, i));
            Accepted(h, m, t, p) && t.leafPublicKey != s.leafPublicKey
  {
    hide DigestBits, Moved, RootFromPath;
    MovedSerialized(s.leafPublicKey, i);
    forall j | 0 <= j < HASH_BITS
      ensures Pick(Moved(s.leafPublicKey, i)[j], DigestBits(h.message(m))[j])
              == Pick(s.leafPublicKey[j], DigestBits(h.message(m))[j])
    {
      MovedHalf(s.leafPublicKey, i, j);
    }
  }

  lemma MovedHalf(k: seq<Pair>, i: nat, j: nat)
    requires i + 1 < |k| && k[i].one != "" && j < |k|
    ensures j != i + 1 ==> Moved(k, i)[j].zero == k[j].zero
    ensures j != i ==> Moved(k, i)[j].one == k[j].one
  {
  }
}
