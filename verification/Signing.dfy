/** Deposit containers and signing roots (ssz.go, signing.go) over the Merkle
    tree: what each root is, and that it binds everything it covers. */
module Signing {
  import opened Bytes
  import opened MachineInts
  import opened Merkle
  import opened Wrappers

  const PUBLIC_KEY_LENGTH := 2592
  const SIGNATURE_LENGTH := 4627
  const WITHDRAWAL_RECIPIENT_LENGTH := 64
  const RANDAO_COMMITMENT_LENGTH := 32

  datatype WrongLength = WrongLength(want: nat, got: nat)

  // ---- Fixed byte vectors ----

  /** The value in 32-byte chunks, the last one zero-padded. */
  function Chunks(value: seq<byte>): (chunks: seq<Root>)
    ensures |chunks| == (|value| + ROOT_LENGTH - 1) / ROOT_LENGTH
  {
    if |value| == 0 then []
    else if |value| < ROOT_LENGTH then [value + Zeros(ROOT_LENGTH - |value|)]
    else [value[..ROOT_LENGTH]] + Chunks(value[ROOT_LENGTH..])
  }

  lemma {:induction false} ChunksInjective(a: seq<byte>, b: seq<byte>)
    requires |a| == |b| && Chunks(a) == Chunks(b)
    ensures a == b
  {
    if |a| == 0 {
    } else if |a| < ROOT_LENGTH {
      assert a == Chunks(a)[0][..|a|] && b == Chunks(b)[0][..|a|];
    } else {
      var restA, restB := a[ROOT_LENGTH..], b[ROOT_LENGTH..];
      assert Chunks(restA) == Chunks(a)[1..] && Chunks(restB) == Chunks(b)[1..];
      ChunksInjective(restA, restB);
      assert a[..ROOT_LENGTH] == Chunks(a)[0] && b[..ROOT_LENGTH] == Chunks(b)[0];
      assert a == a[..ROOT_LENGTH] + restA && b == b[..ROOT_LENGTH] + restB;
    }
  }

  /** Go's `copy` of a slice over a zeroed chunk. */
  function CopyOverZeros(source: seq<byte>): Root {
    if |source| >= ROOT_LENGTH then source[..ROOT_LENGTH] else source + Zeros(ROOT_LENGTH - |source|)
  }

  function BytesRoot(sha: Hash, value: seq<byte>, length: nat): Result<Root, WrongLength> {
    if |value| != length then Err(WrongLength(length, |value|)) else Ok(MerkleRoot(sha, Chunks(value)))
  }

  function Min(a: nat, b: nat): nat {
    if a < b then a else b
  }

  method FixedBytesRoot(sha: Hash, value: seq<byte>, length: nat) returns (r: Result<Root, WrongLength>)
    ensures r == BytesRoot(sha, value, length)
  {
    if |value| != length {
      return Err(WrongLength(length, |value|));
    }
    var count := (length + ROOT_LENGTH - 1) / ROOT_LENGTH;
    var chunks: seq<Root> := [];
    for index := 0 to count
      invariant |chunks| == index
      invariant index * ROOT_LENGTH <= |value| || index == count
      invariant chunks + Chunks(value[Min(index * ROOT_LENGTH, |value|)..]) == Chunks(value)
    {
      var rest := value[index * ROOT_LENGTH..];
      var next := value[Min((index + 1) * ROOT_LENGTH, |value|)..];
      assert Chunks(rest) == [CopyOverZeros(rest)] + Chunks(next) by {
        if |rest| >= ROOT_LENGTH { assert rest[ROOT_LENGTH..] == next; }
      }
      chunks := chunks + [CopyOverZeros(rest)];
    }
    assert chunks == Chunks(value);
    var root := Merkleize(sha, chunks);
    return Ok(root);
  }

  // ---- uint64 ----

  function LittleEndian(value: nat, n: nat): (bytes: seq<byte>)
    ensures |bytes| == n
  {
    if n == 0 then [] else [value % 256] + LittleEndian(value / 256, n - 1)
  }

  function LittleEndianValue(bytes: seq<byte>): nat {
    if |bytes| == 0 then 0 else bytes[0] + 256 * LittleEndianValue(bytes[1..])
  }

  function Pow256(n: nat): nat {
    if n == 0 then 1 else 256 * Pow256(n - 1)
  }

  lemma {:induction false} LittleEndianRoundTrip(value: nat, n: nat)
    requires value < Pow256(n)
    ensures LittleEndianValue(LittleEndian(value, n)) == value
  {
    if n > 0 {
      LittleEndianRoundTrip(value / 256, n - 1);
      assert LittleEndian(value, n)[1..] == LittleEndian(value / 256, n - 1);
    }
  }

  function Uint64Root(value: uint64): Root {
    LittleEndian(value, 8) + Zeros(ROOT_LENGTH - 8)
  }

  lemma Uint64RootInjective(a: uint64, b: uint64)
    requires Uint64Root(a) == Uint64Root(b)
    ensures a == b
  {
    assert Pow256(8) == TWO64;
    assert LittleEndian(a, 8) == Uint64Root(a)[..8] && LittleEndian(b, 8) == Uint64Root(b)[..8];
    LittleEndianRoundTrip(a, 8);
    LittleEndianRoundTrip(b, 8);
  }

  // ---- Deposit containers ----

  datatype DepositMessage = DepositMessage(
    publicKey: seq<byte>, withdrawalRecipient: seq<byte>, amount: uint64, randaoCommitment: seq<byte>)

  datatype DepositData = DepositData(message: DepositMessage, signature: seq<byte>)

  predicate WellSized(m: DepositMessage) {
    && |m.publicKey| == PUBLIC_KEY_LENGTH
    && |m.withdrawalRecipient| == WITHDRAWAL_RECIPIENT_LENGTH
    && |m.randaoCommitment| == RANDAO_COMMITMENT_LENGTH
  }

  /** The first field, in the order they are hashed, that has the wrong length. */
  function FirstWrong(m: DepositMessage): (wrong: Option<WrongLength>)
    ensures wrong.None? <==> WellSized(m)
  {
    if |m.publicKey| != PUBLIC_KEY_LENGTH then Some(WrongLength(PUBLIC_KEY_LENGTH, |m.publicKey|))
    else if |m.withdrawalRecipient| != WITHDRAWAL_RECIPIENT_LENGTH
      then Some(WrongLength(WITHDRAWAL_RECIPIENT_LENGTH, |m.withdrawalRecipient|))
    else if |m.randaoCommitment| != RANDAO_COMMITMENT_LENGTH
      then Some(WrongLength(RANDAO_COMMITMENT_LENGTH, |m.randaoCommitment|))
    else None
  }

  function Fields(sha: Hash, m: DepositMessage): (fields: seq<Root>)
    ensures |fields| == 4
  {
    [MerkleRoot(sha, Chunks(m.publicKey)), MerkleRoot(sha, Chunks(m.withdrawalRecipient)),
     Uint64Root(m.amount), MerkleRoot(sha, Chunks(m.randaoCommitment))]
  }

  function MessageRoot(sha: Hash, m: DepositMessage): Root {
    MerkleRoot(sha, Fields(sha, m))
  }

  function DataRoot(sha: Hash, data: DepositData): Root {
    MerkleRoot(sha, Fields(sha, data.message) + [MerkleRoot(sha, Chunks(data.signature))])
  }

  method FieldRoots(sha: Hash, m: DepositMessage) returns (r: Result<seq<Root>, WrongLength>)
    ensures r.Ok? <==> WellSized(m)
    ensures r.Ok? ==> r.value == Fields(sha, m)
    ensures r.Err? ==> FirstWrong(m) == Some(r.error)
  {
    var publicKey := FixedBytesRoot(sha, m.publicKey, PUBLIC_KEY_LENGTH);
    if publicKey.Err? { return Err(publicKey.error); }
    var recipient := FixedBytesRoot(sha, m.withdrawalRecipient, WITHDRAWAL_RECIPIENT_LENGTH);
    if recipient.Err? { return Err(recipient.error); }
    var commitment := FixedBytesRoot(sha, m.randaoCommitment, RANDAO_COMMITMENT_LENGTH);
    if commitment.Err? { return Err(commitment.error); }
    return Ok([publicKey.value, recipient.value, Uint64Root(m.amount), commitment.value]);
  }

  method DepositMessageHashTreeRoot(sha: Hash, m: DepositMessage) returns (r: Result<Root, WrongLength>)
    ensures r.Ok? <==> WellSized(m)
    ensures r.Ok? ==> r.value == MessageRoot(sha, m)
    ensures r.Err? ==> FirstWrong(m) == Some(r.error)
  {
    var fields := FieldRoots(sha, m);
    if fields.Err? { return Err(fields.error); }
    var root := Merkleize(sha, fields.value);
    return Ok(root);
  }

  method DepositDataHashTreeRoot(sha: Hash, data: DepositData) returns (r: Result<Root, WrongLength>)
    ensures r.Ok? <==> WellSized(data.message) && |data.signature| == SIGNATURE_LENGTH
    ensures r.Ok? ==> r.value == DataRoot(sha, data)
    ensures r.Err? ==>
      if WellSized(data.message) then r.error == WrongLength(SIGNATURE_LENGTH, |data.signature|)
      else FirstWrong(data.message) == Some(r.error)
  {
    var fields := FieldRoots(sha, data.message);
    if fields.Err? { return Err(fields.error); }
    var signature := FixedBytesRoot(sha, data.signature, SIGNATURE_LENGTH);
    if signature.Err? { return Err(signature.error); }
    var root := Merkleize(sha, fields.value + [signature.value]);
    return Ok(root);
  }

  lemma PairRoot(sha: Hash, left: Root, right: Root)
    ensures TreeRoot(sha, [left, right], 1) == Node(sha, left, right)
    ensures MerkleRoot(sha, [left, right]) == Node(sha, left, right)
  {
    var leaves := [left, right];
    DepthUnique(2, 1);
    assert ZeroPad(leaves, 2) == leaves;
    assert leaves[..1] == [left] && leaves[1..] == [right];
  }

  /** The five fields of a deposit make a tree whose left half is the deposit
      message's own tree. */
  lemma DataRootExtendsMessageRoot(sha: Hash, data: DepositData)
    ensures DataRoot(sha, data)
         == Node(sha, MessageRoot(sha, data.message),
                 Node(sha, Node(sha, MerkleRoot(sha, Chunks(data.signature)), ZERO_ROOT),
                      Node(sha, ZERO_ROOT, ZERO_ROOT)))
  {
    var signature := MerkleRoot(sha, Chunks(data.signature));
    assert Pow2(2) == 4;
    Composition(sha, Fields(sha, data.message), [signature], 2);
    var leaves := ZeroPad([signature], Pow2(2));
    assert leaves[..2] == [signature, ZERO_ROOT] && leaves[2..] == [ZERO_ROOT, ZERO_ROOT];
    PairRoot(sha, signature, ZERO_ROOT);
    PairRoot(sha, ZERO_ROOT, ZERO_ROOT);
  }

  // ---- Binding ----

  function BytesCollision(sha: Hash, a: seq<byte>, b: seq<byte>): (seq<byte>, seq<byte>)
    requires |a| == |b|
  {
    ChunksCollision(sha, Chunks(a), Chunks(b))
  }

  /** Byte vectors of one length with one root are equal, or exhibit a collision. */
  lemma BytesBinding(sha: Hash, a: seq<byte>, b: seq<byte>)
    requires |a| == |b| && MerkleRoot(sha, Chunks(a)) == MerkleRoot(sha, Chunks(b))
    ensures a == b || IsCollision(sha, BytesCollision(sha, a, b))
  {
    ChunksBinding(sha, Chunks(a), Chunks(b));
    if Chunks(a) == Chunks(b) {
      ChunksInjective(a, b);
    }
  }

  function FieldCollision(sha: Hash, m: DepositMessage, n: DepositMessage): (seq<byte>, seq<byte>)
    requires WellSized(m) && WellSized(n)
  {
    if m.publicKey != n.publicKey then BytesCollision(sha, m.publicKey, n.publicKey)
    else if m.withdrawalRecipient != n.withdrawalRecipient
      then BytesCollision(sha, m.withdrawalRecipient, n.withdrawalRecipient)
    else BytesCollision(sha, m.randaoCommitment, n.randaoCommitment)
  }

  function MessageCollision(sha: Hash, m: DepositMessage, n: DepositMessage): (seq<byte>, seq<byte>)
    requires WellSized(m) && WellSized(n)
  {
    if Fields(sha, m) != Fields(sha, n) then ChunksCollision(sha, Fields(sha, m), Fields(sha, n))
    else FieldCollision(sha, m, n)
  }

  lemma FieldsBinding(sha: Hash, m: DepositMessage, n: DepositMessage)
    requires WellSized(m) && WellSized(n) && Fields(sha, m) == Fields(sha, n)
    ensures m == n || IsCollision(sha, FieldCollision(sha, m, n))
  {
    var f, g := Fields(sha, m), Fields(sha, n);
    assert f[0] == g[0] && f[1] == g[1] && f[2] == g[2] && f[3] == g[3];
    BytesBinding(sha, m.publicKey, n.publicKey);
    BytesBinding(sha, m.withdrawalRecipient, n.withdrawalRecipient);
    Uint64RootInjective(m.amount, n.amount);
    BytesBinding(sha, m.randaoCommitment, n.randaoCommitment);
  }

  lemma MessageBinding(sha: Hash, m: DepositMessage, n: DepositMessage)
    requires WellSized(m) && WellSized(n) && MessageRoot(sha, m) == MessageRoot(sha, n)
    ensures m == n || IsCollision(sha, MessageCollision(sha, m, n))
  {
    ChunksBinding(sha, Fields(sha, m), Fields(sha, n));
    if Fields(sha, m) == Fields(sha, n) {
      FieldsBinding(sha, m, n);
    }
  }

  function DataCollision(sha: Hash, d: DepositData, e: DepositData): (seq<byte>, seq<byte>)
    requires WellSized(d.message) && WellSized(e.message) && |d.signature| == |e.signature|
  {
    var f := Fields(sha, d.message) + [MerkleRoot(sha, Chunks(d.signature))];
    var g := Fields(sha, e.message) + [MerkleRoot(sha, Chunks(e.signature))];
    if f != g then ChunksCollision(sha, f, g)
    else if d.message != e.message then FieldCollision(sha, d.message, e.message)
    else BytesCollision(sha, d.signature, e.signature)
  }

  lemma DataBinding(sha: Hash, d: DepositData, e: DepositData)
    requires WellSized(d.message) && WellSized(e.message)
    requires |d.signature| == |e.signature| == SIGNATURE_LENGTH
    requires DataRoot(sha, d) == DataRoot(sha, e)
    ensures d == e || IsCollision(sha, DataCollision(sha, d, e))
  {
    var f := Fields(sha, d.message) + [MerkleRoot(sha, Chunks(d.signature))];
    var g := Fields(sha, e.message) + [MerkleRoot(sha, Chunks(e.signature))];
    ChunksBinding(sha, f, g);
    if f == g {
      assert Fields(sha, d.message) == f[..4] && Fields(sha, e.message) == g[..4] && f[4] == g[4];
      FieldsBinding(sha, d.message, e.message);
      BytesBinding(sha, d.signature, e.signature);
    }
  }

  // ---- Domains and signing roots ----

  type Bytes4 = b: seq<byte> | |b| == 4 witness Zeros(4)

  function VersionRoot(version: Bytes4): Root {
    version + Zeros(ROOT_LENGTH - 4)
  }

  function ForkDataRoot(sha: Hash, version: Bytes4, genesisValidatorsRoot: Root): Root {
    MerkleRoot(sha, [VersionRoot(version), genesisValidatorsRoot])
  }

  function ComputeDomain(sha: Hash, domainType: Bytes4, version: Bytes4, genesisValidatorsRoot: Root): Root {
    domainType + ForkDataRoot(sha, version, genesisValidatorsRoot)[..ROOT_LENGTH - 4]
  }

  function SigningRoot(sha: Hash, objectRoot: Root, domain: Root): Root {
    MerkleRoot(sha, [objectRoot, domain])
  }

  /** A domain keeps 28 bytes of the fork data root, so what it binds is up to a
      collision on those 28 bytes. */
  predicate IsTruncatedCollision(sha: Hash, pair: (seq<byte>, seq<byte>)) {
    pair.0 != pair.1 && sha(pair.0)[..ROOT_LENGTH - 4] == sha(pair.1)[..ROOT_LENGTH - 4]
  }

  lemma DomainBinding(sha: Hash, type1: Bytes4, version1: Bytes4, genesis1: Root,
                      type2: Bytes4, version2: Bytes4, genesis2: Root)
    requires ComputeDomain(sha, type1, version1, genesis1) == ComputeDomain(sha, type2, version2, genesis2)
    ensures type1 == type2
    ensures (version1 == version2 && genesis1 == genesis2)
         || IsTruncatedCollision(sha, (Input(VersionRoot(version1), genesis1), Input(VersionRoot(version2), genesis2)))
  {
    var d1 := ComputeDomain(sha, type1, version1, genesis1);
    var d2 := ComputeDomain(sha, type2, version2, genesis2);
    assert type1 == d1[..4] && type2 == d2[..4];
    PairRoot(sha, VersionRoot(version1), genesis1);
    PairRoot(sha, VersionRoot(version2), genesis2);
    assert ForkDataRoot(sha, version1, genesis1)[..ROOT_LENGTH - 4] == d1[4..];
    assert ForkDataRoot(sha, version2, genesis2)[..ROOT_LENGTH - 4] == d2[4..];
    if Input(VersionRoot(version1), genesis1) == Input(VersionRoot(version2), genesis2) {
      SplitInput(VersionRoot(version1), genesis1, VersionRoot(version2), genesis2);
      assert version1 == VersionRoot(version1)[..4] && version2 == VersionRoot(version2)[..4];
    }
  }

  /** One signing root means one object root and one domain, or an explicit collision. */
  lemma SigningRootBinding(sha: Hash, a: Root, domainA: Root, b: Root, domainB: Root)
    requires SigningRoot(sha, a, domainA) == SigningRoot(sha, b, domainB)
    ensures (a == b && domainA == domainB) || IsCollision(sha, (Input(a, domainA), Input(b, domainB)))
  {
    PairRoot(sha, a, domainA);
    PairRoot(sha, b, domainB);
    if Input(a, domainA) == Input(b, domainB) {
      SplitInput(a, domainA, b, domainB);
    }
  }

  /** What a deposit's signature covers: one signing root means one message and one
      domain, or an explicit collision. */
  lemma DepositSignatureBinding(sha: Hash, m: DepositMessage, domainM: Root, n: DepositMessage, domainN: Root)
    requires WellSized(m) && WellSized(n)
    requires SigningRoot(sha, MessageRoot(sha, m), domainM) == SigningRoot(sha, MessageRoot(sha, n), domainN)
    ensures (m == n && domainM == domainN)
         || IsCollision(sha, (Input(MessageRoot(sha, m), domainM), Input(MessageRoot(sha, n), domainN)))
         || IsCollision(sha, MessageCollision(sha, m, n))
  {
    SigningRootBinding(sha, MessageRoot(sha, m), domainM, MessageRoot(sha, n), domainN);
    if MessageRoot(sha, m) == MessageRoot(sha, n) {
      MessageBinding(sha, m, n);
    }
  }
}
