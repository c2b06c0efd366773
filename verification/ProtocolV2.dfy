/** Transfers, blocks and the stateless checks of protocol version 2. */
module ProtocolV2 {
  import opened Results
  import opened Collections
  import Numerals
  import opened Coins

  const MAX_I64 := 0x7FFF_FFFF_FFFF_FFFF
  const MAX_BLOCK_BYTES := 0x40_0000
  const MAX_BLOCK_TRANSACTIONS := 4096
  const MAX_STATE_UTXOS := 100_000
  const MAX_STEP_US := 120_000_000
  const ZERO_HASH: Hash := 0
  const GENESIS_MINER := "qbc-genesis"

  datatype Input = Input(source: Outpoint, publicKey: string, signature: string)

  datatype Transfer = Transfer(
    version: int, chainId: string, kind: string, timestamp: int, fee: int,
    inputs: seq<Input>, outputs: seq<Coin>, metadata: map<string, string>, scheme: string, txId: Hash)

  datatype Block = Block(
    version: int, chainId: string, height: int, previousHash: Hash, timestamp: int, difficulty: int,
    nonce: int, miner: string, transactions: seq<Transfer>, stateRoot: Hash, blockHash: Hash)

  /** What a block hash commits to: the block with each transaction replaced by its ID. */
  datatype BlockPreimage = BlockPreimage(
    version: int, chainId: string, height: int, previousHash: Hash, timestamp: int, difficulty: int,
    nonce: int, miner: string, txIds: seq<Hash>, stateRoot: Hash)

  /** What the canonical hash is taken of; each constructor is one hash domain. */
  datatype Hashed =
    | OfAllocation(chainId: string, index: int, recipient: string, amount: int)
    | OfTransfer(body: Transfer)
    | OfBlock(preimage: BlockPreimage)
    | OfState(utxos: Utxos)

  /** What every input signature of a transfer covers. */
  datatype SignedView = SignedView(
    version: int, chainId: string, kind: string, timestamp: int, fee: int,
    sources: seq<Outpoint>, outputs: seq<Coin>, metadata: map<string, string>, scheme: string)

  datatype Allocation = Allocation(recipient: string, amount: int)

  datatype Limits = Limits(
    blockBytes: int, blockTransactions: int, transferBytes: int, metadataBytes: int, inputs: int, outputs: int)

  /** A manifest, with the hash function of a domain and a preimage, the encoders, signature providers and address rule
      it fixes.
      A provider answers the owner's address, or nothing when it raises. */
  datatype Network = Network(
    chainId: string, genesisHash: Hash, manifestDigest: Hash,
    difficultyBits: int, maxStep: int, maxSupply: int, genesisTimestamp: int,
    allocations: seq<Allocation>, limits: Limits, schemes: set<string>,
    provider: (string, string, string, SignedView) -> Option<string>,
    payloadFits: (string, string, string) -> bool,
    addressRule: string -> bool,
    hash: Hashed -> Hash,
    transferSize: Transfer -> int,
    blockSize: Block -> int,
    preimageSize: BlockPreimage -> int)

  predicate IsDigest(h: Hash) { 0 <= h < Numerals.Power2(256) }

  predicate IsInteger(x: int, minimum: int) { minimum <= x <= MAX_I64 }

  function Utf8Length(s: string): nat
  {
    if s == "" then 0
    else
      var c := s[|s| - 1] as int;
      Utf8Length(s[..|s| - 1]) + if c < 0x80 then 1 else if c < 0x800 then 2 else if c < 0x1_0000 then 3 else 4
  }

  predicate IsText(s: string, limit: nat) { s != "" && Utf8Length(s) <= limit }

  predicate IsAscii(s: string) { forall i | 0 <= i < |s| :: s[i] < 128 as char }

  predicate IsAddress(net: Network, s: string) { IsText(s, 256) && net.addressRule(s) }

  predicate IsProviderId(s: string)
  {
    && 1 <= |s| <= 64
    && s[0] !in "_.-"
    && forall i | 0 <= i < |s| :: 'a' <= s[i] <= 'z' || '0' <= s[i] <= '9' || s[i] in "_.-"
  }

  function Sources(tx: Transfer): (s: seq<Outpoint>)
    ensures |s| == |tx.inputs|
  {
    seq(|tx.inputs|, i requires 0 <= i < |tx.inputs| => tx.inputs[i].source)
  }

  function SignaturePreimage(tx: Transfer): SignedView
  {
    SignedView(tx.version, tx.chainId, tx.kind, tx.timestamp, tx.fee, Sources(tx), tx.outputs, tx.metadata, tx.scheme)
  }

  /** The transaction-hash preimage: everything but the ID. */
  function Body(tx: Transfer): Transfer { tx.(txId := 0) }

  function OwnerOf(net: Network, tx: Transfer, i: nat): Option<string>
    requires i < |tx.inputs|
  {
    net.provider(tx.scheme, tx.inputs[i].publicKey, tx.inputs[i].signature, SignaturePreimage(tx))
  }

  predicate InputValid(net: Network, tx: Transfer, i: nat)
    requires i < |tx.inputs|
  {
    && net.payloadFits(tx.scheme, tx.inputs[i].publicKey, tx.inputs[i].signature)
    && IsDigest(tx.inputs[i].source.txId)
    && IsInteger(tx.inputs[i].source.index, 0)
    && OwnerOf(net, tx, i).Some?
    && IsAddress(net, OwnerOf(net, tx, i).value)
  }

  predicate OutputValid(net: Network, c: Coin)
  {
    IsAddress(net, c.recipient) && IsInteger(c.amount, 1)
  }

  predicate HeaderFieldsValid(net: Network, tx: Transfer)
  {
    && tx.version == 2
    && tx.chainId == net.chainId && IsText(tx.chainId, 64) && IsAscii(tx.chainId)
    && tx.kind == "transfer"
    && IsProviderId(tx.scheme) && tx.scheme in net.schemes
    && IsInteger(tx.timestamp, 0) && IsInteger(tx.fee, 0)
    && 1 <= |tx.inputs| <= net.limits.inputs
    && 1 <= |tx.outputs| <= net.limits.outputs
    && tx.metadata == map[]
  }

  /** The object-level rules, stated without the order in which they are tried. */
  predicate TransferValid(net: Network, tx: Transfer)
  {
    && HeaderFieldsValid(net, tx)
    && (forall i | 0 <= i < |tx.inputs| :: InputValid(net, tx, i))
    && Distinct(Sources(tx))
    && (forall c | c in tx.outputs :: OutputValid(net, c))
    && 2 <= net.limits.metadataBytes
    && net.transferSize(tx) <= net.limits.transferBytes
    && IsDigest(tx.txId) && tx.txId == net.hash(OfTransfer(Body(tx)))
  }

  function Owners(net: Network, tx: Transfer): (s: seq<string>)
    requires forall i | 0 <= i < |tx.inputs| :: InputValid(net, tx, i)
    ensures |s| == |tx.inputs|
  {
    seq(|tx.inputs|, i requires 0 <= i < |tx.inputs| && InputValid(net, tx, i) => OwnerOf(net, tx, i).value)
  }

  method CheckInput(net: Network, tx: Transfer, i: nat) returns (r: Result<string>)
    requires i < |tx.inputs|
    ensures r.Ok? <==> InputValid(net, tx, i)
    ensures r.Ok? ==> Some(r.value) == OwnerOf(net, tx, i)
  {
    var input := tx.inputs[i];
    if !net.payloadFits(tx.scheme, input.publicKey, input.signature) { return Rejected("provider payload too large"); }
    if !IsDigest(input.source.txId) || !IsInteger(input.source.index, 0) { return Rejected("outpoint is invalid"); }
    var owner := OwnerOf(net, tx, i);
    if owner.None? || !IsAddress(net, owner.value) { return Rejected("provider-derived address is invalid"); }
    return Ok(owner.value);
  }

  /** Walks the inputs, remembering the outpoints seen, and derives the owner of each. */
  method CheckInputs(net: Network, tx: Transfer) returns (r: Result<seq<string>>)
    ensures r.Ok? <==> Distinct(Sources(tx)) && forall i | 0 <= i < |tx.inputs| :: InputValid(net, tx, i)
    ensures r.Ok? ==> r.value == Owners(net, tx)
  {
    var seen: set<Outpoint> := {};
    var owners: seq<string> := [];
    var sources := Sources(tx);
    for i := 0 to |tx.inputs|
      invariant seen == Elements(sources[..i])
      invariant Distinct(sources[..i])
      invariant forall k | 0 <= k < i :: InputValid(net, tx, k)
      invariant |owners| == i && forall k | 0 <= k < i :: Some(owners[k]) == OwnerOf(net, tx, k)
    {
      if sources[i] in seen {
        var k :| 0 <= k < i && sources[..i][k] == sources[i];
        return Rejected("duplicate input outpoint");
      }
      assert sources[..i + 1] == sources[..i] + [sources[i]];
      seen := seen + {sources[i]};
      var owner := CheckInput(net, tx, i);
      if owner.Rejected? { return Rejected(owner.reason); }
      owners := owners + [owner.value];
    }
    assert sources[..|tx.inputs|] == sources;
    return Ok(owners);
  }

  /** Checks one transfer against the object-level rules and derives the owner of each input. */
  method ValidateTransfer(net: Network, tx: Transfer) returns (r: Result<seq<string>>)
    ensures r.Ok? <==> TransferValid(net, tx)
    ensures r.Ok? ==> r.value == Owners(net, tx)
  {
    if !HeaderFieldsValid(net, tx) { return Rejected("transaction fields are invalid"); }
    var owners := CheckInputs(net, tx);
    if owners.Rejected? { return owners; }
    for i := 0 to |tx.outputs|
      invariant forall c | c in tx.outputs[..i] :: OutputValid(net, c)
    {
      if !OutputValid(net, tx.outputs[i]) { return Rejected("output is invalid"); }
    }
    assert tx.outputs[..|tx.outputs|] == tx.outputs;
    if net.limits.metadataBytes < 2 { return Rejected("metadata exceeds limit"); }
    if net.transferSize(tx) > net.limits.transferBytes { return Rejected("signed transaction exceeds limit"); }
    if !IsDigest(tx.txId) || tx.txId != net.hash(OfTransfer(Body(tx))) { return Rejected("tx_id does not match"); }
    return owners;
  }

  predicate InputsLive(tx: Transfer, owners: seq<string>, utxos: Utxos)
  {
    && |owners| == |tx.inputs|
    && forall i | 0 <= i < |owners| :: Sources(tx)[i] in utxos && utxos[Sources(tx)[i]].recipient == owners[i]
  }

  predicate Balanced(tx: Transfer, utxos: Utxos)
  {
    && (forall k | 0 <= k <= |tx.inputs| :: Value(utxos, Sources(tx)[..k]) <= MAX_I64)
    && (forall k | 0 <= k <= |tx.outputs| :: Amount(tx.outputs[..k]) <= MAX_I64)
    && Amount(tx.outputs) + tx.fee <= MAX_I64
    && Value(utxos, Sources(tx)) == Amount(tx.outputs) + tx.fee
  }

  predicate OutpointsFree(tx: Transfer, utxos: Utxos)
  {
    forall i | 0 <= i < |tx.outputs| :: Outpoint(tx.txId, i) !in Without(utxos, Sources(tx))
  }

  /** The contextual rules of a transfer against a view. */
  predicate TransferApplies(tx: Transfer, owners: seq<string>, utxos: Utxos)
  {
    InputsLive(tx, owners, utxos) && Balanced(tx, utxos) && OutpointsFree(tx, utxos)
  }

  function Applied(utxos: Utxos, tx: Transfer): Utxos
  {
    WithOutputs(Without(utxos, Sources(tx)), tx.txId, tx.outputs)
  }

  /** Looks up every input, checks its owner and adds up the values. */
  method SumInputs(tx: Transfer, owners: seq<string>, utxos: Utxos) returns (r: Result<int>)
    ensures r.Ok? <==> InputsLive(tx, owners, utxos)
                       && forall k | 0 <= k <= |tx.inputs| :: Value(utxos, Sources(tx)[..k]) <= MAX_I64
    ensures r.Ok? ==> r.value == Value(utxos, Sources(tx))
  {
    if |owners| != |tx.inputs| { return Rejected("owner count does not match"); }
    var total := 0;
    var outpoints := Sources(tx);
    for i := 0 to |tx.inputs|
      invariant forall k | 0 <= k < i :: outpoints[k] in utxos && utxos[outpoints[k]].recipient == owners[k]
      invariant total == Value(utxos, outpoints[..i])
      invariant forall k | 0 <= k <= i :: Value(utxos, outpoints[..k]) <= MAX_I64
    {
      if outpoints[i] !in utxos { return Rejected("input is missing or already spent"); }
      if utxos[outpoints[i]].recipient != owners[i] { return Rejected("signer does not own the input"); }
      assert outpoints[..i + 1][..i] == outpoints[..i];
      total := total + utxos[outpoints[i]].amount;
      if total > MAX_I64 {
        assert Value(utxos, outpoints[..i + 1]) > MAX_I64;
        return Rejected("input sum overflows");
      }
    }
    assert outpoints[..|tx.inputs|] == outpoints;
    return Ok(total);
  }

  method SumOutputs(outputs: seq<Coin>) returns (r: Result<int>)
    ensures r.Ok? <==> forall k | 0 <= k <= |outputs| :: Amount(outputs[..k]) <= MAX_I64
    ensures r.Ok? ==> r.value == Amount(outputs)
  {
    var total := 0;
    for i := 0 to |outputs|
      invariant total == Amount(outputs[..i])
      invariant forall k | 0 <= k <= i :: Amount(outputs[..k]) <= MAX_I64
    {
      total := total + outputs[i].amount;
      assert outputs[..i + 1][..i] == outputs[..i];
      if total > MAX_I64 {
        assert Amount(outputs[..i + 1]) > MAX_I64;
        return Rejected("output sum overflows");
      }
    }
    assert outputs[..|outputs|] == outputs;
    return Ok(total);
  }

  /** Deletes the spent outpoints one by one, then writes the new ones, refusing to overwrite. */
  method MoveCoins(utxos: Utxos, spent: seq<Outpoint>, txId: Hash, outputs: seq<Coin>) returns (r: Result<Utxos>)
    ensures r.Ok? <==> forall i | 0 <= i < |outputs| :: Outpoint(txId, i) !in Without(utxos, spent)
    ensures r.Ok? ==> r.value == WithOutputs(Without(utxos, spent), txId, outputs)
  {
    var updated := utxos;
    for i := 0 to |spent|
      invariant updated == Without(utxos, spent[..i])
    {
      assert spent[..i + 1] == spent[..i] + [spent[i]];
      updated := updated - {spent[i]};
    }
    assert spent[..|spent|] == spent;
    ghost var kept := updated;
    for i := 0 to |outputs|
      invariant updated == WithOutputs(kept, txId, outputs[..i])
      invariant forall k | 0 <= k < i :: Outpoint(txId, k) !in kept
    {
      WithOutputsContent(kept, txId, outputs[..i]);
      if Outpoint(txId, i) in updated { return Rejected("outpoint already exists"); }
      assert outputs[..i + 1][..i] == outputs[..i];
      updated := updated[Outpoint(txId, i) := outputs[i]];
    }
    assert outputs[..|outputs|] == outputs;
    return Ok(updated);
  }

  /** Applies one validated transfer to a copy of the view. */
  method ApplyTransfer(tx: Transfer, owners: seq<string>, utxos: Utxos) returns (r: Result<Utxos>)
    requires Distinct(Sources(tx))
    ensures r.Ok? <==> TransferApplies(tx, owners, utxos)
    ensures r.Ok? ==> r.value == Applied(utxos, tx)
  {
    var inputTotal := SumInputs(tx, owners, utxos);
    if inputTotal.Rejected? { return Rejected(inputTotal.reason); }
    var outputTotal := SumOutputs(tx.outputs);
    if outputTotal.Rejected? { return Rejected(outputTotal.reason); }
    var required := outputTotal.value + tx.fee;
    if required > MAX_I64 || inputTotal.value != required { return Rejected("value is not conserved"); }
    r := MoveCoins(utxos, Sources(tx), tx.txId, tx.outputs);
  }

  predicate UtxoValid(net: Network, o: Outpoint, c: Coin)
  {
    IsDigest(o.txId) && IsInteger(o.index, 0) && OutputValid(net, c)
  }

  predicate StateValid(net: Network, utxos: Utxos)
  {
    |utxos| <= MAX_STATE_UTXOS && forall o | o in utxos :: UtxoValid(net, o, utxos[o])
  }

  /** Checks every live output and answers the state root. */
  method ValidateState(net: Network, utxos: Utxos) returns (r: Result<Hash>)
    ensures r.Ok? <==> StateValid(net, utxos)
    ensures r.Ok? ==> r.value == net.hash(OfState(utxos))
  {
    if |utxos| > MAX_STATE_UTXOS { return Rejected("too many UTXOs"); }
    var rest := utxos;
    while rest != map[]
      invariant rest.Keys <= utxos.Keys && forall o | o in rest :: rest[o] == utxos[o]
      invariant forall o | o in utxos && o !in rest :: UtxoValid(net, o, utxos[o])
      decreases |rest|
    {
      var o :| o in rest;
      if !UtxoValid(net, o, rest[o]) { return Rejected("UTXO is invalid"); }
      rest := rest - {o};
    }
    return Ok(net.hash(OfState(utxos)));
  }

  function TxIds(txs: seq<Transfer>): (s: seq<Hash>)
    ensures |s| == |txs|
  {
    seq(|txs|, i requires 0 <= i < |txs| => txs[i].txId)
  }

  function Preimage(b: Block): BlockPreimage
  {
    BlockPreimage(b.version, b.chainId, b.height, b.previousHash, b.timestamp, b.difficulty, b.nonce, b.miner,
                  TxIds(b.transactions), b.stateRoot)
  }

  predicate HeaderValid(net: Network, b: Block)
  {
    && b.version == 2
    && b.chainId == net.chainId && IsText(b.chainId, 64) && IsAscii(b.chainId)
    && IsInteger(b.height, 0) && IsDigest(b.previousHash)
    && IsInteger(b.timestamp, 0) && IsInteger(b.difficulty, 1) && IsInteger(b.nonce, 0)
    && IsAddress(net, b.miner)
    && IsDigest(b.stateRoot)
    && |b.transactions| <= MAX_BLOCK_TRANSACTIONS
    && net.blockSize(b) <= MAX_BLOCK_BYTES
    && (forall tx | tx in b.transactions :: IsDigest(tx.txId))
    && net.preimageSize(Preimage(b)) <= MAX_BLOCK_BYTES
    && IsDigest(b.blockHash) && b.blockHash == net.hash(OfBlock(Preimage(b)))
  }

  /** Linkage, time and fixed proof of work of a block under its parent. */
  predicate ContextValid(net: Network, parent: Block, b: Block)
  {
    && 1 <= net.difficultyBits <= 16
    && 1 <= net.maxStep <= MAX_STEP_US
    && b.height == parent.height + 1
    && b.previousHash == parent.blockHash
    && b.difficulty == net.difficultyBits
    && parent.timestamp < b.timestamp <= parent.timestamp + net.maxStep
    && HeaderValid(net, b)
    && b.blockHash < Numerals.Power2(256 - net.difficultyBits)
  }
}
