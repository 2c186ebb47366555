/**
 * The referenced-transaction helpers of src/js/core/methods/tx/refTx.js:
 * which previous transactions a signing request needs, and how a parsed
 * transaction becomes the flat record the device reads.
 */
module RefTx {
  import opened Wrappers
  import opened BufferUtils
  import opened NodeBuffer
  import opened JsParseInt

  /** The fields of an hd-wallet `BuildTxInput` that are read here. */
  datatype BuildTxInput = BuildTxInput(hash: seq<Byte>, segwit: bool)

  /** A transaction input as bitcoinjs-lib-zcash parses it (`hash` in internal byte order). */
  datatype Input = Input(hash: seq<Byte>, index: nat, script: seq<Byte>, sequence: nat)

  /** A transaction output as bitcoinjs-lib-zcash parses it. */
  datatype Output = Output(value: nat, script: seq<Byte>)

  /**
   * A parsed bitcoinjs-lib-zcash transaction.  The parser's own methods are
   * given as fields: `serialized` is `toBuffer()`, `joinsplitByteLength` is
   * `joinsplitByteLength()` and `id` is `getId()`.
   */
  datatype Transaction = Transaction(
    version: int,
    locktime: nat,
    ins: seq<Input>,
    outs: seq<Output>,
    zcash: bool,
    versionGroupId: string,
    timestamp: Option<nat>,
    expiry: Option<nat>,
    serialized: seq<Byte>,
    joinsplitByteLength: nat,
    id: string)

  /** Device record fields keep the names of the wire format. */
  datatype RefTxInput = RefTxInput(prev_index: nat, sequence: nat, prev_hash: string, script_sig: string)

  datatype RefTxOutput = RefTxOutput(amount: nat, script_pubkey: string)

  datatype RefTransaction = RefTransaction(
    lock_time: nat,
    version: int,
    hash: string,
    inputs: seq<RefTxInput>,
    bin_outputs: seq<RefTxOutput>,
    extra_data: Option<string>,
    timestamp: Option<nat>,
    version_group_id: Option<Number>,
    expiry: Option<nat>)

  // ---------------------------------------------------------------------
  // Referenced transactions
  // ---------------------------------------------------------------------

  /** `reverseBuffer(hash).toString('hex')`: a transaction id in display byte order. */
  function ReversedHex(hash: seq<Byte>): (r: string)
    ensures |r| == 2 * |hash|
    ensures FromHex(r) == Some(Reverse(hash))
  {
    FromHexToHex(Reverse(hash));
    ToHex(Reverse(hash))
  }

  /** Two hashes give the same id exactly when they are the same hash. */
  lemma ReversedHexInjective(a: seq<Byte>, b: seq<Byte>)
    ensures ReversedHex(a) == ReversedHex(b) <==> a == b
  {
    if ReversedHex(a) == ReversedHex(b) {
      ToHexInjective(Reverse(a), Reverse(b));
      ReverseInjective(a, b);
    }
  }

  /** The id of the transaction a spending input refers to; both the dedup key and the value returned. */
  function UtxoId(utxo: BuildTxInput): (r: string)
    ensures FromHex(r) == Some(Reverse(utxo.hash))
  {
    ReversedHex(utxo.hash)
  }

  /** `inputs.filter(utxo => !utxo.segwit)`. */
  function LegacyInputs(inputs: seq<BuildTxInput>): (r: seq<BuildTxInput>)
    ensures |r| <= |inputs|
    ensures forall i :: 0 <= i < |r| ==> r[i] in inputs && !r[i].segwit
    ensures forall j :: 0 <= j < |inputs| && !inputs[j].segwit ==> inputs[j] in r
  {
    if inputs == [] then []
    else (if inputs[0].segwit then [] else [inputs[0]]) + LegacyInputs(inputs[1..])
  }

  /** Filtering a concatenation filters each part. */
  lemma {:induction false} LegacyInputsAppend(a: seq<BuildTxInput>, b: seq<BuildTxInput>)
    ensures LegacyInputs(a + b) == LegacyInputs(a) + LegacyInputs(b)
  {
    if a == [] {
      assert a + b == b;
    } else {
      assert (a + b)[0] == a[0] && (a + b)[1..] == a[1..] + b;
      LegacyInputsAppend(a[1..], b);
    }
  }

  /**
   * `getReferencedTransactions`: the ids of the previous transactions of the
   * non-segwit inputs, each once, in the order of their first use.
   */
  function GetReferencedTransactions(inputs: seq<BuildTxInput>): (r: seq<string>)
    ensures r == FirstOccurrences(Keys(LegacyInputs(inputs), UtxoId), Id)
  {
    var legacyInputs := LegacyInputs(inputs);
    if |legacyInputs| < 1 then []
    else
      KeysOfUniqFrom(legacyInputs, UtxoId, {});
      assert Uniq(Keys(legacyInputs, UtxoId), Id) == UniqFrom(Keys(legacyInputs, UtxoId), Id, {});
      Keys(Uniq(legacyInputs, UtxoId), UtxoId)
  }

  /** The early return changes nothing: without it, dedup of nothing is nothing. */
  lemma ReferencedWithoutEarlyReturn(inputs: seq<BuildTxInput>)
    ensures GetReferencedTransactions(inputs) == Keys(Uniq(LegacyInputs(inputs), UtxoId), UtxoId)
  {
  }

  /** Nothing is to be fetched exactly when every input is segwit (or there are none). */
  lemma ReferencedEmptyIffAllSegwit(inputs: seq<BuildTxInput>)
    ensures GetReferencedTransactions(inputs) == [] <==> forall j :: 0 <= j < |inputs| ==> inputs[j].segwit
  {
    var legacy := LegacyInputs(inputs);
    if legacy != [] {
      var r := Uniq(legacy, UtxoId);
      UniqFromKeys(legacy, UtxoId, {});
      assert UtxoId(legacy[0]) in Keys(legacy, UtxoId);
      assert UtxoId(legacy[0]) in Keys(r, UtxoId);
      assert legacy[0] in inputs && !legacy[0].segwit;
    }
  }

  /** A kept input is a non-segwit input of the original list. */
  lemma LegacyInputOrigin(inputs: seq<BuildTxInput>, x: BuildTxInput)
    requires x in LegacyInputs(inputs)
    ensures exists j :: 0 <= j < |inputs| && inputs[j] == x && !inputs[j].segwit
  {
    var legacy := LegacyInputs(inputs);
    var m :| 0 <= m < |legacy| && legacy[m] == x;
    assert x in inputs && !x.segwit;
  }

  /** The `i`-th returned id is the id of a non-segwit input. */
  lemma ReferencedIdOrigin(inputs: seq<BuildTxInput>, i: nat)
    requires i < |GetReferencedTransactions(inputs)|
    ensures exists j :: 0 <= j < |inputs| && !inputs[j].segwit && GetReferencedTransactions(inputs)[i] == ReversedHex(inputs[j].hash)
  {
    var legacy := LegacyInputs(inputs);
    var r := Uniq(legacy, UtxoId);
    ReferencedWithoutEarlyReturn(inputs);
    assert GetReferencedTransactions(inputs)[i] == UtxoId(r[i]);
    assert r[i] in legacy;
    LegacyInputOrigin(inputs, r[i]);
  }

  /** Every returned id is the reversed-hex hash of some non-segwit input. */
  lemma ReferencedIdsFromLegacyInputs(inputs: seq<BuildTxInput>)
    ensures var ids := GetReferencedTransactions(inputs);
      forall i :: 0 <= i < |ids| ==>
        exists j :: 0 <= j < |inputs| && !inputs[j].segwit && ids[i] == ReversedHex(inputs[j].hash)
  {
    forall i | 0 <= i < |GetReferencedTransactions(inputs)|
      ensures exists j :: 0 <= j < |inputs| && !inputs[j].segwit && GetReferencedTransactions(inputs)[i] == ReversedHex(inputs[j].hash)
    {
      ReferencedIdOrigin(inputs, i);
    }
  }

  /** The id of one non-segwit input is returned. */
  lemma LegacyInputReferenced(inputs: seq<BuildTxInput>, j: nat)
    requires j < |inputs| && !inputs[j].segwit
    ensures ReversedHex(inputs[j].hash) in GetReferencedTransactions(inputs)
  {
    var legacy := LegacyInputs(inputs);
    var keys := Keys(legacy, UtxoId);
    assert inputs[j] in legacy;
    var m :| 0 <= m < |legacy| && legacy[m] == inputs[j];
    assert keys[m] == UtxoId(inputs[j]);
    assert UtxoId(inputs[j]) in keys;
    UniqFromKeys(legacy, UtxoId, {});
    ReferencedWithoutEarlyReturn(inputs);
  }

  /** The id of every non-segwit input is returned. */
  lemma ReferencedIdsCoverLegacyInputs(inputs: seq<BuildTxInput>)
    ensures forall j :: 0 <= j < |inputs| && !inputs[j].segwit ==>
      ReversedHex(inputs[j].hash) in GetReferencedTransactions(inputs)
  {
    forall j | 0 <= j < |inputs| && !inputs[j].segwit
      ensures ReversedHex(inputs[j].hash) in GetReferencedTransactions(inputs)
    {
      LegacyInputReferenced(inputs, j);
    }
  }

  /** No id is returned twice. */
  lemma ReferencedIdsDistinct(inputs: seq<BuildTxInput>)
    ensures var ids := GetReferencedTransactions(inputs);
      forall i, k :: 0 <= i < k < |ids| ==> ids[i] != ids[k]
  {
    var legacy := LegacyInputs(inputs);
    var r := Uniq(legacy, UtxoId);
    ReferencedWithoutEarlyReturn(inputs);
    assert DistinctKeys(r, UtxoId);
  }

  /** A segwit input, wherever it stands, does not change what is fetched. */
  lemma SegwitInputIgnored(a: seq<BuildTxInput>, x: BuildTxInput, b: seq<BuildTxInput>)
    requires x.segwit
    ensures GetReferencedTransactions(a + [x] + b) == GetReferencedTransactions(a + b)
  {
    LegacyInputsAppend(a + [x], b);
    LegacyInputsAppend(a, [x]);
    LegacyInputsAppend(a, b);
    assert LegacyInputs([x]) == [] by {
      assert [x][1..] == [];
    }
    assert LegacyInputs(a) + [] == LegacyInputs(a);
  }

  /** No two inputs spend outputs of the same previous transaction. */
  ghost predicate DistinctHashes(s: seq<BuildTxInput>)
  {
    forall i, j :: 0 <= i < j < |s| ==> s[i].hash != s[j].hash
  }

  /** When the non-segwit inputs all spend different transactions, there is one id per such input. */
  lemma ReferencedDistinctHashes(inputs: seq<BuildTxInput>)
    requires DistinctHashes(LegacyInputs(inputs))
    ensures GetReferencedTransactions(inputs) == Keys(LegacyInputs(inputs), UtxoId)
    ensures |GetReferencedTransactions(inputs)| == |LegacyInputs(inputs)|
  {
    var legacy := LegacyInputs(inputs);
    forall i, j | 0 <= i < j < |legacy| ensures UtxoId(legacy[i]) != UtxoId(legacy[j]) {
      assert legacy[i].hash != legacy[j].hash;
      ReversedHexInjective(legacy[i].hash, legacy[j].hash);
    }
    UniqFromOfDistinct(legacy, UtxoId, {});
    ReferencedWithoutEarlyReturn(inputs);
  }

  // ---------------------------------------------------------------------
  // Join-split data
  // ---------------------------------------------------------------------

  /**
   * `getJoinSplitData`: for a Zcash transaction of version 2 or later, the
   * trailing `joinsplitByteLength()` bytes of its serialization; otherwise `null`.
   */
  function GetJoinSplitData(tx: Transaction): (r: Option<seq<Byte>>)
    ensures r.None? <==> tx.version < 2 || !tx.zcash
    ensures r.Some? ==> |r.value| <= |tx.serialized| && tx.serialized == tx.serialized[..|tx.serialized| - |r.value|] + r.value
    ensures r.Some? && tx.joinsplitByteLength <= |tx.serialized| ==> |r.value| == tx.joinsplitByteLength
    ensures r.Some? && |tx.serialized| < tx.joinsplitByteLength < 2 * |tx.serialized| ==>
      |r.value| == tx.joinsplitByteLength - |tx.serialized|
    ensures r.Some? && 2 * |tx.serialized| <= tx.joinsplitByteLength ==> r.value == tx.serialized
  {
    if tx.version < 2 || !tx.zcash then None
    else
      var buffer := tx.serialized;
      var res := SliceFrom(buffer, |buffer| - tx.joinsplitByteLength);
      assert buffer == buffer[..|buffer| - |res|] + res;
      Some(res)
  }

  // ---------------------------------------------------------------------
  // Transformation to device records
  // ---------------------------------------------------------------------

  /** One input of a referenced transaction in device form. */
  function TransformInput(input: Input): (r: RefTxInput)
    ensures r.prev_index == input.index && r.sequence == input.sequence
    ensures FromHex(r.prev_hash) == Some(Reverse(input.hash))
    ensures FromHex(r.script_sig) == Some(input.script)
  {
    FromHexToHex(input.script);
    RefTxInput(input.index, input.sequence, ReversedHex(input.hash), ToHex(input.script))
  }

  /** One output of a referenced transaction in device form. */
  function TransformOutput(output: Output): (r: RefTxOutput)
    ensures r.amount == output.value
    ensures FromHex(r.script_pubkey) == Some(output.script)
  {
    FromHexToHex(output.script);
    RefTxOutput(output.value, ToHex(output.script))
  }

  /** `tx.ins.map(...)`. */
  function TransformInputs(ins: seq<Input>): (r: seq<RefTxInput>)
    ensures |r| == |ins|
  {
    seq(|ins|, i requires 0 <= i < |ins| => TransformInput(ins[i]))
  }

  /** `tx.outs.map(...)`. */
  function TransformOutputs(outs: seq<Output>): (r: seq<RefTxOutput>)
    ensures |r| == |outs|
  {
    seq(|outs|, i requires 0 <= i < |outs| => TransformOutput(outs[i]))
  }

  /** `data ? data.toString('hex') : null` (a Buffer, even an empty one, is truthy). */
  function ExtraData(tx: Transaction): (r: Option<string>)
    ensures r.None? <==> tx.version < 2 || !tx.zcash
    ensures r.Some? ==> FromHex(r.value) == GetJoinSplitData(tx)
    ensures r.Some? && tx.joinsplitByteLength <= |tx.serialized| ==>
      var n := tx.joinsplitByteLength;
      r.value == ToHex(tx.serialized[|tx.serialized| - n..]) && |r.value| == 2 * n
  {
    match GetJoinSplitData(tx)
    case None => None
    case Some(data) =>
      FromHexToHex(data);
      assert tx.serialized[|tx.serialized| - |data|..] == data;
      Some(ToHex(data))
  }

  /** The body of the `txs.map` callback: one device record for one transaction. */
  function TransformTransaction(tx: Transaction): (r: RefTransaction)
    ensures r.lock_time == tx.locktime && r.version == tx.version && r.hash == tx.id
    ensures r.timestamp == tx.timestamp && r.expiry == tx.expiry
    ensures |r.inputs| == |tx.ins| && forall k :: 0 <= k < |tx.ins| ==> r.inputs[k] == TransformInput(tx.ins[k])
    ensures |r.bin_outputs| == |tx.outs| && forall k :: 0 <= k < |tx.outs| ==> r.bin_outputs[k] == TransformOutput(tx.outs[k])
    ensures r.extra_data == ExtraData(tx)
    ensures r.version_group_id.None? <==> !tx.zcash
    ensures tx.zcash ==> r.version_group_id == Some(ParseInt16(tx.versionGroupId))
    ensures r.version_group_id.None? ==> r.extra_data.None?
  {
    RefTransaction(
      tx.locktime,
      tx.version,
      tx.id,
      TransformInputs(tx.ins),
      TransformOutputs(tx.outs),
      ExtraData(tx),
      tx.timestamp,
      if tx.zcash then Some(ParseInt16(tx.versionGroupId)) else None,
      tx.expiry)
  }

  /** `transformReferencedTransactions`. */
  function TransformReferencedTransactions(txs: seq<Transaction>): (r: seq<RefTransaction>)
    ensures |r| == |txs|
    ensures forall i :: 0 <= i < |txs| ==> r[i] == TransformTransaction(txs[i])
  {
    seq(|txs|, i requires 0 <= i < |txs| => TransformTransaction(txs[i]))
  }

  /** The transform maps each transaction on its own, so it distributes over concatenation. */
  lemma TransformAppend(a: seq<Transaction>, b: seq<Transaction>)
    ensures TransformReferencedTransactions(a + b)
         == TransformReferencedTransactions(a) + TransformReferencedTransactions(b)
  {
    var l := TransformReferencedTransactions(a + b);
    var r := TransformReferencedTransactions(a) + TransformReferencedTransactions(b);
    forall i | 0 <= i < |l| ensures l[i] == r[i] {
      if i < |a| {
        assert (a + b)[i] == a[i];
        assert r[i] == TransformReferencedTransactions(a)[i];
      } else {
        assert (a + b)[i] == b[i - |a|];
        assert r[i] == TransformReferencedTransactions(b)[i - |a|];
      }
    }
    assert l == r;
  }

  /** Decoding a device input back into a parsed input. */
  function RecoverInput(ri: RefTxInput): Option<Input>
  {
    var h, s := FromHex(ri.prev_hash), FromHex(ri.script_sig);
    if h.Some? && s.Some? then Some(Input(Reverse(h.value), ri.prev_index, s.value, ri.sequence)) else None
  }

  /** Decoding a device output back into a parsed output. */
  function RecoverOutput(ro: RefTxOutput): Option<Output>
  {
    match FromHex(ro.script_pubkey)
    case Some(s) => Some(Output(ro.amount, s))
    case None => None
  }

  function RecoverInputs(ris: seq<RefTxInput>): Option<seq<Input>>
  {
    if ris == [] then Some([])
    else
      var x, rest := RecoverInput(ris[0]), RecoverInputs(ris[1..]);
      if x.Some? && rest.Some? then Some([x.value] + rest.value) else None
  }

  function RecoverOutputs(ros: seq<RefTxOutput>): Option<seq<Output>>
  {
    if ros == [] then Some([])
    else
      var x, rest := RecoverOutput(ros[0]), RecoverOutputs(ros[1..]);
      if x.Some? && rest.Some? then Some([x.value] + rest.value) else None
  }

  /** An input's device form loses nothing: `prev_hash` decodes and un-reverses to the hash. */
  lemma TransformInputLossless(input: Input)
    ensures RecoverInput(TransformInput(input)) == Some(input)
  {
    ReverseInvolution(input.hash);
  }

  /** An output's device form loses nothing. */
  lemma TransformOutputLossless(output: Output)
    ensures RecoverOutput(TransformOutput(output)) == Some(output)
  {
  }

  /** Reading back a list of device inputs one element at a time. */
  lemma RecoverInputsCons(ri: RefTxInput, ris: seq<RefTxInput>)
    ensures RecoverInputs([ri] + ris)
         == if RecoverInput(ri).Some? && RecoverInputs(ris).Some?
            then Some([RecoverInput(ri).value] + RecoverInputs(ris).value) else None
  {
    assert ([ri] + ris)[0] == ri && ([ri] + ris)[1..] == ris;
  }

  lemma RecoverOutputsCons(ro: RefTxOutput, ros: seq<RefTxOutput>)
    ensures RecoverOutputs([ro] + ros)
         == if RecoverOutput(ro).Some? && RecoverOutputs(ros).Some?
            then Some([RecoverOutput(ro).value] + RecoverOutputs(ros).value) else None
  {
    assert ([ro] + ros)[0] == ro && ([ro] + ros)[1..] == ros;
  }

  /** Mapping a non-empty list maps its head and then its tail. */
  lemma TransformInputsCons(ins: seq<Input>)
    requires ins != []
    ensures TransformInputs(ins) == [TransformInput(ins[0])] + TransformInputs(ins[1..])
  {
  }

  lemma TransformOutputsCons(outs: seq<Output>)
    requires outs != []
    ensures TransformOutputs(outs) == [TransformOutput(outs[0])] + TransformOutputs(outs[1..])
  {
  }

  /** One more input in front keeps the list readable. */
  lemma RecoverInputsStep(x: Input, xs: seq<Input>)
    requires RecoverInputs(TransformInputs(xs)) == Some(xs)
    ensures RecoverInputs([TransformInput(x)] + TransformInputs(xs)) == Some([x] + xs)
  {
    RecoverInputsCons(TransformInput(x), TransformInputs(xs));
    TransformInputLossless(x);
  }

  lemma RecoverOutputsStep(x: Output, xs: seq<Output>)
    requires RecoverOutputs(TransformOutputs(xs)) == Some(xs)
    ensures RecoverOutputs([TransformOutput(x)] + TransformOutputs(xs)) == Some([x] + xs)
  {
    RecoverOutputsCons(TransformOutput(x), TransformOutputs(xs));
    TransformOutputLossless(x);
  }

  /** The input list is mapped one for one, in order, and can be read back. */
  lemma {:induction false} TransformInputsLossless(ins: seq<Input>)
    ensures RecoverInputs(TransformInputs(ins)) == Some(ins)
  {
    if ins != [] {
      TransformInputsCons(ins);
      TransformInputsLossless(ins[1..]);
      RecoverInputsStep(ins[0], ins[1..]);
      assert ins == [ins[0]] + ins[1..];
    }
  }

  /** The output list is mapped one for one, in order, and can be read back. */
  lemma {:induction false} TransformOutputsLossless(outs: seq<Output>)
    ensures RecoverOutputs(TransformOutputs(outs)) == Some(outs)
  {
    if outs != [] {
      TransformOutputsCons(outs);
      TransformOutputsLossless(outs[1..]);
      RecoverOutputsStep(outs[0], outs[1..]);
      assert outs == [outs[0]] + outs[1..];
    }
  }

  /**
   * Every record of `transformReferencedTransactions` carries its transaction's
   * lock time, version, id, timestamp and expiry unchanged, its inputs and
   * outputs decode back to the transaction's own, in order, and its
   * `extra_data` and `version_group_id` are those of the transaction.
   */
  lemma TransformReferencedLossless(txs: seq<Transaction>, i: nat)
    requires i < |txs|
    ensures var rec := TransformReferencedTransactions(txs)[i];
      && rec.lock_time == txs[i].locktime && rec.version == txs[i].version && rec.hash == txs[i].id
      && rec.timestamp == txs[i].timestamp && rec.expiry == txs[i].expiry
      && RecoverInputs(rec.inputs) == Some(txs[i].ins)
      && RecoverOutputs(rec.bin_outputs) == Some(txs[i].outs)
      && rec.extra_data == ExtraData(txs[i])
      && (rec.version_group_id.None? <==> !txs[i].zcash)
      && (txs[i].zcash ==> rec.version_group_id == Some(ParseInt16(txs[i].versionGroupId)))
  {
    var rec := TransformReferencedTransactions(txs)[i];
    assert rec == TransformTransaction(txs[i]);
    assert rec.inputs == TransformInputs(txs[i].ins);
    assert rec.bin_outputs == TransformOutputs(txs[i].outs);
    TransformInputsLossless(txs[i].ins);
    TransformOutputsLossless(txs[i].outs);
  }

  /** Each device input holds the reversed-hex previous hash and the hex script of the parsed input. */
  lemma TransformedInputFields(tx: Transaction, k: nat)
    requires k < |tx.ins|
    ensures var ri := TransformTransaction(tx).inputs[k];
      && ri.prev_index == tx.ins[k].index
      && ri.sequence == tx.ins[k].sequence
      && ri.prev_hash == ToHex(Reverse(tx.ins[k].hash))
      && |ri.prev_hash| == 2 * |tx.ins[k].hash|
      && ri.script_sig == ToHex(tx.ins[k].script)
  {
  }

  /** A version group id written as `0x` and the hex of some bytes becomes their big-endian value. */
  lemma VersionGroupIdOfHex(tx: Transaction, b: seq<Byte>)
    requires tx.zcash && b != []
    requires tx.versionGroupId == "0x" + ToHex(b)
    ensures TransformTransaction(tx).version_group_id == Some(Int(BigEndian(b)))
  {
    ParseIntOfToHex(b);
  }

  /** A plain version-1 transaction has neither extra data nor a version group id. */
  lemma PlainVersionOne(tx: Transaction)
    requires tx.version == 1 && !tx.zcash
    ensures TransformTransaction(tx).extra_data == None
    ensures TransformTransaction(tx).version_group_id == None
  {
  }

  /** Two outputs keep their order, amounts and scripts: 1000/`ab` and 2500/`cd`. */
  lemma TwoOutputsExample()
    ensures TransformOutputs([Output(1000, [0xab]), Output(2500, [0xcd])])
         == [RefTxOutput(1000, "ab"), RefTxOutput(2500, "cd")]
  {
    assert ToHex([0xab]) == "ab";
    assert ToHex([0xcd]) == "cd";
  }

  /** A previous hash stored as 01 02 03 is shown as `030201`. */
  lemma PrevHashExample()
    ensures TransformInput(Input([0x01, 0x02, 0x03], 0, [], 0xffffffff)).prev_hash == "030201"
  {
    assert Reverse([0x01, 0x02, 0x03]) == [0x03, 0x02, 0x01];
    assert ToHex([0x03, 0x02, 0x01]) == "030201";
  }
}
