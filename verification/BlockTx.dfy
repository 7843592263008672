/** Transactions of src/tx.rs inside a block: they read back, and none is ever taken for a
    receipt section. */
module BlockTx {
  import opened Basics
  import opened Reading
  import opened Merkle
  import opened ReceiptExt
  import opened Receipts
  import opened AuxWire
  import opened Blocks

  datatype Input = Input(prevTxid: Digest, prevIndex: u32, script: Bytes, sequence: u32)

  /** A script whose length a u64 can hold. */
  type Script = b: seq<byte> | |b| < 0x1_0000_0000_0000_0000 witness []

  datatype Output = Output(value: u64, script: Script)

  datatype Tx = Tx(version: u32, inputs: seq<Input>, outputs: seq<Output>, locktime: u32)

  predicate InputFits(i: Input) { |i.script| < 256 }

  // ---------- lists written element by element ----------

  function EncodeInput(i: Input): Bytes {
    var txid: Bytes := i.prevTxid;
    [32] + (txid + (LeBytes(i.prevIndex, 4) + ([CountByte(|i.script|)] + (i.script + LeBytes(i.sequence, 4)))))
  }

  function EncodeInputs(xs: seq<Input>): Bytes
    decreases |xs|
  {
    if xs == [] then [] else EncodeInput(xs[0]) + EncodeInputs(xs[1..])
  }

  function ScriptBytes(b: Script): Bytes {
    VarintBytes(|b|) + b
  }

  function EncodeOutput(o: Output): Bytes {
    LeBytes(o.value, 8) + ScriptBytes(o.script)
  }

  function EncodeOutputs(xs: seq<Output>): Bytes
    decreases |xs|
  {
    if xs == [] then [] else EncodeOutput(xs[0]) + EncodeOutputs(xs[1..])
  }

  /** Transaction::serialize. The three counts are cast to a byte. */
  function EncodeTx(tx: Tx): Bytes {
    LeBytes(tx.version, 4) + ([CountByte(|tx.inputs|)] + (EncodeInputs(tx.inputs) +
      ([CountByte(|tx.outputs|)] + (EncodeOutputs(tx.outputs) + LeBytes(tx.locktime, 4)))))
  }

  // ---------- readers ----------

  function ReadInput(s: Bytes): (r: Option<Read<Input>>)
    ensures r.Some? ==> r.value.used <= |s| && InputFits(r.value.value)
  {
    if |s| < 38 || s[0] != 32 then None
    else
      var n: nat := s[37];
      if |s| < 42 + n then None
      else Some(Read(Input(s[1..33], Word32(s[33..37]), s[38..38 + n], Word32(s[38 + n..42 + n])), 42 + n))
  }

  predicate InputsFit(xs: seq<Input>)
    decreases |xs|
  {
    xs == [] || (InputFits(xs[0]) && InputsFit(xs[1..]))
  }

  function ReadInputs(s: Bytes, count: nat): (r: Option<Read<seq<Input>>>)
    ensures r.Some? ==> r.value.used <= |s| && |r.value.value| == count && InputsFit(r.value.value)
    decreases count, s
  {
    if count == 0 then Some(Read([], 0))
    else match ReadInput(s)
      case None => None
      case Some(i) =>
        match ReadInputs(s[i.used..], count - 1)
        case None => None
        case Some(rest) =>
          assert ([i.value] + rest.value)[1..] == rest.value;
          Some(Read([i.value] + rest.value, i.used + rest.used))
  }

  function ReadScript(s: Bytes): (r: Option<Read<Script>>)
    ensures r.Some? ==> r.value.used <= |s|
  {
    match Varint(s)
    case None => None
    case Some(n) =>
      if |s| < n.used + n.value then None
      else
        VarintSmall(s);
        var script: Script := s[n.used..n.used + n.value];
        Some(Read(script, n.used + n.value))
  }

  function ReadOutput(s: Bytes): (r: Option<Read<Output>>)
    ensures r.Some? ==> r.value.used <= |s|
  {
    if |s| < 8 then None
    else match ReadScript(s[8..])
      case None => None
      case Some(b) => Some(Read(Output(Word64(s[..8]), b.value), 8 + b.used))
  }

  function ReadOutputs(s: Bytes, count: nat): (r: Option<Read<seq<Output>>>)
    ensures r.Some? ==> r.value.used <= |s| && |r.value.value| == count
    decreases count, s
  {
    if count == 0 then Some(Read([], 0))
    else match ReadOutput(s)
      case None => None
      case Some(o) =>
        match ReadOutputs(s[o.used..], count - 1)
        case None => None
        case Some(rest) => Some(Read([o.value] + rest.value, o.used + rest.used))
  }

  /** What the three byte counts can carry. */
  predicate Fits(tx: Tx) {
    |tx.inputs| < 256 && |tx.outputs| < 256 && InputsFit(tx.inputs)
  }

  /** decode_full_tx_at. */
  function ReadTx(s: Bytes): (r: Option<Read<Tx>>)
    ensures r.Some? ==> 0 < r.value.used <= |s| && Fits(r.value.value)
  {
    if |s| < 5 then None
    else match ReadInputs(s[5..], s[4])
      case None => None
      case Some(i) =>
        var at := 5 + i.used;
        if |s| <= at then None
        else match ReadOutputs(s[at + 1..], s[at])
          case None => None
          case Some(o) =>
            var end := at + 1 + o.used;
            if |s| < end + 4 then None
            else Some(Read(Tx(Word32(s[..4]), i.value, o.value, Word32(s[end..end + 4])), end + 4))
  }

  // ---------- reading back ----------

  lemma InputSlices(s: Bytes, txid: Bytes, ix: Bytes, n: byte, script: Bytes, q: Bytes, t: Bytes)
    requires |txid| == 32 && |ix| == |q| == 4 && |script| == n
    requires s == ([32] + (txid + (ix + ([n] + (script + q))))) + t
    ensures |s| >= 42 + n && s[0] == 32 && s[1..33] == txid && s[33..37] == ix && s[37] == n
    ensures s[38..38 + n] == script && s[38 + n..42 + n] == q && |s| == 42 + n + |t|
  {
    assert s[38..] == (script + q) + t;
    assert s[38..38 + n] == s[38..][..n] && s[38 + n..42 + n] == s[38..][n..n + 4];
  }

  lemma InputRoundTrip(i: Input, t: Bytes)
    requires InputFits(i)
    ensures ReadInput(EncodeInput(i) + t) == Some(Read(i, |EncodeInput(i)|))
  {
    hide LeBytes, Word32;
    InputSlices(EncodeInput(i) + t, i.prevTxid, LeBytes(i.prevIndex, 4), |i.script|, i.script, LeBytes(i.sequence, 4), t);
    Word32Back(i.prevIndex);
    Word32Back(i.sequence);
  }

  lemma ReadInputsStep(i: Input, u: Bytes, count: nat)
    requires InputFits(i) && ReadInputs(u, count).Some?
    ensures var rest := ReadInputs(u, count).value;
            ReadInputs(EncodeInput(i) + u, count + 1) == Some(Read([i] + rest.value, |EncodeInput(i)| + rest.used))
  {
    hide EncodeInput, ReadInput;
    InputRoundTrip(i, u);
    assert (EncodeInput(i) + u)[|EncodeInput(i)|..] == u;
  }

  lemma EncodeInputsStep(xs: seq<Input>, t: Bytes)
    requires xs != []
    ensures EncodeInputs(xs) + t == EncodeInput(xs[0]) + (EncodeInputs(xs[1..]) + t)
    ensures |EncodeInputs(xs)| == |EncodeInput(xs[0])| + |EncodeInputs(xs[1..])|
  {
    hide EncodeInput;
  }

  lemma NoInputs(t: Bytes)
    ensures ReadInputs(EncodeInputs([]) + t, 0) == Some(Read([], |EncodeInputs([])|))
  {}

  lemma {:induction false} InputsRoundTrip(xs: seq<Input>, t: Bytes)
    requires InputsFit(xs)
    ensures ReadInputs(EncodeInputs(xs) + t, |xs|) == Some(Read(xs, |EncodeInputs(xs)|))
    decreases |xs|
  {
    hide EncodeInput, EncodeInputs, ReadInputs;
    if xs == [] {
      NoInputs(t);
    } else {
      InputsRoundTrip(xs[1..], t);
      ReadInputsStep(xs[0], EncodeInputs(xs[1..]) + t, |xs| - 1);
      EncodeInputsStep(xs, t);
      assert xs == [xs[0]] + xs[1..];
    }
  }

  lemma ScriptRoundTrip(b: Script, t: Bytes)
    ensures ReadScript(ScriptBytes(b) + t) == Some(Read(b, |ScriptBytes(b)|))
  {
    hide VarintBytes, Varint;
    var v, c: Bytes := VarintBytes(|b|), b;
    var s := ScriptBytes(b) + t;
    assert s == v + (c + t);
    VarintRoundTrip(|b|, c + t);
    assert s[|v|..|v| + |b|] == b;
  }

  lemma OutputRoundTrip(o: Output, t: Bytes)
    ensures ReadOutput(EncodeOutput(o) + t) == Some(Read(o, |EncodeOutput(o)|))
  {
    hide LeBytes, LeValue, ScriptBytes, ReadScript;
    var s := EncodeOutput(o) + t;
    Pow256Values();
    LeRoundTrip(o.value, 8);
    assert s[..8] == LeBytes(o.value, 8) && s[8..] == ScriptBytes(o.script) + t;
    ScriptRoundTrip(o.script, t);
  }

  lemma ReadOutputsStep(o: Output, u: Bytes, count: nat)
    requires ReadOutputs(u, count).Some?
    ensures var rest := ReadOutputs(u, count).value;
            ReadOutputs(EncodeOutput(o) + u, count + 1) == Some(Read([o] + rest.value, |EncodeOutput(o)| + rest.used))
  {
    hide EncodeOutput, ReadOutput;
    OutputRoundTrip(o, u);
    assert (EncodeOutput(o) + u)[|EncodeOutput(o)|..] == u;
  }

  lemma EncodeOutputsStep(xs: seq<Output>, t: Bytes)
    requires xs != []
    ensures EncodeOutputs(xs) + t == EncodeOutput(xs[0]) + (EncodeOutputs(xs[1..]) + t)
    ensures |EncodeOutputs(xs)| == |EncodeOutput(xs[0])| + |EncodeOutputs(xs[1..])|
  {
    hide EncodeOutput;
  }

  lemma NoOutputs(t: Bytes)
    ensures ReadOutputs(EncodeOutputs([]) + t, 0) == Some(Read([], |EncodeOutputs([])|))
  {}

  lemma {:induction false} OutputsRoundTrip(xs: seq<Output>, t: Bytes)
    ensures ReadOutputs(EncodeOutputs(xs) + t, |xs|) == Some(Read(xs, |EncodeOutputs(xs)|))
    decreases |xs|
  {
    hide EncodeOutput, EncodeOutputs, ReadOutputs;
    if xs == [] {
      NoOutputs(t);
    } else {
      OutputsRoundTrip(xs[1..], t);
      ReadOutputsStep(xs[0], EncodeOutputs(xs[1..]) + t, |xs| - 1);
      EncodeOutputsStep(xs, t);
      assert xs == [xs[0]] + xs[1..];
    }
  }

  lemma TxSlices(s: Bytes, v: Bytes, n: byte, i: Bytes, m: byte, o: Bytes, lock: Bytes, t: Bytes)
    requires |v| == |lock| == 4 && s == (v + ([n] + (i + ([m] + (o + lock))))) + t
    ensures var at := 5 + |i|; var end := at + 1 + |o|;
            |s| >= end + 4 && s[..4] == v && s[4] == n && s[5..] == i + ([m] + (o + (lock + t))) &&
            s[at] == m && s[at + 1..] == o + (lock + t) && s[end..end + 4] == lock
  {
    var at := 5 + |i|;
    var end := at + 1 + |o|;
    assert s[5..] == i + ([m] + (o + (lock + t)));
    assert s[at..] == [m] + (o + (lock + t));
    assert s[end..] == lock + t;
    assert s[end..end + 4] == s[end..][..4];
  }

  lemma TxReadsBack(tx: Tx, t: Bytes)
    requires Fits(tx)
    ensures ReadTx(EncodeTx(tx) + t) == Some(Read(tx, |EncodeTx(tx)|))
  {
    hide LeBytes, Word32, EncodeInputs, EncodeOutputs, ReadInputs, ReadOutputs, InputsFit, CountByte;
    var v, i, o, lock := LeBytes(tx.version, 4), EncodeInputs(tx.inputs), EncodeOutputs(tx.outputs), LeBytes(tx.locktime, 4);
    CountFits(|tx.inputs|);
    CountFits(|tx.outputs|);
    InputsRoundTrip(tx.inputs, [CountByte(|tx.outputs|)] + (o + (lock + t)));
    OutputsRoundTrip(tx.outputs, lock + t);
    Word32Back(tx.version);
    Word32Back(tx.locktime);
    TxSlices(EncodeTx(tx) + t, v, CountByte(|tx.inputs|), i, CountByte(|tx.outputs|), o, lock, t);
  }

  /** A transaction reads back, whatever follows, if and only if its counts fit their bytes. */
  lemma TxRoundTripIff(tx: Tx, t: Bytes)
    ensures ReadTx(EncodeTx(tx) + t) == Some(Read(tx, |EncodeTx(tx)|)) <==> Fits(tx)
  {
    hide ReadTx, EncodeTx, Fits;
    if Fits(tx) { TxReadsBack(tx, t); }
  }

  // ---------- in a block ----------

  function TxCodec(): Codec<Tx> {
    Codec(tx => EncodeTx(tx), s => ReadTx(s))
  }

  lemma CodecAdvances()
    ensures Advances(TxCodec())
  {
    hide ReadTx;
  }

  lemma TxLong(tx: Tx)
    ensures |EncodeTx(tx)| >= 8
  {
    hide EncodeInputs, EncodeOutputs, LeBytes, CountByte;
  }

  /** No transaction begins like a receipt section: where the section's magic has the letters X
      and R, a transaction has its input count and the length of its first input's txid, 32. */
  lemma NeverMarked(tx: Tx)
    ensures !Marked(TxCodec(), tx)
  {
    hide EncodeOutputs, LeBytes;
    var b := EncodeTx(tx);
    TxLong(tx);
    assert b[4] == CountByte(|tx.inputs|);
    if tx.inputs != [] { assert b[5] == EncodeInputs(tx.inputs)[0] == 32; }
    hide EncodeTx;
    assert forall v :: SectionMagic(v)[4] == 0x58 && SectionMagic(v)[5] == 0x52;
    assert forall v | b[..8] == SectionMagic(v) :: b[4] == b[..8][4] && b[5] == b[..8][5];
  }

  predicate AllFit(txs: seq<Tx>)
    decreases |txs|
  {
    txs == [] || (Fits(txs[0]) && AllFit(txs[1..]))
  }

  lemma FitsOk(tx: Tx)
    requires Fits(tx)
    ensures TxOk(TxCodec(), tx)
  {
    hide EncodeTx, ReadTx, Fits;
    TxLong(tx);
    forall t
      ensures TxCodec().decode(TxCodec().encode(tx) + t) == Some(Read(tx, |TxCodec().encode(tx)|))
    {
      TxRoundTripIff(tx, t);
    }
  }

  lemma {:induction false} AllFitOk(txs: seq<Tx>)
    requires AllFit(txs)
    ensures TxsOk(TxCodec(), txs)
    decreases |txs|
  {
    hide Fits, TxOk;
    if txs == [] {
    } else {
      FitsOk(txs[0]);
      AllFitOk(txs[1..]);
    }
  }

  lemma {:induction false} NoneMarked(txs: seq<Tx>)
    ensures Unmarked(TxCodec(), txs)
    decreases |txs|
  {
    hide Marked;
    if txs == [] {
    } else {
      NeverMarked(txs[0]);
      NoneMarked(txs[1..]);
    }
  }

  /** Whatever transactions the loop reads fit. */
  lemma {:induction false} ReadTailFits(f: Foreign, s: Bytes)
    requires Advances(TxCodec())
    ensures ReadTail(TxCodec(), f, s).Some? ==> AllFit(ReadTail(TxCodec(), f, s).value.value.txs)
    decreases |s|
  {
    hide ReadReceipts, ReadTx, Fits, ReadTail;
    TailUnfold(TxCodec(), f, s);
    if s != [] && ReadReceipts(f, s).Absent? && ReadTx(s).Some? {
      var one := ReadTx(s).value;
      ReadTailFits(f, s[one.used..]);
      var rest := ReadTail(TxCodec(), f, s[one.used..]);
      if rest.Some? { assert ([one.value] + rest.value.value.txs)[1..] == rest.value.value.txs; }
    }
  }

  /** At every height, for every pair of activation heights, a block of the chain reads back from its
      own bytes if and only if it has a proof exactly when version and height call for one, the proof
      keeps to the limits, every transaction's counts fit their bytes, and it has no receipt list or
      one of 1 to 255 receipts. */
  lemma ChainBlockRoundTripIff(f: Foreign, headerActivation: nat, auxActivation: Option<nat>, height: nat, b: Block<Tx>)
    requires ReceiptsOk(f, b.tail.receipts) && (b.auxpow.Some? ==> Sized(b.auxpow.value))
    ensures Advances(TxCodec())
    ensures var era := EraAt(headerActivation, auxActivation, height);
            ReadBlock(TxCodec(), f, era, EncodeBlock(TxCodec(), era, b)) ==
            Some(Read(b, |EncodeBlock(TxCodec(), era, b)|)) <==>
            (b.auxpow.Some? <==> AuxBit(b.header.version) && auxActivation.Some? && height >= auxActivation.value) &&
            (b.auxpow.Some? ==> Bounded(b.auxpow.value)) &&
            AllFit(b.tail.txs) && Countable(b.tail.receipts)
  {
    CodecAdvances();
    var era := EraAt(headerActivation, auxActivation, height);
    assert Wants(era, b.header.version) <==> AuxBit(b.header.version) && auxActivation.Some? && height >= auxActivation.value;
    hide EncodeBlock, Wants, Bounded, Countable, ReceiptsOk, Sized, TxCodec, Advances, AllFit, Unmarked, TxsOk;
    if AllFit(b.tail.txs) {
      AllFitOk(b.tail.txs);
      NoneMarked(b.tail.txs);
      hide ReadBlock;
      BlockRoundTripIff(TxCodec(), f, era, b);
    } else {
      ReadBlockFits(f, era, EncodeBlock(TxCodec(), era, b));
    }
  }

  lemma ReadBlockFits(f: Foreign, era: Era, s: Bytes)
    requires Advances(TxCodec())
    ensures var r := ReadBlock(TxCodec(), f, era, s); r.Some? ==> AllFit(r.value.value.tail.txs)
  {
    var r := ReadBlock(TxCodec(), f, era, s);
    if r.Some? {
      assert |s| >= 80;
      hide ReadHeader, ReadAux, ReadTail, Wants, TxCodec, Advances, AllFit;
      var h := ReadHeader(era.legacyHeader, s).value;
      var a := ReadAux(Wants(era, h.value.version), s[80..]).value;
      ReadTailFits(f, s[80..][a.used..]);
    }
  }
}
