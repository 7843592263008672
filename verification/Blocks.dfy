/** Whole blocks of src/block.rs on the wire: the header in the byte order of its height, the
    merge-mining proof, the transactions and the receipt section. Transactions are whatever a
    codec reads and writes. */
module Blocks {
  import opened Basics
  import opened Reading
  import opened Merkle
  import opened ReceiptExt
  import opened Receipts
  import opened AuxPow
  import opened AuxWire

  // ---------- the header ----------

  datatype BlockHeader = BlockHeader(version: u32, prevHash: Digest, merkleRoot: Digest, time: u32, bits: u32, nonce: u32)

  /** The two byte orders: before activation the Merkle root is written reversed, like the parent hash. */
  function Turned(legacy: bool, d: Digest): Digest {
    if legacy then Reversed(d) else d
  }

  function EncodeHeader(legacy: bool, h: BlockHeader): Bytes {
    LeBytes(h.version, 4) + (Reversed(h.prevHash) + (Turned(legacy, h.merkleRoot) +
      (LeBytes(h.time, 4) + (LeBytes(h.bits, 4) + LeBytes(h.nonce, 4)))))
  }

  function ReadHeader(legacy: bool, s: Bytes): Option<Read<BlockHeader>> {
    if |s| < 80 then None
    else Some(Read(BlockHeader(Word32(s[..4]), Reversed(s[4..36]), Turned(legacy, s[36..68]),
                               Word32(s[68..72]), Word32(s[72..76]), Word32(s[76..80])), 80))
  }

  lemma TwiceReversed(d: Bytes)
    ensures Reversed(Reversed(d)) == d
  {}

  lemma HeaderSlices(s: Bytes, a: Bytes, p: Bytes, m: Bytes, b: Bytes, c: Bytes, d: Bytes, t: Bytes)
    requires |a| == |b| == |c| == |d| == 4 && |p| == |m| == 32
    requires s == (a + (p + (m + (b + (c + d))))) + t
    ensures |s| >= 80 && s[..4] == a && s[4..36] == p && s[36..68] == m
    ensures s[68..72] == b && s[72..76] == c && s[76..80] == d && s[80..] == t
  {}

  /** Read in the byte order it was written in, a header comes back; read in the other, only its
      Merkle root is reversed. */
  lemma HeaderAcrossEras(legacy: bool, legacy': bool, h: BlockHeader, t: Bytes)
    ensures |EncodeHeader(legacy, h)| == 80
    ensures ReadHeader(legacy', EncodeHeader(legacy, h) + t) ==
            Some(Read(if legacy == legacy' then h else h.(merkleRoot := Reversed(h.merkleRoot)), 80))
  {
    hide LeBytes, Word32, Reversed;
    HeaderSlices(EncodeHeader(legacy, h) + t, LeBytes(h.version, 4), Reversed(h.prevHash), Turned(legacy, h.merkleRoot),
                 LeBytes(h.time, 4), LeBytes(h.bits, 4), LeBytes(h.nonce, 4), t);
    Word32Back(h.version);
    Word32Back(h.time);
    Word32Back(h.bits);
    Word32Back(h.nonce);
    TwiceReversed(h.prevHash);
    TwiceReversed(h.merkleRoot);
  }

  /** peek_prev_hash. */
  function PeekPrevHash(s: Bytes): Option<Digest> {
    if |s| < 36 then None else Some(Reversed(s[4..36]))
  }

  /** The parent hash can be read without knowing the height. */
  lemma PeekAnyEra(legacy: bool, h: BlockHeader, t: Bytes)
    ensures PeekPrevHash(EncodeHeader(legacy, h) + t) == Some(h.prevHash)
  {
    hide LeBytes, Reversed;
    HeaderSlices(EncodeHeader(legacy, h) + t, LeBytes(h.version, 4), Reversed(h.prevHash), Turned(legacy, h.merkleRoot),
                 LeBytes(h.time, 4), LeBytes(h.bits, 4), LeBytes(h.nonce, 4), t);
    TwiceReversed(h.prevHash);
  }

  // ---------- transactions and receipts ----------

  datatype Codec<!T> = Codec(encode: T -> Bytes, decode: Bytes -> Option<Read<T>>)

  /** The decoder never stands still and never runs past the end. */
  ghost predicate Advances<T>(c: Codec<T>) {
    forall s {:trigger c.decode(s)} :: c.decode(s).Some? ==> 0 < c.decode(s).value.used <= |s|
  }

  /** The transaction reads back whatever follows it. */
  ghost predicate TxOk<T>(c: Codec<T>, tx: T) {
    |c.encode(tx)| >= 8 && forall t {:trigger c.decode(c.encode(tx) + t)} :: c.decode(c.encode(tx) + t) == Some(Read(tx, |c.encode(tx)|))
  }

  /** The transaction's bytes begin like a receipt section. */
  predicate Marked<T>(c: Codec<T>, tx: T) {
    |c.encode(tx)| >= 8 && FormatOf(c.encode(tx)[..8]).Some?
  }

  datatype Tail<T> = Tail(txs: seq<T>, receipts: Option<seq<Receipt>>)

  function EncodeTxs<T>(c: Codec<T>, txs: seq<T>): Bytes
    decreases |txs|
  {
    if txs == [] then [] else c.encode(txs[0]) + EncodeTxs(c, txs[1..])
  }

  function ReceiptBytes(receipts: Option<seq<Receipt>>): Bytes {
    if receipts.None? then [] else EncodeSectionOf(receipts.value)
  }

  function EncodeTail<T>(c: Codec<T>, tail: Tail<T>): Bytes {
    EncodeTxs(c, tail.txs) + ReceiptBytes(tail.receipts)
  }

  /** The loop over the rest of a block: a receipt section ends it. */
  function ReadTail<T>(c: Codec<T>, f: Foreign, s: Bytes): Option<Read<Tail<T>>>
    requires Advances(c)
    decreases |s|
  {
    if s == [] then Some(Read(Tail([], None), 0))
    else
      match ReadReceipts(f, s)
      case Broken => None
      case Present(rs, used) => Some(Read(Tail([], Some(rs)), used))
      case Absent =>
        match c.decode(s)
        case None => None
        case Some(tx) =>
          match ReadTail(c, f, s[tx.used..])
          case None => None
          case Some(rest) => Some(Read(Tail([tx.value] + rest.value.txs, rest.value.receipts), tx.used + rest.used))
  }

  /** A tail read after some transactions. */
  function Onto<T>(front: seq<T>, used: nat, rest: Option<Read<Tail<T>>>): Option<Read<Tail<T>>> {
    match rest
    case None => None
    case Some(r) => Some(Read(Tail(front + r.value.txs, r.value.receipts), used + r.used))
  }

  lemma TailUnfold<T>(c: Codec<T>, f: Foreign, s: Bytes)
    requires Advances(c)
    ensures s == [] ==> ReadTail(c, f, s) == Some(Read(Tail([], None), 0))
    ensures s != [] && ReadReceipts(f, s).Broken? ==> ReadTail(c, f, s).None?
    ensures s != [] && ReadReceipts(f, s).Present? ==>
              ReadTail(c, f, s) == Some(Read(Tail([], Some(ReadReceipts(f, s).receipts)), ReadReceipts(f, s).used))
    ensures s != [] && ReadReceipts(f, s).Absent? ==>
              (ReadTail(c, f, s) ==
               if c.decode(s).None? then None
               else Onto([c.decode(s).value.value], c.decode(s).value.used, ReadTail(c, f, s[c.decode(s).value.used..])))
  {
    hide ReadReceipts;
  }

  lemma OntoNothing<T>(rest: Option<Read<Tail<T>>>)
    ensures Onto([], 0, rest) == rest
  {
    if rest.Some? { assert [] + rest.value.value.txs == rest.value.value.txs; }
  }

  lemma OntoOne<T>(front: seq<T>, used: nat, tx: T, n: nat, rest: Option<Read<Tail<T>>>)
    ensures Onto(front, used, Onto([tx], n, rest)) == Onto(front + [tx], used + n, rest)
  {
    if rest.Some? { assert front + ([tx] + rest.value.value.txs) == front + [tx] + rest.value.value.txs; }
  }

  /** The deserializer's loop over transactions and the receipt section. */
  method ParseTail<T>(c: Codec<T>, f: Foreign, raw: Bytes, start: nat) returns (r: Option<Read<Tail<T>>>)
    requires Advances(c) && start <= |raw|
    ensures r == ReadTail(c, f, raw[start..])
  {
    hide ReadReceipts, ReadTail;
    var txs: seq<T> := [];
    var off := start;
    OntoNothing(ReadTail(c, f, raw[start..]));
    while off < |raw|
      invariant start <= off <= |raw|
      invariant Onto(txs, off - start, ReadTail(c, f, raw[off..])) == ReadTail(c, f, raw[start..])
    {
      var rest := raw[off..];
      TailUnfold(c, f, rest);
      var section := ReadReceipts(f, rest);
      if section.Broken? { return None; }
      if section.Present? {
        assert txs + [] == txs;
        return Some(Read(Tail(txs, Some(section.receipts)), off - start + section.used));
      }
      var one := c.decode(rest);
      if one.None? { return None; }
      assert rest[one.value.used..] == raw[off + one.value.used..];
      OntoOne(txs, off - start, one.value.value, one.value.used, ReadTail(c, f, raw[off + one.value.used..]));
      txs, off := txs + [one.value.value], off + one.value.used;
    }
    TailUnfold(c, f, raw[off..]);
    assert txs + [] == txs;
    r := Some(Read(Tail(txs, None), off - start));
  }

  ghost predicate ReceiptsOk(f: Foreign, receipts: Option<seq<Receipt>>) {
    receipts.Some? ==> forall r | r in receipts.value :: ReceiptOk(f, r)
  }

  predicate Countable(receipts: Option<seq<Receipt>>) {
    receipts.Some? ==> 0 < |receipts.value| < 256
  }

  ghost predicate TxsOk<T>(c: Codec<T>, txs: seq<T>)
    decreases |txs|
  {
    txs == [] || (TxOk(c, txs[0]) && TxsOk(c, txs[1..]))
  }

  predicate Unmarked<T>(c: Codec<T>, txs: seq<T>)
    decreases |txs|
  {
    txs == [] || (!Marked(c, txs[0]) && Unmarked(c, txs[1..]))
  }

  lemma ReceiptsReadBack<T>(c: Codec<T>, f: Foreign, receipts: Option<seq<Receipt>>)
    requires Advances(c) && ReceiptsOk(f, receipts)
    ensures ReadTail(c, f, ReceiptBytes(receipts)) == Some(Read(Tail([], receipts), |ReceiptBytes(receipts)|)) <==>
            Countable(receipts)
  {
    hide ReceiptOk, ReadReceipts, EncodeSectionOf;
    if receipts.Some? && receipts.value != [] {
      var b := EncodeSectionOf(receipts.value);
      SectionRoundTripIff(f, receipts.value, []);
      assert b + [] == b;
      SectionNotEmpty(receipts.value);
    } else {
      NoSection();
    }
  }

  lemma SectionNotEmpty(rs: seq<Receipt>)
    requires rs != []
    ensures EncodeSectionOf(rs) != []
  {
    hide EncodeList, Chosen, CountByte;
  }

  lemma NoSection()
    ensures EncodeSectionOf([]) == []
  {}

  /** At a transaction the loop either takes it or, if it is marked, stops for good. */
  lemma TxStep<T>(c: Codec<T>, f: Foreign, tx: T, u: Bytes)
    requires Advances(c) && TxOk(c, tx)
    ensures var r := ReadTail(c, f, c.encode(tx) + u); var rest := ReadTail(c, f, u);
            if Marked(c, tx) then r.None? || r.value.value.txs == []
            else if rest.None? then r.None?
            else r == Some(Read(Tail([tx] + rest.value.value.txs, rest.value.value.receipts), |c.encode(tx)| + rest.value.used))
  {
    hide FormatOf, ReadList;
    var s := c.encode(tx) + u;
    assert s[..8] == c.encode(tx)[..8];
    assert s[|c.encode(tx)|..] == u;
    assert c.decode(s) == Some(Read(tx, |c.encode(tx)|));
  }

  lemma {:induction false} TailReadsBack<T>(c: Codec<T>, f: Foreign, tail: Tail<T>)
    requires Advances(c) && TxsOk(c, tail.txs) && ReceiptsOk(f, tail.receipts)
    ensures ReadTail(c, f, EncodeTail(c, tail)) == Some(Read(tail, |EncodeTail(c, tail)|)) <==>
            Unmarked(c, tail.txs) && Countable(tail.receipts)
    decreases |tail.txs|
  {
    hide ReadTail, ReceiptBytes, TxOk, Marked, Countable, ReceiptsOk, Advances;
    var txs := tail.txs;
    if txs == [] {
      assert EncodeTail(c, tail) == ReceiptBytes(tail.receipts);
      ReceiptsReadBack(c, f, tail.receipts);
    } else {
      var rest := Tail(txs[1..], tail.receipts);
      assert TxOk(c, txs[0]) && TxsOk(c, rest.txs);
      assert Unmarked(c, txs) <==> !Marked(c, txs[0]) && Unmarked(c, rest.txs);
      TailReadsBack(c, f, rest);
      TxStep(c, f, txs[0], EncodeTail(c, rest));
      EncodeTailStep(c, tail);
      hide EncodeTail;
      assert txs == [txs[0]] + rest.txs;
      hide Unmarked, TxsOk;
      Prepended(c, f, tail, rest);
    }
  }

  lemma EncodeTailStep<T>(c: Codec<T>, tail: Tail<T>)
    requires tail.txs != []
    ensures EncodeTail(c, tail) == c.encode(tail.txs[0]) + EncodeTail(c, Tail(tail.txs[1..], tail.receipts))
  {
    hide ReceiptBytes;
  }

  lemma Prepended<T>(c: Codec<T>, f: Foreign, tail: Tail<T>, rest: Tail<T>)
    requires Advances(c) && tail.txs != [] && rest == Tail(tail.txs[1..], tail.receipts)
    requires EncodeTail(c, tail) == c.encode(tail.txs[0]) + EncodeTail(c, rest)
    requires var r := ReadTail(c, f, EncodeTail(c, tail)); var u := ReadTail(c, f, EncodeTail(c, rest));
             var tx := tail.txs[0];
             if Marked(c, tx) then r.None? || r.value.value.txs == []
             else if u.None? then r.None?
             else r == Some(Read(Tail([tx] + u.value.value.txs, u.value.value.receipts), |c.encode(tx)| + u.value.used))
    ensures ReadTail(c, f, EncodeTail(c, tail)) == Some(Read(tail, |EncodeTail(c, tail)|)) <==>
            !Marked(c, tail.txs[0]) && ReadTail(c, f, EncodeTail(c, rest)) == Some(Read(rest, |EncodeTail(c, rest)|))
  {
    hide ReadTail, EncodeTail, Marked, Advances;
    var u := ReadTail(c, f, EncodeTail(c, rest));
    assert tail.txs == [tail.txs[0]] + tail.txs[1..];
    if u.Some? { assert ([tail.txs[0]] + u.value.value.txs)[1..] == u.value.value.txs; }
  }

  // ---------- the block ----------

  datatype Block<T> = Block(header: BlockHeader, auxpow: Option<Proof>, tail: Tail<T>)

  /** Which of the two byte orders and whether proofs are read at a height. */
  datatype Era = Era(legacyHeader: bool, auxActive: bool)

  function EraAt(headerActivation: nat, auxActivation: Option<nat>, height: nat): Era {
    Era(height < headerActivation, auxActivation.Some? && height >= auxActivation.value)
  }

  /** version & (1 << 8). */
  predicate AuxBit(version: u32) {
    version / 0x100 % 2 == 1
  }

  predicate Wants(era: Era, version: u32) {
    AuxBit(version) && era.auxActive
  }

  function AuxBytes(auxpow: Option<Proof>): Bytes
    requires auxpow.Some? ==> Sized(auxpow.value)
  {
    if auxpow.None? then [] else ProofBytes(auxpow.value)
  }

  function EncodeBlock<T>(c: Codec<T>, era: Era, b: Block<T>): Bytes
    requires b.auxpow.Some? ==> Sized(b.auxpow.value)
  {
    EncodeHeader(era.legacyHeader, b.header) + (AuxBytes(b.auxpow) + EncodeTail(c, b.tail))
  }

  function ReadAux(wanted: bool, s: Bytes): (r: Option<Read<Option<Proof>>>)
    ensures r.Some? ==> r.value.used <= |s| && (r.value.value.Some? <==> wanted)
  {
    if !wanted then Some(Read(None, 0))
    else match ReadProof(s)
      case None => None
      case Some(p) => Some(Read(Some(p.value), p.used))
  }

  function ReadBlock<T>(c: Codec<T>, f: Foreign, era: Era, s: Bytes): Option<Read<Block<T>>>
    requires Advances(c)
  {
    match ReadHeader(era.legacyHeader, s)
    case None => None
    case Some(h) =>
      match ReadAux(Wants(era, h.value.version), s[80..])
      case None => None
      case Some(a) =>
        match ReadTail(c, f, s[80..][a.used..])
        case None => None
        case Some(t) => Some(Read(Block(h.value, a.value, t.value), 80 + a.used + t.used))
  }

  ghost predicate BlockOk<T>(c: Codec<T>, f: Foreign, b: Block<T>) {
    TxsOk(c, b.tail.txs) && ReceiptsOk(f, b.tail.receipts) && (b.auxpow.Some? ==> Sized(b.auxpow.value))
  }

  /** What a block must satisfy for its own bytes to mean it. */
  predicate Faithful<T>(c: Codec<T>, era: Era, b: Block<T>) {
    (b.auxpow.Some? <==> Wants(era, b.header.version)) &&
    (b.auxpow.Some? ==> Bounded(b.auxpow.value)) &&
    Unmarked(c, b.tail.txs) && Countable(b.tail.receipts)
  }

  lemma AuxReadsBack(wanted: bool, auxpow: Option<Proof>, u: Bytes)
    requires auxpow.Some? ==> Sized(auxpow.value)
    ensures auxpow.Some? == wanted ==>
              (ReadAux(wanted, AuxBytes(auxpow) + u) ==
               if auxpow.Some? && !Bounded(auxpow.value) then None else Some(Read(auxpow, |AuxBytes(auxpow)|)))
  {
    hide ReadProof, ProofBytes;
    if auxpow.Some? { ProofRoundTripIff(auxpow.value, u); }
  }

  /** A block reads back from its own bytes, all of them, if and only if it has a proof exactly
      when its version and height call for one, the proof keeps to the limits, no transaction
      begins like a receipt section, and it has no receipt list or one of 1 to 255 receipts. */
  lemma BlockRoundTripIff<T>(c: Codec<T>, f: Foreign, era: Era, b: Block<T>)
    requires Advances(c) && BlockOk(c, f, b)
    ensures ReadBlock(c, f, era, EncodeBlock(c, era, b)) == Some(Read(b, |EncodeBlock(c, era, b)|)) <==>
            Faithful(c, era, b)
  {
    hide ReadHeader, EncodeHeader, ReadAux, AuxBytes, ReadTail, EncodeTail, Unmarked, Countable, Bounded, Advances,
      TxsOk, ReceiptsOk, Wants, Sized;
    var a, u := AuxBytes(b.auxpow), EncodeTail(c, b.tail);
    var s := EncodeBlock(c, era, b);
    HeaderAcrossEras(era.legacyHeader, era.legacyHeader, b.header, a + u);
    assert s[80..] == a + u;
    AuxReadsBack(Wants(era, b.header.version), b.auxpow, u);
    assert (a + u)[|a|..] == u;
    TailReadsBack(c, f, b.tail);
  }
}
