/** Where each field stands on the wire, byte by byte, for the formats the codecs read and write. */
module WireLayouts {
  import opened Basics
  import opened Reading
  import opened Merkle
  import opened ReceiptExt
  import opened ReceiptHead
  import opened Receipts
  import opened Candidates
  import CandidateSets
  import AuxPow
  import AuxWire
  import Blocks
  import BlockTx
  import RelayModel
  import HeaderBatch

  function Ascii(text: string): Bytes
    requires forall i | 0 <= i < |text| :: text[i] < 128 as char
  {
    seq(|text|, i requires 0 <= i < |text| => text[i] as int)
  }

  lemma SliceLeft(s: Bytes, a: Bytes, b: Bytes, x: nat, y: nat)
    requires s == a + b && x <= y <= |a|
    ensures s[x..y] == a[x..y]
  {}

  lemma SliceRight(s: Bytes, a: Bytes, b: Bytes, x: nat, y: nat)
    requires s == a + b && x <= y <= |b|
    ensures s[|a| + x..|a| + y] == b[x..y]
  {}

  // ---------- headers ----------

  /** A block header: four little-endian words around the parent hash, turned end to end, and the
      Merkle root, turned only before activation. */
  lemma HeaderLayout(legacy: bool, h: Blocks.BlockHeader)
    ensures var s := Blocks.EncodeHeader(legacy, h);
            |s| == 80 && LeValue(s[0..4]) == h.version &&
            (forall i | 0 <= i < 32 :: s[4..36][i] == h.prevHash[31 - i]) &&
            (forall i | 0 <= i < 32 :: s[36..68][i] == h.merkleRoot[if legacy then 31 - i else i]) &&
            LeValue(s[68..72]) == h.time && LeValue(s[72..76]) == h.bits && LeValue(s[76..80]) == h.nonce
  {
    hide LeBytes, LeValue;
    var s := Blocks.EncodeHeader(legacy, h);
    Blocks.HeaderSlices(s, LeBytes(h.version, 4), Reversed(h.prevHash), Blocks.Turned(legacy, h.merkleRoot),
                        LeBytes(h.time, 4), LeBytes(h.bits, 4), LeBytes(h.nonce, 4), []);
    assert s[0..4] == s[..4];
    HeaderBatch.WordRoundTrip(h.version);
    HeaderBatch.WordRoundTrip(h.time);
    HeaderBatch.WordRoundTrip(h.bits);
    HeaderBatch.WordRoundTrip(h.nonce);
  }

  /** A relayed header: every field little-endian, the version in two's complement. */
  lemma SpvHeaderLayout(h: RelayModel.Header)
    ensures var s := HeaderBatch.Serialize(h);
            |s| == 80 && (LeValue(s[0..4]) - h.version) % 0x1_0000_0000 == 0 && LeValue(s[4..36]) == h.prevHash &&
            LeValue(s[36..68]) == h.merkleRoot && LeValue(s[68..72]) == h.time && LeValue(s[72..76]) == h.bits &&
            LeValue(s[76..80]) == h.nonce
  {
    hide LeBytes, LeValue;
    HeaderBatch.Fields(LeBytes(HeaderBatch.Unsigned(h.version), 4), LeBytes(h.prevHash, 32), LeBytes(h.merkleRoot, 32),
                       LeBytes(h.time, 4), LeBytes(h.bits, 4), LeBytes(h.nonce, 4));
    HeaderBatch.WordRoundTrip(HeaderBatch.Unsigned(h.version));
    HeaderBatch.HashRoundTrip(h.prevHash);
    HeaderBatch.HashRoundTrip(h.merkleRoot);
    HeaderBatch.WordRoundTrip(h.time);
    HeaderBatch.WordRoundTrip(h.bits);
    HeaderBatch.WordRoundTrip(h.nonce);
  }

  lemma {:induction false} HeadersAt(hs: seq<RelayModel.Header>, i: nat)
    requires i < |hs|
    ensures HeaderBatch.SerializeAll(hs)[80 * i..80 * i + 80] == HeaderBatch.Serialize(hs[i])
    decreases |hs|
  {
    var n := |hs| - 1;
    var a, b := HeaderBatch.SerializeAll(hs[..n]), HeaderBatch.Serialize(hs[n]);
    assert HeaderBatch.SerializeAll(hs) == a + b && |a| == 80 * n && |b| == 80;
    hide HeaderBatch.Serialize, HeaderBatch.SerializeAll;
    if i < n {
      HeadersAt(hs[..n], i);
      SliceLeft(a + b, a, b, 80 * i, 80 * i + 80);
    } else {
      SliceRight(a + b, a, b, 0, 80);
    }
  }

  /** A batch script: the chain's tag, version 1, a little-endian count, and the headers 80 bytes apart. */
  lemma BatchLayout(kind: RelayModel.Kind, hs: seq<RelayModel.Header>)
    requires |hs| < 0x1_0000
    ensures var s := HeaderBatch.Script(kind, hs);
            |s| == 4 + 80 * |hs| && s[0] == (if kind.Btc? then 0xc4 else 0xc6) && s[1] == 1 &&
            s[2] as int + 256 * s[3] as int == |hs| &&
            forall i | 0 <= i < |hs| :: s[4 + 80 * i..84 + 80 * i] == HeaderBatch.Serialize(hs[i])
  {
    hide HeaderBatch.Serialize, HeaderBatch.SerializeAll;
    var s := HeaderBatch.Script(kind, hs);
    HeaderBatch.CountRoundTrip(|hs|);
    forall i | 0 <= i < |hs|
      ensures s[4 + 80 * i..84 + 80 * i] == HeaderBatch.Serialize(hs[i])
    {
      HeadersAt(hs, i);
      assert s[4..] == HeaderBatch.SerializeAll(hs);
      assert s[4 + 80 * i..84 + 80 * i] == s[4..][80 * i..80 * i + 80];
    }
  }

  lemma OneMoreHeader(hs: seq<RelayModel.Header>, h: RelayModel.Header)
    ensures HeaderBatch.SerializeAll(hs + [h]) == HeaderBatch.SerializeAll(hs) + HeaderBatch.Serialize(h)
  {
    hide HeaderBatch.Serialize;
    assert (hs + [h])[..|hs|] == hs;
  }

  lemma {:induction false} CutHeaders(body: Bytes, n: nat) returns (hs: seq<RelayModel.Header>)
    requires |body| == 80 * n
    ensures |hs| == n && HeaderBatch.SerializeAll(hs) == body
    decreases n
  {
    hs := [];
    if n > 0 {
      var k: nat := 80 * (n - 1);
      var init := CutHeaders(body[..k], n - 1);
      HeaderBatch.BytesRoundTrip(body[k..]);
      hide HeaderBatch.Serialize, HeaderBatch.Deserialize, HeaderBatch.SerializeAll;
      hs := init + [HeaderBatch.Deserialize(body[k..]).value];
      OneMoreHeader(init, HeaderBatch.Deserialize(body[k..]).value);
      assert body == body[..k] + body[k..];
    }
  }

  /** A script carries a batch exactly when it has the chain's tag, version 1, a count of 1 to 2016 or,
      for Litecoin, 144, and that many times 80 bytes. */
  lemma BatchAccepted(kind: RelayModel.Kind, script: Bytes)
    ensures (exists hs :: HeaderBatch.Parses(kind, script, hs)) <==>
            |script| >= 4 && script[0] == (if kind.Btc? then 0xc4 else 0xc6) && script[1] == 1 &&
            var n := script[2] as int + 256 * script[3] as int;
            1 <= n <= (if kind.Btc? then 2016 else 144) && |script| == 4 + 80 * n
  {
    hide HeaderBatch.Script, HeaderBatch.SerializeAll;
    forall hs | HeaderBatch.Parses(kind, script, hs)
      ensures |script| == 4 + 80 * |hs| && script[0] == HeaderBatch.Tag(kind) && script[1] == 1
      ensures script[2] as int + 256 * script[3] as int == |hs|
    {
      HeaderBatch.ParsesShape(kind, script, hs);
    }
    if |script| >= 4 {
      var n := script[2] as int + 256 * script[3] as int;
      if script[0] == HeaderBatch.Tag(kind) && script[1] == 1 && 1 <= n <= HeaderBatch.Cap(kind) && |script| == 4 + 80 * n {
        var hs := CutHeaders(script[4..], n);
        HeaderBatch.BuildsScript(kind, script, hs);
        assert HeaderBatch.Parses(kind, script, hs);
      }
    }
  }

  /** Bit 8 of the version is the low bit of its second byte on the wire. */
  lemma AuxBitByte(version: u32)
    ensures Blocks.AuxBit(version) <==> LeBytes(version, 4)[1] % 2 == 1
  {
    assert LeBytes(version, 4)[1] == LeBytes(version / 256, 3)[0] == version / 256 % 256;
    hide LeBytes;
    LowBit(version / 256);
  }

  lemma LowBit(x: nat)
    ensures x % 256 % 2 == x % 2
  {
    assert x == 2 * (128 * (x / 256)) + x % 256;
  }

  /** A block at a height: its header, turned as the height asks, then its proof if it has one, its
      transactions and its receipts. */
  lemma BlockLayout<T>(c: Blocks.Codec<T>, headerActivation: nat, auxActivation: Option<nat>, height: nat, b: Blocks.Block<T>)
    requires b.auxpow.Some? ==> AuxWire.Sized(b.auxpow.value)
    ensures var s := Blocks.EncodeBlock(c, Blocks.EraAt(headerActivation, auxActivation, height), b);
            var p := if b.auxpow.Some? then AuxWire.ProofBytes(b.auxpow.value) else [];
            |s| >= 80 + |p| && s[..80] == Blocks.EncodeHeader(height < headerActivation, b.header) && s[80..80 + |p|] == p &&
            s[80 + |p|..] == Blocks.EncodeTxs(c, b.tail.txs) + Blocks.ReceiptBytes(b.tail.receipts)
  {
    HeaderLayout(height < headerActivation, b.header);
    hide Blocks.EncodeHeader, AuxWire.ProofBytes, Blocks.EncodeTxs, Blocks.ReceiptBytes;
    var s := Blocks.EncodeBlock(c, Blocks.EraAt(headerActivation, auxActivation, height), b);
    var p := if b.auxpow.Some? then AuxWire.ProofBytes(b.auxpow.value) else [];
    var t := Blocks.EncodeTail(c, b.tail);
    assert s[80..] == p + t;
    assert s[80..80 + |p|] == s[80..][..|p|] && s[80 + |p|..] == s[80..][|p|..];
  }

  /** A proof is read exactly when bit 8 of the version is set and the height has reached activation. */
  lemma ProofExpected<T>(c: Blocks.Codec<T>, f: Foreign, headerActivation: nat, auxActivation: Option<nat>, height: nat, s: Bytes)
    requires Blocks.Advances(c)
    requires Blocks.ReadBlock(c, f, Blocks.EraAt(headerActivation, auxActivation, height), s).Some?
    ensures var b := Blocks.ReadBlock(c, f, Blocks.EraAt(headerActivation, auxActivation, height), s).value.value;
            b.auxpow.Some? <==> LeBytes(b.header.version, 4)[1] % 2 == 1 && auxActivation.Some? && height >= auxActivation.value
  {
    hide Blocks.ReadHeader, Blocks.ReadTail, Blocks.AuxBit, LeBytes;
    AuxBitByte(Blocks.ReadBlock(c, f, Blocks.EraAt(headerActivation, auxActivation, height), s).value.value.header.version);
  }

  // ---------- merge mining ----------

  /** The commitment: magic, the hash turned end to end, chain count and nonce little-endian. */
  lemma CommitmentLayout(auxHash: Digest, chains: u32, nonce: u32)
    ensures var s := AuxPow.BuildCommitment(auxHash, chains, nonce);
            |s| == 44 && s[0] == 0xfa && s[1] == 0xbe && s[2] == 0x6d && s[3] == 0x6d &&
            (forall i | 0 <= i < 32 :: s[4..36][i] == auxHash[31 - i]) &&
            LeValue(s[36..40]) == chains && LeValue(s[40..44]) == nonce
  {
    hide LeBytes, LeValue;
    var s := AuxPow.BuildCommitment(auxHash, chains, nonce);
    assert s[..4] == AuxPow.COMMIT_MAGIC && s[4..36] == Reversed(auxHash);
    assert s[36..40] == LeBytes(chains, 4) && s[40..44] == LeBytes(nonce, 4);
    HeaderBatch.WordRoundTrip(chains);
    HeaderBatch.WordRoundTrip(nonce);
  }

  lemma {:induction false} DigestsAt(ds: seq<Digest>, i: nat)
    requires i < |ds|
    ensures |AuxWire.Digests(ds)| == 32 * |ds| && AuxWire.Digests(ds)[32 * i..32 * i + 32] == ds[i]
    decreases |ds|
  {
    DigestsSize(ds);
    DigestsSize(ds[1..]);
    var a: Bytes, b := ds[0], AuxWire.Digests(ds[1..]);
    assert AuxWire.Digests(ds) == a + b;
    hide AuxWire.Digests;
    if i > 0 {
      DigestsAt(ds[1..], i - 1);
      SliceRight(a + b, a, b, 32 * (i - 1), 32 * (i - 1) + 32);
    } else {
      SliceLeft(a + b, a, b, 0, 32);
    }
  }

  /** A path of at most 252 siblings: their count in one byte, the siblings in order, the index. */
  lemma PathLayout(path: AuxPow.Path)
    requires |path.siblings| < 0xfd
    ensures var s, n := AuxWire.PathBytes(path), |path.siblings|;
            |s| == 5 + 32 * n && s[0] == n && (forall i | 0 <= i < n :: s[1 + 32 * i..33 + 32 * i] == path.siblings[i]) &&
            LeValue(s[1 + 32 * n..]) == path.index
  {
    hide LeBytes, LeValue, AuxWire.Digests;
    var s, n := AuxWire.PathBytes(path), |path.siblings|;
    DigestsSize(path.siblings);
    assert s[1..] == AuxWire.Digests(path.siblings) + LeBytes(path.index, 4);
    assert s[1 + 32 * n..] == s[1..][32 * n..] == LeBytes(path.index, 4);
    HeaderBatch.WordRoundTrip(path.index);
    forall i | 0 <= i < n
      ensures s[1 + 32 * i..33 + 32 * i] == path.siblings[i]
    {
      DigestsAt(path.siblings, i);
      assert s[1 + 32 * i..33 + 32 * i] == s[1..][32 * i..32 * i + 32];
    }
  }

  lemma {:induction false} DigestsSize(ds: seq<Digest>)
    ensures |AuxWire.Digests(ds)| == 32 * |ds|
    decreases |ds|
  {
    if ds != [] { DigestsSize(ds[1..]); }
  }

  /** A proof: the coinbase behind its length, the parent hash, the two paths in this order, and the
      parent header in the last 80 bytes. */
  lemma ProofLayout(ap: AuxPow.Proof)
    requires AuxWire.Sized(ap)
    ensures var s := AuxWire.ProofBytes(ap);
            var a := |VarintBytes(|ap.coinbase|)|;
            var b := a + |ap.coinbase|;
            var c, d := b + 32 + |AuxWire.PathBytes(ap.coinbasePath)|, |s| - 80;
            b + 32 <= c <= d && s[..a] == VarintBytes(|ap.coinbase|) && s[a..b] == ap.coinbase && s[b..b + 32] == ap.parentHash &&
            s[b + 32..c] == AuxWire.PathBytes(ap.coinbasePath) && s[c..d] == AuxWire.PathBytes(ap.chainPath) &&
            s[d..] == ap.parentHeader
  {
    hide VarintBytes, AuxWire.PathBytes;
    var parent: Bytes := ap.parentHash;
    SixParts(VarintBytes(|ap.coinbase|), ap.coinbase, parent, AuxWire.PathBytes(ap.coinbasePath),
             AuxWire.PathBytes(ap.chainPath), ap.parentHeader);
  }

  lemma SixParts(a: Bytes, b: Bytes, c: Bytes, d: Bytes, e: Bytes, f: Bytes)
    ensures var s := a + (b + (c + (d + (e + f))));
            var i := |a|; var j := i + |b|; var k := j + |c|; var l := k + |d|; var m := l + |e|;
            |s| == m + |f| && s[..i] == a && s[i..j] == b && s[j..k] == c && s[k..l] == d && s[l..m] == e && s[m..] == f
  {
    var s := a + (b + (c + (d + (e + f))));
    var i := |a|; var j := i + |b|; var k := j + |c|; var l := k + |d|;
    assert s[j..] == c + (d + (e + f));
    assert s[l..] == s[j..][l - j..] == e + f;
    assert s[l..l + |e|] == s[l..][..|e|];
  }

  // ---------- transactions of a block ----------

  /** An input: a length byte of 32, the id as it stands, the index, the script behind a length byte,
      the sequence. */
  lemma InputLayout(i: BlockTx.Input)
    requires |i.script| < 256
    ensures var s, n := BlockTx.EncodeInput(i), |i.script|;
            |s| == 42 + n && s[0] == 32 && s[1..33] == i.prevTxid && LeValue(s[33..37]) == i.prevIndex && s[37] == n &&
            s[38..38 + n] == i.script && LeValue(s[38 + n..]) == i.sequence
  {
    hide LeBytes, LeValue;
    var s, n := BlockTx.EncodeInput(i), |i.script|;
    assert s + [] == s;
    BlockTx.InputSlices(s, i.prevTxid, LeBytes(i.prevIndex, 4), n, i.script, LeBytes(i.sequence, 4), []);
    assert s[38 + n..] == s[38 + n..42 + n];
    HeaderBatch.WordRoundTrip(i.prevIndex);
    HeaderBatch.WordRoundTrip(i.sequence);
  }

  /** An output: eight bytes of value, then the script behind its length. */
  lemma OutputLayout(o: BlockTx.Output)
    ensures var s, n := BlockTx.EncodeOutput(o), |VarintBytes(|o.script|)|;
            |s| == 8 + n + |o.script| && LeValue(s[..8]) == o.value && s[8..8 + n] == VarintBytes(|o.script|) &&
            s[8 + n..] == o.script
  {
    hide LeBytes, LeValue, VarintBytes;
    Pow256Values();
    LeRoundTrip(o.value, 8);
    var s, v := BlockTx.EncodeOutput(o), VarintBytes(|o.script|);
    assert s[..8] == LeBytes(o.value, 8) && s[8..] == v + o.script;
    assert s[8..8 + |v|] == s[8..][..|v|] && s[8 + |v|..] == s[8..][|v|..];
  }

  /** A transaction: version, a byte for the number of inputs, the inputs, a byte for the number of
      outputs, the outputs, and the locktime in the last four bytes. */
  lemma TxLayout(tx: BlockTx.Tx)
    ensures var s, a, b := BlockTx.EncodeTx(tx), BlockTx.EncodeInputs(tx.inputs), BlockTx.EncodeOutputs(tx.outputs);
            |s| == 10 + |a| + |b| && LeValue(s[..4]) == tx.version && s[4] == |tx.inputs| % 256 && s[5..5 + |a|] == a &&
            s[5 + |a|] == |tx.outputs| % 256 && s[6 + |a|..6 + |a| + |b|] == b && LeValue(s[6 + |a| + |b|..]) == tx.locktime
  {
    hide LeBytes, LeValue, BlockTx.EncodeInputs, BlockTx.EncodeOutputs;
    var a, b := BlockTx.EncodeInputs(tx.inputs), BlockTx.EncodeOutputs(tx.outputs);
    SixParts(LeBytes(tx.version, 4), [CountByte(|tx.inputs|)], a, [CountByte(|tx.outputs|)], b, LeBytes(tx.locktime, 4));
    var s := BlockTx.EncodeTx(tx);
    assert s[4..5][0] == s[4] && s[5 + |a|..6 + |a|][0] == s[5 + |a|];
    HeaderBatch.WordRoundTrip(tx.version);
    HeaderBatch.WordRoundTrip(tx.locktime);
  }

  // ---------- receipts ----------

  /** The fixed part of a receipt, 166 bytes. */
  lemma BodyLayout(b: Body)
    requires BodyOk(b)
    ensures var s := BodyBytes(b);
            |s| == 166 && LeValue(s[..8]) == b.height && s[8] == b.lane && s[9..29] == b.pkh && s[29..62] == b.pubkey &&
            s[62..126] == b.sig && s[126..134] == b.solution && s[134..166] == b.nonce
  {
    hide LeBytes, LeValue;
    var s := BodyBytes(b);
    assert s + [] == s;
    BodySlices(s, LeBytes(b.height, 8), b.lane, b, []);
    Pow256Values();
    LeRoundTrip(b.height, 8);
  }

  /** Behind a byte that says whether a delegation follows, the body and the delegation. */
  lemma V2Layout(r: Receipt)
    requires BodyOk(r.body) && (r.delegation.Some? ==> |r.delegation.value| == 226)
    ensures var s := EncodeReceipt(V2, r);
            |s| == (if r.delegation.Some? then 393 else 167) && s[0] == (if r.delegation.Some? then 1 else 0) &&
            s[1..167] == BodyBytes(r.body) && (r.delegation.Some? ==> s[167..] == r.delegation.value)
  {
    BodyLayout(r.body);
    hide BodyBytes, BodyOk;
    var s := EncodeReceipt(V2, r);
    assert s[1..] == BodyBytes(r.body) + DelegationBytes(r);
    assert s[1..167] == s[1..][..166] && s[167..] == s[1..][166..];
  }

  /** The same, and then a byte that says whether an extension follows, behind its length. */
  lemma V3Layout(f: Foreign, r: Receipt)
    requires ReceiptOk(f, r)
    ensures var s, n := EncodeReceipt(V3, r), |EncodeReceipt(V2, r)|;
            |s| > n && s[..n] == EncodeReceipt(V2, r) && s[n] == (if r.ext.Some? then 1 else 0) &&
            (r.ext.None? ==> |s| == n + 1) &&
            (r.ext.Some? ==> |s| >= n + 5 && LeValue(s[n + 1..n + 5]) == |s| - (n + 5) && s[n + 5..] == EncodeExt(r.ext.value))
  {
    hide BodyOk, EncodeV2, EncodeExt, ExtOk, LeBytes, LeValue;
    var s, n := EncodeReceipt(V3, r), |EncodeV2(r)|;
    assert s[n..] == ExtBytes(r) && s[n] == s[n..][0];
    if r.ext.Some? { ExtLength(s, n, EncodeExt(r.ext.value)); }
  }

  lemma ExtLength(s: Bytes, at: nat, e: Bytes)
    requires at <= |s| && |e| < 0x1_0000_0000 && s[at..] == [1] + (LeBytes(|e|, 4) + e)
    ensures |s| == at + 5 + |e| && s[at] == 1 && LeValue(s[at + 1..at + 5]) == |e| && s[at + 5..] == e
  {
    hide LeBytes, LeValue;
    assert s[at + 1..at + 5] == s[at..][1..5] == LeBytes(|e|, 4);
    assert s[at + 5..] == s[at..][5..];
    assert s[at] == s[at..][0];
    HeaderBatch.WordRoundTrip(|e|);
  }

  /** A receipt section: eight bytes of magic that name the form, a count modulo 256, the receipts. */
  lemma SectionLayout(rs: seq<Receipt>)
    requires rs != []
    ensures var s, v := EncodeSectionOf(rs), Chosen(rs);
            |s| >= 9 && s[..8] == SectionMagic(v) && s[8] == |rs| % 256 && s[9..] == EncodeList(v, rs)
  {
    hide EncodeList, SectionMagic, Chosen;
  }

  /** The form is the first that can carry every receipt. */
  lemma FormChosen(rs: seq<Receipt>)
    ensures Chosen(rs) == V1 <==> forall r | r in rs :: r.delegation.None? && r.ext.None?
    ensures Chosen(rs) == V3 <==> !forall r | r in rs :: r.ext.None?
  {}

  lemma MagicOf(v: Format)
    ensures var m := SectionMagic(v);
            m[..6] == Ascii("POAWXR") && m[6] == (match v case V1 => 1 case V2 => 2 case V3 => 3) && m[7] == 0
  {}

  // ---------- the extension ----------

  /** The ten section magics. */
  lemma MagicTexts()
    ensures Magic(Ticket) == Ascii("TPK1") && Magic(Dominance) == Ascii("DOM1")
    ensures Magic(SectionKind.Candidate) == Ascii("CND1") && Magic(Puzzle) == Ascii("PZL1")
    ensures Magic(Finality) == Ascii("FIN1") && Magic(Committed) == Ascii("CAC1")
    ensures Magic(TrueVrf) == Ascii("AVR2") && Magic(Fraud) == Ascii("FRD1")
    ensures Magic(Proposer) == Ascii("PRP1") && Magic(Registration) == Ascii("PRG1")
  {}

  lemma {:induction false} ItemsSize(f: Foreign, k: SectionKind, width: nat, items: seq<Bytes>)
    requires AllItems(f, k, width, items)
    ensures |Concat(items)| == width * |items|
    decreases |items|
  {
    hide ItemOk;
    if items != [] {
      ItemsSize(f, k, width, items[1..]);
      assert width * |items| == width + width * (|items| - 1);
    }
  }

  /** Records of one width stand that far apart, in order. */
  lemma {:induction false} ItemsAt(f: Foreign, k: SectionKind, width: nat, items: seq<Bytes>, i: nat)
    requires AllItems(f, k, width, items) && i < |items|
    ensures 0 <= width * i <= width * i + width <= |Concat(items)| && Concat(items)[width * i..width * i + width] == items[i]
    decreases |items|
  {
    var a, b := items[0], Concat(items[1..]);
    assert Concat(items) == a + b && |a| == width && AllItems(f, k, width, items[1..]);
    hide Concat, AllItems;
    if i > 0 {
      ItemsAt(f, k, width, items[1..], i - 1);
      assert width * i == width + width * (i - 1);
      SliceRight(a + b, a, b, width * (i - 1), width * (i - 1) + width);
    } else {
      SliceLeft(a + b, a, b, 0, width);
    }
  }

  lemma {:induction false} AllItemsMeans(f: Foreign, k: SectionKind, width: nat, items: seq<Bytes>)
    ensures AllItems(f, k, width, items) <==>
            forall i | 0 <= i < |items| :: |items[i]| == width && ItemOk(f, k, items[i])
    decreases |items|
  {
    hide ItemOk;
    if items != [] {
      var rest := items[1..];
      AllItemsMeans(f, k, width, rest);
      forall i | 1 <= i < |items|
        ensures AllItems(f, k, width, rest) ==> |items[i]| == width && ItemOk(f, k, items[i])
      {
        var j := i - 1;
        assert items[i] == rest[j];
      }
      forall j | 0 <= j < |rest|
        ensures rest[j] == items[j + 1]
      {}
    }
  }

  /** Which sections are well formed, by kind: how many records, how wide, and what their own decoder
      has to accept. A proposer record starts with four bytes the decoder does not see. */
  lemma SectionMeans(f: Foreign, s: Section)
    ensures SectionOk(f, s) <==>
            match s.kind
            case Ticket => |s.items| == 3 && s.more == [] && (forall i | 0 <= i < 3 :: |s.items[i]| == 176)
            case Dominance => |s.items| == 4 && s.more == [] && (forall i | 0 <= i < 4 :: |s.items[i]| == 8)
            case Candidate => |s.items| == 1 && s.more == [] && |s.items[0]| < 0x1_0000_0000 && f.candidates(s.items[0])
            case Puzzle => |s.items| == 3 && s.more == [] && (forall i | 0 <= i < 3 :: |s.items[i]| == 41)
            case Finality => |s.items| == 1 && s.more == [] && |s.items[0]| < 0x1_0000_0000 && f.finality(s.items[0])
            case Committed => |s.items| == 1 && s.more == [] && |s.items[0]| == 124 && f.committed(s.items[0])
            case TrueVrf => |s.items| == 3 && s.more == [] && (forall i | 0 <= i < 3 :: |s.items[i]| == 273 && f.vrf(s.items[i]))
            case Fraud => 1 <= |s.items| <= 16 && s.more == [] && (forall i | 0 <= i < |s.items| :: |s.items[i]| == 515 && f.fraud(s.items[i]))
            case Proposer => |s.items| == 1 && s.more == [] && |s.items[0]| == 277 && f.vrf(s.items[0][4..])
            case Registration => |s.items| <= 8 && |s.more| <= 8 && (forall i | 0 <= i < |s.items| :: |s.items[i]| == 169) &&
                                 (forall i | 0 <= i < |s.more| :: |s.more[i]| == 169)
  {
    hide AllItems;
    match ShapeOf(s.kind)
    case Fixed(_, width) => AllItemsMeans(f, s.kind, width, s.items);
    case Counted(_, _, width) => AllItemsMeans(f, s.kind, width, s.items);
    case Paired(_, _, width) =>
      AllItemsMeans(f, s.kind, width, s.items);
      AllItemsMeans(f, s.kind, width, s.more);
    case Lengthed =>
  }

  /** How many bytes a well-formed section takes, by kind. */
  lemma SectionSizes(f: Foreign, s: Section)
    requires SectionOk(f, s)
    ensures var n := |EncodeSection(s)|;
            match s.kind
            case Ticket => n == 532
            case Dominance => n == 36
            case Candidate => n == 8 + |s.items[0]|
            case Puzzle => n == 127
            case Finality => n == 8 + |s.items[0]|
            case Committed => n == 128
            case TrueVrf => n == 823
            case Fraud => 1 <= |s.items| <= 16 && n == 6 + 515 * |s.items|
            case Proposer => n == 281
            case Registration => |s.items| <= 8 && |s.more| <= 8 && n == 8 + 169 * (|s.items| + |s.more|)
  {
    hide LeBytes, Concat, AllItems, ItemOk;
    match ShapeOf(s.kind)
    case Fixed(count, width) => ItemsSize(f, s.kind, width, s.items);
    case Counted(_, _, width) => ItemsSize(f, s.kind, width, s.items);
    case Paired(_, _, width) =>
      ItemsSize(f, s.kind, width, s.items);
      ItemsSize(f, s.kind, width, s.more);
    case Lengthed =>
  }

  /** Where the records of a section stand: behind the magic; behind a little-endian count; behind a
      second count for the second list; or, for one record, behind a four-byte length. */
  lemma RecordsAt(f: Foreign, s: Section)
    requires SectionOk(f, s)
    ensures var b := EncodeSection(s);
            |b| >= 4 && b[..4] == Magic(s.kind) &&
            match s.kind
            case Candidate => |b| >= 8 && LeValue(b[4..8]) == |b| - 8 && s.items == [b[8..]]
            case Finality => |b| >= 8 && LeValue(b[4..8]) == |b| - 8 && s.items == [b[8..]]
            case Fraud => |b| >= 6 && LeValue(b[4..6]) == |s.items| && b[6..] == Concat(s.items)
            case Registration =>
              var m := 6 + |Concat(s.items)|;
              |b| >= m + 2 && LeValue(b[4..6]) == |s.items| && b[6..m] == Concat(s.items) &&
              LeValue(b[m..m + 2]) == |s.more| && b[m + 2..] == Concat(s.more)
            case _ => b[4..] == Concat(s.items)
  {
    hide LeBytes, LeValue, Concat, AllItems, ItemOk, Magic;
    var b, m := EncodeSection(s), Magic(s.kind);
    assert b[..4] == m && b[4..] == Payload(s);
    match ShapeOf(s.kind)
    case Fixed(_, _) =>
    case Counted(_, _, _) => CountThen(b, 4, |s.items|, Concat(s.items));
    case Paired(_, _, _) =>
      var x, y := LeBytes(|s.items|, 2) + Concat(s.items), LeBytes(|s.more|, 2) + Concat(s.more);
      CountThen(b[..4 + |x|], 4, |s.items|, Concat(s.items));
      assert b[4..6] == b[..4 + |x|][4..6] && b[6..4 + |x|] == b[..4 + |x|][6..];
      assert b[4 + |x|..] == b[4..][|x|..] == y;
      CountThen(b, 4 + |x|, |s.more|, Concat(s.more));
    case Lengthed =>
      HeaderBatch.WordRoundTrip(|s.items[0]|);
      assert b[4..8] == b[4..][..4] == LeBytes(|s.items[0]|, 4) && b[8..] == b[4..][4..];
  }

  lemma CountThen(s: Bytes, at: nat, n: nat, t: Bytes)
    requires at <= |s| && n < 0x1_0000 && s[at..] == LeBytes(n, 2) + t
    ensures |s| >= at + 2 && LeValue(s[at..at + 2]) == n && s[at + 2..] == t
  {
    hide LeBytes, LeValue;
    Pow256Values();
    LeRoundTrip(n, 2);
    assert s[at..at + 2] == s[at..][..2] && s[at + 2..] == s[at..][2..];
  }

  /** A role claim: a two-byte length, 118 fixed bytes, and a byte that says whether 32 bytes of
      commitment follow. */
  lemma ClaimLayout(c: Claim)
    requires ClaimOk(c)
    ensures var s := EncodeClaim(c);
            |s| == (if c.commitment.Some? then 153 else 121) && LeValue(s[..2]) == |s| - 2 && s[2..120] == c.fixed &&
            s[120] == (if c.commitment.Some? then 1 else 0) && (c.commitment.Some? ==> s[121..] == c.commitment.value)
  {
    hide LeBytes, LeValue;
    var s, b := EncodeClaim(c), ClaimBytes(c);
    CountThen(s, 0, |b|, b);
    assert s[0..] == s && s[0..2] == s[..2];
    assert s[2..120] == s[2..][..118] && s[121..] == s[2..][119..];
  }

  /** The head: version 1, 60 bytes of rewards, the claims, the fee in basis points, its receiver. */
  lemma HeadLayout(h: Head)
    requires HeadOk(h)
    ensures var s, n := EncodeHead(h), 61 + |EncodeClaims(h.claims)|;
            |s| == n + 22 && s[0] == 1 && s[1..61] == h.reward && s[61..n] == EncodeClaims(h.claims) &&
            LeValue(s[n..n + 2]) == h.feeBps && s[n + 2..] == h.feePkh
  {
    hide LeBytes, LeValue, EncodeClaims, ClaimsOk;
    var s, c, fee := EncodeHead(h), EncodeClaims(h.claims), LeBytes(h.feeBps, 2);
    assert s[61..] == c + (fee + h.feePkh);
    var n := 61 + |c|;
    assert s[61..n] == s[61..][..|c|] && s[n..] == s[61..][|c|..];
    CountThen(s, n, h.feeBps, h.feePkh);
  }

  function Rank(k: SectionKind): nat {
    match k
    case Ticket => 0
    case Dominance => 1
    case Candidate => 2
    case Puzzle => 3
    case Finality => 4
    case Committed => 5
    case TrueVrf => 6
    case Fraud => 7
    case Proposer => 8
    case Registration => 9
  }

  ghost predicate Rising(order: seq<Section>) {
    forall i, j | 0 <= i < j < |order| :: Rank(order[i].kind) < Rank(order[j].kind)
  }

  ghost predicate KindsAbove(order: seq<Section>, k: int) {
    forall i | 0 <= i < |order| :: Rank(order[i].kind) > k
  }

  lemma {:induction false} OrderRises(ks: seq<SectionKind>, m: Sections, k: int)
    requires KindsRise(ks, k) && forall k | k in m :: m[k].kind == k
    ensures Rising(InOrder(ks, m)) && KindsAbove(InOrder(ks, m), k)
    decreases |ks|
  {
    hide Rank, InOrder, Rising, KindsAbove;
    OrderStep(ks, m, k);
    if ks != [] {
      var first, rest := ks[0], ks[1..];
      OrderRises(rest, m, Rank(first));
      if first in m { RisesFrom(m[first], InOrder(rest, m), k); } else { AboveToo(InOrder(rest, m), Rank(first), k); }
    }
  }

  lemma OrderStep(ks: seq<SectionKind>, m: Sections, k: int)
    ensures ks == [] ==> Rising(InOrder(ks, m)) && KindsAbove(InOrder(ks, m), k)
    ensures ks != [] ==> InOrder(ks, m) == if ks[0] in m then [m[ks[0]]] + InOrder(ks[1..], m) else InOrder(ks[1..], m)
  {
    hide Rank;
    if ks != [] && ks[0] !in m { assert [] + InOrder(ks[1..], m) == InOrder(ks[1..], m); }
  }

  lemma AboveToo(order: seq<Section>, k: int, k': int)
    requires KindsAbove(order, k) && k' <= k
    ensures KindsAbove(order, k')
  {
    hide Rank;
  }

  predicate KindsRise(ks: seq<SectionKind>, k: int)
    decreases |ks|
  {
    ks == [] || (Rank(ks[0]) > k && KindsRise(ks[1..], Rank(ks[0])))
  }

  lemma AllRise()
    ensures KindsRise(KINDS, -1)
  {
    assert KindsRise(KINDS[8..], 7);
    assert KindsRise(KINDS[6..], 5);
    assert KindsRise(KINDS[4..], 3);
    assert KindsRise(KINDS[2..], 1);
  }

  lemma RisesFrom(s: Section, later: seq<Section>, k: int)
    requires Rising(later) && KindsAbove(later, Rank(s.kind)) && Rank(s.kind) > k
    ensures Rising([s] + later) && KindsAbove([s] + later, k)
  {
    hide Rank;
  }

  /** The extension: the head; a byte 1 and the precommit root, or a byte 0, or nothing when there is
      neither root nor section; then every section once, in the order of the ranks. */
  lemma ExtLayout(f: Foreign, e: Ext) returns (order: seq<Section>)
    requires ExtOk(f, e)
    ensures forall s :: s in order <==> s.kind in e.sections && e.sections[s.kind] == s
    ensures Rising(order)
    ensures var s, n := EncodeExt(e), |EncodeHead(e.head)|;
            |s| >= n && s[..n] == EncodeHead(e.head) &&
            if e.precommit.Some? then |s| >= n + 33 && s[n] == 1 && s[n + 1..n + 33] == e.precommit.value && s[n + 33..] == EncodeAll(order)
            else if e.sections == map[] then |s| == n
            else |s| > n && s[n] == 0 && s[n + 1..] == EncodeAll(order)
  {
    hide EncodeHead, EncodeAll, HeadOk, SectionOk, InOrder, Rank;
    order := SectionOrder(f, e);
    FlagThen(e, EncodeExt(e), EncodeHead(e.head), order);
  }

  lemma SectionOrder(f: Foreign, e: Ext) returns (order: seq<Section>)
    requires SectionsOk(f, e.sections)
    ensures order == InOrder(KINDS, e.sections)
    ensures forall s :: s in order <==> s.kind in e.sections && e.sections[s.kind] == s
    ensures Rising(order)
  {
    hide SectionOk, InOrder;
    order := InOrder(KINDS, e.sections);
    AllRise();
    OrderRises(KINDS, e.sections, -1);
    hide Rank;
    forall s: Section
      ensures s in order <==> s.kind in e.sections && e.sections[s.kind] == s
    {
      InOrderMembers(KINDS, e.sections, s);
      AllKinds(s.kind);
    }
  }

  lemma FlagThen(e: Ext, s: Bytes, head: Bytes, order: seq<Section>)
    requires s == head + (Flag(e) + EncodeAll(order)) && (e.precommit.Some? ==> |e.precommit.value| == 32)
    requires forall x :: x in order <==> x.kind in e.sections && e.sections[x.kind] == x
    ensures var n := |head|;
            |s| >= n && s[..n] == head &&
            if e.precommit.Some? then |s| >= n + 33 && s[n] == 1 && s[n + 1..n + 33] == e.precommit.value && s[n + 33..] == EncodeAll(order)
            else if e.sections == map[] then |s| == n
            else |s| > n && s[n] == 0 && s[n + 1..] == EncodeAll(order)
  {
    if e.sections == map[] { assert order == []; }
    hide EncodeAll;
    var t := s[|head|..];
    assert t == Flag(e) + EncodeAll(order);
    if e.precommit.Some? {
      assert s[|head| + 1..|head| + 33] == t[1..33] && s[|head| + 33..] == t[33..] && s[|head|] == t[0];
    } else if e.sections != map[] {
      assert s[|head| + 1..] == t[1..] && s[|head|] == t[0];
    }
  }

  // ---------- candidate sets ----------

  /** One candidate, 175 bytes. */
  lemma CandidateLayout(c: Candidate)
    requires CandidateSets.CandidateOk(c)
    ensures var s := CandidateSets.EncodeCandidate(c);
            |s| == 175 && s[0] == c.role && s[1..21] == c.pkh && s[21..54] == c.assignmentKey && s[54..86] == c.ticket &&
            s[86] == c.penaltyStatus && s[87..119] == c.proof && LeValue(s[119..127]) == c.dominance &&
            LeValue(s[127..135]) == c.penaltyWeight && LeValue(s[135..143]) == c.score && s[143..175] == c.claim
  {
    hide LeBytes, LeValue;
    var s := CandidateSets.EncodeCandidate(c);
    CandidateSets.Slices(s, c, LeBytes(c.dominance, 8), LeBytes(c.penaltyWeight, 8), LeBytes(c.score, 8));
    Pow256Values();
    LeRoundTrip(c.dominance, 8);
    LeRoundTrip(c.penaltyWeight, 8);
    LeRoundTrip(c.score, 8);
  }

  lemma FirstCandidate(cs: seq<Candidate>)
    requires CandidateSets.AllOk(cs) && cs != []
    ensures CandidateSets.EncodeList(cs) == CandidateSets.EncodeCandidate(cs[0]) + CandidateSets.EncodeList(cs[1..])
    ensures |CandidateSets.EncodeCandidate(cs[0])| == 175 && CandidateSets.AllOk(cs[1..])
    ensures |CandidateSets.EncodeList(cs)| == 175 * |cs| && |CandidateSets.EncodeList(cs[1..])| == 175 * (|cs| - 1)
  {
    CandidateSets.CandidateRoundTrip(cs[0]);
    CandidateSets.ListRoundTrip(cs[1..]);
    hide CandidateSets.EncodeCandidate, CandidateSets.CandidateOk, CandidateSets.DecodeList;
  }

  lemma {:induction false} CandidatesAt(cs: seq<Candidate>, i: nat)
    requires CandidateSets.AllOk(cs) && i < |cs|
    ensures |CandidateSets.EncodeList(cs)| == 175 * |cs|
    ensures CandidateSets.EncodeList(cs)[175 * i..175 * i + 175] == CandidateSets.EncodeCandidate(cs[i])
    decreases |cs|
  {
    hide CandidateSets.EncodeCandidate, CandidateSets.EncodeList, CandidateSets.AllOk;
    FirstCandidate(cs);
    var a, b := CandidateSets.EncodeCandidate(cs[0]), CandidateSets.EncodeList(cs[1..]);
    if i > 0 {
      CandidatesAt(cs[1..], i - 1);
      SliceRight(a + b, a, b, 175 * (i - 1), 175 * (i - 1) + 175);
    } else {
      SliceLeft(a + b, a, b, 0, 175);
    }
  }

  /** A candidate set: network, height, seed, a count modulo 65536, and the candidates 175 bytes apart. */
  lemma SetLayout(set': CandidateSets.CandidateSet)
    requires CandidateSets.SetOk(set')
    ensures var s, n := CandidateSets.EncodeSet(set'), |set'.candidates|;
            |s| == 43 + 175 * n && s[0] == set'.network && LeValue(s[1..9]) == set'.height && s[9..41] == set'.seed &&
            LeValue(s[41..43]) == n % 0x1_0000 &&
            forall i | 0 <= i < n :: s[43 + 175 * i..218 + 175 * i] == CandidateSets.EncodeCandidate(set'.candidates[i])
  {
    hide CandidateSets.EncodeCandidate, CandidateSets.EncodeList, CandidateSets.AllOk, LeValue;
    var s, n := CandidateSets.EncodeSet(set'), |set'.candidates|;
    CandidateSets.EncodedSet(set');
    forall i | 0 <= i < n
      ensures s[43 + 175 * i..218 + 175 * i] == CandidateSets.EncodeCandidate(set'.candidates[i])
    {
      CandidatesAt(set'.candidates, i);
      assert s[43 + 175 * i..218 + 175 * i] == s[43..][175 * i..175 * i + 175];
    }
  }
}
