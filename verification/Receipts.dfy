/** PoawxBlockReceipt of src/poawx.rs and the receipt section of src/block.rs. */
module Receipts {
  import opened Basics
  import opened Reading
  import opened ReceiptExt
  import opened ReceiptHead

  const BODY_SIZE: nat := 166
  const DELEGATION_SIZE: nat := 226

  /** The 166 bytes every receipt has. */
  datatype Body = Body(height: u64, lane: byte, pkh: Bytes, pubkey: Bytes, sig: Bytes, solution: Bytes, nonce: Bytes)

  datatype Receipt = Receipt(body: Body, delegation: Option<Bytes>, ext: Option<Ext>)

  predicate BodyOk(b: Body) {
    |b.pkh| == 20 && |b.pubkey| == 33 && |b.sig| == 64 && |b.solution| == 8 && |b.nonce| == 32
  }

  /** The extension length is written as a u32. */
  ghost predicate ReceiptOk(f: Foreign, r: Receipt) {
    BodyOk(r.body) &&
    (r.delegation.Some? ==> |r.delegation.value| == DELEGATION_SIZE) &&
    (r.ext.Some? ==> ExtOk(f, r.ext.value) && |EncodeExt(r.ext.value)| < 0x1_0000_0000)
  }

  // ---------- one receipt ----------

  datatype Format = V1 | V2 | V3

  function BodyBytes(b: Body): Bytes {
    LeBytes(b.height, 8) + ([b.lane] + (b.pkh + (b.pubkey + (b.sig + (b.solution + b.nonce)))))
  }

  function ParseBody(s: Bytes): Body
    requires |s| >= BODY_SIZE
  {
    Pow256Values();
    LeBytesOfValue(s[..8]);
    Body(LeValue(s[..8]), s[8], s[9..29], s[29..62], s[62..126], s[126..134], s[134..166])
  }

  function DelegationBytes(r: Receipt): Bytes {
    match r.delegation case None => [] case Some(d) => d
  }

  function Mode(r: Receipt): byte {
    if r.delegation.Some? then 1 else 0
  }

  function ExtBytes(r: Receipt): Bytes {
    match r.ext
    case None => [0]
    case Some(e) => [1] + (LeBytes(|EncodeExt(e)|, 4) + EncodeExt(e))
  }

  function EncodeV2(r: Receipt): Bytes {
    [Mode(r)] + (BodyBytes(r.body) + DelegationBytes(r))
  }

  function EncodeReceipt(v: Format, r: Receipt): Bytes {
    match v
    case V1 => BodyBytes(r.body)
    case V2 => EncodeV2(r)
    case V3 => EncodeV2(r) + ExtBytes(r)
  }

  function ReadV2(s: Bytes): (r: Option<Read<Receipt>>)
    ensures r.Some? ==> r.value.used <= |s|
  {
    if |s| < 1 + BODY_SIZE then None
    else
      var body := ParseBody(s[1..]);
      if s[0] == 0 then Some(Read(Receipt(body, None, None), 1 + BODY_SIZE))
      else if s[0] != 1 || |s| < 1 + BODY_SIZE + DELEGATION_SIZE then None
      else Some(Read(Receipt(body, Some(s[1 + BODY_SIZE..][..DELEGATION_SIZE]), None), 1 + BODY_SIZE + DELEGATION_SIZE))
  }

  function ReadOptionalExt(f: Foreign, s: Bytes): (r: Option<Read<Option<Ext>>>)
    ensures r.Some? ==> r.value.used <= |s|
  {
    if s == [] then None
    else if s[0] == 0 then Some(Read(None, 1))
    else if s[0] != 1 then None
    else match Number(s[1..], 4)
      case None => None
      case Some(len) =>
        if |s| < 5 + len.value then None
        else match ReadExt(f, s[5..5 + len.value])
          case None => None
          case Some(e) => Some(Read(Some(e), 5 + len.value))
  }

  function ReadReceipt(f: Foreign, v: Format, s: Bytes): (r: Option<Read<Receipt>>)
    ensures r.Some? ==> r.value.used <= |s|
  {
    match v
    case V1 => if |s| < BODY_SIZE then None else Some(Read(Receipt(ParseBody(s), None, None), BODY_SIZE))
    case V2 => ReadV2(s)
    case V3 =>
      match ReadV2(s)
      case None => None
      case Some(r) =>
        match ReadOptionalExt(f, s[r.used..])
        case None => None
        case Some(x) => Some(Read(r.value.(ext := x.value), r.used + x.used))
  }

  /** The formats that can carry a receipt. */
  predicate Carries(v: Format, r: Receipt) {
    match v
    case V1 => r.delegation.None? && r.ext.None?
    case V2 => r.ext.None?
    case V3 => true
  }

  // ---------- one receipt reads back ----------

  lemma BodySlices(s: Bytes, h: Bytes, lane: byte, b: Body, t: Bytes)
    requires BodyOk(b) && |h| == 8
    requires s == h + ([lane] + (b.pkh + (b.pubkey + (b.sig + (b.solution + b.nonce))))) + t
    ensures |s| >= BODY_SIZE && s[..8] == h && s[8] == lane && s[9..29] == b.pkh && s[29..62] == b.pubkey
    ensures s[62..126] == b.sig && s[126..134] == b.solution && s[134..166] == b.nonce && s[166..] == t
  {}

  lemma BodyRoundTrip(b: Body, t: Bytes)
    requires BodyOk(b)
    ensures |BodyBytes(b)| == BODY_SIZE && ParseBody(BodyBytes(b) + t) == b
  {
    hide LeBytes, LeValue;
    Pow256Values();
    LeRoundTrip(b.height, 8);
    BodySlices(BodyBytes(b) + t, LeBytes(b.height, 8), b.lane, b, t);
  }

  lemma V2RoundTrip(f: Foreign, r: Receipt, t: Bytes)
    requires ReceiptOk(f, r)
    ensures ReadV2(EncodeV2(r) + t) == Some(Read(r.(ext := None), |EncodeV2(r)|))
  {
    hide BodyOk, BodyBytes, ParseBody, ExtOk, EncodeExt;
    var d := DelegationBytes(r);
    var s := EncodeV2(r) + t;
    BodyRoundTrip(r.body, d + t);
    assert s[1..] == BodyBytes(r.body) + (d + t);
    assert s[1 + BODY_SIZE..] == d + t;
  }

  lemma ExtRoundTripIn(f: Foreign, r: Receipt, t: Bytes)
    requires ReceiptOk(f, r)
    ensures ReadOptionalExt(f, ExtBytes(r) + t) == Some(Read(r.ext, |ExtBytes(r)|))
  {
    hide ExtOk, EncodeExt, ReadExt, LeBytes, Number;
    if r.ext.Some? {
      var b := EncodeExt(r.ext.value);
      var s := ExtBytes(r) + t;
      LengthBytes(|b|, b + t);
      assert s[1..] == LeBytes(|b|, 4) + (b + t);
      assert s[5..5 + |b|] == b;
      ExtRoundTrip(f, r.ext.value);
    }
  }

  lemma ReceiptRoundTrip(f: Foreign, v: Format, r: Receipt, t: Bytes)
    requires ReceiptOk(f, r) && Carries(v, r)
    ensures ReadReceipt(f, v, EncodeReceipt(v, r) + t) == Some(Read(r, |EncodeReceipt(v, r)|))
  {
    hide ReadV2, EncodeV2, ReadOptionalExt, ExtBytes, BodyBytes, ParseBody;
    match v
    case V1 => BodyRoundTrip(r.body, t);
    case V2 => V2RoundTrip(f, r, t);
    case V3 =>
      var u := ExtBytes(r) + t;
      var s := EncodeReceipt(v, r) + t;
      assert s == EncodeV2(r) + u;
      V2RoundTrip(f, r, u);
      assert s[|EncodeV2(r)|..] == u;
      ExtRoundTripIn(f, r, t);
  }

  // ---------- the section ----------

  function SectionMagic(v: Format): (m: Bytes)
    ensures |m| == 8
  {
    [0x50, 0x4f, 0x41, 0x57, 0x58, 0x52, match v case V1 => 1 case V2 => 2 case V3 => 3, 0]
  }

  /** The format the serializer picks: the plainest that carries every receipt. */
  function Chosen(rs: seq<Receipt>): Format {
    if exists r :: r in rs && r.ext.Some? then V3
    else if exists r :: r in rs && r.delegation.Some? then V2
    else V1
  }

  function EncodeList(v: Format, rs: seq<Receipt>): Bytes
    decreases |rs|
  {
    if rs == [] then [] else EncodeReceipt(v, rs[0]) + EncodeList(v, rs[1..])
  }

  /** The count cast to a byte. */
  function CountByte(n: nat): byte {
    n % 256
  }

  function EncodeSectionOf(rs: seq<Receipt>): Bytes {
    if rs == [] then [] else SectionMagic(Chosen(rs)) + ([CountByte(|rs|)] + EncodeList(Chosen(rs), rs))
  }

  /** No section here, a broken one, or the receipts and the bytes they took. */
  datatype SectionRead = Absent | Broken | Present(receipts: seq<Receipt>, used: nat)

  function FormatOf(m: Bytes): Option<Format> {
    if m == SectionMagic(V1) then Some(V1)
    else if m == SectionMagic(V2) then Some(V2)
    else if m == SectionMagic(V3) then Some(V3)
    else None
  }

  function ReadList(f: Foreign, v: Format, s: Bytes, count: nat): (r: Option<Read<seq<Receipt>>>)
    ensures r.Some? ==> r.value.used <= |s|
    decreases count, s
  {
    if count == 0 then Some(Read([], 0))
    else match ReadReceipt(f, v, s)
      case None => None
      case Some(r) =>
        match ReadList(f, v, s[r.used..], count - 1)
        case None => None
        case Some(rest) => Some(Read([r.value] + rest.value, r.used + rest.used))
  }

  function ReadReceipts(f: Foreign, s: Bytes): SectionRead {
    if |s| < 8 then Absent
    else match FormatOf(s[..8])
      case None => Absent
      case Some(v) =>
        if |s| == 8 then Broken
        else match ReadList(f, v, s[9..], s[8])
          case None => Broken
          case Some(r) => Present(r.value, 9 + r.used)
  }

  ghost predicate AllCarried(f: Foreign, v: Format, rs: seq<Receipt>)
    decreases |rs|
  {
    rs == [] || (ReceiptOk(f, rs[0]) && Carries(v, rs[0]) && AllCarried(f, v, rs[1..]))
  }

  lemma ReadListStep(f: Foreign, v: Format, r: Receipt, u: Bytes, count: nat)
    requires ReceiptOk(f, r) && Carries(v, r) && ReadList(f, v, u, count).Some?
    ensures var rest := ReadList(f, v, u, count).value;
            ReadList(f, v, EncodeReceipt(v, r) + u, count + 1)
              == Some(Read([r] + rest.value, |EncodeReceipt(v, r)| + rest.used))
  {
    hide ReceiptOk, Carries, ReadReceipt, EncodeReceipt;
    ReceiptRoundTrip(f, v, r, u);
    assert (EncodeReceipt(v, r) + u)[|EncodeReceipt(v, r)|..] == u;
  }

  /** Any prefix of a list of receipts reads back from the whole list. */
  lemma {:induction false} ListRoundTrip(f: Foreign, v: Format, rs: seq<Receipt>, count: nat, t: Bytes)
    requires count <= |rs| && AllCarried(f, v, rs)
    ensures ReadList(f, v, EncodeList(v, rs) + t, count) == Some(Read(rs[..count], |EncodeList(v, rs[..count])|))
    decreases |rs|
  {
    hide ReceiptOk, Carries, ReadReceipt, EncodeReceipt, ReadList, EncodeList;
    if count == 0 {
      assert rs[..0] == [];
      NoReceipts(f, v, EncodeList(v, rs) + t);
    } else {
      assert ReceiptOk(f, rs[0]) && Carries(v, rs[0]) && AllCarried(f, v, rs[1..]);
      hide AllCarried;
      var r, rest := rs[0], rs[1..];
      ListRoundTrip(f, v, rest, count - 1, t);
      ReadListStep(f, v, r, EncodeList(v, rest) + t, count - 1);
      EncodeListStep(v, rs, count, t);
      assert rs[..count] == [r] + rest[..count - 1];
    }
  }

  lemma NoReceipts(f: Foreign, v: Format, s: Bytes)
    ensures ReadList(f, v, s, 0) == Some(Read([], |EncodeList(v, [])|))
  {}

  lemma EncodeListStep(v: Format, rs: seq<Receipt>, count: nat, t: Bytes)
    requires 0 < count <= |rs|
    ensures EncodeList(v, rs) + t == EncodeReceipt(v, rs[0]) + (EncodeList(v, rs[1..]) + t)
    ensures |EncodeList(v, rs[..count])| == |EncodeReceipt(v, rs[0])| + |EncodeList(v, rs[1..][..count - 1])|
  {
    hide EncodeReceipt;
    assert rs[..count][1..] == rs[1..][..count - 1];
  }

  lemma {:induction false} CarriedAll(f: Foreign, v: Format, rs: seq<Receipt>)
    requires forall r | r in rs :: ReceiptOk(f, r) && Carries(v, r)
    ensures AllCarried(f, v, rs)
    decreases |rs|
  {
    if rs == [] {
    } else {
      hide ReceiptOk, Carries;
      CarriedAll(f, v, rs[1..]);
    }
  }

  lemma ChosenCarries(f: Foreign, rs: seq<Receipt>)
    requires forall r | r in rs :: ReceiptOk(f, r)
    ensures AllCarried(f, Chosen(rs), rs)
  {
    hide ReceiptOk;
    CarriedAll(f, Chosen(rs), rs);
  }

  lemma MagicFormat(v: Format)
    ensures FormatOf(SectionMagic(v)) == Some(v)
  {}

  lemma SectionSlices(s: Bytes, m: Bytes, n: byte, u: Bytes, t: Bytes)
    requires |m| == 8 && s == (m + ([n] + u)) + t
    ensures |s| > 8 && s[..8] == m && s[8] == n && s[9..] == u + t
  {}

  lemma CountFits(n: nat)
    ensures CountByte(n) <= n && (CountByte(n) == n <==> n < 256)
  {}

  /** The section followed by any bytes gives back the first n mod 256 of its n receipts. */
  lemma SectionReads(f: Foreign, rs: seq<Receipt>, t: Bytes)
    requires rs != [] && forall r | r in rs :: ReceiptOk(f, r)
    ensures CountByte(|rs|) <= |rs|
    ensures var first := rs[..CountByte(|rs|)];
            ReadReceipts(f, EncodeSectionOf(rs) + t) == Present(first, 9 + |EncodeList(Chosen(rs), first)|)
  {
    hide ReceiptOk, Chosen, EncodeList, ReadList, SectionMagic, FormatOf, AllCarried, CountByte;
    var v, n := Chosen(rs), CountByte(|rs|);
    var u := EncodeList(v, rs);
    CountFits(|rs|);
    ChosenCarries(f, rs);
    SectionSlices(EncodeSectionOf(rs) + t, SectionMagic(v), n, u, t);
    MagicFormat(v);
    ListRoundTrip(f, v, rs, n, t);
  }

  /** The section round-trips, using exactly its own bytes, if and only if it has fewer than 256 receipts. */
  lemma SectionRoundTripIff(f: Foreign, rs: seq<Receipt>, t: Bytes)
    requires rs != [] && forall r | r in rs :: ReceiptOk(f, r)
    ensures ReadReceipts(f, EncodeSectionOf(rs) + t) == Present(rs, |EncodeSectionOf(rs)|) <==> |rs| < 256
  {
    hide ReceiptOk, Chosen, EncodeList, ReadReceipts, CountByte;
    SectionReads(f, rs, t);
    CountFits(|rs|);
    if |rs| < 256 { assert rs[..CountByte(|rs|)] == rs; }
  }
}
