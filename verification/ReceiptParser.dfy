/** The offset-driven loops of src/poawx.rs and src/block.rs that read and write receipts,
    proved against the functions on byte strings. */
module ReceiptParser {
  import opened Basics
  import opened Reading
  import opened ReceiptExt
  import opened ReceiptHead
  import opened Receipts

  // ---------- sections ----------

  lemma ItemsUnfold(f: Foreign, k: SectionKind, s: Bytes, count: nat, width: nat)
    ensures count == 0 ==> ReadItems(f, k, s, count, width) == Some(Read([], 0))
    ensures count > 0 && (|s| < width || !ItemOk(f, k, s[..width])) ==> ReadItems(f, k, s, count, width) == None
    ensures count > 0 && |s| >= width && ItemOk(f, k, s[..width]) ==>
              ReadItems(f, k, s, count, width) == After([s[..width]], width, ReadItems(f, k, s[width..], count - 1, width))
  {
    hide ItemOk;
  }

  method ParseItems(f: Foreign, k: SectionKind, raw: Bytes, start: nat, count: nat, width: nat)
    returns (items: Option<Read<seq<Bytes>>>)
    requires start <= |raw|
    ensures items == ReadItems(f, k, raw[start..], count, width)
  {
    hide ItemOk, ReadItems;
    var found: seq<Bytes> := [];
    var off, i := start, 0;
    AfterNothing(ReadItems(f, k, raw[start..], count, width));
    while i < count
      invariant i <= count && start <= off <= |raw|
      invariant After(found, off - start, ReadItems(f, k, raw[off..], count - i, width))
             == ReadItems(f, k, raw[start..], count, width)
    {
      ItemsUnfold(f, k, raw[off..], count - i, width);
      if |raw| < off + width { return None; }
      Drop(raw, off, width);
      var item := raw[off..off + width];
      if !ItemOk(f, k, item) { return None; }
      AfterOne(found, off - start, item, width, ReadItems(f, k, raw[off + width..], count - i - 1, width));
      found, off, i := found + [item], off + width, i + 1;
    }
    ItemsUnfold(f, k, raw[off..], 0, width);
    assert found + [] == found;
    items := Some(Read(found, off - start));
  }

  method ParseCounted(f: Foreign, k: SectionKind, raw: Bytes, start: nat, low: nat, high: nat, width: nat)
    returns (items: Option<Read<seq<Bytes>>>)
    requires start <= |raw|
    ensures items == ReadCounted(f, k, raw[start..], low, high, width)
  {
    hide ItemOk, ReadItems, LeValue;
    if |raw| < start + 2 { return None; }
    Drop(raw, start, 2);
    var count := LeValue(raw[start..start + 2]);
    if count < low || count > high { return None; }
    var rest := ParseItems(f, k, raw, start + 2, count, width);
    if rest.None? { return None; }
    items := Some(Read(rest.value.value, 2 + rest.value.used));
  }

  method ParsePayload(f: Foreign, k: SectionKind, raw: Bytes, start: nat) returns (r: Option<Read<Section>>)
    requires start <= |raw|
    ensures r == ReadPayload(f, k, raw[start..])
  {
    hide ItemOk, ReadItems, ReadCounted, LeValue, ShapeOf;
    match ShapeOf(k)
    case Fixed(count, width) =>
      var items := ParseItems(f, k, raw, start, count, width);
      if items.None? { return None; }
      r := Some(Read(Section(k, items.value.value, []), items.value.used));
    case Counted(low, high, width) =>
      var items := ParseCounted(f, k, raw, start, low, high, width);
      if items.None? { return None; }
      r := Some(Read(Section(k, items.value.value, []), items.value.used));
    case Paired(first, second, width) =>
      var items := ParseCounted(f, k, raw, start, 0, first, width);
      if items.None? { return None; }
      Drop(raw, start, items.value.used);
      var more := ParseCounted(f, k, raw, start + items.value.used, 0, second, width);
      if more.None? { return None; }
      r := Some(Read(Section(k, items.value.value, more.value.value), items.value.used + more.value.used));
    case Lengthed =>
      if |raw| < start + 4 { return None; }
      Drop(raw, start, 4);
      var len := LeValue(raw[start..start + 4]);
      if |raw| < start + 4 + len { return None; }
      var item := raw[start + 4..start + 4 + len];
      assert raw[start..][4..4 + len] == item;
      if !ItemOk(f, k, item) { return None; }
      r := Some(Read(Section(k, [item], []), 4 + len));
  }

  /** The trailing-section loop. */
  method ParseSections(f: Foreign, raw: Bytes, start: nat) returns (sections: Option<Sections>)
    requires start <= |raw|
    ensures sections == ReadSections(f, raw[start..], map[])
  {
    hide KindOf, ReadPayload;
    var seen: Sections := map[];
    var off := start;
    while off < |raw|
      invariant start <= off <= |raw|
      invariant ReadSections(f, raw[off..], seen) == ReadSections(f, raw[start..], map[])
    {
      if |raw| < off + 4 { return None; }
      Drop(raw, off, 4);
      var kind := KindOf(raw[off..off + 4]);
      if kind.None? || kind.value in seen { return None; }
      var one := ParsePayload(f, kind.value, raw, off + 4);
      if one.None? { return None; }
      Drop(raw, off, 4 + one.value.used);
      seen, off := seen[kind.value := one.value.value], off + 4 + one.value.used;
    }
    sections := Some(seen);
  }

  // ---------- the extension ----------

  /** PoawxRoleClaim::deserialize: flag, commitment, and nothing left over. */
  method ParseClaimBody(raw: Bytes) returns (c: Option<Claim>)
    ensures c == ParseClaim(raw)
  {
    if |raw| < CLAIM_FIXED + 1 { return None; }
    var off := CLAIM_FIXED;
    var flag := raw[off];
    off := off + 1;
    var commitment: Option<Bytes> := None;
    if flag == 1 {
      if |raw| < off + 32 { return None; }
      commitment := Some(raw[off..off + 32]);
      off := off + 32;
    } else if flag != 0 {
      return None;
    }
    if off != |raw| { return None; }
    assert flag == 1 ==> raw[CLAIM_FIXED + 1..] == commitment.value;
    c := Some(Claim(raw[..CLAIM_FIXED], commitment));
  }

  /** A u16 length and a claim of exactly that length. */
  method ParseClaimAt(raw: Bytes, start: nat) returns (r: Option<Read<Claim>>)
    requires start <= |raw|
    ensures r == ReadClaim(raw[start..])
  {
    hide LeValue, ParseClaim;
    if |raw| < start + 2 { return None; }
    Drop(raw, start, 2);
    var len := LeValue(raw[start..start + 2]);
    if |raw| < start + 2 + len { return None; }
    assert raw[start..][2..2 + len] == raw[start + 2..start + 2 + len];
    var c := ParseClaimBody(raw[start + 2..start + 2 + len]);
    if c.None? { return None; }
    r := Some(Read(c.value, 2 + len));
  }

  lemma ClaimsUnfold(s: Bytes, count: nat)
    ensures count == 0 ==> ReadClaims(s, count) == Some(Read([], 0))
    ensures count > 0 ==> var one := ReadClaim(s);
              ReadClaims(s, count) ==
                if one.None? then None
                else After([one.value.value], one.value.used, ReadClaims(s[one.value.used..], count - 1))
  {
    hide ReadClaim;
  }

  method ParseClaims(raw: Bytes, start: nat, count: nat) returns (r: Option<Read<seq<Claim>>>)
    requires start <= |raw|
    ensures r == ReadClaims(raw[start..], count)
  {
    hide ReadClaim, ReadClaims;
    var found: seq<Claim> := [];
    var off, i := start, 0;
    AfterNothing(ReadClaims(raw[start..], count));
    while i < count
      invariant i <= count && start <= off <= |raw|
      invariant After(found, off - start, ReadClaims(raw[off..], count - i)) == ReadClaims(raw[start..], count)
    {
      ClaimsUnfold(raw[off..], count - i);
      var one := ParseClaimAt(raw, off);
      if one.None? { return None; }
      var c, used := one.value.value, one.value.used;
      Drop(raw, off, used);
      AfterOne(found, off - start, c, used, ReadClaims(raw[off + used..], count - i - 1));
      found, off, i := found + [c], off + used, i + 1;
    }
    ClaimsUnfold(raw[off..], 0);
    assert found + [] == found;
    r := Some(Read(found, off - start));
  }

  /** Version, role reward, the three claims and the fee terms. */
  method ParseHead(raw: Bytes) returns (r: Option<Read<Head>>)
    ensures r == ReadHead(raw)
  {
    hide ReadClaims, LeValue;
    if |raw| < 1 || raw[0] != EXT_VERSION { return None; }
    var off := 1;
    if |raw| < off + REWARD_SIZE { return None; }
    var reward := raw[off..off + REWARD_SIZE];
    off := off + REWARD_SIZE;
    var claims := ParseClaims(raw, off, 3);
    if claims.None? { return None; }
    off := off + claims.value.used;
    if |raw| < off + 2 { return None; }
    var fee := LeValue(raw[off..off + 2]);
    Pow256Values();
    LeBytesOfValue(raw[off..off + 2]);
    off := off + 2;
    if |raw| < off + 20 { return None; }
    r := Some(Read(Head(reward, claims.value.value, fee, raw[off..off + 20]), off + 20));
  }

  /** The optional precommit root. */
  method ParseFlag(raw: Bytes, start: nat) returns (r: Option<Read<Option<Bytes>>>)
    requires start <= |raw|
    ensures r == ReadFlag(raw[start..])
  {
    if start >= |raw| { return Some(Read(None, 0)); }
    var flag := raw[start];
    var off := start + 1;
    if flag == 0 { return Some(Read(None, 1)); }
    if flag != 1 || |raw| < off + 32 { return None; }
    assert raw[start..][1..33] == raw[off..off + 32];
    r := Some(Read(Some(raw[off..off + 32]), 33));
  }

  /** Phase20ReceiptExt::deserialize. */
  method DeserializeExt(f: Foreign, raw: Bytes) returns (e: Option<Ext>)
    ensures e == ReadExt(f, raw)
  {
    hide ReadHead, ReadFlag, ReadSections;
    var head := ParseHead(raw);
    if head.None? { return None; }
    var off := head.value.used;
    var flag := ParseFlag(raw, off);
    if flag.None? { return None; }
    Drop(raw, off, flag.value.used);
    off := off + flag.value.used;
    var sections := ParseSections(f, raw, off);
    if sections.None? { return None; }
    e := Some(Ext(head.value.value, flag.value.value, sections.value));
  }

  // ---------- receipts ----------

  method ParseReceipts(f: Foreign, raw: Bytes, start: nat) returns (r: SectionRead)
    requires start <= |raw|
    ensures r == ReadReceipts(f, raw[start..])
  {
    hide ReadReceipt, FormatOf, ReadList;
    var s := raw[start..];
    if |raw| - start < 8 { return Absent; }
    var format := FormatOf(s[..8]);
    if format.None? { return Absent; }
    var off := start + 8;
    if off >= |raw| { return Broken; }
    var count := raw[off];
    off := off + 1;
    Drop(raw, start, 9);
    var rs := ParseList(f, format.value, raw, off, count);
    if rs.None? { return Broken; }
    r := Present(rs.value.value, 9 + rs.value.used);
  }

  lemma ListUnfold(f: Foreign, v: Format, s: Bytes, count: nat)
    ensures count == 0 ==> ReadList(f, v, s, count) == Some(Read([], 0))
    ensures count > 0 ==> var one := ReadReceipt(f, v, s);
              ReadList(f, v, s, count) ==
                if one.None? then None
                else After([one.value.value], one.value.used, ReadList(f, v, s[one.value.used..], count - 1))
  {
    hide ReadReceipt;
  }

  method ParseList(f: Foreign, v: Format, raw: Bytes, start: nat, count: nat)
    returns (rs: Option<Read<seq<Receipt>>>)
    requires start <= |raw|
    ensures rs == ReadList(f, v, raw[start..], count)
  {
    hide ReadReceipt, ReadList;
    var found: seq<Receipt> := [];
    var off, i := start, 0;
    AfterNothing(ReadList(f, v, raw[start..], count));
    while i < count
      invariant i <= count && start <= off <= |raw|
      invariant After(found, off - start, ReadList(f, v, raw[off..], count - i)) == ReadList(f, v, raw[start..], count)
    {
      ListUnfold(f, v, raw[off..], count - i);
      var one := ReadReceipt(f, v, raw[off..]);
      if one.None? { return None; }
      var r, used := one.value.value, one.value.used;
      Drop(raw, off, used);
      AfterOne(found, off - start, r, used, ReadList(f, v, raw[off + used..], count - i - 1));
      found, off, i := found + [r], off + used, i + 1;
    }
    ListUnfold(f, v, raw[off..], 0);
    assert found + [] == found;
    rs := Some(Read(found, off - start));
  }

  lemma EncodeListAt(out: Bytes, v: Format, rs: seq<Receipt>, i: nat)
    requires i < |rs|
    ensures out + EncodeList(v, rs[i..]) == out + EncodeReceipt(v, rs[i]) + EncodeList(v, rs[i + 1..])
  {
    hide EncodeReceipt;
    assert rs[i..][1..] == rs[i + 1..];
  }

  method SerializeReceipts(rs: seq<Receipt>) returns (out: Bytes)
    ensures out == EncodeSectionOf(rs)
  {
    hide EncodeReceipt, Chosen, EncodeList, SectionMagic, CountByte;
    if rs == [] { return []; }
    var v := ChooseFormat(rs);
    out := SectionMagic(v) + [CountByte(|rs|)];
    var i := 0;
    assert rs[0..] == rs;
    while i < |rs|
      invariant i <= |rs|
      invariant out + EncodeList(v, rs[i..]) == EncodeSectionOf(rs)
    {
      EncodeListAt(out, v, rs, i);
      out, i := out + EncodeReceipt(v, rs[i]), i + 1;
    }
    assert rs[i..] == [];
    NothingLeft(v, out);
  }

  lemma NothingLeft(v: Format, out: Bytes)
    ensures out + EncodeList(v, []) == out
  {}

  method ChooseFormat(rs: seq<Receipt>) returns (v: Format)
    ensures v == Chosen(rs)
  {
    var hasExt, hasDelegation := false, false;
    for i := 0 to |rs|
      invariant hasExt <==> exists r :: r in rs[..i] && r.ext.Some?
      invariant hasDelegation <==> exists r :: r in rs[..i] && r.delegation.Some?
    {
      assert rs[..i + 1] == rs[..i] + [rs[i]];
      if rs[i].ext.Some? { hasExt := true; }
      if rs[i].delegation.Some? { hasDelegation := true; }
    }
    assert rs[..|rs|] == rs;
    v := if hasExt then V3 else if hasDelegation then V2 else V1;
  }
}
