/** The 80-byte header and the header-batch output script of src/btc_spv.rs and src/ltc_spv.rs. */
module HeaderBatch {
  import opened Basics
  import opened Reading
  import opened RelayModel

  const HEADER_BYTES: nat := 80
  const BATCH_VERSION: byte := 0x01

  function Tag(kind: Kind): byte { if kind.Btc? then 0xc4 else 0xc6 }

  function Cap(kind: Kind): nat { if kind.Btc? then 2016 else 144 }

  /** A signed 32-bit word as its two's complement. */
  function Unsigned(v: i32): u32 { if v < 0 then v + 0x1_0000_0000 else v }

  function Signed(w: u32): i32 { if w < 0x8000_0000 then w else w - 0x1_0000_0000 }

  function Serialize(h: Header): (b: seq<byte>)
    ensures |b| == HEADER_BYTES
  {
    LeBytes(Unsigned(h.version), 4) + LeBytes(h.prevHash, 32) + LeBytes(h.merkleRoot, 32) +
    LeBytes(h.time, 4) + LeBytes(h.bits, 4) + LeBytes(h.nonce, 4)
  }

  lemma HashSize(b: seq<byte>)
    requires |b| == 32
    ensures LeValue(b) < 0x1_0000_0000_0000_0000_0000_0000_0000_0000_0000_0000_0000_0000_0000_0000_0000_0000
  {
    hide Pow256, LeBytes;
    LeBytesOfValue(b);
    Pow256Hash();
  }

  function HashOf(b: seq<byte>): (h: Hash)
    requires |b| == 32
  {
    HashSize(b);
    LeValue(b)
  }

  datatype ParseError = WrongSize | TooShort | WrongTag | UnknownVersion | CountOutOfRange | Empty | TooMany

  /** BtcHeader::deserialize and LtcHeader::deserialize. */
  function Deserialize(b: seq<byte>): Result<Header, ParseError> {
    if |b| != HEADER_BYTES then Err(WrongSize) else
      Ok(Header(Signed(Word32(b[0..4])), HashOf(b[4..36]), HashOf(b[36..68]),
                Word32(b[68..72]), Word32(b[72..76]), Word32(b[76..80])))
  }

  /** The words of a header, cut out of its bytes. */
  lemma Fields(a: seq<byte>, b: seq<byte>, c: seq<byte>, d: seq<byte>, e: seq<byte>, f: seq<byte>)
    requires |a| == 4 && |b| == 32 && |c| == 32 && |d| == 4 && |e| == 4 && |f| == 4
    ensures var s := a + b + c + d + e + f;
            s[0..4] == a && s[4..36] == b && s[36..68] == c && s[68..72] == d && s[72..76] == e && s[76..80] == f
  {}

  lemma WordRoundTrip(w: u32)
    ensures LeValue(LeBytes(w, 4)) == w
  {
    hide LeValue, LeBytes;
    Pow256Values();
    LeRoundTrip(w, 4);
  }

  lemma HashRoundTrip(h: Hash)
    ensures LeValue(LeBytes(h, 32)) == h
  {
    hide LeValue, LeBytes, Pow256;
    Pow256Hash();
    LeRoundTrip(h, 32);
  }

  lemma HeaderRoundTrip(h: Header)
    ensures Deserialize(Serialize(h)) == Ok(h)
  {
    hide LeValue, LeBytes;
    Fields(LeBytes(Unsigned(h.version), 4), LeBytes(h.prevHash, 32), LeBytes(h.merkleRoot, 32),
           LeBytes(h.time, 4), LeBytes(h.bits, 4), LeBytes(h.nonce, 4));
    WordRoundTrip(Unsigned(h.version));
    HashRoundTrip(h.prevHash);
    HashRoundTrip(h.merkleRoot);
    WordRoundTrip(h.time);
    WordRoundTrip(h.bits);
    WordRoundTrip(h.nonce);
  }

  /** Every 80 bytes are the encoding of the header they decode to. */
  lemma BytesRoundTrip(b: seq<byte>)
    requires |b| == HEADER_BYTES
    ensures Serialize(Deserialize(b).value) == b
  {
    hide LeValue, LeBytes, Pow256;
    LeBytesOfValue(b[0..4]);
    LeBytesOfValue(b[4..36]);
    LeBytesOfValue(b[36..68]);
    LeBytesOfValue(b[68..72]);
    LeBytesOfValue(b[72..76]);
    LeBytesOfValue(b[76..80]);
    assert b == b[0..4] + b[4..36] + b[36..68] + b[68..72] + b[72..76] + b[76..80];
  }

  // ---------- the batch script ----------

  function SerializeAll(hs: seq<Header>): (b: seq<byte>)
    ensures |b| == HEADER_BYTES * |hs|
  {
    if hs == [] then [] else SerializeAll(hs[..|hs| - 1]) + Serialize(hs[|hs| - 1])
  }

  function Prefix(kind: Kind, count: nat): (b: seq<byte>)
    ensures |b| == 4
  {
    [Tag(kind), BATCH_VERSION] + LeBytes(count, 2)
  }

  function Script(kind: Kind, hs: seq<Header>): seq<byte> {
    Prefix(kind, |hs|) + SerializeAll(hs)
  }

  /** encode_btc_header_batch and encode_ltc_header_batch. */
  method Encode(kind: Kind, hs: seq<Header>) returns (r: Result<seq<byte>, ParseError>)
    ensures r == if hs == [] then Err(Empty) else if |hs| > Cap(kind) then Err(TooMany) else Ok(Script(kind, hs))
  {
    if hs == [] {
      return Err(Empty);
    }
    if |hs| > Cap(kind) {
      return Err(TooMany);
    }
    var out := Prefix(kind, |hs|);
    for i := 0 to |hs|
      invariant out == Prefix(kind, |hs|) + SerializeAll(hs[..i])
    {
      out := out + Serialize(hs[i]);
      assert hs[..i + 1][..i] == hs[..i];
    }
    assert hs[..|hs|] == hs;
    r := Ok(out);
  }

  /** What the parser accepts, and as what. */
  ghost predicate Parses(kind: Kind, script: seq<byte>, hs: seq<Header>) {
    1 <= |hs| <= Cap(kind) && script == Script(kind, hs)
  }

  lemma CountRoundTrip(n: nat)
    requires n < 0x1_0000
    ensures LeBytes(n, 2) == [n % 256, n / 256]
  {
    assert LeBytes(n / 256, 1) == [n / 256] + LeBytes(0, 0);
  }

  lemma PrefixIs(kind: Kind, script: seq<byte>, n: nat)
    requires n < 0x1_0000
    ensures |script| >= 4 && script[..4] == Prefix(kind, n) <==>
            |script| >= 4 && script[0] == Tag(kind) && script[1] == BATCH_VERSION &&
            script[2] as int + 256 * script[3] as int == n
  {
    CountRoundTrip(n);
    if |script| >= 4 {
      assert script[..4] == [script[0], script[1], script[2], script[3]];
    }
  }

  /** What the parser checks holds of every encoding. */
  lemma ParsesShape(kind: Kind, script: seq<byte>, hs: seq<Header>)
    requires Parses(kind, script, hs)
    ensures |script| == 4 + HEADER_BYTES * |hs| && script[0] == Tag(kind) && script[1] == BATCH_VERSION
    ensures script[2] as int + 256 * script[3] as int == |hs|
  {
    assert script[..4] == Prefix(kind, |hs|);
    PrefixIs(kind, script, |hs|);
  }

  lemma BuildsScript(kind: Kind, script: seq<byte>, hs: seq<Header>)
    requires |script| >= 4 && |hs| < 0x1_0000 && script[0] == Tag(kind) && script[1] == BATCH_VERSION
    requires script[2] as int + 256 * script[3] as int == |hs| && script[4..] == SerializeAll(hs)
    ensures script == Script(kind, hs)
  {
    PrefixIs(kind, script, |hs|);
    assert script == script[..4] + script[4..];
  }

  /** parse_btc_header_batch and parse_ltc_header_batch: a script parses exactly when it is the
      encoding of one to Cap(kind) headers, and then to those headers. */
  method Parse(kind: Kind, script: seq<byte>) returns (r: Result<seq<Header>, ParseError>)
    ensures r.Ok? ==> Parses(kind, script, r.value)
    ensures r.Err? ==> forall hs :: !Parses(kind, script, hs)
  {
    hide Script, SerializeAll, Prefix, LeBytes, Tag;
    forall hs | Parses(kind, script, hs)
      ensures |script| == 4 + HEADER_BYTES * |hs| && script[0] == Tag(kind) && script[1] == BATCH_VERSION &&
              script[2] as int + 256 * script[3] as int == |hs|
    {
      ParsesShape(kind, script, hs);
    }
    if |script| < 4 {
      return Err(TooShort);
    }
    if script[0] != Tag(kind) {
      return Err(WrongTag);
    }
    if script[1] != BATCH_VERSION {
      return Err(UnknownVersion);
    }
    var count := script[2] as int + 256 * script[3] as int;
    if count == 0 || count > Cap(kind) {
      return Err(CountOutOfRange);
    }
    if |script| != 4 + HEADER_BYTES * count {
      return Err(WrongSize);
    }
    var hs := ParseBody(script[4..], count);
    BuildsScript(kind, script, hs);
    r := Ok(hs);
  }

  method ParseBody(body: seq<byte>, count: nat) returns (hs: seq<Header>)
    requires |body| == HEADER_BYTES * count
    ensures |hs| == count && SerializeAll(hs) == body
  {
    hs := [];
    for i := 0 to count
      invariant |hs| == i && SerializeAll(hs) == body[..HEADER_BYTES * i]
    {
      var cut := body[HEADER_BYTES * i..HEADER_BYTES * i + HEADER_BYTES];
      var h := Deserialize(cut).value;
      BytesRoundTrip(cut);
      assert (hs + [h])[..i] == hs;
      assert body[..HEADER_BYTES * (i + 1)] == body[..HEADER_BYTES * i] + cut;
      hs := hs + [h];
    }
    assert body[..HEADER_BYTES * count] == body;
  }

  /** No script encodes two different batches. */
  lemma {:induction false} SerializeAllInjective(hs: seq<Header>, hs': seq<Header>)
    requires |hs| == |hs'| && SerializeAll(hs) == SerializeAll(hs')
    ensures hs == hs'
  {
    if hs != [] {
      var n := |hs| - 1;
      assert SerializeAll(hs)[..HEADER_BYTES * n] == SerializeAll(hs[..n]);
      assert SerializeAll(hs')[..HEADER_BYTES * n] == SerializeAll(hs'[..n]);
      assert SerializeAll(hs)[HEADER_BYTES * n..] == Serialize(hs[n]);
      assert SerializeAll(hs')[HEADER_BYTES * n..] == Serialize(hs'[n]);
      SerializeAllInjective(hs[..n], hs'[..n]);
      HeaderRoundTrip(hs[n]);
      HeaderRoundTrip(hs'[n]);
      assert hs == hs[..n] + [hs[n]] && hs' == hs'[..n] + [hs'[n]];
    }
  }

  lemma ParsesUnique(kind: Kind, script: seq<byte>, hs: seq<Header>, hs': seq<Header>)
    requires Parses(kind, script, hs) && Parses(kind, script, hs')
    ensures hs == hs'
  {
    assert script[4..] == SerializeAll(hs) == SerializeAll(hs');
    SerializeAllInjective(hs, hs');
  }

  /** A script carries a batch of one chain only. */
  lemma ParsesOneKind(script: seq<byte>, hs: seq<Header>, hs': seq<Header>)
    requires Parses(Btc, script, hs)
    ensures !Parses(Ltc, script, hs')
  {
    assert script[0] == Tag(Btc);
  }
}
