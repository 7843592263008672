/** The light Bitcoin transaction parser of src/btc_tx_parse.rs. A reader takes the bytes from the
    cursor on and answers with a value and how many bytes it used; None stands for every error. */
module BtcTx {
  import opened Basics
  import opened Reading

  const MAX_LEN: nat := 4_000_000
  const MAX_COUNT: nat := 100_000

  datatype OutputScript =
    | P2pkh(pkh: seq<byte>)
    | P2wpkh(pkh: seq<byte>)
    | OpReturn(payload: seq<byte>)
    | Other

  datatype OutputView = OutputView(value: nat, script: OutputScript, vout: nat)

  // ---------- readers ----------

  /** A length prefix and that many bytes. */
  function Prefixed(s: seq<byte>): Option<Read<seq<byte>>> {
    match Varint(s)
    case None => None
    case Some(r) =>
      if r.used + r.value > |s| then None
      else Some(Read(s[r.used..r.used + r.value], r.used + r.value))
  }

  /** One input: outpoint, script, sequence. */
  function Input(s: seq<byte>): Option<nat> {
    if |s| < 36 then None
    else match Prefixed(s[36..])
      case None => None
      case Some(r) => if 36 + r.used + 4 > |s| then None else Some(36 + r.used + 4)
  }

  function Inputs(s: seq<byte>, n: nat): Option<nat>
    decreases n, s
  {
    if n == 0 then Some(0)
    else match Input(s)
      case None => None
      case Some(used) =>
        if used > |s| then None
        else match Inputs(s[used..], n - 1)
          case None => None
          case Some(rest) => Some(used + rest)
  }

  function Output(s: seq<byte>, vout: nat): Option<Read<OutputView>> {
    match Number(s, 8)
    case None => None
    case Some(value) =>
      match Prefixed(s[8..])
      case None => None
      case Some(script) => Some(Read(OutputView(value.value, ParseScript(script.value), vout), 8 + script.used))
  }

  function Outputs(s: seq<byte>, n: nat, vout: nat): Option<Read<seq<OutputView>>>
    decreases n, s
  {
    if n == 0 then Some(Read([], 0))
    else match Output(s, vout)
      case None => None
      case Some(first) =>
        if first.used > |s| then None
        else match Outputs(s[first.used..], n - 1, vout + 1)
          case None => None
          case Some(rest) => Some(Read([first.value] + rest.value, first.used + rest.used))
  }

  /** n length-prefixed items. */
  function Items(s: seq<byte>, n: nat): Option<nat>
    decreases n, s
  {
    if n == 0 then Some(0)
    else match Prefixed(s)
      case None => None
      case Some(item) =>
        if item.used > |s| then None
        else match Items(s[item.used..], n - 1)
          case None => None
          case Some(rest) => Some(item.used + rest)
  }

  /** The witness stack of one input. */
  function Stack(s: seq<byte>): Option<nat> {
    match Varint(s)
    case None => None
    case Some(count) =>
      if count.value > MAX_COUNT || count.used > |s| then None
      else match Items(s[count.used..], count.value)
        case None => None
        case Some(rest) => Some(count.used + rest)
  }

  function Stacks(s: seq<byte>, n: nat): Option<nat>
    decreases n, s
  {
    if n == 0 then Some(0)
    else match Stack(s)
      case None => None
      case Some(used) =>
        if used > |s| then None
        else match Stacks(s[used..], n - 1)
          case None => None
          case Some(rest) => Some(used + rest)
  }

  /** A count between 1 and 100000. */
  function Count(s: seq<byte>): Option<Read<nat>> {
    match Varint(s)
    case None => None
    case Some(r) => if r.value == 0 || r.value > MAX_COUNT then None else Some(r)
  }

  /** Inputs and outputs: what a transaction looks like between its version and its witness. */
  datatype Body = Body(inputs: nat, outputs: seq<OutputView>)

  function ParseBody(s: seq<byte>): Option<Read<Body>> {
    match Count(s)
    case None => None
    case Some(ins) =>
      if ins.used > |s| then None
      else match Inputs(s[ins.used..], ins.value)
        case None => None
        case Some(inSize) =>
          var at := ins.used + inSize;
          if at > |s| then None
          else match OutputList(s[at..])
            case None => None
            case Some(outs) => Some(Read(Body(ins.value, outs.value), at + outs.used))
  }

  function OutputList(s: seq<byte>): Option<Read<seq<OutputView>>> {
    match Count(s)
    case None => None
    case Some(count) =>
      if count.used > |s| then None
      else match Outputs(s[count.used..], count.value, 0)
        case None => None
        case Some(outs) => Some(Read(outs.value, count.used + outs.used))
  }

  // ---------- output scripts ----------

  /** parse_output_script. */
  function ParseScript(s: seq<byte>): OutputScript {
    if |s| == 25 && s[0] == 0x76 && s[1] == 0xa9 && s[2] == 0x14 && s[23] == 0x88 && s[24] == 0xac then P2pkh(s[3..23])
    else if |s| == 22 && s[0] == 0x00 && s[1] == 0x14 then P2wpkh(s[2..22])
    else if |s| >= 2 && s[0] == 0x6a && 1 <= s[1] <= 75 && s[1] as int + 2 == |s| then OpReturn(s[2..])
    else Other
  }

  /** The one script each recognised form stands for. */
  function ScriptOf(o: OutputScript): seq<byte>
    requires !o.Other? && (o.OpReturn? ==> |o.payload| <= 75)
  {
    match o
    case P2pkh(pkh) => [0x76, 0xa9, 0x14] + pkh + [0x88, 0xac]
    case P2wpkh(pkh) => [0x00, 0x14] + pkh
    case OpReturn(payload) => [0x6a, |payload|] + payload
  }

  predicate Standard(o: OutputScript) {
    match o
    case P2pkh(pkh) => |pkh| == 20
    case P2wpkh(pkh) => |pkh| == 20
    case OpReturn(payload) => 1 <= |payload| <= 75
    case Other => false
  }

  /** A script is recognised as a form exactly when it is that form's script. */
  lemma ScriptForms(s: seq<byte>, o: OutputScript)
    requires Standard(o)
    ensures ParseScript(s) == o <==> s == ScriptOf(o)
  {
    if ParseScript(s) == o {
      match o
      case P2pkh(pkh) => assert s == [s[0], s[1], s[2]] + s[3..23] + [s[23], s[24]];
      case P2wpkh(pkh) => assert s == [s[0], s[1]] + s[2..22];
      case OpReturn(payload) => assert s == [s[0], s[1]] + s[2..];
    }
  }

  /** Every script is one of the forms, or is reported as none of them. */
  lemma ScriptsAll(s: seq<byte>)
    ensures ParseScript(s).Other? || (Standard(ParseScript(s)) && s == ScriptOf(ParseScript(s)))
  {
    if !ParseScript(s).Other? { ScriptForms(s, ParseScript(s)); }
  }

  // ---------- the whole transaction ----------

  /** Where the parts of an accepted transaction lie. */
  datatype Layout = Layout(segwit: bool, start: nat, bodyEnd: nat, witnessEnd: nat, body: Body)

  function Locate(raw: seq<byte>): Option<Layout> {
    if |raw| < 5 then None
    else
      var segwit := raw[4] == 0x00;
      if segwit && (|raw| < 6 || raw[5] == 0x00) then None
      else
        var start := if segwit then 6 else 4;
        match ParseBody(raw[start..])
        case None => None
        case Some(body) =>
          var bodyEnd := start + body.used;
          if bodyEnd > |raw| then None
          else if !segwit then Some(Layout(false, start, bodyEnd, bodyEnd, body.value))
          else match Stacks(raw[bodyEnd..], body.value.inputs)
            case None => None
            case Some(size) => Some(Layout(true, start, bodyEnd, bodyEnd + size, body.value))
  }

  /** parse_btc_tx_outputs. */
  function ParseOutputs(raw: seq<byte>): Option<seq<OutputView>> {
    if |raw| == 0 || |raw| > MAX_LEN then None
    else match Locate(raw)
      case None => None
      case Some(l) => if l.witnessEnd + 4 == |raw| then Some(l.body.outputs) else None
  }

  /** The serialization whose hash is the transaction id. */
  function Stripped(raw: seq<byte>, l: Layout): seq<byte>
    requires 4 <= |raw| && l.start <= l.bodyEnd <= l.witnessEnd <= |raw| - 4
  {
    raw[..4] + raw[l.start..l.bodyEnd] + raw[l.witnessEnd..l.witnessEnd + 4]
  }

  /** btc_txid over any hash function. A legacy transaction is hashed as it stands. */
  function TxidOf<D>(hash: seq<byte> -> D, raw: seq<byte>): Option<D> {
    if |raw| < 10 || |raw| > MAX_LEN then None
    else if raw[4] != 0x00 then Some(hash(raw))
    else match Locate(raw)
      case None => None
      case Some(l) => if l.witnessEnd + 4 > |raw| || !(l.start <= l.bodyEnd <= l.witnessEnd) then None else Some(hash(Stripped(raw, l)))
  }

  // ---------- readers look only at what they use ----------

  lemma VarintLocal(s: seq<byte>, t: seq<byte>)
    requires Varint(s).Some?
    ensures var n := Varint(s).value.used;
            1 <= n <= |s| && Varint(s[..n] + t) == Varint(s)
  {
    var n := Varint(s).value.used;
    if n > 1 {
      assert (s[..n] + t)[1..][..n - 1] == s[1..][..n - 1];
    }
  }

  lemma PrefixedLocal(s: seq<byte>, t: seq<byte>)
    requires Prefixed(s).Some?
    ensures var n := Prefixed(s).value.used;
            1 <= n <= |s| && Prefixed(s[..n] + t) == Prefixed(s)
  {
    hide Varint;
    var n, v := Prefixed(s).value.used, Varint(s).value;
    VarintLocal(s, s[v.used..n] + t);
    assert s[..n] + t == s[..v.used] + (s[v.used..n] + t);
    assert (s[..n] + t)[v.used..n] == s[v.used..n];
  }

  lemma InputLocal(s: seq<byte>, t: seq<byte>)
    requires Input(s).Some?
    ensures var n := Input(s).value;
            41 <= n <= |s| && Input(s[..n] + t) == Input(s)
  {
    hide Prefixed;
    var n := Input(s).value;
    var r := Prefixed(s[36..]).value.used;
    PrefixedLocal(s[36..], s[36 + r..n] + t);
    assert (s[..n] + t)[36..] == s[36..][..r] + (s[36 + r..n] + t);
  }

  lemma {:induction false} InputsLocal(s: seq<byte>, k: nat, t: seq<byte>)
    requires Inputs(s, k).Some?
    ensures var n := Inputs(s, k).value;
            41 * k <= n <= |s| && Inputs(s[..n] + t, k) == Inputs(s, k)
    decreases k
  {
    hide Input;
    if k > 0 {
      var n, used := Inputs(s, k).value, Input(s).value;
      InputsLocal(s[used..], k - 1, t);
      InputLocal(s, s[used..n] + t);
      assert s[..n] + t == s[..used] + (s[used..n] + t);
      assert (s[..n] + t)[used..] == s[used..][..n - used] + t;
    }
  }

  lemma OutputLocal(s: seq<byte>, vout: nat, t: seq<byte>)
    requires Output(s, vout).Some?
    ensures var n := Output(s, vout).value.used;
            9 <= n <= |s| && Output(s[..n] + t, vout) == Output(s, vout)
  {
    hide Prefixed, ParseScript, LeValue;
    var n := Output(s, vout).value.used;
    PrefixedLocal(s[8..], t);
    assert (s[..n] + t)[8..] == s[8..][..n - 8] + t;
    assert (s[..n] + t)[..8] == s[..8];
  }

  lemma {:induction false} OutputsLocal(s: seq<byte>, k: nat, vout: nat, t: seq<byte>)
    requires Outputs(s, k, vout).Some?
    ensures var n := Outputs(s, k, vout).value.used;
            9 * k <= n <= |s| && Outputs(s[..n] + t, k, vout) == Outputs(s, k, vout)
    decreases k
  {
    hide Output;
    if k > 0 {
      var n, used := Outputs(s, k, vout).value.used, Output(s, vout).value.used;
      OutputsLocal(s[used..], k - 1, vout + 1, t);
      OutputLocal(s, vout, s[used..n] + t);
      assert s[..n] + t == s[..used] + (s[used..n] + t);
      assert (s[..n] + t)[used..] == s[used..][..n - used] + t;
    }
  }

  lemma CountLocal(s: seq<byte>, t: seq<byte>)
    requires Count(s).Some?
    ensures var n := Count(s).value.used;
            1 <= n <= |s| && Count(s[..n] + t) == Count(s)
  {
    hide Varint;
    VarintLocal(s, t);
  }

  lemma OutputListLocal(s: seq<byte>, t: seq<byte>)
    requires OutputList(s).Some?
    ensures var n := OutputList(s).value.used;
            10 <= n <= |s| && OutputList(s[..n] + t) == OutputList(s)
  {
    hide Count, Outputs;
    var n, c := OutputList(s).value.used, Count(s).value;
    OutputsLocal(s[c.used..], c.value, 0, t);
    CountLocal(s, s[c.used..n] + t);
    CountPositive(s);
    assert s[..n] + t == s[..c.used] + (s[c.used..n] + t);
    assert (s[..n] + t)[c.used..] == s[c.used..][..n - c.used] + t;
  }

  lemma CountPositive(s: seq<byte>)
    requires Count(s).Some?
    ensures Count(s).value.value >= 1 && s != [] && s[0] != 0x00
  {}

  lemma BodyLocal(s: seq<byte>, t: seq<byte>)
    requires ParseBody(s).Some?
    ensures var n := ParseBody(s).value.used;
            52 <= n <= |s| && ParseBody(s[..n] + t) == ParseBody(s) && s[0] != 0x00
  {
    hide Count, Inputs, OutputList;
    var n, ins := ParseBody(s).value.used, Count(s).value;
    var at := ins.used + Inputs(s[ins.used..], ins.value).value;
    CountPositive(s);
    OutputListLocal(s[at..], t);
    CountLocal(s, s[ins.used..n] + t);
    InputsLocal(s[ins.used..], ins.value, s[at..n] + t);
    assert s[..n] + t == s[..ins.used] + (s[ins.used..n] + t);
    assert (s[..n] + t)[ins.used..] == s[ins.used..][..at - ins.used] + (s[at..n] + t);
    assert (s[..n] + t)[at..] == s[at..][..n - at] + t;
  }

  lemma {:induction false} ItemsLocal(s: seq<byte>, k: nat, t: seq<byte>)
    requires Items(s, k).Some?
    ensures var n := Items(s, k).value;
            n <= |s| && Items(s[..n] + t, k) == Items(s, k)
    decreases k
  {
    hide Prefixed;
    if k > 0 {
      var n, used := Items(s, k).value, Prefixed(s).value.used;
      ItemsLocal(s[used..], k - 1, t);
      PrefixedLocal(s, s[used..n] + t);
      assert s[..n] + t == s[..used] + (s[used..n] + t);
      assert (s[..n] + t)[used..] == s[used..][..n - used] + t;
    }
  }

  lemma StackLocal(s: seq<byte>, t: seq<byte>)
    requires Stack(s).Some?
    ensures var n := Stack(s).value;
            n <= |s| && Stack(s[..n] + t) == Stack(s)
  {
    hide Varint, Items;
    var n, c := Stack(s).value, Varint(s).value;
    ItemsLocal(s[c.used..], c.value, t);
    VarintLocal(s, s[c.used..n] + t);
    assert s[..n] + t == s[..c.used] + (s[c.used..n] + t);
    assert (s[..n] + t)[c.used..] == s[c.used..][..n - c.used] + t;
  }

  lemma {:induction false} StacksLocal(s: seq<byte>, k: nat, t: seq<byte>)
    requires Stacks(s, k).Some?
    ensures var n := Stacks(s, k).value;
            n <= |s| && Stacks(s[..n] + t, k) == Stacks(s, k)
    decreases k
  {
    hide Stack;
    if k > 0 {
      var n, used := Stacks(s, k).value, Stack(s).value;
      StacksLocal(s[used..], k - 1, t);
      StackLocal(s, s[used..n] + t);
      assert s[..n] + t == s[..used] + (s[used..n] + t);
      assert (s[..n] + t)[used..] == s[used..][..n - used] + t;
    }
  }

  // ---------- stripping ----------

  lemma LayoutBounds(raw: seq<byte>)
    requires Locate(raw).Some?
    ensures var l := Locate(raw).value;
            l.start <= l.bodyEnd <= l.witnessEnd <= |raw| && l.start + 52 <= l.bodyEnd
  {
    hide ParseBody, Stacks;
    var l := Locate(raw).value;
    BodyLocal(raw[l.start..], []);
    if l.segwit { StacksLocal(raw[l.bodyEnd..], l.body.inputs, []); }
  }

  /** The body of a transaction, cut out and put between any version and any four bytes, is a
      legacy transaction with the same outputs. */
  lemma LegacyOf(raw: seq<byte>, version: seq<byte>, locktime: seq<byte>)
    requires Locate(raw).Some? && |version| == 4 && |locktime| == 4
    requires Locate(raw).value.start <= Locate(raw).value.bodyEnd <= |raw|
    ensures var l := Locate(raw).value;
            var legacy := version + raw[l.start..l.bodyEnd] + locktime;
            |legacy| > 10 && legacy[4] != 0x00 &&
            Locate(legacy) == Some(Layout(false, 4, |legacy| - 4, |legacy| - 4, l.body))
  {
    hide ParseBody, Stacks;
    var l := Locate(raw).value;
    var s := raw[l.start..];
    BodyLocal(s, locktime);
    var n := ParseBody(s).value.used;
    var legacy := version + raw[l.start..l.bodyEnd] + locktime;
    assert raw[l.start..l.bodyEnd] == s[..n];
    assert legacy[4..] == s[..n] + locktime;
    assert legacy[4] == s[0];
  }

  /** Every transaction accepted as SegWit has a stripped form that is accepted as legacy, with the
      same outputs, and both have the transaction id that is the hash of the stripped form. */
  lemma StripAgrees<D>(hash: seq<byte> -> D, raw: seq<byte>)
    requires ParseOutputs(raw).Some? && raw[4] == 0x00
    ensures Locate(raw).Some? && Locate(raw).value.start <= Locate(raw).value.bodyEnd <= Locate(raw).value.witnessEnd == |raw| - 4
    ensures var stripped := Stripped(raw, Locate(raw).value);
            |stripped| < |raw| && stripped[4] != 0x00 &&
            ParseOutputs(stripped) == ParseOutputs(raw) &&
            TxidOf(hash, raw) == TxidOf(hash, stripped) == Some(hash(stripped))
  {
    hide ParseBody, Stacks;
    LayoutBounds(raw);
    var l := Locate(raw).value;
    LegacyOf(raw, raw[..4], raw[l.witnessEnd..l.witnessEnd + 4]);
  }

  /** A legacy transaction with a marker, a flag and witness bytes put in. */
  function WithWitness(raw: seq<byte>, flag: byte, wit: seq<byte>): seq<byte>
    requires |raw| >= 8
  {
    raw[..4] + [0x00, flag] + raw[4..|raw| - 4] + wit + raw[|raw| - 4..]
  }

  lemma Parts(a: seq<byte>, m: seq<byte>, b: seq<byte>, w: seq<byte>, l: seq<byte>)
    requires |a| == 4 && |m| == 2
    ensures var s := a + m + b + w + l;
            s[..4] == a && s[4] == m[0] && s[5] == m[1] && s[6..] == b + (w + l) && s[6..6 + |b|] == b &&
            s[6 + |b|..] == w + l && s[6 + |b| + |w|..] == l
  {}

  lemma WithWitnessParts(raw: seq<byte>, flag: byte, wit: seq<byte>)
    requires |raw| >= 8
    ensures var x, n := WithWitness(raw, flag, wit), |raw| - 8;
            |x| == |raw| + 2 + |wit| && x[..4] == raw[..4] && x[4] == 0x00 && x[5] == flag &&
            x[6..] == raw[4..4 + n] + (wit + raw[4 + n..]) && x[6..6 + n] == raw[4..4 + n] &&
            x[6 + n..] == wit + raw[4 + n..] && x[6 + n + |wit|..] == raw[4 + n..]
  {
    Parts(raw[..4], [0x00, flag], raw[4..|raw| - 4], wit, raw[|raw| - 4..]);
  }

  lemma LocateSegwit(x: seq<byte>, body: Body, n: nat, k: nat)
    requires 6 + n <= |x| && x[4] == 0x00 && x[5] != 0x00
    requires ParseBody(x[6..]) == Some(Read(body, n)) && Stacks(x[6 + n..], body.inputs) == Some(k)
    ensures Locate(x) == Some(Layout(true, 6, 6 + n, 6 + n + k, body))
  {
    hide ParseBody, Stacks;
  }

  lemma LegacyBody(raw: seq<byte>)
    requires ParseOutputs(raw).Some? && raw[4] != 0x00
    ensures |raw| >= 60 && Locate(raw).Some?
    ensures ParseBody(raw[4..]) == Some(Read(Locate(raw).value.body, |raw| - 8))
  {
    hide ParseBody, Stacks;
    LayoutBounds(raw);
  }

  lemma LocateWithWitness(raw: seq<byte>, flag: byte, wit: seq<byte>)
    requires ParseOutputs(raw).Some? && raw[4] != 0x00 && flag != 0x00 && |raw| >= 8
    requires Locate(raw).Some? && Stacks(wit, Locate(raw).value.body.inputs) == Some(|wit|)
    ensures Locate(WithWitness(raw, flag, wit)) ==
            Some(Layout(true, 6, |raw| - 2, |raw| - 2 + |wit|, Locate(raw).value.body))
  {
    hide ParseBody, Stacks, Locate, WithWitness;
    LegacyBody(raw);
    var body, n := Locate(raw).value.body, |raw| - 8;
    var s, locktime := raw[4..], raw[4 + n..];
    BodyLocal(s, wit + locktime);
    assert s[..n] == raw[4..4 + n];
    WithWitnessParts(raw, flag, wit);
    StacksLocal(wit, body.inputs, locktime);
    assert wit[..|wit|] == wit;
    LocateSegwit(WithWitness(raw, flag, wit), body, n, |wit|);
  }

  /** Conversely, a legacy transaction with a marker, a flag and any readable witness added is
      accepted as SegWit, with the same outputs and the same transaction id. */
  lemma WitnessAdds<D>(hash: seq<byte> -> D, raw: seq<byte>, flag: byte, wit: seq<byte>)
    requires ParseOutputs(raw).Some? && raw[4] != 0x00 && flag != 0x00 && |raw| >= 8
    requires Locate(raw).Some? && Stacks(wit, Locate(raw).value.body.inputs) == Some(|wit|)
    requires |raw| + 2 + |wit| <= MAX_LEN
    ensures ParseOutputs(WithWitness(raw, flag, wit)) == ParseOutputs(raw)
    ensures TxidOf(hash, WithWitness(raw, flag, wit)) == TxidOf(hash, raw)
  {
    hide Locate, Stacks, WithWitness;
    LocateWithWitness(raw, flag, wit);
    LegacyBody(raw);
    WithWitnessParts(raw, flag, wit);
    StripBack(raw, flag, wit, Locate(WithWitness(raw, flag, wit)).value);
  }

  lemma StripBack(raw: seq<byte>, flag: byte, wit: seq<byte>, l: Layout)
    requires |raw| >= 8 && |WithWitness(raw, flag, wit)| == |raw| + 2 + |wit|
    requires l.start == 6 && l.bodyEnd == |raw| - 2 && l.witnessEnd == |raw| - 2 + |wit|
    ensures Stripped(WithWitness(raw, flag, wit), l) == raw
  {
    hide WithWitness;
    WithWitnessParts(raw, flag, wit);
    var x, n := WithWitness(raw, flag, wit), |raw| - 8;
    assert x[6 + n + |wit|..6 + n + |wit| + 4] == raw[4 + n..];
    assert raw == raw[..4] + raw[4..4 + n] + raw[4 + n..];
  }

  // ---------- the parser as the source runs it ----------

  function Plus(k: nat, r: Option<nat>): Option<nat> {
    match r
    case None => None
    case Some(n) => Some(k + n)
  }

  /** read_varint with its cursor. */
  method ReadVarint(data: seq<byte>, off: nat) returns (r: Option<Read<nat>>)
    requires off <= |data|
    ensures r == Varint(data[off..])
    ensures r.Some? ==> off + r.value.used <= |data|
  {
    if off >= |data| {
      return None;
    }
    var first := data[off];
    var width := if first == 0xff then 8 else if first == 0xfe then 4 else if first == 0xfd then 2 else 0;
    if width == 0 {
      return Some(Read(first, 1));
    }
    if off + 1 + width > |data| {
      return None;
    }
    assert data[off..][1..][..width] == data[off + 1..off + 1 + width];
    return Some(Read(LeValue(data[off + 1..off + 1 + width]), 1 + width));
  }

  /** A length and that many bytes, skipped. */
  method SkipPrefixed(data: seq<byte>, off: nat) returns (r: Option<nat>)
    requires off <= |data|
    ensures r == match Prefixed(data[off..]) case None => None case Some(p) => Some(off + p.used)
    ensures r.Some? ==> r.value <= |data|
  {
    hide Varint;
    var len := ReadVarint(data, off);
    if len.None? {
      return None;
    }
    if off + len.value.used + len.value.value > |data| {
      return None;
    }
    return Some(off + len.value.used + len.value.value);
  }

  method SkipInputs(data: seq<byte>, start: nat, count: nat) returns (r: Option<nat>)
    requires start <= |data|
    ensures r == Plus(start, Inputs(data[start..], count))
    ensures r.Some? ==> start <= r.value <= |data|
  {
    hide Prefixed;
    var off := start;
    for i := 0 to count
      invariant start <= off <= |data|
      invariant Plus(start, Inputs(data[start..], count)) == Plus(off, Inputs(data[off..], count - i))
    {
      if off + 36 > |data| {
        return None;
      }
      assert data[off..][36..] == data[off + 36..];
      var next := SkipPrefixed(data, off + 36);
      if next.None? {
        return None;
      }
      if next.value + 4 > |data| {
        return None;
      }
      assert data[off..][next.value + 4 - off..] == data[next.value + 4..];
      off := next.value + 4;
    }
    return Some(off);
  }

  method ReadOutput(data: seq<byte>, off: nat, vout: nat) returns (r: Option<Read<OutputView>>)
    requires off <= |data|
    ensures r == Output(data[off..], vout)
    ensures r.Some? ==> off + r.value.used <= |data|
  {
    hide Varint, ParseScript, LeValue;
    if off + 8 > |data| {
      return None;
    }
    assert data[off..][..8] == data[off..off + 8] && data[off..][8..] == data[off + 8..];
    var value := LeValue(data[off..off + 8]);
    var len := ReadVarint(data, off + 8);
    if len.None? {
      return None;
    }
    var at, end := off + 8 + len.value.used, off + 8 + len.value.used + len.value.value;
    if end > |data| {
      return None;
    }
    assert data[off + 8..][len.value.used..len.value.used + len.value.value] == data[at..end];
    return Some(Read(OutputView(value, ParseScript(data[at..end]), vout), end - off));
  }

  method ReadOutputs(data: seq<byte>, start: nat, count: nat) returns (r: Option<Read<seq<OutputView>>>)
    requires start <= |data|
    ensures r == Outputs(data[start..], count, 0)
    ensures r.Some? ==> start + r.value.used <= |data|
  {
    hide Output;
    var off, outputs := start, [];
    assert Outputs(data[start..], count, 0) == After([], 0, Outputs(data[start..], count, 0)) by {
      if Outputs(data[start..], count, 0).Some? {
        assert [] + Outputs(data[start..], count, 0).value.value == Outputs(data[start..], count, 0).value.value;
      }
    }
    for vout := 0 to count
      invariant start <= off <= |data|
      invariant Outputs(data[start..], count, 0) == After(outputs, off - start, Outputs(data[off..], count - vout, vout))
    {
      var view := ReadOutput(data, off, vout);
      if view.None? {
        return None;
      }
      var n := view.value.used;
      assert data[off..][n..] == data[off + n..];
      assert Outputs(data[off..], count - vout, vout) ==
             After([view.value.value], n, Outputs(data[off + n..], count - vout - 1, vout + 1));
      AfterOne(outputs, off - start, view.value.value, n, Outputs(data[off + n..], count - vout - 1, vout + 1));
      outputs := outputs + [view.value.value];
      off := off + n;
    }
    assert outputs + [] == outputs;
    return Some(Read(outputs, off - start));
  }

  method SkipItems(data: seq<byte>, start: nat, count: nat) returns (r: Option<nat>)
    requires start <= |data|
    ensures r == Plus(start, Items(data[start..], count))
    ensures r.Some? ==> start <= r.value <= |data|
  {
    hide Prefixed;
    var off := start;
    for i := 0 to count
      invariant start <= off <= |data|
      invariant Plus(start, Items(data[start..], count)) == Plus(off, Items(data[off..], count - i))
    {
      var next := SkipPrefixed(data, off);
      if next.None? {
        return None;
      }
      assert data[off..][next.value - off..] == data[next.value..];
      off := next.value;
    }
    return Some(off);
  }

  method SkipStack(data: seq<byte>, off: nat) returns (r: Option<nat>)
    requires off <= |data|
    ensures r == Plus(off, Stack(data[off..]))
    ensures r.Some? ==> off <= r.value <= |data|
  {
    hide Varint, Items;
    var items := ReadVarint(data, off);
    if items.None? || items.value.value > MAX_COUNT {
      return None;
    }
    assert data[off..][items.value.used..] == data[off + items.value.used..];
    r := SkipItems(data, off + items.value.used, items.value.value);
  }

  method SkipStacks(data: seq<byte>, start: nat, count: nat) returns (r: Option<nat>)
    requires start <= |data|
    ensures r == Plus(start, Stacks(data[start..], count))
    ensures r.Some? ==> start <= r.value <= |data|
  {
    hide Stack;
    var off := start;
    for i := 0 to count
      invariant start <= off <= |data|
      invariant Plus(start, Stacks(data[start..], count)) == Plus(off, Stacks(data[off..], count - i))
    {
      var next := SkipStack(data, off);
      if next.None? {
        return None;
      }
      assert data[off..][next.value - off..] == data[next.value..];
      off := next.value;
    }
    return Some(off);
  }

  method ReadBody(data: seq<byte>, start: nat) returns (r: Option<Read<Body>>)
    requires start <= |data|
    ensures r == ParseBody(data[start..])
    ensures r.Some? ==> start + r.value.used <= |data|
  {
    hide Varint, Inputs, Outputs;
    var ins := ReadVarint(data, start);
    if ins.None? || ins.value.value == 0 || ins.value.value > MAX_COUNT {
      return None;
    }
    assert data[start..][ins.value.used..] == data[start + ins.value.used..];
    var at := SkipInputs(data, start + ins.value.used, ins.value.value);
    if at.None? {
      return None;
    }
    assert data[start..][at.value - start..] == data[at.value..];
    var outs := ReadVarint(data, at.value);
    if outs.None? || outs.value.value == 0 || outs.value.value > MAX_COUNT {
      return None;
    }
    assert data[at.value..][outs.value.used..] == data[at.value + outs.value.used..];
    var views := ReadOutputs(data, at.value + outs.value.used, outs.value.value);
    if views.None? {
      return None;
    }
    return Some(Read(Body(ins.value.value, views.value.value), at.value - start + outs.value.used + views.value.used));
  }

  method ReadLayout(raw: seq<byte>) returns (r: Option<Layout>)
    ensures r == Locate(raw)
    ensures r.Some? ==> r.value.start <= r.value.bodyEnd <= r.value.witnessEnd <= |raw|
  {
    hide ParseBody, Stacks;
    if |raw| < 5 {
      return None;
    }
    var segwit := raw[4] == 0x00;
    if segwit && (|raw| < 6 || raw[5] == 0x00) {
      return None;
    }
    var start := if segwit then 6 else 4;
    var body := ReadBody(raw, start);
    if body.None? {
      return None;
    }
    var end := start + body.value.used;
    if !segwit {
      return Some(Layout(false, start, end, end, body.value.value));
    }
    var witnessEnd := SkipStacks(raw, end, body.value.value.inputs);
    if witnessEnd.None? {
      return None;
    }
    return Some(Layout(true, start, end, witnessEnd.value, body.value.value));
  }

  /** parse_btc_tx_outputs. */
  method ParseBtcTxOutputs(raw: seq<byte>) returns (r: Option<seq<OutputView>>)
    ensures r == ParseOutputs(raw)
  {
    hide Locate;
    if |raw| == 0 || |raw| > MAX_LEN {
      return None;
    }
    var l := ReadLayout(raw);
    if l.None? || l.value.witnessEnd + 4 != |raw| {
      return None;
    }
    return Some(l.value.body.outputs);
  }

  /** btc_txid. */
  method BtcTxid<D>(hash: seq<byte> -> D, raw: seq<byte>) returns (r: Option<D>)
    ensures r == TxidOf(hash, raw)
  {
    hide Locate;
    if |raw| < 10 || |raw| > MAX_LEN {
      return None;
    }
    if raw[4] != 0x00 {
      return Some(hash(raw));
    }
    var l := ReadLayout(raw);
    if l.None? || l.value.witnessEnd + 4 > |raw| {
      return None;
    }
    return Some(hash(Stripped(raw, l.value)));
  }
}
