/** The Bitcoin transaction format written out, and the parser measured against it: what it accepts
    is what the format can spell, and what it answers is what was spelled. */
module BtcWire {
  import opened Basics
  import opened Reading
  import opened BtcTx

  // ---------- the format ----------

  /** A number takes one byte, or a tag and 2, 4 or 8 bytes. A wider form than needed is allowed. */
  predicate FormOk(n: nat, width: nat) {
    (width == 0 && n < 0xfd) || (width in {2, 4, 8} && n < Pow256(width))
  }

  function Form(n: nat, width: nat): Bytes
    requires FormOk(n, width)
  {
    if width == 0 then [n]
    else if width == 2 then [0xfd] + LeBytes(n, 2)
    else if width == 4 then [0xfe] + LeBytes(n, 4)
    else [0xff] + LeBytes(n, 8)
  }

  /** A byte string with the width its length is written in. */
  datatype Blob = Blob(width: nat, bytes: Bytes) {
    predicate Ok() { FormOk(|bytes|, width) }

    function Spell(): Bytes
      requires Ok()
    {
      Form(|bytes|, width) + bytes
    }
  }

  datatype In = In(outpoint: Bytes, script: Blob, sequence: Bytes) {
    predicate Ok() { |outpoint| == 36 && script.Ok() && |sequence| == 4 }

    function Spell(): Bytes
      requires Ok()
    {
      outpoint + (script.Spell() + sequence)
    }
  }

  datatype Out = Out(value: u64, script: Blob) {
    predicate Ok() { script.Ok() }

    function Spell(): Bytes
      requires Ok()
    {
      LeBytes(value, 8) + script.Spell()
    }
  }

  /** The witness of one input. */
  datatype Pile = Pile(width: nat, items: seq<Blob>) {
    predicate Ok() { |items| <= 100_000 && FormOk(|items|, width) && BlobsOk(items) }

    function Spell(): Bytes
      requires Ok()
    {
      Form(|items|, width) + SpellBlobs(items)
    }
  }

  datatype Witness = Witness(flag: byte, piles: seq<Pile>)

  datatype Tx = Tx(version: Bytes, inWidth: nat, ins: seq<In>, outWidth: nat, outs: seq<Out>,
                   wit: Option<Witness>, locktime: Bytes) {
    predicate Ok() {
      |version| == 4 && |locktime| == 4 && ListsOk() &&
      (wit.Some? ==> wit.value.flag != 0 && |wit.value.piles| == |ins| && PilesOk(wit.value.piles))
    }

    predicate ListsOk() {
      1 <= |ins| <= 100_000 && FormOk(|ins|, inWidth) && InsOk(ins) &&
      1 <= |outs| <= 100_000 && FormOk(|outs|, outWidth) && OutsOk(outs)
    }

    /** Inputs and outputs. */
    function Lists(): Bytes
      requires ListsOk()
    {
      Form(|ins|, inWidth) + (SpellIns(ins) + (Form(|outs|, outWidth) + SpellOuts(outs)))
    }

    /** With a witness, marker and flag stand after the version and the piles before the locktime. */
    function Spell(): Bytes
      requires Ok()
    {
      match wit
      case None => version + (Lists() + locktime)
      case Some(w) => version + ([0x00, w.flag] + (Lists() + (SpellPiles(w.piles) + locktime)))
    }

    /** What a parser should report: value and script of each output, numbered from zero. */
    function Views(): seq<OutputView> {
      seq(|outs|, i requires 0 <= i < |outs| => OutputView(outs[i].value, ParseScript(outs[i].script.bytes), i))
    }
  }

  predicate BlobsOk(xs: seq<Blob>) { xs == [] || (xs[0].Ok() && BlobsOk(xs[1..])) }

  predicate InsOk(xs: seq<In>) { xs == [] || (xs[0].Ok() && InsOk(xs[1..])) }

  predicate OutsOk(xs: seq<Out>) { xs == [] || (xs[0].Ok() && OutsOk(xs[1..])) }

  predicate PilesOk(xs: seq<Pile>) { xs == [] || (xs[0].Ok() && PilesOk(xs[1..])) }

  function SpellBlobs(xs: seq<Blob>): Bytes
    requires BlobsOk(xs)
  {
    if xs == [] then [] else xs[0].Spell() + SpellBlobs(xs[1..])
  }

  function SpellIns(xs: seq<In>): Bytes
    requires InsOk(xs)
  {
    if xs == [] then [] else xs[0].Spell() + SpellIns(xs[1..])
  }

  function SpellOuts(xs: seq<Out>): Bytes
    requires OutsOk(xs)
  {
    if xs == [] then [] else xs[0].Spell() + SpellOuts(xs[1..])
  }

  function SpellPiles(xs: seq<Pile>): Bytes
    requires PilesOk(xs)
  {
    if xs == [] then [] else xs[0].Spell() + SpellPiles(xs[1..])
  }

  // ---------- what is spelled is read ----------

  lemma FormReads(n: nat, width: nat, t: Bytes)
    requires FormOk(n, width)
    ensures Varint(Form(n, width) + t) == Some(Read(n, |Form(n, width)|))
  {
    hide LeBytes, Number;
    if width == 2 {
      WideVarint(0xfd, n, 2, t);
    } else if width == 4 {
      WideVarint(0xfe, n, 4, t);
    } else if width == 8 {
      WideVarint(0xff, n, 8, t);
    }
  }

  lemma Rejoin(a: Bytes, b: Bytes, t: Bytes)
    ensures (a + b) + t == a + (b + t) && ((a + b) + t)[|a|..] == b + t && ((a + b) + t)[..|a|] == a
  {}

  lemma BlobReads(x: Blob, t: Bytes)
    requires x.Ok()
    ensures Prefixed(x.Spell() + t) == Some(Read(x.bytes, |x.Spell()|))
  {
    hide Varint, Form, FormOk;
    FormReads(|x.bytes|, x.width, x.bytes + t);
    Rejoin(Form(|x.bytes|, x.width), x.bytes, t);
    assert (x.Spell() + t)[|Form(|x.bytes|, x.width)|..|x.Spell()|] == x.bytes;
  }

  lemma InReads(x: In, t: Bytes)
    requires x.Ok()
    ensures Input(x.Spell() + t) == Some(|x.Spell()|)
  {
    hide Prefixed, Blob.Spell, Blob.Ok;
    BlobReads(x.script, x.sequence + t);
    Rejoin(x.outpoint, x.script.Spell() + x.sequence, t);
    Rejoin(x.script.Spell(), x.sequence, t);
  }

  lemma {:induction false} InsRead(xs: seq<In>, t: Bytes)
    requires InsOk(xs)
    ensures Inputs(SpellIns(xs) + t, |xs|) == Some(|SpellIns(xs)|)
    decreases |xs|
  {
    hide Input, In.Spell, In.Ok;
    if xs != [] {
      InReads(xs[0], SpellIns(xs[1..]) + t);
      Rejoin(xs[0].Spell(), SpellIns(xs[1..]), t);
      InsRead(xs[1..], t);
    }
  }

  lemma OutReads(x: Out, vout: nat, t: Bytes)
    requires x.Ok()
    ensures Output(x.Spell() + t, vout) ==
            Some(Read(OutputView(x.value, ParseScript(x.script.bytes), vout), |x.Spell()|))
  {
    hide Prefixed, ParseScript, LeValue, LeBytes, Blob.Spell, Blob.Ok;
    Pow256Values();
    LeRoundTrip(x.value, 8);
    BlobReads(x.script, t);
    Rejoin(LeBytes(x.value, 8), x.script.Spell(), t);
  }

  /** Views from a number on. */
  function ViewsFrom(xs: seq<Out>, vout: nat): seq<OutputView> {
    if xs == [] then []
    else [OutputView(xs[0].value, ParseScript(xs[0].script.bytes), vout)] + ViewsFrom(xs[1..], vout + 1)
  }

  lemma {:induction false} ViewsFromAt(xs: seq<Out>, vout: nat)
    ensures |ViewsFrom(xs, vout)| == |xs|
    ensures forall i | 0 <= i < |xs| ::
              ViewsFrom(xs, vout)[i] == OutputView(xs[i].value, ParseScript(xs[i].script.bytes), vout + i)
    decreases |xs|
  {
    hide ParseScript;
    if xs != [] {
      ViewsFromAt(xs[1..], vout + 1);
      forall i | 1 <= i < |xs|
        ensures ViewsFrom(xs, vout)[i] == OutputView(xs[i].value, ParseScript(xs[i].script.bytes), vout + i)
      {
        var j := i - 1;
        assert ViewsFrom(xs, vout)[i] == ViewsFrom(xs[1..], vout + 1)[j] && xs[1..][j] == xs[i];
      }
    }
  }

  lemma {:induction false} OutsRead(xs: seq<Out>, vout: nat, t: Bytes)
    requires OutsOk(xs)
    ensures Outputs(SpellOuts(xs) + t, |xs|, vout) == Some(Read(ViewsFrom(xs, vout), |SpellOuts(xs)|))
    decreases |xs|
  {
    hide Output, Out.Spell, Out.Ok, ParseScript;
    if xs != [] {
      OutReads(xs[0], vout, SpellOuts(xs[1..]) + t);
      Rejoin(xs[0].Spell(), SpellOuts(xs[1..]), t);
      OutsRead(xs[1..], vout + 1, t);
    }
  }

  lemma {:induction false} BlobsRead(xs: seq<Blob>, t: Bytes)
    requires BlobsOk(xs)
    ensures Items(SpellBlobs(xs) + t, |xs|) == Some(|SpellBlobs(xs)|)
    decreases |xs|
  {
    hide Prefixed, Blob.Spell, Blob.Ok;
    if xs != [] {
      BlobReads(xs[0], SpellBlobs(xs[1..]) + t);
      Rejoin(xs[0].Spell(), SpellBlobs(xs[1..]), t);
      BlobsRead(xs[1..], t);
    }
  }

  lemma PileReads(x: Pile, t: Bytes)
    requires x.Ok()
    ensures Stack(x.Spell() + t) == Some(|x.Spell()|)
  {
    hide Varint, Items, Form, FormOk, BlobsOk, SpellBlobs;
    FormReads(|x.items|, x.width, SpellBlobs(x.items) + t);
    Rejoin(Form(|x.items|, x.width), SpellBlobs(x.items), t);
    BlobsRead(x.items, t);
  }

  lemma {:induction false} PilesRead(xs: seq<Pile>, t: Bytes)
    requires PilesOk(xs)
    ensures Stacks(SpellPiles(xs) + t, |xs|) == Some(|SpellPiles(xs)|)
    decreases |xs|
  {
    hide Stack, Pile.Spell, Pile.Ok;
    if xs != [] {
      PileReads(xs[0], SpellPiles(xs[1..]) + t);
      Rejoin(xs[0].Spell(), SpellPiles(xs[1..]), t);
      PilesRead(xs[1..], t);
    }
  }

  lemma CountReads(n: nat, width: nat, t: Bytes)
    requires FormOk(n, width) && 1 <= n <= 100_000
    ensures Count(Form(n, width) + t) == Some(Read(n, |Form(n, width)|))
  {
    hide Varint, Form, FormOk;
    FormReads(n, width, t);
  }

  lemma OutListReads(tx: Tx, t: Bytes)
    requires tx.ListsOk()
    ensures var s := Form(|tx.outs|, tx.outWidth) + SpellOuts(tx.outs);
            OutputList(s + t) == Some(Read(tx.Views(), |s|))
  {
    hide Count, Outputs, Form, FormOk, InsOk, OutsOk, SpellOuts, ParseScript;
    CountReads(|tx.outs|, tx.outWidth, SpellOuts(tx.outs) + t);
    Rejoin(Form(|tx.outs|, tx.outWidth), SpellOuts(tx.outs), t);
    OutsRead(tx.outs, 0, t);
    ViewsFromAt(tx.outs, 0);
    assert ViewsFrom(tx.outs, 0) == tx.Views();
  }

  lemma ListsRead(tx: Tx, t: Bytes)
    requires tx.ListsOk()
    ensures ParseBody(tx.Lists() + t) == Some(Read(Body(|tx.ins|, tx.Views()), |tx.Lists()|))
  {
    hide Count, Inputs, OutputList, Form, FormOk, InsOk, OutsOk, SpellIns, SpellOuts, Tx.Views;
    var a, b, c := Form(|tx.ins|, tx.inWidth), SpellIns(tx.ins), Form(|tx.outs|, tx.outWidth) + SpellOuts(tx.outs);
    CountReads(|tx.ins|, tx.inWidth, (b + c) + t);
    Rejoin(a, b + c, t);
    Rejoin(b, c, t);
    InsRead(tx.ins, c + t);
    OutListReads(tx, t);
    assert (tx.Lists() + t)[|a| + |b|..] == c + t;
  }

  lemma ListsStart(tx: Tx)
    requires tx.ListsOk()
    ensures tx.Lists() != [] && tx.Lists()[0] != 0x00
  {
    hide InsOk, OutsOk, SpellIns, SpellOuts, LeBytes;
  }

  lemma Joined(v: Bytes, m: Bytes, b: Bytes, w: Bytes, l: Bytes)
    ensures var s := v + (m + (b + (w + l)));
            s[..|v|] == v && s[|v|..] == m + (b + (w + l)) && s[|v| + |m|..] == b + (w + l) &&
            s[|v| + |m|..|v| + |m| + |b|] == b &&
            s[|v| + |m| + |b|..] == w + l && s[|v| + |m| + |b| + |w|..] == l
  {
    var s := v + (m + (b + (w + l)));
    assert s[|v| + |m|..] == (m + (b + (w + l)))[|m|..];
  }

  lemma LocatesLegacy(tx: Tx)
    requires tx.Ok() && tx.wit.None?
    ensures var n := 4 + |tx.Lists()|;
            tx.Spell()[4] != 0x00 && |tx.Spell()| == n + 4 &&
            Locate(tx.Spell()) == Some(Layout(false, 4, n, n, Body(|tx.ins|, tx.Views())))
  {
    hide ParseBody, Tx.ListsOk, Tx.Lists, Tx.Views, PilesOk;
    ListsStart(tx);
    ListsRead(tx, tx.locktime);
    assert tx.Spell()[4..] == tx.Lists() + tx.locktime;
    assert tx.Spell()[4] == tx.Lists()[0];
  }

  lemma LocatesSegwit(tx: Tx, junk: Bytes)
    requires tx.Ok() && tx.wit.Some?
    ensures var n, k, s := 6 + |tx.Lists()|, |SpellPiles(tx.wit.value.piles)|, tx.Spell() + junk;
            s[4] == 0x00 && |tx.Spell()| == n + k + 4 &&
            Locate(s) == Some(Layout(true, 6, n, n + k, Body(|tx.ins|, tx.Views()))) &&
            s[..4] == tx.version && s[6..n] == tx.Lists() && s[n + k..n + k + 4] == tx.locktime
  {
    hide ParseBody, Stacks, Locate, Tx.ListsOk, Tx.Lists, Tx.Views, PilesOk, SpellPiles;
    var w := tx.wit.value;
    var b, k, n, s := tx.Lists(), SpellPiles(w.piles), 6 + |tx.Lists()|, tx.Spell() + junk;
    var rest := tx.locktime + junk;
    assert s == tx.version + ([0x00, w.flag] + (b + (k + rest)));
    Joined(tx.version, [0x00, w.flag], b, k, rest);
    ListsRead(tx, k + rest);
    PilesRead(w.piles, rest);
    assert s[4..][0] == 0x00 && s[4..][1] == w.flag;
    assert s[n + |k|..n + |k| + 4] == s[n + |k|..][..4] == tx.locktime;
    LocateSegwit(s, Body(|tx.ins|, tx.Views()), |b|, |k|);
  }

  /** What a transaction spells, legacy or SegWit, is parsed to its outputs' values and scripts in
      order, numbered from zero. Its id is the hash of the same transaction without witness. */
  lemma SpelledIsParsed<D>(hash: Bytes -> D, tx: Tx)
    requires tx.Ok() && |tx.Spell()| <= MAX_LEN
    ensures ParseOutputs(tx.Spell()) == Some(tx.Views())
    ensures TxidOf(hash, tx.Spell()) == Some(hash(tx.(wit := None).Spell()))
  {
    hide Locate, Tx.ListsOk, Tx.Lists, Tx.Views, PilesOk, SpellPiles;
    var bare := tx.(wit := None);
    BareOk(tx);
    LocatesLegacy(bare);
    if tx.wit.Some? {
      LocatesSegwit(tx, []);
      assert tx.Spell() + [] == tx.Spell();
      var l := Locate(tx.Spell()).value;
      assert Stripped(tx.Spell(), l) == tx.version + tx.Lists() + tx.locktime;
      assert Stripped(tx.Spell(), l) == bare.Spell();
    } else {
      assert bare == tx;
    }
  }

  /** The id of a SegWit transaction does not depend on bytes that follow it: they are ignored. */
  lemma TrailingIgnored<D>(hash: Bytes -> D, tx: Tx, junk: Bytes)
    requires tx.Ok() && tx.wit.Some? && |tx.Spell() + junk| <= MAX_LEN
    ensures TxidOf(hash, tx.Spell() + junk) == Some(hash(tx.(wit := None).Spell()))
  {
    hide Locate, Tx.ListsOk, Tx.Lists, Tx.Views, PilesOk, SpellPiles;
    BareOk(tx);
    LocatesSegwit(tx, junk);
    var s := tx.Spell() + junk;
    var l := Locate(s).value;
    assert Stripped(s, l) == tx.version + tx.Lists() + tx.locktime;
    assert Stripped(s, l) == tx.(wit := None).Spell();
  }

  lemma BareOk(tx: Tx)
    requires tx.Ok()
    ensures var bare := tx.(wit := None);
            bare.Ok() && bare.Lists() == tx.Lists() && |tx.Lists()| >= 2 && bare.Views() == tx.Views()
  {
    hide ParseScript, PilesOk;
  }

  // ---------- what is read was spelled ----------

  lemma ReadForm(s: Bytes) returns (width: nat)
    requires Varint(s).Some?
    ensures var r := Varint(s).value;
            FormOk(r.value, width) && Form(r.value, width) == s[..r.used]
  {
    hide LeBytes, LeValue;
    var r := Varint(s).value;
    width := if s[0] == 0xff then 8 else if s[0] == 0xfe then 4 else if s[0] == 0xfd then 2 else 0;
    if width > 0 {
      NumberBytes(s[1..], width);
      assert s[..r.used] == [s[0]] + s[1..][..width];
    }
  }

  lemma ReadBlob(s: Bytes) returns (x: Blob)
    requires Prefixed(s).Some?
    ensures var r := Prefixed(s).value;
            x.Ok() && x.bytes == r.value && r.used <= |s| && x.Spell() == s[..r.used]
  {
    hide Varint, Form, FormOk;
    var width := ReadForm(s);
    var r := Prefixed(s).value;
    x := Blob(width, r.value);
    assert s[..r.used] == s[..Varint(s).value.used] + r.value;
  }

  lemma ReadIn(s: Bytes) returns (x: In)
    requires Input(s).Some?
    ensures Input(s).value <= |s| && x.Ok() && x.Spell() == s[..Input(s).value]
  {
    hide Prefixed, Blob.Ok, Blob.Spell;
    var script := ReadBlob(s[36..]);
    var n, r := Input(s).value, Prefixed(s[36..]).value.used;
    x := In(s[..36], script, s[36 + r..n]);
    assert s[36..][..r] == s[36..36 + r];
    assert s[..n] == s[..36] + (s[36..36 + r] + s[36 + r..n]);
  }

  lemma {:induction false} ReadIns(s: Bytes, n: nat) returns (xs: seq<In>)
    requires Inputs(s, n).Some?
    ensures |xs| == n && InsOk(xs) && Inputs(s, n).value <= |s| && SpellIns(xs) == s[..Inputs(s, n).value]
    decreases n
  {
    hide Input, In.Ok, In.Spell;
    xs := [];
    if n > 0 {
      var x := ReadIn(s);
      var used := Input(s).value;
      var rest := ReadIns(s[used..], n - 1);
      xs := [x] + rest;
      assert xs[1..] == rest;
      Halves(s, used, Inputs(s[used..], n - 1).value);
    }
  }

  lemma Halves(s: Bytes, a: nat, b: nat)
    requires a <= |s| && b <= |s| - a
    ensures s[..a] + s[a..][..b] == s[..a + b]
  {}

  lemma ReadOut(s: Bytes, vout: nat) returns (x: Out)
    requires Output(s, vout).Some?
    ensures var r := Output(s, vout).value;
            r.used <= |s| && x.Ok() && x.Spell() == s[..r.used] &&
            r.value == OutputView(x.value, ParseScript(x.script.bytes), vout)
  {
    hide Prefixed, Blob.Ok, Blob.Spell, LeBytes, LeValue, ParseScript;
    var script := ReadBlob(s[8..]);
    Pow256Values();
    NumberBytes(s, 8);
    x := Out(Number(s, 8).value.value, script);
    Halves(s, 8, Prefixed(s[8..]).value.used);
  }

  lemma {:induction false} ReadOuts(s: Bytes, n: nat, vout: nat) returns (xs: seq<Out>)
    requires Outputs(s, n, vout).Some?
    ensures var r := Outputs(s, n, vout).value;
            |xs| == n && OutsOk(xs) && r.used <= |s| && SpellOuts(xs) == s[..r.used]
    decreases n
  {
    hide Output, Out.Ok, Out.Spell;
    xs := [];
    if n > 0 {
      var x := ReadOut(s, vout);
      var used := Output(s, vout).value.used;
      var rest := ReadOuts(s[used..], n - 1, vout + 1);
      xs := [x] + rest;
      assert xs[1..] == rest;
      Halves(s, used, Outputs(s[used..], n - 1, vout + 1).value.used);
    }
  }

  lemma {:induction false} ReadBlobs(s: Bytes, n: nat) returns (xs: seq<Blob>)
    requires Items(s, n).Some?
    ensures |xs| == n && BlobsOk(xs) && Items(s, n).value <= |s| && SpellBlobs(xs) == s[..Items(s, n).value]
    decreases n
  {
    hide Prefixed, Blob.Ok, Blob.Spell;
    xs := [];
    if n > 0 {
      var x := ReadBlob(s);
      var used := Prefixed(s).value.used;
      var rest := ReadBlobs(s[used..], n - 1);
      xs := [x] + rest;
      assert xs[1..] == rest;
      Halves(s, used, Items(s[used..], n - 1).value);
    }
  }

  lemma ReadPile(s: Bytes) returns (x: Pile)
    requires Stack(s).Some?
    ensures Stack(s).value <= |s| && x.Ok() && x.Spell() == s[..Stack(s).value]
  {
    hide Varint, Items, Form, FormOk, BlobsOk, SpellBlobs;
    var width := ReadForm(s);
    var r := Varint(s).value;
    var items := ReadBlobs(s[r.used..], r.value);
    x := Pile(width, items);
    Halves(s, r.used, Items(s[r.used..], r.value).value);
  }

  lemma {:induction false} ReadPiles(s: Bytes, n: nat) returns (xs: seq<Pile>)
    requires Stacks(s, n).Some?
    ensures |xs| == n && PilesOk(xs) && Stacks(s, n).value <= |s| && SpellPiles(xs) == s[..Stacks(s, n).value]
    decreases n
  {
    hide Stack, Pile.Ok, Pile.Spell;
    xs := [];
    if n > 0 {
      var x := ReadPile(s);
      var used := Stack(s).value;
      var rest := ReadPiles(s[used..], n - 1);
      xs := [x] + rest;
      assert xs[1..] == rest;
      Halves(s, used, Stacks(s[used..], n - 1).value);
    }
  }

  lemma ReadOutList(s: Bytes) returns (width: nat, xs: seq<Out>)
    requires OutputList(s).Some?
    ensures 1 <= |xs| <= 100_000 && FormOk(|xs|, width) && OutsOk(xs)
    ensures OutputList(s).value.used <= |s| && Form(|xs|, width) + SpellOuts(xs) == s[..OutputList(s).value.used]
  {
    hide Varint, Outputs, Form, FormOk, OutsOk, SpellOuts;
    width := ReadForm(s);
    var r := Varint(s).value;
    xs := ReadOuts(s[r.used..], r.value, 0);
    Halves(s, r.used, Outputs(s[r.used..], r.value, 0).value.used);
  }

  lemma ReadLists(s: Bytes) returns (tx: Tx)
    requires ParseBody(s).Some?
    ensures var r := ParseBody(s).value;
            r.used <= |s| && tx.ListsOk() && |tx.ins| == r.value.inputs && tx.Lists() == s[..r.used]
  {
    hide Varint, Inputs, OutputList, Form, FormOk, InsOk, OutsOk, SpellIns, SpellOuts;
    var inWidth := ReadForm(s);
    var r, n := Varint(s).value, ParseBody(s).value.used;
    var ins := ReadIns(s[r.used..], r.value);
    var at := r.used + Inputs(s[r.used..], r.value).value;
    var outWidth, outs := ReadOutList(s[at..]);
    tx := Tx([], inWidth, ins, outWidth, outs, None, []);
    assert s[..n] == s[..r.used] + (s[r.used..][..at - r.used] + s[at..][..n - at]);
  }

  lemma ReadLegacy(raw: Bytes, l: Layout) returns (tx: Tx)
    requires Locate(raw) == Some(l) && !l.segwit && l.bodyEnd + 4 == |raw| && l.start == 4 <= l.bodyEnd
    ensures tx.Ok() && tx.Spell() == raw
  {
    hide ParseBody, Tx.ListsOk, Tx.Lists;
    var lists := ReadLists(raw[4..]);
    hide Locate;
    tx := lists.(version := raw[..4], wit := None, locktime := raw[l.bodyEnd..]);
    SameLists(lists, tx);
    assert raw[4..][..l.bodyEnd - 4] == raw[4..l.bodyEnd];
    assert raw == raw[..4] + (raw[4..l.bodyEnd] + raw[l.bodyEnd..]);
  }

  lemma ReadSegwit(raw: Bytes, l: Layout) returns (tx: Tx)
    requires Locate(raw) == Some(l) && l.segwit && l.witnessEnd + 4 == |raw| && l.start == 6 <= l.bodyEnd <= l.witnessEnd
    ensures tx.Ok() && tx.Spell() == raw
  {
    hide ParseBody, Stacks, Tx.ListsOk, Tx.Lists, PilesOk, SpellPiles;
    var lists := ReadLists(raw[6..]);
    var piles := ReadPiles(raw[l.bodyEnd..], l.body.inputs);
    assert raw[4] == 0x00 && raw[5] != 0x00 && |lists.ins| == l.body.inputs;
    assert lists.Lists() == raw[6..][..l.bodyEnd - 6] && SpellPiles(piles) == raw[l.bodyEnd..][..l.witnessEnd - l.bodyEnd];
    hide Locate;
    tx := lists.(version := raw[..4], wit := Some(Witness(raw[5], piles)), locktime := raw[l.witnessEnd..]);
    SameLists(lists, tx);
    assert raw[6..][..l.bodyEnd - 6] == raw[6..l.bodyEnd];
    Assembled(raw, l);
  }

  lemma LayoutStart(raw: Bytes)
    requires Locate(raw).Some?
    ensures Locate(raw).value.start == (if Locate(raw).value.segwit then 6 else 4)
    ensures !Locate(raw).value.segwit ==> Locate(raw).value.witnessEnd == Locate(raw).value.bodyEnd
  {
    hide ParseBody, Stacks;
  }

  /** Every byte string the parser accepts is spelled by some transaction. */
  lemma ParsedIsSpelled(raw: Bytes) returns (tx: Tx)
    requires ParseOutputs(raw).Some?
    ensures tx.Ok() && tx.Spell() == raw
  {
    hide Locate, Tx.Ok, Tx.Spell;
    var l := Locate(raw).value;
    LayoutBounds(raw);
    LayoutStart(raw);
    if l.segwit {
      tx := ReadSegwit(raw, l);
    } else {
      tx := ReadLegacy(raw, l);
    }
  }

  /** The parser accepts exactly the transactions of at most 4000000 bytes that the format can spell,
      and answers with their outputs. */
  lemma ParsesIff(raw: Bytes, views: seq<OutputView>)
    ensures ParseOutputs(raw) == Some(views) <==>
            |raw| <= 4_000_000 && exists tx: Tx :: tx.Ok() && tx.Spell() == raw && tx.Views() == views
  {
    hide Locate, Tx.Ok, Tx.Spell, Tx.Views;
    if ParseOutputs(raw).Some? {
      var tx := ParsedIsSpelled(raw);
      SpelledIsParsed(x => x, tx);
    }
    if |raw| <= 4_000_000 && exists tx: Tx :: tx.Ok() && tx.Spell() == raw && tx.Views() == views {
      var tx: Tx :| tx.Ok() && tx.Spell() == raw && tx.Views() == views;
      SpelledIsParsed(x => x, tx);
    }
  }

  lemma SameLists(tx: Tx, tx': Tx)
    requires tx.ListsOk() && tx.ins == tx'.ins && tx.inWidth == tx'.inWidth
    requires tx.outs == tx'.outs && tx.outWidth == tx'.outWidth
    ensures tx'.ListsOk() && tx.Lists() == tx'.Lists()
  {}

  lemma Assembled(raw: Bytes, l: Layout)
    requires 6 <= l.bodyEnd <= l.witnessEnd <= |raw|
    ensures raw == raw[..4] + ([raw[4], raw[5]] + (raw[6..l.bodyEnd] + (raw[l.bodyEnd..][..l.witnessEnd - l.bodyEnd] + raw[l.witnessEnd..])))
  {}
}
