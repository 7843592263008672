/** The receipt extension of src/poawx.rs: a fixed head and up to ten magic-tagged sections.
    Records defined in other files travel as their wire bytes, and a predicate says which bytes
    their own decoder takes. */
module ReceiptExt {
  import opened Basics
  import opened Reading
  import opened Sorting

  const EXT_VERSION: byte := 1

  /** What the decoders of the embedded records accept. */
  datatype Foreign = Foreign(candidates: Bytes -> bool, finality: Bytes -> bool, committed: Bytes -> bool,
                             vrf: Bytes -> bool, fraud: Bytes -> bool)

  // ---------- sections ----------

  datatype SectionKind =
    | Ticket | Dominance | Candidate | Puzzle | Finality
    | Committed | TrueVrf | Fraud | Proposer | Registration

  /** A fixed number of fixed-size records; a counted list of them; two counted lists; one
      length-prefixed record. */
  datatype Shape =
    | Fixed(count: nat, width: nat)
    | Counted(low: nat, high: nat, width: nat)
    | Paired(first: nat, second: nat, width: nat)
    | Lengthed

  function ShapeOf(k: SectionKind): Shape {
    match k
    case Ticket => Fixed(3, 176)
    case Dominance => Fixed(4, 8)
    case Candidate => Lengthed
    case Puzzle => Fixed(3, 41)
    case Finality => Lengthed
    case Committed => Fixed(1, 124)
    case TrueVrf => Fixed(3, 273)
    case Fraud => Counted(1, 16, 515)
    case Proposer => Fixed(1, 277)
    case Registration => Paired(8, 8, 169)
  }

  function Magic(k: SectionKind): (m: Bytes)
    ensures |m| == 4
  {
    match k
    case Ticket => [0x54, 0x50, 0x4b, 0x31]
    case Dominance => [0x44, 0x4f, 0x4d, 0x31]
    case Candidate => [0x43, 0x4e, 0x44, 0x31]
    case Puzzle => [0x50, 0x5a, 0x4c, 0x31]
    case Finality => [0x46, 0x49, 0x4e, 0x31]
    case Committed => [0x43, 0x41, 0x43, 0x31]
    case TrueVrf => [0x41, 0x56, 0x52, 0x32]
    case Fraud => [0x46, 0x52, 0x44, 0x31]
    case Proposer => [0x50, 0x52, 0x50, 0x31]
    case Registration => [0x50, 0x52, 0x47, 0x31]
  }

  const KINDS: seq<SectionKind> :=
    [Ticket, Dominance, Candidate, Puzzle, Finality, Committed, TrueVrf, Fraud, Proposer, Registration]

  /** The dispatch of the section loop. */
  function KindOf(m: Bytes): (k: Option<SectionKind>)
    ensures k.Some? ==> Magic(k.value) == m
  {
    if m == Magic(Ticket) then Some(Ticket)
    else if m == Magic(Dominance) then Some(Dominance)
    else if m == Magic(Candidate) then Some(Candidate)
    else if m == Magic(Puzzle) then Some(Puzzle)
    else if m == Magic(Finality) then Some(Finality)
    else if m == Magic(Committed) then Some(Committed)
    else if m == Magic(TrueVrf) then Some(TrueVrf)
    else if m == Magic(Fraud) then Some(Fraud)
    else if m == Magic(Proposer) then Some(Proposer)
    else if m == Magic(Registration) then Some(Registration)
    else None
  }

  /** The records of a section; `more` is the second list of a paired one. */
  datatype Section = Section(kind: SectionKind, items: seq<Bytes>, more: seq<Bytes>)

  predicate ItemOk(f: Foreign, k: SectionKind, item: Bytes) {
    match k
    case Candidate => f.candidates(item)
    case Finality => f.finality(item)
    case Committed => f.committed(item)
    case TrueVrf => f.vrf(item)
    case Fraud => f.fraud(item)
    case Proposer => |item| == 277 && f.vrf(item[4..])
    case _ => true
  }

  predicate AllItems(f: Foreign, k: SectionKind, width: nat, items: seq<Bytes>)
    decreases |items|
  {
    items == [] || (|items[0]| == width && ItemOk(f, k, items[0]) && AllItems(f, k, width, items[1..]))
  }

  predicate SectionOk(f: Foreign, s: Section) {
    match ShapeOf(s.kind)
    case Fixed(count, width) => |s.items| == count && s.more == [] && AllItems(f, s.kind, width, s.items)
    case Counted(low, high, width) => low <= |s.items| <= high && s.more == [] && AllItems(f, s.kind, width, s.items)
    case Paired(first, second, width) =>
      |s.items| <= first && |s.more| <= second &&
      AllItems(f, s.kind, width, s.items) && AllItems(f, s.kind, width, s.more)
    case Lengthed =>
      |s.items| == 1 && s.more == [] && |s.items[0]| < 0x1_0000_0000 && ItemOk(f, s.kind, s.items[0])
  }

  function Concat(items: seq<Bytes>): Bytes
    decreases |items|
  {
    if items == [] then [] else items[0] + Concat(items[1..])
  }

  function Payload(s: Section): Bytes {
    match ShapeOf(s.kind)
    case Fixed(_, _) => Concat(s.items)
    case Counted(_, _, _) => LeBytes(|s.items|, 2) + Concat(s.items)
    case Paired(_, _, _) => (LeBytes(|s.items|, 2) + Concat(s.items)) + (LeBytes(|s.more|, 2) + Concat(s.more))
    case Lengthed => if s.items == [] then [] else LeBytes(|s.items[0]|, 4) + s.items[0]
  }

  function EncodeSection(s: Section): Bytes {
    Magic(s.kind) + Payload(s)
  }

  // ---------- section readers ----------

  function ReadItems(f: Foreign, k: SectionKind, s: Bytes, count: nat, width: nat): (r: Option<Read<seq<Bytes>>>)
    ensures r.Some? ==> r.value.used <= |s|
    decreases count, s
  {
    if count == 0 then Some(Read([], 0))
    else if |s| < width || !ItemOk(f, k, s[..width]) then None
    else match ReadItems(f, k, s[width..], count - 1, width)
      case None => None
      case Some(rest) => Some(Read([s[..width]] + rest.value, width + rest.used))
  }

  /** A u16 count within bounds, then that many records. */
  function ReadCounted(f: Foreign, k: SectionKind, s: Bytes, low: nat, high: nat, width: nat): (r: Option<Read<seq<Bytes>>>)
    ensures r.Some? ==> r.value.used <= |s|
  {
    match Number(s, 2)
    case None => None
    case Some(count) =>
      if count.value < low || count.value > high then None
      else match ReadItems(f, k, s[2..], count.value, width)
        case None => None
        case Some(items) => Some(Read(items.value, 2 + items.used))
  }

  function ReadPayload(f: Foreign, k: SectionKind, s: Bytes): (r: Option<Read<Section>>)
    ensures r.Some? ==> r.value.used <= |s| && r.value.value.kind == k
  {
    match ShapeOf(k)
    case Fixed(count, width) =>
      (match ReadItems(f, k, s, count, width)
       case None => None
       case Some(items) => Some(Read(Section(k, items.value, []), items.used)))
    case Counted(low, high, width) =>
      (match ReadCounted(f, k, s, low, high, width)
       case None => None
       case Some(items) => Some(Read(Section(k, items.value, []), items.used)))
    case Paired(first, second, width) =>
      (match ReadCounted(f, k, s, 0, first, width)
       case None => None
       case Some(items) =>
         match ReadCounted(f, k, s[items.used..], 0, second, width)
         case None => None
         case Some(more) => Some(Read(Section(k, items.value, more.value), items.used + more.used)))
    case Lengthed =>
      (match Number(s, 4)
       case None => None
       case Some(len) =>
         if 4 + len.value > |s| || !ItemOk(f, k, s[4..4 + len.value]) then None
         else Some(Read(Section(k, [s[4..4 + len.value]], []), 4 + len.value)))
  }

  /** One section: its magic and what it announces. */
  function ReadSection(f: Foreign, s: Bytes): (r: Option<Read<Section>>)
    ensures r.Some? ==> 4 <= r.value.used <= |s|
  {
    if |s| < 4 then None
    else match KindOf(s[..4])
      case None => None
      case Some(k) =>
        match ReadPayload(f, k, s[4..])
        case None => None
        case Some(p) => Some(Read(p.value, 4 + p.used))
  }

  type Sections = map<SectionKind, Section>

  /** The section loop: every byte must belong to a known section, no kind twice. */
  function ReadSections(f: Foreign, s: Bytes, seen: Sections): Option<Sections>
    decreases |s|
  {
    if s == [] then Some(seen)
    else match ReadSection(f, s)
      case None => None
      case Some(r) =>
        if r.value.kind in seen then None
        else ReadSections(f, s[r.used..], seen[r.value.kind := r.value])
  }

  // ---------- a section reads back ----------

  lemma CountBytes(n: nat, t: Bytes)
    requires n < 0x1_0000
    ensures Number(LeBytes(n, 2) + t, 2) == Some(Read(n, 2)) && (LeBytes(n, 2) + t)[2..] == t
  {
    hide LeBytes, LeValue;
    Pow256Values();
    LeRoundTrip(n, 2);
    assert (LeBytes(n, 2) + t)[..2] == LeBytes(n, 2);
  }

  lemma LengthBytes(n: nat, t: Bytes)
    requires n < 0x1_0000_0000
    ensures Number(LeBytes(n, 4) + t, 4) == Some(Read(n, 4)) && (LeBytes(n, 4) + t)[4..] == t
  {
    hide LeBytes, LeValue;
    Pow256Values();
    LeRoundTrip(n, 4);
    assert (LeBytes(n, 4) + t)[..4] == LeBytes(n, 4);
  }

  lemma ReadItemsStep(f: Foreign, k: SectionKind, item: Bytes, u: Bytes, count: nat)
    requires ItemOk(f, k, item) && ReadItems(f, k, u, count, |item|).Some?
    ensures var rest := ReadItems(f, k, u, count, |item|).value;
            ReadItems(f, k, item + u, count + 1, |item|) == Some(Read([item] + rest.value, |item| + rest.used))
  {
    hide ItemOk;
    assert (item + u)[..|item|] == item && (item + u)[|item|..] == u;
  }

  lemma ConcatStep(items: seq<Bytes>, t: Bytes)
    requires items != []
    ensures Concat(items) + t == items[0] + (Concat(items[1..]) + t)
    ensures |Concat(items)| == |items[0]| + |Concat(items[1..])|
  {}

  lemma {:induction false} ItemsRoundTrip(f: Foreign, k: SectionKind, items: seq<Bytes>, width: nat, t: Bytes)
    requires AllItems(f, k, width, items)
    ensures ReadItems(f, k, Concat(items) + t, |items|, width) == Some(Read(items, |Concat(items)|))
  {
    if items == [] {
    } else {
      var rest := items[1..];
      assert ItemOk(f, k, items[0]) && |items[0]| == width && AllItems(f, k, width, rest);
      hide ItemOk, ReadItems, Concat, AllItems;
      ItemsRoundTrip(f, k, rest, width, t);
      ReadItemsStep(f, k, items[0], Concat(rest) + t, |rest|);
      ConcatStep(items, t);
      assert items == [items[0]] + rest;
    }
  }

  lemma CountedRoundTrip(f: Foreign, k: SectionKind, items: seq<Bytes>, low: nat, high: nat, width: nat, t: Bytes)
    requires AllItems(f, k, width, items) && low <= |items| <= high < 0x1_0000
    ensures var b := LeBytes(|items|, 2) + Concat(items);
            ReadCounted(f, k, b + t, low, high, width) == Some(Read(items, |b|))
  {
    hide AllItems, ReadItems, LeBytes, Number;
    assert LeBytes(|items|, 2) + Concat(items) + t == LeBytes(|items|, 2) + (Concat(items) + t);
    CountBytes(|items|, Concat(items) + t);
    ItemsRoundTrip(f, k, items, width, t);
  }

  lemma ShapeBounds(k: SectionKind)
    ensures ShapeOf(k).Counted? ==> ShapeOf(k).high < 0x1_0000
    ensures ShapeOf(k).Paired? ==> ShapeOf(k).first < 0x1_0000 && ShapeOf(k).second < 0x1_0000
  {}

  lemma PayloadRoundTrip(f: Foreign, s: Section, t: Bytes)
    requires SectionOk(f, s)
    ensures ReadPayload(f, s.kind, Payload(s) + t) == Some(Read(s, |Payload(s)|))
  {
    hide AllItems, ReadItems, ReadCounted, LeBytes, Concat, ItemOk, Number, ShapeOf;
    match ShapeOf(s.kind)
    case Fixed(count, width) => ItemsRoundTrip(f, s.kind, s.items, width, t);
    case Counted(low, high, width) =>
      ShapeBounds(s.kind);
      CountedRoundTrip(f, s.kind, s.items, low, high, width, t);
    case Paired(first, second, width) =>
      ShapeBounds(s.kind);
      var a, b := LeBytes(|s.items|, 2) + Concat(s.items), LeBytes(|s.more|, 2) + Concat(s.more);
      assert a + b + t == a + (b + t);
      CountedRoundTrip(f, s.kind, s.items, 0, first, width, b + t);
      CountedRoundTrip(f, s.kind, s.more, 0, second, width, t);
      assert (a + (b + t))[|a|..] == b + t;
    case Lengthed =>
      var item := s.items[0];
      var b := LeBytes(|item|, 4) + item + t;
      assert b == LeBytes(|item|, 4) + (item + t);
      LengthBytes(|item|, item + t);
      assert b[4..4 + |item|] == item;
      assert s.items == [item];
  }

  lemma MagicKnown(k: SectionKind)
    ensures KindOf(Magic(k)) == Some(k)
  {}

  /** A well-formed section reads back as itself, using exactly its own bytes whatever follows. */
  lemma SectionRoundTrip(f: Foreign, s: Section, t: Bytes)
    requires SectionOk(f, s)
    ensures ReadSection(f, EncodeSection(s) + t) == Some(Read(s, |EncodeSection(s)|))
  {
    hide SectionOk, ReadPayload, Payload, KindOf, Magic;
    var b := EncodeSection(s) + t;
    assert b == Magic(s.kind) + (Payload(s) + t);
    assert b[..4] == Magic(s.kind) && b[4..] == Payload(s) + t;
    MagicKnown(s.kind);
    PayloadRoundTrip(f, s, t);
  }

  // ---------- what is read was encoded ----------

  lemma {:induction false} ItemsExact(f: Foreign, k: SectionKind, s: Bytes, count: nat, width: nat)
    requires ReadItems(f, k, s, count, width).Some?
    ensures var r := ReadItems(f, k, s, count, width).value;
            |r.value| == count && AllItems(f, k, width, r.value) && Concat(r.value) == s[..r.used]
    decreases count
  {
    if count == 0 {
    } else {
      hide ItemOk;
      ItemsExact(f, k, s[width..], count - 1, width);
      var rest := ReadItems(f, k, s[width..], count - 1, width).value;
      var items := [s[..width]] + rest.value;
      assert items[1..] == rest.value;
      assert s[..width + rest.used] == s[..width] + s[width..][..rest.used];
    }
  }

  lemma CountedExact(f: Foreign, k: SectionKind, s: Bytes, low: nat, high: nat, width: nat)
    requires ReadCounted(f, k, s, low, high, width).Some?
    ensures var r := ReadCounted(f, k, s, low, high, width).value;
            low <= |r.value| <= high && AllItems(f, k, width, r.value) &&
            LeBytes(|r.value|, 2) + Concat(r.value) == s[..r.used]
  {
    hide AllItems, ReadItems, LeBytes, LeValue, Concat;
    NumberBytes(s, 2);
    var count := Number(s, 2).value.value;
    ItemsExact(f, k, s[2..], count, width);
    var used := ReadItems(f, k, s[2..], count, width).value.used;
    assert s[..2 + used] == s[..2] + s[2..][..used];
  }

  lemma PayloadExact(f: Foreign, k: SectionKind, s: Bytes)
    requires ReadPayload(f, k, s).Some?
    ensures var r := ReadPayload(f, k, s).value;
            SectionOk(f, r.value) && Payload(r.value) == s[..r.used]
  {
    hide AllItems, ReadItems, ReadCounted, LeBytes, LeValue, Concat, ItemOk, ShapeOf;
    match ShapeOf(k)
    case Fixed(count, width) => ItemsExact(f, k, s, count, width);
    case Counted(low, high, width) => CountedExact(f, k, s, low, high, width);
    case Paired(first, second, width) =>
      CountedExact(f, k, s, 0, first, width);
      var a := ReadCounted(f, k, s, 0, first, width).value;
      CountedExact(f, k, s[a.used..], 0, second, width);
      var b := ReadCounted(f, k, s[a.used..], 0, second, width).value;
      assert s[..a.used + b.used] == s[..a.used] + s[a.used..][..b.used];
    case Lengthed =>
      Pow256Values();
      NumberBytes(s, 4);
      var len := Number(s, 4).value.value;
      assert s[..4 + len] == s[..4] + s[4..4 + len];
  }

  /** What the section reader takes is the encoding of the well-formed section it returns. */
  lemma SectionExact(f: Foreign, s: Bytes)
    requires ReadSection(f, s).Some?
    ensures var r := ReadSection(f, s).value;
            SectionOk(f, r.value) && EncodeSection(r.value) == s[..r.used]
  {
    hide SectionOk, ReadPayload, Payload, KindOf, Magic;
    var k := KindOf(s[..4]).value;
    PayloadExact(f, k, s[4..]);
    var used := ReadPayload(f, k, s[4..]).value.used;
    assert s[..4 + used] == s[..4] + s[4..][..used];
  }

  // ---------- any order of sections ----------

  /** Well-formed sections of kinds that are new each time. */
  ghost predicate Fits(f: Foreign, order: seq<Section>, seen: Sections)
    decreases |order|
  {
    order == [] ||
    (SectionOk(f, order[0]) && order[0].kind !in seen && Fits(f, order[1..], seen[order[0].kind := order[0]]))
  }

  function EncodeAll(order: seq<Section>): Bytes
    decreases |order|
  {
    if order == [] then [] else EncodeSection(order[0]) + EncodeAll(order[1..])
  }

  function Collect(order: seq<Section>, seen: Sections): Sections
    decreases |order|
  {
    if order == [] then seen else Collect(order[1..], seen[order[0].kind := order[0]])
  }

  /** Sections of distinct kinds are read back, in whatever order they stand. */
  lemma {:induction false} SectionsRoundTrip(f: Foreign, order: seq<Section>, seen: Sections)
    requires Fits(f, order, seen)
    ensures ReadSections(f, EncodeAll(order), seen) == Some(Collect(order, seen))
    decreases |order|
  {
    if order == [] {
    } else {
      hide SectionOk, ReadSection, EncodeSection;
      var s, rest := order[0], order[1..];
      SectionRoundTrip(f, s, EncodeAll(rest));
      assert EncodeAll(order)[|EncodeSection(s)|..] == EncodeAll(rest);
      SectionsRoundTrip(f, rest, seen[s.kind := s]);
    }
  }

  /** Whatever the section loop accepts is such a concatenation, and the order can be read off. */
  lemma {:induction false} SectionsExact(f: Foreign, s: Bytes, seen: Sections) returns (order: seq<Section>)
    requires ReadSections(f, s, seen).Some?
    ensures Fits(f, order, seen) && s == EncodeAll(order)
    ensures ReadSections(f, s, seen) == Some(Collect(order, seen))
    decreases |s|
  {
    hide SectionOk, ReadSection, EncodeSection;
    if s == [] {
      order := [];
    } else {
      SectionExact(f, s);
      var r := ReadSection(f, s).value;
      var rest := SectionsExact(f, s[r.used..], seen[r.value.kind := r.value]);
      order := [r.value] + rest;
      assert order[1..] == rest && s == s[..r.used] + s[r.used..];
    }
  }

  // ---------- the order does not matter ----------

  ghost predicate KindsDiffer(order: seq<Section>) {
    forall i, j | 0 <= i < j < |order| :: order[i].kind != order[j].kind
  }

  ghost predicate Unseen(f: Foreign, order: seq<Section>, seen: Sections) {
    forall s | s in order :: SectionOk(f, s) && s.kind !in seen
  }

  lemma {:induction false} FitsApart(f: Foreign, order: seq<Section>, seen: Sections)
    requires Fits(f, order, seen)
    ensures Unseen(f, order, seen) && KindsDiffer(order)
    decreases |order|
  {
    if order == [] {
    } else {
      hide SectionOk;
      var s, rest := order[0], order[1..];
      FitsApart(f, rest, seen[s.kind := s]);
      assert order == [s] + rest;
      forall i, j | 0 <= i < j < |order|
        ensures order[i].kind != order[j].kind
      {
        assert order[j] == rest[j - 1];
        if i > 0 { assert order[i] == rest[i - 1]; }
      }
    }
  }

  lemma {:induction false} ApartFits(f: Foreign, order: seq<Section>, seen: Sections)
    requires Unseen(f, order, seen) && KindsDiffer(order)
    ensures Fits(f, order, seen)
    decreases |order|
  {
    if order == [] {
    } else {
      hide SectionOk;
      var s, rest := order[0], order[1..];
      forall r | r in rest
        ensures SectionOk(f, r) && r.kind !in seen[s.kind := s]
      {
        var j :| 0 <= j < |rest| && rest[j] == r;
        assert order[j + 1] == r && order[0] == s;
      }
      assert KindsDiffer(rest) by { ApartTail(order); }
      ApartFits(f, rest, seen[s.kind := s]);
    }
  }

  lemma ApartTail(order: seq<Section>)
    requires order != [] && KindsDiffer(order)
    ensures KindsDiffer(order[1..])
  {}

  /** The value collected: each section under its kind, and what was there before. */
  ghost predicate Holds(m: Sections, order: seq<Section>, seen: Sections) {
    (forall k | k in m && k !in seen :: m[k] in order && m[k].kind == k) &&
    (forall s | s in order :: s.kind in m && m[s.kind] == s) &&
    (forall k | k in seen :: k in m && m[k] == seen[k])
  }

  lemma {:induction false} CollectHolds(f: Foreign, order: seq<Section>, seen: Sections)
    requires Fits(f, order, seen)
    ensures Holds(Collect(order, seen), order, seen)
    decreases |order|
  {
    if order == [] {
    } else {
      hide SectionOk, Holds;
      var s, rest := order[0], order[1..];
      CollectHolds(f, rest, seen[s.kind := s]);
      HoldsStep(Collect(rest, seen[s.kind := s]), s, rest, seen);
      assert order == [s] + rest;
    }
  }

  lemma HoldsStep(m: Sections, s: Section, rest: seq<Section>, seen: Sections)
    requires s.kind !in seen && Holds(m, rest, seen[s.kind := s])
    ensures Holds(m, [s] + rest, seen)
  {}

  lemma HoldsUnique(m: Sections, m': Sections, order: seq<Section>, order': seq<Section>)
    requires Holds(m, order, map[]) && Holds(m', order', map[])
    requires forall s :: s in order <==> s in order'
    ensures m == m'
  {}

  /** Two orders of the same sections are both accepted and decode to the same value. */
  lemma OrderIrrelevant(f: Foreign, order: seq<Section>, order': seq<Section>)
    requires Fits(f, order, map[]) && multiset(order) == multiset(order')
    ensures ReadSections(f, EncodeAll(order), map[]).Some?
    ensures ReadSections(f, EncodeAll(order), map[]) == ReadSections(f, EncodeAll(order'), map[])
  {
    hide ReadSections, EncodeAll, Holds, Collect, Fits, SectionOk, KindsDiffer;
    SameMembers(order, order');
    FitsApart(f, order, map[]);
    ApartPermuted(order, order');
    ApartFits(f, order', map[]);
    SectionsRoundTrip(f, order, map[]);
    SectionsRoundTrip(f, order', map[]);
    CollectHolds(f, order, map[]);
    CollectHolds(f, order', map[]);
    HoldsUnique(Collect(order, map[]), Collect(order', map[]), order, order');
  }

  lemma ApartPermuted(order: seq<Section>, order': seq<Section>)
    requires KindsDiffer(order) && multiset(order) == multiset(order')
    ensures KindsDiffer(order')
  {
    SameMembers(order, order');
    forall i, j | 0 <= i < j < |order'|
      ensures order'[i].kind != order'[j].kind
    {
      if order'[i].kind == order'[j].kind {
        assert order'[i] in order && order'[j] in order;
        TwiceIn(order', i, j);
        DistinctOnce(order, order'[i]);
        assert false;
      }
    }
  }

  lemma {:induction false} DistinctOnce(order: seq<Section>, s: Section)
    requires KindsDiffer(order)
    ensures multiset(order)[s] <= 1
  {
    if order == [] {
    } else {
      assert order == [order[0]] + order[1..];
      DistinctOnce(order[1..], s);
    }
  }
}
