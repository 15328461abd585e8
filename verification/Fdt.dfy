/** Flattened device trees: the serializer's layout and a parser for the structure and
    strings blocks (sections 5.4 and 5.5 of the Devicetree Specification v0.4). */
module Fdt {
  import opened Words
  import opened Options

  datatype Prop = Prop(name: seq<Byte>, data: seq<Byte>)

  datatype Node = Node(name: seq<Byte>, props: seq<Prop>, children: seq<Node>)

  const BEGIN_NODE: nat := 1
  const END_NODE: nat := 2
  const PROP: nat := 3
  const END: nat := 9

  // Cells and padding -------------------------------------------------------------------

  function Align4(n: nat): (r: nat)
    ensures n <= r < n + 4 && r % 4 == 0
  {
    (n + 3) / 4 * 4
  }

  function BE32(v: nat): (b: seq<Byte>)
    ensures |b| == 4
  {
    [v / 0x100_0000 % 256, v / 0x1_0000 % 256, v / 0x100 % 256, v % 256]
  }

  function FromBE(b: seq<Byte>): nat
    requires |b| == 4
  {
    (b[0] as int) * 0x100_0000 + (b[1] as int) * 0x1_0000 + (b[2] as int) * 0x100 + b[3] as int
  }

  lemma CellRoundTrip(v: nat)
    requires v < M32
    ensures FromBE(BE32(v)) == v
  {
    var a, b, c := v / 0x100, v / 0x1_0000, v / 0x100_0000;
    assert v == a * 0x100 + v % 0x100;
    assert a == b * 0x100 + a % 0x100 by { DivTwice(v, 0x100, 0x100); }
    assert b == c * 0x100 + b % 0x100 by { DivTwice(v, 0x1_0000, 0x100); }
    assert c < 256;
  }

  function Zeros(n: nat): (z: seq<Byte>)
    ensures |z| == n && forall i | 0 <= i < n :: z[i] == 0
  {
    seq(n, _ => 0)
  }

  function Pad4(s: seq<Byte>): (p: seq<Byte>)
    ensures |p| == Align4(|s|) && s <= p
  {
    s + Zeros(Align4(|s|) - |s|)
  }

  /** A NUL-terminated string, padded to a cell. */
  function Str(s: seq<Byte>): seq<Byte> { Pad4(s + [0]) }

  // The two blocks -----------------------------------------------------------------------

  function PropStrings(props: seq<Prop>): seq<Byte>
  {
    if props == [] then [] else Str(props[0].name) + PropStrings(props[1..])
  }

  function Strings(n: Node): seq<Byte> { PropStrings(n.props) + KidStrings(n.children) }

  function KidStrings(kids: seq<Node>): seq<Byte>
  {
    if kids == [] then [] else Strings(kids[0]) + KidStrings(kids[1..])
  }

  /** A property whose name will sit at offset `off` of the strings block. */
  function PropCells(p: Prop, off: nat): seq<Byte> { BE32(PROP) + BE32(|p.data|) + BE32(off) + Pad4(p.data) }

  function PropsStruct(props: seq<Prop>, off: nat): seq<Byte>
  {
    if props == [] then [] else PropCells(props[0], off) + PropsStruct(props[1..], off + |Str(props[0].name)|)
  }

  function Struct(n: Node, off: nat): seq<Byte>
  {
    BE32(BEGIN_NODE) + Str(n.name) + PropsStruct(n.props, off) + KidsStruct(n.children, off + |PropStrings(n.props)|)
        + BE32(END_NODE)
  }

  function KidsStruct(kids: seq<Node>, off: nat): seq<Byte>
  {
    if kids == [] then [] else Struct(kids[0], off) + KidsStruct(kids[1..], off + |Strings(kids[0])|)
  }

  // Sizes (get_tree_size) ------------------------------------------------------------------

  function StructSize(n: Node): nat
  {
    4 + Align4(|n.name| + 1) + PropsSize(n.props) + KidsSize(n.children) + 4
  }

  function PropsSize(props: seq<Prop>): nat
  {
    if props == [] then 0 else 12 + Align4(|props[0].data|) + PropsSize(props[1..])
  }

  function KidsSize(kids: seq<Node>): nat { if kids == [] then 0 else StructSize(kids[0]) + KidsSize(kids[1..]) }

  function StringsSize(n: Node): nat { NamesSize(n.props) + KidNamesSize(n.children) }

  function NamesSize(props: seq<Prop>): nat
  {
    if props == [] then 0 else Align4(|props[0].name| + 1) + NamesSize(props[1..])
  }

  function KidNamesSize(kids: seq<Node>): nat
  {
    if kids == [] then 0 else StringsSize(kids[0]) + KidNamesSize(kids[1..])
  }

  lemma {:induction false} StringsSizeExact(n: Node)
    ensures |Strings(n)| == StringsSize(n)
    decreases n, 1
  {
    NamesSizeExact(n.props);
    KidNamesSizeExact(n.children);
  }

  lemma {:induction false} NamesSizeExact(props: seq<Prop>)
    ensures |PropStrings(props)| == NamesSize(props)
  {
    if props != [] { NamesSizeExact(props[1..]); }
  }

  lemma {:induction false} KidNamesSizeExact(kids: seq<Node>)
    ensures |KidStrings(kids)| == KidNamesSize(kids)
    decreases kids, 0
  {
    if kids != [] {
      StringsSizeExact(kids[0]);
      KidNamesSizeExact(kids[1..]);
    }
  }

  /** The precomputed size is what is written, wherever the strings end up. */
  lemma {:induction false} StructSizeExact(n: Node, off: nat)
    ensures |Struct(n, off)| == StructSize(n)
    decreases n, 1
  {
    PropsSizeExact(n.props, off);
    KidsSizeExact(n.children, off + |PropStrings(n.props)|);
  }

  lemma {:induction false} PropsSizeExact(props: seq<Prop>, off: nat)
    ensures |PropsStruct(props, off)| == PropsSize(props)
  {
    if props != [] { PropsSizeExact(props[1..], off + |Str(props[0].name)|); }
  }

  lemma {:induction false} KidsSizeExact(kids: seq<Node>, off: nat)
    ensures |KidsStruct(kids, off)| == KidsSize(kids)
    decreases kids, 0
  {
    if kids != [] {
      StructSizeExact(kids[0], off);
      KidsSizeExact(kids[1..], off + |Strings(kids[0])|);
    }
  }

  // The parser ---------------------------------------------------------------------------------

  /** The cell at a position, if it is there. */
  function Cell(b: seq<Byte>, at: nat): Option<nat>
  {
    if at + 4 <= |b| then Some(FromBE(b[at..at + 4])) else None
  }

  /** The bytes from a position up to the next NUL. */
  function CString(b: seq<Byte>, at: nat): (r: Option<seq<Byte>>)
    ensures r.Some? ==> at + |r.value| < |b|
    decreases |b| - at
  {
    if at >= |b| then None
    else if b[at] == 0 then Some([])
    else
      match CString(b, at + 1)
      case None => None
      case Some(s) => Some([b[at]] + s)
  }

  datatype Parsed<T> = Parsed(value: T, next: nat)

  function ParseProps(b: seq<Byte>, strings: seq<Byte>, at: nat): (r: Option<Parsed<seq<Prop>>>)
    ensures r.Some? ==> at <= r.value.next
    decreases |b| - at
  {
    if Cell(b, at) != Some(PROP) then Some(Parsed([], at))
    else
      match (Cell(b, at + 4), Cell(b, at + 8))
      case (Some(len), Some(off)) =>
        var name := CString(strings, off);
        if name.None? || at + 12 + len > |b| then None
        else
          (match ParseProps(b, strings, Align4(at + 12 + len))
           case None => None
           case Some(rest) => Some(Parsed([Prop(name.value, b[at + 12..at + 12 + len])] + rest.value, rest.next)))
      case _ => None
  }

  function ParseNode(b: seq<Byte>, strings: seq<Byte>, at: nat): (r: Option<Parsed<Node>>)
    ensures r.Some? ==> at < r.value.next
    decreases |b| - at, 1
  {
    if Cell(b, at) != Some(BEGIN_NODE) then None
    else
      match CString(b, at + 4)
      case None => None
      case Some(name) =>
        match ParseProps(b, strings, Align4(at + 4 + |name| + 1))
        case None => None
        case Some(props) =>
          match ParseKids(b, strings, props.next)
          case None => None
          case Some(kids) =>
            if Cell(b, kids.next) ==
                Some(END_NODE) then Some(Parsed(Node(name, props.value, kids.value), kids.next + 4)) else None
  }

  function ParseKids(b: seq<Byte>, strings: seq<Byte>, at: nat): (r: Option<Parsed<seq<Node>>>)
    ensures r.Some? ==> at <= r.value.next
    decreases |b| - at, 2
  {
    if Cell(b, at) != Some(BEGIN_NODE) then Some(Parsed([], at))
    else
      match ParseNode(b, strings, at)
      case None => None
      case Some(n) =>
        match ParseKids(b, strings, n.next)
        case None => None
        case Some(rest) => Some(Parsed([n.value] + rest.value, rest.next))
  }

  // Round trip ------------------------------------------------------------------------------------

  predicate NulFree(s: seq<Byte>) { forall i | 0 <= i < |s| :: s[i] != 0 }

  /** Names without NUL and sizes that fit a cell. */
  predicate NodeOk(n: Node) { NulFree(n.name) && PropsOk(n.props) && KidsOk(n.children) }

  predicate PropsOk(props: seq<Prop>) { forall p | p in props :: NulFree(p.name) && |p.data| < M32 }

  predicate KidsOk(kids: seq<Node>) { forall k | k in kids :: NodeOk(k) }

  /** b holds s at this position. */
  predicate At(b: seq<Byte>, at: nat, s: seq<Byte>) { at + |s| <= |b| && b[at..at + |s|] == s }

  lemma AtSplit(b: seq<Byte>, at: nat, s: seq<Byte>, t: seq<Byte>)
    requires At(b, at, s + t)
    ensures At(b, at, s) && At(b, at + |s|, t)
  {
    assert b[at..at + |s|] == (s + t)[..|s|];
    assert b[at + |s|..at + |s| + |t|] == (s + t)[|s|..];
  }

  lemma CellAt(b: seq<Byte>, at: nat, v: nat)
    requires At(b, at, BE32(v)) && v < M32
    ensures Cell(b, at) == Some(v)
  {
    CellRoundTrip(v);
  }

  lemma {:induction false} CStringAt(b: seq<Byte>, at: nat, s: seq<Byte>)
    requires At(b, at, s + [0]) && NulFree(s)
    ensures CString(b, at) == Some(s)
    decreases |s|
  {
    assert b[at..at + |s| + 1] == s + [0];
    assert b[at] == (s + [0])[0];
    if s != [] {
      assert b[at + 1..at + 1 + |s[1..]| + 1] == (s + [0])[1..] == s[1..] + [0];
      CStringAt(b, at + 1, s[1..]);
      assert s == [s[0]] + s[1..];
    }
  }

  lemma StrAt(b: seq<Byte>, at: nat, s: seq<Byte>)
    requires At(b, at, Str(s)) && NulFree(s)
    ensures CString(b, at) == Some(s)
  {
    AtSplit(b, at, s + [0], Zeros(Align4(|s| + 1) - |s| - 1));
    CStringAt(b, at, s);
  }

  lemma AlignShift(at: nat, n: nat)
    requires at % 4 == 0
    ensures Align4(at + n) == at + Align4(n)
  {
  }

  lemma {:induction false} RoundProps(b: seq<Byte>, strings: seq<Byte>, at: nat, props: seq<Prop>, off: nat)
    requires PropsOk(props) && at % 4 == 0 && off + |PropStrings(props)| < M32
    requires At(b, at, PropsStruct(props, off)) && At(strings, off, PropStrings(props))
    requires Cell(b, at + |PropsStruct(props, off)|) != Some(PROP)
    ensures ParseProps(b, strings, at) == Some(Parsed(props, at + |PropsStruct(props, off)|))
    ensures (at + |PropsStruct(props, off)|) % 4 == 0
    decreases |props|
  {
    hide Str, Pad4, BE32, Align4, CString, Cell, NulFree, PropCells, At, ParseProps, PropsStruct, PropStrings;
    if props == [] {
      NoProps(b, strings, at, off);
    } else {
      var p := props[0];
      PropsUnfold(props, off);
      AtSplit(b, at, PropCells(p, off), PropsStruct(props[1..], off + |Str(p.name)|));
      AtSplit(strings, off, Str(p.name), PropStrings(props[1..]));
      AtProp(b, at, p, off);
      StrAt(strings, off, p.name);
      RoundProps(b, strings, at + |PropCells(p, off)|, props[1..], off + |Str(p.name)|);
      ParsePropsCons(b, strings, at, p, off, props[1..], at + |PropsStruct(props, off)|);
      assert props == [p] + props[1..];
    }
  }

  lemma NoProps(b: seq<Byte>, strings: seq<Byte>, at: nat, off: nat)
    ensures PropsStruct([], off) == []
    ensures Cell(b, at) != Some(PROP) ==> ParseProps(b, strings, at) == Some(Parsed([], at))
  {
  }

  lemma PropsUnfold(props: seq<Prop>, off: nat)
    requires props != []
    ensures PropsStruct(props, off) == PropCells(props[0], off) + PropsStruct(props[1..], off + |Str(props[0].name)|)
    ensures PropStrings(props) == Str(props[0].name) + PropStrings(props[1..])
  {
  }

  lemma ParsePropsCons(b: seq<Byte>, strings: seq<Byte>, at: nat, p: Prop, off: nat, rest: seq<Prop>, next: nat)
    requires Cell(b, at) == Some(PROP) && Cell(b, at + 4) == Some(|p.data|) && Cell(b, at + 8) == Some(off)
    requires at + 12 + |p.data| <= |b| && b[at + 12..at + 12 + |p.data|] == p.data
    requires CString(strings, off) == Some(p.name)
    requires ParseProps(b, strings, Align4(at + 12 + |p.data|)) == Some(Parsed(rest, next))
    ensures ParseProps(b, strings, at) == Some(Parsed([p] + rest, next))
  {
    hide Cell, CString, Align4;
  }

  lemma AtProp(b: seq<Byte>, at: nat, p: Prop, off: nat)
    requires At(b, at, PropCells(p, off)) && at % 4 == 0 && |p.data| < M32 && off < M32
    ensures Cell(b, at) == Some(PROP) && Cell(b, at + 4) == Some(|p.data|) && Cell(b, at + 8) == Some(off)
    ensures at + 12 + |p.data| <= |b| && b[at + 12..at + 12 + |p.data|] == p.data
    ensures Align4(at + 12 + |p.data|) == at + |PropCells(p, off)| && |PropCells(p, off)| % 4 == 0
  {
    hide BE32, Cell, Align4;
    var x, y, z, d := BE32(PROP), BE32(|p.data|), BE32(off), Pad4(p.data);
    AtSplit(b, at, x + y + z, d);
    AtSplit(b, at, x + y, z);
    AtSplit(b, at, x, y);
    CellAt(b, at, PROP);
    CellAt(b, at + 4, |p.data|);
    CellAt(b, at + 8, off);
    AtSplit(b, at + 12, p.data, Zeros(Align4(|p.data|) - |p.data|));
    AlignShift(at + 12, |p.data|);
  }

  /** Parsing recovers the node from its two blocks. */
  lemma {:induction false} RoundNode(b: seq<Byte>, strings: seq<Byte>, at: nat, n: Node, off: nat)
    requires NodeOk(n) && at % 4 == 0 && off + |Strings(n)| < M32
    requires At(b, at, Struct(n, off)) && At(strings, off, Strings(n))
    ensures ParseNode(b, strings, at) == Some(Parsed(n, at + |Struct(n, off)|)) && (at + |Struct(n, off)|) % 4 == 0
    decreases n, 1
  {
    hide Str, BE32, Align4, CString, Cell, NulFree, At, ParseProps, PropsStruct, PropStrings, KidsStruct, KidStrings,
         ParseKids, PropsOk, ParseNode, Struct;
    var name, props, kids := Str(n.name), PropsStruct(n.props, off),
        KidsStruct(n.children, off + |PropStrings(n.props)|);
    NodeParts(b, at, n, off);
    AtSplit(strings, off, PropStrings(n.props), KidStrings(n.children));
    var p := at + 4 + |name|;
    var q := p + |props|;
    var r := q + |kids|;
    StrAt(b, at + 4, n.name);
    StrSize(n.name, at + 4);
    KidsFirst(b, q, n.children, off + |PropStrings(n.props)|);
    RoundProps(b, strings, p, n.props, off);
    RoundKids(b, strings, q, n.children, off + |PropStrings(n.props)|);
    ParseNodeFrom(b, strings, at, n, q, r);
  }

  /** The five parts of a node's structure, each in its place. */
  lemma NodeParts(b: seq<Byte>, at: nat, n: Node, off: nat)
    requires At(b, at, Struct(n, off))
    ensures var name, props, kids := Str(n.name), PropsStruct(n.props, off),
            KidsStruct(n.children, off + |PropStrings(n.props)|);
            && Cell(b, at) == Some(BEGIN_NODE) && At(b, at + 4, name) && At(b, at + 4 + |name|, props)
            && At(b, at + 4 + |name| + |props|, kids) && Cell(b, at + 4 + |name| + |props| + |kids|) == Some(END_NODE)
            && |Struct(n, off)| == 4 + |name| + |props| + |kids| + 4
  {
    hide Str, BE32, Cell, At, PropsStruct, PropStrings, KidsStruct;
    var head, name, props, kids := BE32(BEGIN_NODE), Str(n.name), PropsStruct(n.props, off),
        KidsStruct(n.children, off + |PropStrings(n.props)|);
    AtSplit(b, at, head + name + props + kids, BE32(END_NODE));
    AtSplit(b, at, head + name + props, kids);
    AtSplit(b, at, head + name, props);
    AtSplit(b, at, head, name);
    CellAt(b, at, BEGIN_NODE);
    CellAt(b, at + 4 + |name| + |props| + |kids|, END_NODE);
  }

  lemma ParseNodeFrom(b: seq<Byte>, strings: seq<Byte>, at: nat, n: Node, q: nat, r: nat)
    requires Cell(b, at) == Some(BEGIN_NODE) && CString(b, at + 4) == Some(n.name)
    requires ParseProps(b, strings, Align4(at + 4 + |n.name| + 1)) == Some(Parsed(n.props, q))
    requires ParseKids(b, strings, q) == Some(Parsed(n.children, r)) && Cell(b, r) == Some(END_NODE)
    ensures ParseNode(b, strings, at) == Some(Parsed(n, r + 4))
  {
    hide Cell, CString, ParseProps, ParseKids, Align4;
  }

  lemma StrSize(s: seq<Byte>, at: nat)
    requires at % 4 == 0
    ensures Align4(at + |s| + 1) == at + |Str(s)| && |Str(s)| % 4 == 0
  {
    hide Zeros;
    AlignShift(at, |s| + 1);
  }

  /** What follows a node's properties is a child or the node's end. */
  lemma KidsFirst(b: seq<Byte>, at: nat, kids: seq<Node>, off: nat)
    requires At(b, at, KidsStruct(kids, off)) && Cell(b, at + |KidsStruct(kids, off)|) == Some(END_NODE)
    ensures Cell(b, at) == Some(if kids == [] then END_NODE else BEGIN_NODE)
  {
    hide BE32, Cell, At, Str, PropsStruct, Strings;
    if kids != [] {
      var k := kids[0];
      AtSplit(b, at, Struct(k, off), KidsStruct(kids[1..], off + |Strings(k)|));
      var rest := Str(k.name) + PropsStruct(k.props, off) + KidsStruct(k.children, off + |PropStrings(k.props)|)
          + BE32(END_NODE);
      assert Struct(k, off) == BE32(BEGIN_NODE) + rest;
      AtSplit(b, at, BE32(BEGIN_NODE), rest);
      CellAt(b, at, BEGIN_NODE);
    }
  }

  lemma {:induction false} RoundKids(b: seq<Byte>, strings: seq<Byte>, at: nat, kids: seq<Node>, off: nat)
    requires KidsOk(kids) && at % 4 == 0 && off + |KidStrings(kids)| < M32
    requires At(b, at, KidsStruct(kids, off)) && At(strings, off, KidStrings(kids))
    requires Cell(b, at + |KidsStruct(kids, off)|) == Some(END_NODE)
    ensures ParseKids(b, strings, at) == Some(Parsed(kids, at + |KidsStruct(kids, off)|))
    ensures (at + |KidsStruct(kids, off)|) % 4 == 0
    decreases kids, 0
  {
    hide Cell, At, Struct, Strings, ParseNode, NodeOk, ParseKids, KidsStruct, KidStrings;
    KidsFirst(b, at, kids, off);
    if kids == [] {
      NoKids(b, strings, at, off);
    } else {
      var k := kids[0];
      KidsUnfold(kids, off);
      AtSplit(b, at, Struct(k, off), KidsStruct(kids[1..], off + |Strings(k)|));
      AtSplit(strings, off, Strings(k), KidStrings(kids[1..]));
      RoundNode(b, strings, at, k, off);
      RoundKids(b, strings, at + |Struct(k, off)|, kids[1..], off + |Strings(k)|);
      ParseKidsCons(b, strings, at, Parsed(k, at + |Struct(k, off)|), Parsed(kids[1..], at + |KidsStruct(kids, off)|));
      assert kids == [k] + kids[1..];
    }
  }

  lemma NoKids(b: seq<Byte>, strings: seq<Byte>, at: nat, off: nat)
    ensures KidsStruct([], off) == []
    ensures Cell(b, at) == Some(END_NODE) ==> ParseKids(b, strings, at) == Some(Parsed([], at))
  {
  }

  lemma KidsUnfold(kids: seq<Node>, off: nat)
    requires kids != []
    ensures KidsStruct(kids, off) == Struct(kids[0], off) + KidsStruct(kids[1..], off + |Strings(kids[0])|)
    ensures KidStrings(kids) == Strings(kids[0]) + KidStrings(kids[1..])
  {
  }

  lemma ParseKidsCons(b: seq<Byte>, strings: seq<Byte>, at: nat, n: Parsed<Node>, rest: Parsed<seq<Node>>)
    requires Cell(b, at) == Some(BEGIN_NODE) && ParseNode(b, strings, at) == Some(n)
    requires ParseKids(b, strings, n.next) == Some(rest)
    ensures ParseKids(b, strings, at) == Some(Parsed([n.value] + rest.value, rest.next))
  {
    hide Cell, ParseNode;
  }
}
