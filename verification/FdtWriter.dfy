/** The serializer itself: two cursors writing one zeroed buffer (libfdt.cpp). */
module FdtWriter {
  import opened Words
  import opened Options
  import opened Fdt

  const HDR_SIZE: nat := 40
  const RSV_SIZE: nat := 16
  const MAGIC: nat := 0xD00D_FEED

  function Splice(b: seq<Byte>, at: nat, s: seq<Byte>): (r: seq<Byte>)
    requires at + |s| <= |b|
    ensures |r| == |b|
  {
    b[..at] + s + b[at + |s|..]
  }

  /** The structure cursor writes x at s, the strings cursor y at t. */
  function Both(b: seq<Byte>, s: nat, x: seq<Byte>, t: nat, y: seq<Byte>): (r: seq<Byte>)
    requires s + |x| <= t && t + |y| <= |b|
    ensures |r| == |b|
  {
    b[..s] + x + b[s + |x|..t] + y + b[t + |y|..]
  }

  lemma BothThen(b: seq<Byte>, s: nat, x: seq<Byte>, t: nat, y: seq<Byte>, x': seq<Byte>, y': seq<Byte>)
    requires s + |x| + |x'| <= t && t + |y| + |y'| <= |b|
    ensures Both(Both(b, s, x, t, y), s + |x|, x', t + |y|, y') == Both(b, s, x + x', t, y + y')
  {
  }

  lemma BothNothing(b: seq<Byte>, s: nat, t: nat)
    requires s <= t <= |b|
    ensures Both(b, s, [], t, []) == b
  {
  }

  /** Everything the cursors have not reached yet is zero. */
  ghost predicate Clean(b: seq<Byte>, s: nat, begin: nat, t: nat, end: nat)
  {
    && s <= begin <= t <= end <= |b| && s % 4 == 0 && t % 4 == 0
    && (forall i | s <= i < begin :: b[i] == 0) && (forall i | t <= i < end :: b[i] == 0)
  }

  lemma CleanThen(b: seq<Byte>, s: nat, begin: nat, t: nat, end: nat, x: seq<Byte>, y: seq<Byte>)
    requires Clean(b, s, begin, t, end) && s + |x| <= begin && t + |y| <= end && |x| % 4 == 0 && |y| % 4 == 0
    ensures Clean(Both(b, s, x, t, y), s + |x|, begin, t + |y|, end)
  {
  }

  lemma PaddedX(b: seq<Byte>, s: nat, begin: nat, t: nat, end: nat, d: seq<Byte>)
    requires Clean(b, s, begin, t, end) && s + |Pad4(d)| <= begin
    ensures Splice(b, s, d) == Both(b, s, Pad4(d), t, [])
  {
  }

  lemma PaddedY(b: seq<Byte>, s: nat, begin: nat, t: nat, end: nat, d: seq<Byte>)
    requires Clean(b, s, begin, t, end) && t + |Pad4(d)| <= end
    ensures Splice(b, t, d) == Both(b, s, [], t, Pad4(d))
  {
  }

  /** What strlen sees of a name: everything before its first NUL. */
  function BeforeNul(s: seq<Byte>): (r: seq<Byte>)
    ensures r <= s && NulFree(r) && (NulFree(s) ==> r == s) && (|r| < |s| ==> s[|r|] == 0)
  {
    if s == [] || s[0] == 0 then [] else [s[0]] + BeforeNul(s[1..])
  }

  class Writer {
    const buf: array<Byte>
    const begin: nat
    const end: nat
    var structOff: nat
    var stringsOff: nat

    constructor (b: array<Byte>, s: nat, t: nat, e: nat)
      ensures buf == b && begin == t && end == e && structOff == s && stringsOff == t
    {
      buf, begin, end, structOff, stringsOff := b, t, e, s, t;
    }

    ghost predicate Valid()
      reads this, buf
    {
      Clean(buf[..], structOff, begin, stringsOff, end)
    }

    /** The cursors have written x and y, and nothing else has changed. */
    twostate predicate Emitted(x: seq<Byte>, y: seq<Byte>)
      requires old(structOff) + |x| <= old(stringsOff) && old(stringsOff) + |y| <= buf.Length
      reads this, buf
    {
      && buf[..] == Both(old(buf[..]), old(structOff), x, old(stringsOff), y)
      && structOff == old(structOff) + |x| && stringsOff == old(stringsOff) + |y|
    }

    method Copy(at: nat, s: seq<Byte>)
      requires at + |s| <= buf.Length
      modifies buf
      ensures buf[..] == Splice(old(buf[..]), at, s)
    {
      for i := 0 to |s|
        invariant forall k | 0 <= k < buf.Length :: buf[k] == if at <= k < at + i then s[k - at] else old(buf[k])
      {
        buf[at + i] := s[i];
      }
      assert buf[..] == Splice(old(buf[..]), at, s);
    }

    method SerU32(v: nat)
      requires Valid() && structOff + 4 <= begin
      modifies this`structOff, buf
      ensures Valid() && Emitted(BE32(v), [])
    {
      hide BE32;
      Copy(structOff, BE32(v));
      SpliceX(old(buf[..]), structOff, stringsOff, BE32(v));
      CleanThen(old(buf[..]), structOff, begin, stringsOff, end, BE32(v), []);
      structOff := structOff + 4;
    }

    method SerString(name: seq<Byte>)
      requires Valid() && structOff + |Str(BeforeNul(name))| <= begin
      modifies this`structOff, buf
      ensures Valid() && Emitted(Str(BeforeNul(name)), [])
    {
      hide Pad4, Clean, BeforeNul, Both, Splice, NulFree, Align4;
      var s := BeforeNul(name);
      StrSize(s, 0);
      CleanFacts(buf[..], structOff, begin, stringsOff, end);
      Copy(structOff, s + [0]);
      PaddedX(old(buf[..]), structOff, begin, stringsOff, end, s + [0]);
      CleanThen(old(buf[..]), structOff, begin, stringsOff, end, Str(s), []);
      AlignShift(structOff, |s| + 1);
      structOff := Align4(structOff + |s| + 1);
    }

    method SerData(d: seq<Byte>)
      requires Valid() && structOff + |Pad4(d)| <= begin
      modifies this`structOff, buf
      ensures Valid() && Emitted(Pad4(d), [])
    {
      hide Pad4, Clean;
      CleanFacts(buf[..], structOff, begin, stringsOff, end);
      Copy(structOff, d);
      PaddedX(old(buf[..]), structOff, begin, stringsOff, end, d);
      CleanThen(old(buf[..]), structOff, begin, stringsOff, end, Pad4(d), []);
      AlignShift(structOff, |d|);
      structOff := Align4(structOff + |d|);
    }

    method SerName(name: seq<Byte>)
      requires Valid() && stringsOff + |Str(BeforeNul(name))| <= end
      modifies this`stringsOff, buf
      ensures Valid() && Emitted([], Str(BeforeNul(name)))
    {
      hide Pad4, Clean, BeforeNul, Both, Splice, NulFree, Align4;
      var s := BeforeNul(name);
      StrSize(s, 0);
      CleanFacts(buf[..], structOff, begin, stringsOff, end);
      Copy(stringsOff, s + [0]);
      PaddedY(old(buf[..]), structOff, begin, stringsOff, end, s + [0]);
      CleanThen(old(buf[..]), structOff, begin, stringsOff, end, [], Str(s));
      AlignShift(stringsOff, |s| + 1);
      stringsOff := Align4(stringsOff + |s| + 1);
    }

    method SerProp(p: Prop)
      requires Valid() && structOff + |PropCells(p, stringsOff - begin)| <= begin && stringsOff + |Str(p.name)| <= end
      requires NulFree(p.name)
      modifies this`structOff, this`stringsOff, buf
      ensures Valid() && Emitted(PropCells(p, old(stringsOff) - begin), Str(p.name))
    {
      hide Both, BE32, Pad4, Clean, Str;
      CleanFacts(buf[..], structOff, begin, stringsOff, end);
      ghost var b, s, t := buf[..], structOff, stringsOff;
      ghost var x, y, z, d := BE32(PROP), BE32(|p.data|), BE32(stringsOff - begin), Pad4(p.data);
      SerU32(PROP);
      ghost var b1 := buf[..];
      SerU32(|p.data|);
      JoinX(b, s, t, x, [], b1, y, buf[..]);
      ghost var b2 := buf[..];
      SerU32(stringsOff - begin);
      JoinX(b, s, t, x + y, [], b2, z, buf[..]);
      ghost var b3 := buf[..];
      SerData(p.data);
      JoinX(b, s, t, x + y + z, [], b3, d, buf[..]);
      ghost var b4 := buf[..];
      SerName(p.name);
      JoinY(b, s, t, x + y + z + d, b4, Str(p.name), buf[..]);
    }

    method SerProps(props: seq<Prop>)
      requires Valid() && structOff + |PropsStruct(props, stringsOff - begin)| <= begin
      requires stringsOff + |PropStrings(props)| <= end
      requires PropsOk(props)
      modifies this`structOff, this`stringsOff, buf
      ensures Valid() && Emitted(PropsStruct(props, old(stringsOff) - begin), PropStrings(props))
    {
      hide Both, Clean, PropsStruct, PropStrings, PropCells, Str;
      CleanFacts(buf[..], structOff, begin, stringsOff, end);
      ghost var b, s, t := buf[..], structOff, stringsOff;
      ghost var off := stringsOff - begin;
      BothNothing(b, s, t);
      PropsNone(off);
      for i := 0 to |props|
        invariant Valid() && |PropsStruct(props[..i], off)| <= |PropsStruct(props, off)|
        invariant |PropStrings(props[..i])| <= |PropStrings(props)|
        invariant Emitted(PropsStruct(props[..i], off), PropStrings(props[..i]))
      {
        PropsSnoc(props, i, off);
        ghost var b1 := buf[..];
        ghost var x, y := PropsStruct(props[..i], off), PropStrings(props[..i]);
        SerProp(props[i]);
        Join(b, s, t, x, y, b1, PropCells(props[i], off + |y|), Str(props[i].name), buf[..]);
      }
      assert props[..|props|] == props;
    }

    /** The whole subtree: structure through one cursor, property names through the other. */
    method SerTree(n: Node)
      requires Valid() && structOff + |Struct(n, stringsOff - begin)| <= begin && stringsOff + |Strings(n)| <= end
      requires NodeOk(n)
      modifies this`structOff, this`stringsOff, buf
      ensures Valid() && Emitted(Struct(n, old(stringsOff) - begin), Strings(n))
      decreases n, 1
    {
      hide Both, Clean, PropsStruct, PropStrings, Str, BE32, KidsStruct, KidStrings;
      CleanFacts(buf[..], structOff, begin, stringsOff, end);
      ghost var b, s, t := buf[..], structOff, stringsOff;
      ghost var off := stringsOff - begin;
      ghost var x1, x2, x3, y3 := BE32(BEGIN_NODE), Str(n.name), PropsStruct(n.props, off), PropStrings(n.props);
      ghost var x4, y4 := KidsStruct(n.children, off + |y3|), KidStrings(n.children);
      SerU32(BEGIN_NODE);
      ghost var b1 := buf[..];
      SerString(n.name);
      JoinX(b, s, t, x1, [], b1, x2, buf[..]);
      ghost var b2 := buf[..];
      SerProps(n.props);
      Join(b, s, t, x1 + x2, [], b2, x3, y3, buf[..]);
      ghost var b3 := buf[..];
      SerKids(n);
      Join(b, s, t, x1 + x2 + x3, y3, b3, x4, y4, buf[..]);
      ghost var b4 := buf[..];
      SerU32(END_NODE);
      JoinX(b, s, t, x1 + x2 + x3 + x4, y3 + y4, b4, BE32(END_NODE), buf[..]);
    }

    method SerKids(n: Node)
      requires Valid() && structOff + |KidsStruct(n.children, stringsOff - begin)| <= begin
      requires stringsOff + |KidStrings(n.children)| <= end && KidsOk(n.children)
      modifies this`structOff, this`stringsOff, buf
      ensures Valid() && Emitted(KidsStruct(n.children, old(stringsOff) - begin), KidStrings(n.children))
      decreases n, 0
    {
      hide Both, Clean, KidsStruct, KidStrings, Struct, Strings;
      CleanFacts(buf[..], structOff, begin, stringsOff, end);
      ghost var kids, b, s, t := n.children, buf[..], structOff, stringsOff;
      ghost var off := stringsOff - begin;
      BothNothing(b, s, t);
      KidsNone(off);
      for i := 0 to |n.children|
        invariant Valid() && |KidsStruct(kids[..i], off)| <= |KidsStruct(kids, off)|
        invariant |KidStrings(kids[..i])| <= |KidStrings(kids)|
        invariant Emitted(KidsStruct(kids[..i], off), KidStrings(kids[..i]))
      {
        KidsSnoc(kids, i, off);
        ghost var b1 := buf[..];
        ghost var x, y := KidsStruct(kids[..i], off), KidStrings(kids[..i]);
        SerTree(n.children[i]);
        Join(b, s, t, x, y, b1, Struct(kids[i], off + |y|), Strings(kids[i]), buf[..]);
      }
      assert kids[..|kids|] == kids;
    }
  }

  lemma SpliceX(b: seq<Byte>, s: nat, t: nat, x: seq<Byte>)
    requires s + |x| <= t <= |b|
    ensures Splice(b, s, x) == Both(b, s, x, t, [])
  {
  }

  lemma CleanFacts(b: seq<Byte>, s: nat, begin: nat, t: nat, end: nat)
    requires Clean(b, s, begin, t, end)
    ensures s <= begin <= t <= end <= |b| && s % 4 == 0 && t % 4 == 0
  {
  }

  lemma Join(b: seq<Byte>, s: nat, t: nat, x: seq<Byte>, y: seq<Byte>, b1: seq<Byte>, x': seq<Byte>, y': seq<Byte>,
             b2: seq<Byte>)
    requires s + |x| + |x'| <= t && t + |y| + |y'| <= |b|
    requires b1 == Both(b, s, x, t, y) && b2 == Both(b1, s + |x|, x', t + |y|, y')
    ensures b2 == Both(b, s, x + x', t, y + y')
    ensures y == [] ==> b2 == Both(b, s, x + x', t, y')
  {
    BothThen(b, s, x, t, y, x', y');
    assert y == [] ==> y + y' == y';
  }

  lemma JoinX(b: seq<Byte>, s: nat, t: nat, x: seq<Byte>, y: seq<Byte>, b1: seq<Byte>, x': seq<Byte>, b2: seq<Byte>)
    requires s + |x| + |x'| <= t && t + |y| <= |b|
    requires b1 == Both(b, s, x, t, y) && b2 == Both(b1, s + |x|, x', t + |y|, [])
    ensures b2 == Both(b, s, x + x', t, y)
  {
    BothThen(b, s, x, t, y, x', []);
    assert y + [] == y;
  }

  lemma JoinY(b: seq<Byte>, s: nat, t: nat, x: seq<Byte>, b1: seq<Byte>, y: seq<Byte>, b2: seq<Byte>)
    requires s + |x| <= t && t + |y| <= |b|
    requires b1 == Both(b, s, x, t, []) && b2 == Both(b1, s + |x|, [], t, y)
    ensures b2 == Both(b, s, x, t, y)
  {
    BothThen(b, s, x, t, [], [], y);
    assert x + [] == x && [] + y == y;
  }

  lemma PropsNone(off: nat)
    ensures PropsStruct([], off) == [] && PropStrings([]) == []
  {
  }

  lemma KidsNone(off: nat)
    ensures KidsStruct([], off) == [] && KidStrings([]) == []
  {
  }

  lemma {:induction false} PropsAppend(a: seq<Prop>, b: seq<Prop>, off: nat)
    ensures PropStrings(a + b) == PropStrings(a) + PropStrings(b)
    ensures PropsStruct(a + b, off) == PropsStruct(a, off) + PropsStruct(b, off + |PropStrings(a)|)
    decreases |a|
  {
    hide Str, PropCells;
    if a == [] {
      assert a + b == b;
    } else {
      assert (a + b)[1..] == a[1..] + b;
      PropsAppend(a[1..], b, off + |Str(a[0].name)|);
    }
  }

  lemma PropsSnoc(props: seq<Prop>, i: nat, off: nat)
    requires i < |props|
    ensures props[..i] == props[..i + 1][..i]
    ensures PropsStruct(props[..i + 1], off) == PropsStruct(props[..i], off)
            + PropCells(props[i], off + |PropStrings(props[..i])|)
    ensures PropStrings(props[..i + 1]) == PropStrings(props[..i]) + Str(props[i].name)
    ensures |PropsStruct(props[..i + 1], off)| <= |PropsStruct(props, off)|
    ensures |PropStrings(props[..i + 1])| <= |PropStrings(props)|
  {
    hide Str, PropCells, PropsStruct, PropStrings;
    assert props[..i + 1] == props[..i] + [props[i]];
    assert props == props[..i + 1] + props[i + 1..];
    PropsAppend(props[..i], [props[i]], off);
    PropsAppend(props[..i + 1], props[i + 1..], off);
    OneProp(props[i], off + |PropStrings(props[..i])|);
  }

  lemma OneProp(p: Prop, off: nat)
    ensures PropsStruct([p], off) == PropCells(p, off) && PropStrings([p]) == Str(p.name)
  {
    hide Str, PropCells;
    assert [p][1..] == [];
  }

  lemma {:induction false} KidsAppend(a: seq<Node>, b: seq<Node>, off: nat)
    ensures KidStrings(a + b) == KidStrings(a) + KidStrings(b)
    ensures KidsStruct(a + b, off) == KidsStruct(a, off) + KidsStruct(b, off + |KidStrings(a)|)
    decreases |a|
  {
    hide Struct, Strings;
    if a == [] {
      assert a + b == b;
    } else {
      assert (a + b)[1..] == a[1..] + b;
      KidsAppend(a[1..], b, off + |Strings(a[0])|);
    }
  }

  lemma KidsSnoc(kids: seq<Node>, i: nat, off: nat)
    requires i < |kids|
    ensures KidsStruct(kids[..i + 1], off) == KidsStruct(kids[..i], off)
            + Struct(kids[i], off + |KidStrings(kids[..i])|)
    ensures KidStrings(kids[..i + 1]) == KidStrings(kids[..i]) + Strings(kids[i])
    ensures |KidsStruct(kids[..i + 1], off)| <= |KidsStruct(kids, off)|
    ensures |KidStrings(kids[..i + 1])| <= |KidStrings(kids)|
  {
    hide Struct, Strings, KidsStruct, KidStrings;
    assert kids[..i + 1] == kids[..i] + [kids[i]];
    assert kids == kids[..i + 1] + kids[i + 1..];
    KidsAppend(kids[..i], [kids[i]], off);
    KidsAppend(kids[..i + 1], kids[i + 1..], off);
    OneKid(kids[i], off + |KidStrings(kids[..i])|);
  }

  lemma OneKid(k: Node, off: nat)
    ensures KidsStruct([k], off) == Struct(k, off) && KidStrings([k]) == Strings(k)
  {
    hide Struct, Strings;
    assert [k][1..] == [];
  }

  // The whole blob ----------------------------------------------------------------------------------

  function Cells(c: seq<nat>): (r: seq<Byte>)
    ensures |r| == 4 * |c|
  {
    if c == [] then [] else Cells(c[..|c| - 1]) + BE32(c[|c| - 1])
  }

  function Header(n: Node, cpu: nat): (h: seq<nat>)
    ensures |h| == 10
  {
    var structSize, stringSize := StructSize(n) + 4, StringsSize(n);
    [MAGIC, HDR_SIZE + RSV_SIZE + structSize + stringSize, HDR_SIZE + RSV_SIZE, HDR_SIZE + RSV_SIZE + structSize,
     HDR_SIZE,
     17, 16, cpu, stringSize, structSize]
  }

  function SizeOfTree(n: Node): nat { HDR_SIZE + RSV_SIZE + StructSize(n) + 4 + StringsSize(n) }

  function Blob(n: Node, cpu: nat): seq<Byte>
  {
    Cells(Header(n, cpu)) + Zeros(RSV_SIZE) + (Struct(n, 0) + BE32(END)) + Strings(n)
  }

  lemma BlobSize(n: Node, cpu: nat)
    ensures |Blob(n, cpu)| == SizeOfTree(n)
  {
    hide Struct, Strings, StructSize, StringsSize, BE32, Cells;
    StructSizeExact(n, 0);
    StringsSizeExact(n);
  }

  /** Writes the tree at the start of the buffer, or nothing if it does not fit.  Names end at
      their first NUL for the code, and its sizes and offsets are 32-bit words. */
  method Serialize(n: Node, buffer: array<Byte>, cpu: nat) returns (size: nat)
    requires NodeOk(n) && SizeOfTree(n) < M32 && cpu < M32
    modifies buffer
    ensures SizeOfTree(n) > buffer.Length ==> size == 0 && buffer[..] == old(buffer[..])
    ensures SizeOfTree(n) <= buffer.Length ==>
              size == SizeOfTree(n) && buffer[..size] == Blob(n, cpu) && buffer[size..] == old(buffer[size..])
  {
    hide StructSize, StringsSize, Struct, Strings, BE32, Cells, Both, Splice;
    var structSize, stringSize := StructSize(n) + 4, StringsSize(n);
    var begin := HDR_SIZE + RSV_SIZE + structSize;
    var total := begin + stringSize;
    if total > buffer.Length { return 0; }
    for i := 0 to total
      invariant forall k | 0 <= k < buffer.Length :: buffer[k] == if k < i then 0 else old(buffer[k])
    {
      buffer[i] := 0;
    }
    ghost var b0 := buffer[..];
    PutCells(buffer, Header(n, cpu));
    ghost var b1 := buffer[..];
    var w := new Writer(buffer, HDR_SIZE + RSV_SIZE, begin, total);
    StructSizeExact(n, 0);
    StringsSizeExact(n);
    StructAligned(n);
    Ready(b0, b1, Cells(Header(n, cpu)), begin, total);
    w.SerTree(n);
    ghost var b2 := buffer[..];
    w.SerU32(END);
    JoinX(b1, HDR_SIZE + RSV_SIZE, begin, Struct(n, 0), Strings(n), b2, BE32(END), buffer[..]);
    Assembled(b0, b1, buffer[..], n, cpu);
    size := total;
    assert buffer[size..] == b0[size..] == old(buffer[size..]);
  }

  method PutCells(buffer: array<Byte>, cells: seq<nat>)
    requires 4 * |cells| <= buffer.Length
    modifies buffer
    ensures buffer[..] == Splice(old(buffer[..]), 0, Cells(cells))
  {
    hide BE32, Splice, Cells;
    ghost var b := buffer[..];
    NoCells(b);
    for i := 0 to |cells|
      invariant buffer[..] == Splice(b, 0, Cells(cells[..i]))
    {
      var c := BE32(cells[i]);
      ghost var b1 := buffer[..];
      for j := 0 to 4
        invariant forall k | 0 <= k < buffer.Length ::
                    buffer[k] == if 4 * i <= k < 4 * i + j then c[k - 4 * i] else b1[k]
      {
        buffer[4 * i + j] := c[j];
      }
      MoreCells(b, b1, cells, i, buffer[..]);
    }
    assert cells[..|cells|] == cells;
  }

  lemma NoCells(b: seq<Byte>)
    ensures Splice(b, 0, Cells([])) == b
  {
  }

  lemma MoreCells(b: seq<Byte>, b1: seq<Byte>, cells: seq<nat>, i: nat, b2: seq<Byte>)
    requires i < |cells| && 4 * |cells| <= |b| && b1 == Splice(b, 0, Cells(cells[..i])) && |b2| == |b|
    requires forall k | 0 <= k < |b2| :: b2[k] == if 4 * i <= k < 4 * i + 4 then BE32(cells[i])[k - 4 * i] else b1[k]
    ensures b2 == Splice(b, 0, Cells(cells[..i + 1]))
  {
    hide BE32;
    assert cells[..i + 1][..i] == cells[..i];
    assert b2 == Splice(b, 0, Cells(cells[..i]) + BE32(cells[i]));
  }

  lemma {:induction false} PropsAligned(props: seq<Prop>)
    ensures PropsSize(props) % 4 == 0
  {
    if props != [] { PropsAligned(props[1..]); }
  }

  lemma {:induction false} KidsAligned(kids: seq<Node>)
    ensures KidsSize(kids) % 4 == 0
    decreases kids
  {
    if kids != [] {
      StructAligned(kids[0]);
      KidsAligned(kids[1..]);
    }
  }

  lemma {:induction false} StructAligned(n: Node)
    ensures StructSize(n) % 4 == 0
    decreases n
  {
    PropsAligned(n.props);
    KidsAligned(n.children);
  }

  lemma Ready(b0: seq<Byte>, b1: seq<Byte>, h: seq<Byte>, begin: nat, total: nat)
    requires |h| == HDR_SIZE && HDR_SIZE + RSV_SIZE <= begin <= total <= |b0| && begin % 4 == 0
    requires (forall k | 0 <= k < total :: b0[k] == 0) && b1 == Splice(b0, 0, h)
    ensures Clean(b1, HDR_SIZE + RSV_SIZE, begin, begin, total)
  {
  }

  lemma Assembled(b0: seq<Byte>, b1: seq<Byte>, b: seq<Byte>, n: Node, cpu: nat)
    requires SizeOfTree(n) <= |b0| && (forall k | 0 <= k < SizeOfTree(n) :: b0[k] == 0)
    requires b1 == Splice(b0, 0, Cells(Header(n, cpu)))
    requires var begin := HDR_SIZE + RSV_SIZE + StructSize(n) + 4;
             |Struct(n, 0) + BE32(END)| == StructSize(n) + 4 && |Strings(n)| == StringsSize(n) &&
             b == Both(b1, HDR_SIZE + RSV_SIZE, Struct(n, 0) + BE32(END), begin, Strings(n))
    ensures b[..SizeOfTree(n)] == Blob(n, cpu) && b[SizeOfTree(n)..] == b0[SizeOfTree(n)..]
  {
    hide Struct, Strings, StructSize, StringsSize, BE32, Cells, Header;
    assert b1[..HDR_SIZE + RSV_SIZE] == Cells(Header(n, cpu)) + Zeros(RSV_SIZE);
  }

  // Reading it back -----------------------------------------------------------------------------------

  function ParseBlob(b: seq<Byte>): Option<Node>
  {
    match (Cell(b, 0), Cell(b, 8), Cell(b, 12), Cell(b, 32), Cell(b, 36))
    case (Some(magic), Some(structOff), Some(stringsOff), Some(stringSize), Some(structSize)) =>
      if magic != MAGIC || structOff + structSize > |b| || stringsOff + stringSize > |b| then None
      else
        var block := b[structOff..structOff + structSize];
        (match ParseNode(block, b[stringsOff..stringsOff + stringSize], 0)
         case None => None
         case Some(p) => if Cell(block, p.next) == Some(END) then Some(p.value) else None)
    case _ => None
  }

  lemma {:induction false} CellsAt(c: seq<nat>, i: nat)
    requires i < |c|
    ensures At(Cells(c), 4 * i, BE32(c[i]))
    decreases |c|
  {
    hide BE32;
    var n := |c| - 1;
    if i < n {
      CellsAt(c[..n], i);
      assert Cells(c)[4 * i..4 * i + 4] == Cells(c[..n])[4 * i..4 * i + 4];
    }
  }

  lemma HeaderAt(n: Node, cpu: nat, i: nat)
    requires SizeOfTree(n) < M32 && cpu < M32 && i < 10
    ensures Cell(Blob(n, cpu), 4 * i) == Some(Header(n, cpu)[i])
  {
    hide BE32, Cell, Struct, Strings, Cells;
    BlobSize(n, cpu);
    var h := Header(n, cpu);
    CellsAt(h, i);
    var b := Blob(n, cpu);
    assert b[4 * i..4 * i + 4] == Cells(h)[4 * i..4 * i + 4];
    CellAt(b, 4 * i, h[i]);
  }

  /** Serialization is invertible: the parser finds the same tree. */
  lemma RoundTrip(n: Node, cpu: nat)
    requires NodeOk(n) && SizeOfTree(n) < M32 && cpu < M32
    ensures ParseBlob(Blob(n, cpu)) == Some(n)
  {
    hide BE32, Cell, Struct, Strings, Cells, ParseNode, NodeOk, StructSize, StringsSize, At;
    var b := Blob(n, cpu);
    BlobSize(n, cpu);
    HeaderAt(n, cpu, 0);
    HeaderAt(n, cpu, 2);
    HeaderAt(n, cpu, 3);
    HeaderAt(n, cpu, 8);
    HeaderAt(n, cpu, 9);
    StructSizeExact(n, 0);
    StringsSizeExact(n);
    var block := Struct(n, 0) + BE32(END);
    var so, st := HDR_SIZE + RSV_SIZE, HDR_SIZE + RSV_SIZE + |block|;
    assert b[so..so + |block|] == block;
    assert b[st..st + |Strings(n)|] == Strings(n);
    Whole(block);
    AtSplit(block, 0, Struct(n, 0), BE32(END));
    Whole(Strings(n));
    RoundNode(block, Strings(n), 0, n, 0);
    CellAt(block, |Struct(n, 0)|, END);
  }

  lemma Whole(s: seq<Byte>)
    ensures At(s, 0, s)
  {
  }
}
