/**
 Reading back what `FDT.Write` has written.

 The reader builds names with `string(b)`, stops a property name at its first
 NUL and the reserved memory at its first all-zero entry, so that what it
 finds is described exactly, and with it when it is what was written.
 */
module DeviceTreeRoundTrip {
  import opened Sequences
  import opened Wrappers
  import opened Bytes
  import opened DeviceTree
  import opened DeviceTreeWriter
  import opened DeviceTreeReader

  // ----- what is read

  function ReadProperty(p: Property): Property {
    Property(UpToNul(p.name), p.value)
  }

  function ReadProperties(ps: seq<Property>): (r: seq<Property>)
    ensures |r| == |ps|
  {
    if ps == [] then [] else ReadProperties(ps[..|ps| - 1]) + [ReadProperty(ps[|ps| - 1])]
  }

  function ReadNode(n: Node): Node
    decreases n, 0
  {
    Node(NameOf(n.name), ReadProperties(n.properties), ReadNodes(n.children))
  }

  function ReadNodes(ns: seq<Node>): (r: seq<Node>)
    ensures |r| == |ns|
    decreases ns, 1
  {
    if ns == [] then [] else [ReadNode(ns[0])] + ReadNodes(ns[1..])
  }

  function ReadEntries(es: seq<ReserveEntry>): seq<ReserveEntry> {
    if es == [] || es[0] == ZERO_ENTRY then [] else [es[0]] + ReadEntries(es[1..])
  }

  /** Names are bytes other than NUL. */
  ghost predicate NamesNulFree(n: Node)
    decreases n, 0
  {
    NulFree(n.name) && NodesNulFree(n.children)
  }

  ghost predicate NodesNulFree(ns: seq<Node>)
    decreases ns, 1
  {
    ns == [] || (NamesNulFree(ns[0]) && NodesNulFree(ns[1..]))
  }

  // ----- the records of a tree

  function Count(n: Node): nat
    decreases n, 0
  {
    1 + CountAll(n.children)
  }

  function CountAll(ns: seq<Node>): nat
    decreases ns, 1
  {
    if ns == [] then 0 else Count(ns[0]) + CountAll(ns[1..])
  }

  /** The indices of siblings. */
  function Indices(ns: seq<Node>, base: nat): seq<nat> {
    if ns == [] then [] else [base] + Indices(ns[1..], base + Count(ns[0]))
  }

  /** The records that reading a node allocates, from index `base` on. */
  function Flat(n: Node, base: nat): (r: seq<Record>)
    ensures |r| == Count(n)
    decreases n, 0
  {
    [Record(NameOf(n.name), ReadProperties(n.properties), Indices(n.children, base + 1))]
      + FlatAll(n.children, base + 1)
  }

  function FlatAll(ns: seq<Node>, base: nat): (r: seq<Record>)
    ensures |r| == CountAll(ns)
    decreases ns, 1
  {
    if ns == [] then [] else Flat(ns[0], base) + FlatAll(ns[1..], base + Count(ns[0]))
  }

  /** The records stand for the tree. */
  lemma {:induction false} FlatIsTree(nodes: seq<Record>, n: Node, base: nat)
    requires Ordered(nodes) && base + Count(n) <= |nodes| && nodes[base..base + Count(n)] == Flat(n, base)
    ensures Tree(nodes, base) == ReadNode(n)
    decreases n, 0
  {
    var all := nodes[base..base + Count(n)];
    assert all[0] == nodes[base];
    assert all[1..] == nodes[base + 1..base + 1 + CountAll(n.children)];
    assert Flat(n, base)[1..] == FlatAll(n.children, base + 1);
    FlatsAreTrees(nodes, n.children, base + 1, base);
  }

  lemma {:induction false} FlatsAreTrees(nodes: seq<Record>, ns: seq<Node>, base: nat, parent: nat)
    requires Ordered(nodes) && base + CountAll(ns) <= |nodes| && nodes[base..base + CountAll(ns)] == FlatAll(ns, base)
    requires parent < |nodes| && After(Indices(ns, base), parent, |nodes|)
    ensures Trees(nodes, Indices(ns, base), parent) == ReadNodes(ns)
    decreases ns, 1
  {
    if ns != [] {
      var k, ids := Count(ns[0]), Indices(ns, base);
      FlatSplits(nodes, ns, base);
      FlatIsTree(nodes, ns[0], base);
      assert ids[1..] == Indices(ns[1..], base + k);
      forall j | 0 <= j < |ids[1..]| ensures parent < ids[1..][j] < |nodes| {
        assert ids[1..][j] == ids[j + 1];
      }
      hide Flat, FlatAll, Count, Tree, Indices;
      FlatsAreTrees(nodes, ns[1..], base + k, parent);
      assert [base] + Indices(ns[1..], base + k) == ids;
    }
  }

  lemma FlatSplits(nodes: seq<Record>, ns: seq<Node>, base: nat)
    requires ns != [] && base + CountAll(ns) <= |nodes| && nodes[base..base + CountAll(ns)] == FlatAll(ns, base)
    ensures var k := Count(ns[0]);
            && base + k + CountAll(ns[1..]) <= |nodes|
            && nodes[base..base + k] == Flat(ns[0], base)
            && nodes[base + k..base + k + CountAll(ns[1..])] == FlatAll(ns[1..], base + k)
  {
    var k := Count(ns[0]);
    assert CountAll(ns) == k + CountAll(ns[1..]);
    assert FlatAll(ns, base) == Flat(ns[0], base) + FlatAll(ns[1..], base + k);
    hide Flat, Count, FlatAll, CountAll;
    SliceOfSum(nodes, base, Flat(ns[0], base), FlatAll(ns[1..], base + k));
  }

  lemma SliceOfSum(nodes: seq<Record>, base: nat, x: seq<Record>, y: seq<Record>)
    requires base + (|x| + |y|) <= |nodes| && nodes[base..base + (|x| + |y|)] == x + y
    ensures nodes[base..base + |x|] == x && nodes[base + |x|..base + |x| + |y|] == y
  {
    var all := nodes[base..base + (|x| + |y|)];
    assert all[..|x|] == x && all[|x|..] == y;
  }

  // ----- the run over a written structure block

  /** The records with children added to the node on top of the stack. */
  function Adopt(nodes: seq<Record>, stack: seq<nat>, children: seq<nat>): (r: seq<Record>)
    requires forall i :: 0 <= i < |stack| ==> stack[i] < |nodes|
    ensures |r| == |nodes|
  {
    if stack == [] then nodes
    else var top := stack[|stack| - 1]; nodes[top := nodes[top].(children := nodes[top].children + children)]
  }

  function AfterNode(st: State, n: Node): (r: State)
    requires Valid(st)
    ensures r.stack == st.stack
  {
    State(Adopt(st.nodes, st.stack, [|st.nodes|]) + Flat(n, |st.nodes|), st.stack)
  }

  function AfterNodes(st: State, ns: seq<Node>): (r: State)
    requires Valid(st)
    ensures r.stack == st.stack
  {
    State(Adopt(st.nodes, st.stack, Indices(ns, |st.nodes|)) + FlatAll(ns, |st.nodes|), st.stack)
  }

  function AfterProperties(st: State, ps: seq<Property>): (r: State)
    requires Valid(st) && st.stack != []
    ensures r.stack == st.stack
  {
    var top := st.stack[|st.stack| - 1];
    State(st.nodes[top := st.nodes[top].(properties := st.nodes[top].properties + ReadProperties(ps))], st.stack)
  }

  /** The structure block and the strings block that go together. */
  ghost predicate Blocks(b: Bytes, s: Strings) {
    |b| < 0x1_0000_0000 && |s.block| < 0x1_0000_0000 && Indexed(s)
  }

  lemma PropertyStep(b: Bytes, size: U32, s: Strings, pos: nat, st: State, p: Property)
    requires Blocks(b, s) && Valid(st) && st.stack != [] && Aligned(pos)
    requires p.name in s.offset && At(b, pos, EncodeProperty(p, s))
    ensures pos + PropertySize(p) <= |b| && Aligned(pos + PropertySize(p))
    ensures Step(b, size, s.block, pos, st) == Go(pos + PropertySize(p), AddProperty(st, ReadProperty(p)))
  {
    hide Valid, Ordered, AddProperty, Put32, Get32, NulFrom;
    PropertyParts(b, s, pos, p);
    PropertyEnd(pos, |p.value|);
    NulAfter(s.block, s.offset[p.name], p.name);
    hide Up4, Aligned, At;
  }

  lemma PropertyParts(b: Bytes, s: Strings, pos: nat, p: Property)
    requires Blocks(b, s) && p.name in s.offset && At(b, pos, EncodeProperty(p, s))
    ensures pos + PropertySize(p) <= |b|
    ensures Get32(b, pos) == PROP && Get32(b, pos + 4) == |p.value| && Get32(b, pos + 8) == s.offset[p.name]
    ensures b[pos + 12..pos + 12 + |p.value|] == p.value
    ensures s.offset[p.name] < |s.block| && At(s.block, s.offset[p.name], p.name + [0])
  {
    hide Put32, Get32, Up4, At, Wrap;
    var v := p.value;
    var x, y, z := Put32(PROP), Put32(Wrap(|v|)), Put32(s.offset[p.name]);
    AtAppend(b, pos, x + y + z, Padded(v));
    AtAppend(b, pos, x + y, z);
    AtAppend(b, pos, x, y);
    AtAppend(b, pos + 12, v, Zeros(Up4(|v|) - |v|));
    AtPut32(b, pos, PROP);
    AtPut32(b, pos + 4, Wrap(|v|));
    AtPut32(b, pos + 8, s.offset[p.name]);
    AtMeans(b, pos + 12, v);
    AtBounds(b, pos + 12, Padded(v));
    WrapExact(|v|);
    AtBounds(s.block, s.offset[p.name], p.name + [0]);
  }

  lemma AtMeans(s: Bytes, pos: nat, piece: Bytes)
    requires At(s, pos, piece)
    ensures pos + |piece| <= |s| && s[pos..pos + |piece|] == piece
  {
  }

  lemma PropertyEnd(pos: nat, n: nat)
    requires Aligned(pos)
    ensures Up4(pos + 12 + n) == pos + 12 + Up4(n) && Aligned(pos + 12 + Up4(n))
  {
    assert Aligned(12);
    hide Up4, Aligned;
    AlignedSum(pos, 12);
    AlignedSum(pos + 12, Up4(n));
    UpAfter(pos + 12, n);
  }

  lemma BeginStep(b: Bytes, size: U32, s: Strings, pos: nat, st: State, name: Bytes)
    requires Valid(st) && (st.stack == [] ==> st.nodes == []) && Aligned(pos) && NulFree(name)
    requires At(b, pos, Put32(BEGIN_NODE) + Padded(name + [0]))
    ensures var end := pos + 4 + Up4(|name| + 1);
            && end <= |b| && Aligned(end)
            && Step(b, size, s.block, pos, st) == Go(end, OpenNode(st, NameOf(name)))
  {
    hide Valid, Ordered, OpenNode, Put32, Get32, NulFrom, NameOf, Up4, Padded, Aligned, At, NulFree, BeginNode;
    NameParts(b, pos, name);
    NodeStart(pos, |name| + 1);
    NameRead(b, pos + 4, st, name);
    assert Step(b, size, s.block, pos, st) == BeginNode(b, pos + 4, st);
  }

  lemma NameRead(b: Bytes, pos: nat, st: State, name: Bytes)
    requires Valid(st) && (st.stack == [] ==> st.nodes == []) && pos + |name| < |b|
    requires NulFrom(b, pos) == pos + |name| && b[pos..pos + |name|] == name
    ensures BeginNode(b, pos, st) == Skip(b, pos + |name| + 1, OpenNode(st, NameOf(name)))
  {
    hide Valid, OpenNode, NulFrom, NameOf, Skip;
  }

  lemma NameParts(b: Bytes, pos: nat, name: Bytes)
    requires NulFree(name) && At(b, pos, Put32(BEGIN_NODE) + Padded(name + [0]))
    ensures pos + 4 + Up4(|name| + 1) <= |b| && Get32(b, pos) == BEGIN_NODE
    ensures NulFrom(b, pos + 4) == pos + 4 + |name| && b[pos + 4..pos + 4 + |name|] == name
  {
    hide Put32, Get32, NulFrom, Up4;
    AtAppend(b, pos, Put32(BEGIN_NODE), Padded(name + [0]));
    AtAppend(b, pos + 4, name + [0], Zeros(Up4(|name| + 1) - (|name| + 1)));
    AtPut32(b, pos, BEGIN_NODE);
    NulAfter(b, pos + 4, name);
    WholeName(name);
  }

  lemma WholeName(name: Bytes)
    ensures UpToNul(name) == name <==> NulFree(name)
  {
    if NulFree(name) {
      assert NulFrom(name, 0) == |name|;
    }
  }

  lemma NodeStart(pos: nat, n: nat)
    requires Aligned(pos)
    ensures Up4(pos + 4 + n) == pos + 4 + Up4(n) && Aligned(pos + 4 + Up4(n)) && Up4(pos + 4) == pos + 4
  {
    assert Aligned(4);
    hide Up4, Aligned;
    AlignedSum(pos, 4);
    AlignedSum(pos + 4, Up4(n));
    UpAfter(pos + 4, n);
    Up4Exact(pos + 4);
  }

  /** A token without anything behind it. */
  lemma EndStep(b: Bytes, size: U32, s: Strings, pos: nat, st: State)
    requires Valid(st) && st.stack != [] && Aligned(pos) && At(b, pos, Put32(END_NODE))
    ensures pos + 4 <= |b| && Aligned(pos + 4) && Step(b, size, s.block, pos, st) == Go(pos + 4, CloseNode(st))
  {
    hide Valid, Ordered, CloseNode, Put32, Get32;
    AtPut32(b, pos, END_NODE);
    NodeStart(pos, 0);
    AlignedHeads(0);
    AlignedSum(pos, 4);
    hide Up4, Aligned;
  }

  lemma {:induction false} RunProperties(b: Bytes, size: U32, s: Strings, pos: nat, st: State, ps: seq<Property>)
    requires Blocks(b, s) && Valid(st) && st.stack != [] && Aligned(pos)
    requires HasNames(s, ps) && At(b, pos, EncodeProperties(ps, s))
    ensures var end, st' := pos + PropertiesSize(ps), AfterProperties(st, ps);
            && end <= |b| && Aligned(end) && Valid(st')
            && Run(b, size, s.block, pos, st) == Run(b, size, s.block, end, st')
  {
    hide Valid, Step, EncodeProperty, PropertySize, Aligned, At;
    if ps == [] {
      NoProperties(st);
      assert At(b, pos, []) ==> pos <= |b| by { AtBounds(b, pos, []); }
    } else {
      var init, last := ps[..|ps| - 1], ps[|ps| - 1];
      AtAppend(b, pos, EncodeProperties(init, s), EncodeProperty(last, s));
      PropertiesSizeIsLength(init, s);
      RunProperties(b, size, s, pos, st, init);
      var st1 := AfterProperties(st, init);
      PropertyStep(b, size, s, pos + PropertiesSize(init), st1, last);
      MoreProperties(st, ps);
    }
  }

  lemma AtBounds(s: Bytes, pos: nat, piece: Bytes)
    requires At(s, pos, piece)
    ensures pos + |piece| <= |s|
  {
  }

  lemma NoProperties(st: State)
    requires Valid(st) && st.stack != []
    ensures AfterProperties(st, []) == st
  {
    var top := st.stack[|st.stack| - 1];
    assert st.nodes[top].properties + [] == st.nodes[top].properties;
  }

  lemma MoreProperties(st: State, ps: seq<Property>)
    requires Valid(st) && st.stack != [] && ps != [] && Valid(AfterProperties(st, ps[..|ps| - 1]))
    ensures AddProperty(AfterProperties(st, ps[..|ps| - 1]), ReadProperty(ps[|ps| - 1])) == AfterProperties(st, ps)
  {
    hide Ordered, ReadProperty;
    var top := st.stack[|st.stack| - 1];
    var own, init, last := st.nodes[top].properties, ReadProperties(ps[..|ps| - 1]), [ReadProperty(ps[|ps| - 1])];
    SeqAssoc(own, init, last);
  }

  lemma {:induction false} RunNode(b: Bytes, size: U32, s: Strings, pos: nat, st: State, n: Node)
    requires Blocks(b, s) && Valid(st) && (st.stack == [] ==> st.nodes == []) && Aligned(pos)
    requires NamesNulFree(n) && HasNodeNames(s, n) && At(b, pos, EncodeNode(n, s))
    ensures var end, st' := pos + NodeSize(n), AfterNode(st, n);
            && end <= |b| && Aligned(end) && Valid(st')
            && Run(b, size, s.block, pos, st) == Run(b, size, s.block, end, st')
    decreases n, 0
  {
    hide Step, EncodeProperties, EncodeNodes, PropertiesSize, NodesSize, Aligned, At, Put32, Padded, Up4, Valid,
      OpenNode, CloseNode, AfterNode, AfterNodes, AfterProperties, NameOf, HasNames;
    NodeParts(b, s, pos, n);
    PropertiesSizeIsLength(n.properties, s);
    NodesSizeIsLength(n.children, s);
    BeginStep(b, size, s, pos, st, n.name);
    var p1, st1 := pos + 4 + Up4(|n.name| + 1), OpenNode(st, NameOf(n.name));
    Opened(st, NameOf(n.name));
    RunProperties(b, size, s, p1, st1, n.properties);
    var p2, st2 := p1 + PropertiesSize(n.properties), AfterProperties(st1, n.properties);
    RunNodes(b, size, s, p2, st2, n.children);
    var p3, st3 := p2 + NodesSize(n.children), AfterNodes(st2, n.children);
    EndStep(b, size, s, p3, st3);
    NodeDone(st, n);
  }

  lemma NodeParts(b: Bytes, s: Strings, pos: nat, n: Node)
    requires HasNodeNames(s, n) && At(b, pos, EncodeNode(n, s))
    ensures var p1 := pos + 4 + Up4(|n.name| + 1);
            var p2 := p1 + |EncodeProperties(n.properties, s)|;
            var p3 := p2 + |EncodeNodes(n.children, s)|;
            && At(b, pos, Put32(BEGIN_NODE) + Padded(n.name + [0])) && At(b, p1, EncodeProperties(n.properties, s))
            && At(b, p2, EncodeNodes(n.children, s)) && At(b, p3, Put32(END_NODE))
  {
    hide EncodeProperties, EncodeNodes, At, Put32, Up4, HasNames;
    var x, ps, ns := Put32(BEGIN_NODE) + Padded(n.name + [0]), EncodeProperties(n.properties, s),
      EncodeNodes(n.children, s);
    AtAppend(b, pos, x + ps + ns, Put32(END_NODE));
    AtAppend(b, pos, x + ps, ns);
    AtAppend(b, pos, x, ps);
  }

  lemma Opened(st: State, name: Bytes)
    requires Valid(st)
    ensures OpenNode(st, name).stack != []
  {
    hide Ordered;
  }

  /** The states that a node goes through. */
  lemma NodeDone(st: State, n: Node)
    requires Valid(st) && Valid(AfterProperties(OpenNode(st, NameOf(n.name)), n.properties))
    requires Valid(AfterNodes(AfterProperties(OpenNode(st, NameOf(n.name)), n.properties), n.children))
    ensures CloseNode(AfterNodes(AfterProperties(OpenNode(st, NameOf(n.name)), n.properties), n.children))
            == AfterNode(st, n)
  {
    hide Ordered, ReadProperties, Indices, FlatAll;
    var base, name := |st.nodes|, NameOf(n.name);
    var rest := Adopt(st.nodes, st.stack, [base]);
    var ps, ids, below := ReadProperties(n.properties), Indices(n.children, base + 1), FlatAll(n.children, base + 1);
    OpenNodeIs(st, name);
    var st1 := OpenNode(st, name);
    assert st1.nodes == rest + [Record(name, [], [])];
    var st2 := AfterProperties(st1, n.properties);
    NodeOnTop(rest, st2.stack, name, ps, ids);
    assert st2.nodes == rest + [Record(name, ps, [])];
    hide Adopt, OpenNode, AfterProperties, NameOf;
    SeqAssoc(rest, [Record(name, ps, ids)], below);
  }

  /** Properties and children of the last record. */
  lemma NodeOnTop(rest: seq<Record>, stack: seq<nat>, name: Bytes, ps: seq<Property>, ids: seq<nat>)
    requires stack != [] && stack[|stack| - 1] == |rest| && forall i :: 0 <= i < |stack| ==> stack[i] <= |rest|
    ensures (rest + [Record(name, [], [])])[|rest| := Record(name, [] + ps, [])] == rest + [Record(name, ps, [])]
    ensures Adopt(rest + [Record(name, ps, [])], stack, ids) == rest + [Record(name, ps, ids)]
  {
    assert [] + ps == ps && [] + ids == ids;
  }

  lemma {:induction false} RunNodes(b: Bytes, size: U32, s: Strings, pos: nat, st: State, ns: seq<Node>)
    requires Blocks(b, s) && Valid(st) && st.stack != [] && Aligned(pos)
    requires NodesNulFree(ns) && HasNodesNames(s, ns) && At(b, pos, EncodeNodes(ns, s))
    ensures var end, st' := pos + NodesSize(ns), AfterNodes(st, ns);
            && end <= |b| && Aligned(end) && Valid(st')
            && Run(b, size, s.block, pos, st) == Run(b, size, s.block, end, st')
    decreases ns, 1
  {
    hide Step, EncodeNode, NodeSize, Aligned, At, AfterNode, AfterNodes, Valid;
    if ns == [] {
      NoNodes(st);
      AtBounds(b, pos, []);
    } else {
      AtAppend(b, pos, EncodeNode(ns[0], s), EncodeNodes(ns[1..], s));
      NodeSizeIsLength(ns[0], s);
      RunNode(b, size, s, pos, st, ns[0]);
      MoreNodes(st, ns);
      RunNodes(b, size, s, pos + NodeSize(ns[0]), AfterNode(st, ns[0]), ns[1..]);
    }
  }

  lemma NoNodes(st: State)
    requires Valid(st)
    ensures AfterNodes(st, []) == st
  {
    if st.stack != [] {
      var top := st.stack[|st.stack| - 1];
      assert st.nodes[top].children + [] == st.nodes[top].children;
    }
  }

  lemma MoreNodes(st: State, ns: seq<Node>)
    requires Valid(st) && st.stack != [] && ns != [] && Valid(AfterNode(st, ns[0]))
    ensures AfterNode(st, ns[0]).stack == st.stack
    ensures AfterNodes(AfterNode(st, ns[0]), ns[1..]) == AfterNodes(st, ns)
  {
    hide Ordered, Flat, Count;
    var base, top := |st.nodes|, st.stack[|st.stack| - 1];
    var first := Flat(ns[0], base);
    var ids, rest := Indices(ns[1..], base + Count(ns[0])), FlatAll(ns[1..], base + Count(ns[0]));
    var own := st.nodes[top].children;
    SeqAssoc(own, [base], ids);
    var nodes1 := Adopt(st.nodes, st.stack, [base]);
    assert Adopt(nodes1 + first, st.stack, ids) == Adopt(nodes1, st.stack, ids) + first;
    assert Adopt(nodes1, st.stack, ids) == Adopt(st.nodes, st.stack, [base] + ids);
    SeqAssoc(Adopt(nodes1, st.stack, ids), first, rest);
  }

  /** The structure block of a tree, read to its FDT_END token. */
  lemma RunTree(root: Node)
    requires NamesNulFree(root) && |StructBlock(root)| < 0x1_0000_0000 && |TreeStrings(root).block| < 0x1_0000_0000
    ensures Ordered(Flat(root, 0))
    ensures Run(StructBlock(root), |StructBlock(root)|, TreeStrings(root).block, 0, State([], [])) == Ok(Flat(root, 0))
  {
    hide EncodeNode, NodeSize, TreeStrings, Put32, Get32, At, Flat, NamesNulFree, HasNodeNames;
    InternNodeKeeps(Strings([], map[]), root);
    var b, s, start := StructBlock(root), TreeStrings(root), State([], []);
    assert s == InternNode(Strings([], map[]), root) by { TreeStringsIs(root); }
    WholeAt(b, EncodeNode(root, s), Put32(END));
    NodeSizeIsLength(root, s);
    StructBlockLength(root);
    assert Aligned(0) && Valid(start);
    hide Aligned, Valid;
    RunNode(b, |b|, s, 0, start, root);
    FlatNotEmpty(root);
    assert AfterNode(start, root).nodes == Flat(root, 0);
    hide Run, StructBlock, AfterNode, InternNode, Indexed, Valid;
    EndOfTree(b, s.block, NodeSize(root), AfterNode(start, root));
  }

  lemma EndOfTree(b: Bytes, strs: Bytes, pos: nat, st: State)
    requires Valid(st) && st.nodes != [] && At(b, pos, Put32(END)) && |b| == pos + 4 < 0x1_0000_0000
    ensures Run(b, |b|, strs, pos, st) == Ok(st.nodes)
  {
    AtPut32(b, pos, END);
    WrapExact(pos + 4);
    hide Put32, Get32, Valid, At, Wrap;
  }

  lemma TreeStringsIs(root: Node)
    ensures TreeStrings(root) == InternNode(Strings([], map[]), root)
  {
  }

  lemma FlatNotEmpty(root: Node)
    ensures Flat(root, 0) != []
  {
  }

  // ----- the other blocks

  lemma HeaderReadBack(data: Bytes, h: Header)
    requires At(data, 0, EncodeHeader(h))
    ensures |data| >= HEADER_SIZE && DecodeHeader(data) == h
  {
    hide Put32, Get32;
    var x1 := Put32(h.magic) + Put32(h.totalSize);
    var x2 := x1 + Put32(h.offDtStruct);
    var x3 := x2 + Put32(h.offDtStrings);
    var x4 := x3 + Put32(h.offMemRsvmap);
    var x5 := x4 + Put32(h.version);
    var x6 := x5 + Put32(h.lastCompVersion);
    var x7 := x6 + Put32(h.bootCpuidPhys);
    var x8 := x7 + Put32(h.sizeDtStrings);
    assert EncodeHeader(h) == x8 + Put32(h.sizeDtStruct);
    hide EncodeHeader;
    FieldReadBack(data, x8, h.sizeDtStruct);
    FieldReadBack(data, x7, h.sizeDtStrings);
    FieldReadBack(data, x6, h.bootCpuidPhys);
    FieldReadBack(data, x5, h.lastCompVersion);
    FieldReadBack(data, x4, h.version);
    FieldReadBack(data, x3, h.offMemRsvmap);
    FieldReadBack(data, x2, h.offDtStrings);
    FieldReadBack(data, x1, h.offDtStruct);
    FieldReadBack(data, Put32(h.magic), h.totalSize);
    AtPut32(data, 0, h.magic);
    hide At;
  }

  lemma {:induction false} ZeroBytes(k: nat)
    ensures BigEndian(k, 0) == Zeros(k)
  {
    if k > 0 {
      ZeroBytes(k - 1);
      assert Zeros(k - 1) + [0] == Zeros(k);
    }
  }

  lemma {:induction false} EntriesFront(es: seq<ReserveEntry>)
    requires es != []
    ensures EncodeEntries(es) == EncodeEntry(es[0]) + EncodeEntries(es[1..])
  {
    hide EncodeEntry;
    if |es| == 1 {
      assert es[..0] == [] && es[1..] == [];
    } else {
      var init := es[..|es| - 1];
      EntriesFront(init);
      assert init[1..] == es[1..][..|es| - 2];
      SeqAssoc(EncodeEntry(es[0]), EncodeEntries(init[1..]), EncodeEntry(es[|es| - 1]));
    }
  }

  lemma EntryReadBack(data: Bytes, pos: nat, e: ReserveEntry)
    requires At(data, pos, EncodeEntry(e))
    ensures pos + 16 <= |data| && Get64(data, pos) == e.address && Get64(data, pos + 8) == e.size
  {
    hide Put64, Get64;
    AtAppend(data, pos, Put64(e.address), Put64(e.size));
    AtPut64(data, pos, e.address);
    AtPut64(data, pos + 8, e.size);
  }

  /** The entries up to the first all-zero one, which may be the terminator. */
  lemma {:induction false} EntriesReadBack(data: Bytes, pos: nat, es: seq<ReserveEntry>)
    requires At(data, pos, EncodeEntries(es) + Zeros(16))
    ensures EntriesFrom(data, pos) == Ok(ReadEntries(es))
    decreases es
  {
    hide Get64, At, EncodeEntry;
    if es == [] {
      ZeroEntryBytes();
      assert [] + Zeros(16) == Zeros(16);
      EntryReadBack(data, pos, ZERO_ENTRY);
    } else {
      EntriesFront(es);
      SeqAssoc(EncodeEntry(es[0]), EncodeEntries(es[1..]), Zeros(16));
      AtAppend(data, pos, EncodeEntry(es[0]), EncodeEntries(es[1..]) + Zeros(16));
      EntryReadBack(data, pos, es[0]);
      EntriesReadBack(data, pos + 16, es[1..]);
    }
  }

  lemma ZeroEntryBytes()
    ensures EncodeEntry(ZERO_ENTRY) == Zeros(16)
  {
    hide BigEndian;
    ZeroBytes(8);
    assert Zeros(8) + Zeros(8) == Zeros(16);
  }

  lemma LimitedAt(data: Bytes, pos: nat, piece: Bytes)
    requires At(data, pos, piece)
    ensures Limited(data, pos, |piece|) == piece
  {
  }

  lemma {:induction false} NotMoreEntries(es: seq<ReserveEntry>)
    ensures |ReadEntries(es)| <= |es|
    ensures ReadEntries(es) == es <==> ZERO_ENTRY !in es
  {
    if es != [] && es[0] != ZERO_ENTRY {
      NotMoreEntries(es[1..]);
      assert es == [es[0]] + es[1..];
      assert ReadEntries(es)[1..] == ReadEntries(es[1..]);
    }
  }

  // ----- when there is a strings block

  /** The tree has no property. */
  ghost predicate Bare(n: Node)
    decreases n, 0
  {
    n.properties == [] && AllBare(n.children)
  }

  ghost predicate AllBare(ns: seq<Node>)
    decreases ns, 1
  {
    ns == [] || (Bare(ns[0]) && AllBare(ns[1..]))
  }

  /** Names are in the block as soon as there are any. */
  ghost predicate Backed(s: Strings) {
    s.block == [] ==> s.offset == map[]
  }

  lemma {:induction false} PropertiesBacked(s: Strings, ps: seq<Property>)
    requires Backed(s)
    ensures Backed(InternProperties(s, ps))
    ensures InternProperties(s, ps).block == [] <==> s.block == [] && ps == []
  {
    if ps != [] {
      PropertiesBacked(s, ps[..|ps| - 1]);
    }
  }

  lemma {:induction false} NodeBacked(s: Strings, n: Node)
    requires Backed(s)
    ensures Backed(InternNode(s, n)) && (InternNode(s, n).block == [] <==> s.block == [] && Bare(n))
    decreases n, 0
  {
    PropertiesBacked(s, n.properties);
    NodesBacked(InternProperties(s, n.properties), n.children);
  }

  lemma {:induction false} NodesBacked(s: Strings, ns: seq<Node>)
    requires Backed(s)
    ensures Backed(InternNodes(s, ns)) && (InternNodes(s, ns).block == [] <==> s.block == [] && AllBare(ns))
    decreases ns, 1
  {
    if ns != [] {
      NodeBacked(s, ns[0]);
      NodesBacked(InternNode(s, ns[0]), ns[1..]);
    }
  }

  // ----- the whole file

  /** The header that is written can be read. */
  predicate Readable(h: Header) {
    h.magic == MAGIC && Compatible(h) && h.totalSize <= MAX_TOTAL_SIZE
  }

  lemma LayoutReadBack(h: Header, entries: seq<ReserveEntry>)
    requires h.offMemRsvmap == 48 && h.offDtStruct == 48 + 16 * (|entries| + 1)
    ensures LayoutOk(h, ReadEntries(entries))
  {
    hide ReadEntries;
    NotMoreEntries(entries);
    var k := 16 * (|ReadEntries(entries)| + 1);
    WrapExact(k);
    WrapExact(48 + k);
  }

  lemma HeaderExact(data: Bytes, h: Header)
    requires At(data, 0, EncodeHeader(h))
    ensures HeaderOf(data).Ok? <==> Readable(h)
    ensures HeaderOf(data).Ok? ==> HeaderOf(data) == Ok(h)
  {
    hide EncodeHeader, At, DecodeHeader;
    HeaderReadBack(data, h);
  }

  lemma EntriesFound(data: Bytes, h: Header, entries: seq<ReserveEntry>)
    requires h.offMemRsvmap == 48 && At(data, 48, EncodeEntries(entries) + Zeros(16))
    ensures EntriesOf(data, h) == Ok(ReadEntries(entries))
  {
    hide EncodeEntries, At, ReadEntries;
    EntriesReadBack(data, 48, entries);
  }

  /** An empty strings block lies at the end of the file. */
  lemma NoStrings(data: Bytes, h: Header)
    requires h.offDtStrings + h.sizeDtStrings == |data|
    ensures StringsOf(data, h).Ok? <==> h.sizeDtStrings > 0
  {
    hide Limited;
  }

  /**
   A file of less than 4 GiB is read back if and only if magic, version and
   size of its header are acceptable and the tree has a property.
   */
  lemma ReadBackExact(h: Header, entries: seq<ReserveEntry>, root: Node)
    requires |Blob(h, entries, root)| < 0x1_0000_0000 && NamesNulFree(root)
    ensures var f := FinalHeader(h, entries, root);
            && (ContentsOf(Blob(h, entries, root)).Ok? <==> Readable(f) && !Bare(root))
            && (ContentsOf(Blob(h, entries, root)).Ok? ==>
                  ContentsOf(Blob(h, entries, root)) == Ok(Contents(f, ReadEntries(entries), Flat(root, 0))))
  {
    var f, b := FinalHeader(h, entries, root), Blob(h, entries, root);
    LayoutExact(h, entries, root);
    NodeBacked(Strings([], map[]), root);
    TreeStringsIs(root);
    hide FinalHeader, Blob, EncodeHeader, EncodeEntries, StructBlock, TreeStrings, At, HeaderOf, EntriesOf,
      StringsOf, ReadEntries, Bare, InternNode, Readable, Flat, NamesNulFree, LayoutOk, NodesOf;
    HeaderExact(b, f);
    if Readable(f) {
      EntriesFound(b, f, entries);
      LayoutReadBack(f, entries);
      NoStrings(b, f);
      if !Bare(root) {
        BlocksReadBack(b, f, root);
      }
    }
  }

  /** The strings block and the structure block. */
  lemma BlocksReadBack(data: Bytes, f: Header, root: Node)
    requires At(data, f.offDtStrings, TreeStrings(root).block) && |TreeStrings(root).block| == f.sizeDtStrings > 0
    requires At(data, f.offDtStruct, StructBlock(root)) && |StructBlock(root)| == f.sizeDtStruct
            && Aligned(f.offDtStruct)
    requires NamesNulFree(root)
    ensures StringsOf(data, f) == Ok(TreeStrings(root).block)
    ensures NodesOf(data, f, TreeStrings(root).block) == Ok(Flat(root, 0))
  {
    hide StructBlock, TreeStrings, Run, Flat, NamesNulFree, Limited;
    var strs := TreeStrings(root).block;
    LimitedAt(data, f.offDtStrings, strs);
    LimitedAt(data, f.offDtStruct, StructBlock(root));
    RunTree(root);
    assert strs + Zeros(0) == strs;
  }

  /** The tree, as far as it survives. */
  lemma TreeReadBack(root: Node)
    requires Ordered(Flat(root, 0)) && Flat(root, 0) != []
    ensures Tree(Flat(root, 0), 0) == ReadNode(root)
  {
    FlatIsTree(Flat(root, 0), root, 0);
  }

  // ----- when it is the same tree

  predicate Ascii(s: Bytes) {
    forall i :: 0 <= i < |s| ==> s[i] < 128
  }

  lemma {:induction false} NameExact(s: Bytes)
    ensures |NameOf(s)| >= |s|
    ensures NameOf(s) == s <==> Ascii(s)
  {
    if s != [] {
      var init, last := s[..|s| - 1], s[|s| - 1];
      NameExact(init);
      assert s == init + [last];
      assert NameOf(s) == NameOf(init) + Utf8(last);
      hide NameOf;
      if last < 128 {
        OneMore(NameOf(init), init, last);
      }
    }
  }

  lemma OneMore(x: Bytes, y: Bytes, b: Byte)
    ensures x + [b] == y + [b] <==> x == y
  {
    assert (x + [b])[..|x|] == x && (y + [b])[..|y|] == y;
    if x + [b] == y + [b] {
      assert |x + [b]| == |y + [b]|;
    }
  }

  /** Every node has an ASCII name, every property a name without NUL. */
  ghost predicate PlainNames(n: Node)
    decreases n, 0
  {
    && Ascii(n.name) && (forall i :: 0 <= i < |n.properties| ==> NulFree(n.properties[i].name))
    && PlainAll(n.children)
  }

  ghost predicate PlainAll(ns: seq<Node>)
    decreases ns, 1
  {
    ns == [] || (PlainNames(ns[0]) && PlainAll(ns[1..]))
  }

  lemma {:induction false} PropertiesExact(ps: seq<Property>)
    ensures ReadProperties(ps) == ps <==> forall i :: 0 <= i < |ps| ==> NulFree(ps[i].name)
  {
    if ps != [] {
      var init, last := ps[..|ps| - 1], ps[|ps| - 1];
      PropertiesExact(init);
      WholeName(last.name);
      assert ps == init + [last];
      assert ReadProperties(ps)[..|ps| - 1] == ReadProperties(init)
        && ReadProperties(ps)[|ps| - 1] == ReadProperty(last);
    }
  }

  /** The tree that is read is the one that was written exactly if its names are plain. */
  lemma {:induction false} TreeExact(n: Node)
    ensures ReadNode(n) == n <==> PlainNames(n)
    decreases n, 0
  {
    NameExact(n.name);
    PropertiesExact(n.properties);
    TreesExact(n.children);
  }

  lemma {:induction false} TreesExact(ns: seq<Node>)
    ensures ReadNodes(ns) == ns <==> PlainAll(ns)
    decreases ns, 1
  {
    if ns != [] {
      TreeExact(ns[0]);
      TreesExact(ns[1..]);
      assert ns == [ns[0]] + ns[1..];
      assert ReadNodes(ns)[1..] == ReadNodes(ns[1..]) && ReadNodes(ns)[0] == ReadNode(ns[0]);
    }
  }

  /**
   Writing a tree and reading the file gives the same header, the same
   reserved memory and the same tree, if it is readable at all: exactly when
   no entry is all zero and the names are plain.
   */
  lemma RoundTripExact(h: Header, entries: seq<ReserveEntry>, root: Node)
    requires |Blob(h, entries, root)| <= MAX_TOTAL_SIZE && NamesNulFree(root)
    requires h.magic == MAGIC && Compatible(h) && !Bare(root)
    ensures var r := ContentsOf(Blob(h, entries, root));
            && r.Ok? && r.value.header == FinalHeader(h, entries, root)
            && (r.value.entries == entries <==> ZERO_ENTRY !in entries)
            && (Tree(r.value.nodes, 0) == root <==> PlainNames(root))
  {
    LayoutExact(h, entries, root);
    var f := FinalHeader(h, entries, root);
    assert f.magic == h.magic && f.version == h.version && f.lastCompVersion == h.lastCompVersion;
    hide Blob, FinalHeader, TreeStrings, At, StructBlock, EncodeHeader, EncodeEntries, NamesNulFree, Flat, Tree,
      ReadNode, PlainNames, ReadEntries, ContentsOf;
    ReadBackExact(h, entries, root);
    NotMoreEntries(entries);
    TreeReadBack(root);
    TreeExact(root);
  }
}
