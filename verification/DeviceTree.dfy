/**
 Device trees and their flattened form (`fdt_linux.go` and `node.go` of
 `pkg/dt`; Devicetree Specification, chapter 5): what the three blocks of a
 flattened tree contain.
 */
module DeviceTree {
  import opened Bytes

  datatype Property = Property(name: Bytes, value: Bytes)

  datatype Node = Node(name: Bytes, properties: seq<Property>, children: seq<Node>)

  datatype ReserveEntry = ReserveEntry(address: U64, size: U64)

  datatype Header = Header(
    magic: U32,
    totalSize: U32,
    offDtStruct: U32,
    offDtStrings: U32,
    offMemRsvmap: U32,
    version: U32,
    lastCompVersion: U32,
    bootCpuidPhys: U32,
    sizeDtStrings: U32,
    sizeDtStruct: U32)

  const MAGIC: U32 := 0xd00dfeed
  const MAX_TOTAL_SIZE: U32 := 1024 * 1024 * 1024
  const HEADER_SIZE: nat := 40

  const BEGIN_NODE: U32 := 1
  const END_NODE: U32 := 2
  const PROP: U32 := 3
  const NOP: U32 := 4
  const END: U32 := 9

  // ----- the strings block

  /** The strings block so far, and the offset of every name in it. */
  datatype Strings = Strings(block: Bytes, offset: map<Bytes, U32>)

  /** A name is added only once. */
  function Intern(s: Strings, name: Bytes): Strings {
    if name in s.offset then s
    else Strings(s.block + name + [0], s.offset[name := Wrap(|s.block|)])
  }

  function InternProperties(s: Strings, ps: seq<Property>): Strings {
    if ps == [] then s else Intern(InternProperties(s, ps[..|ps| - 1]), ps[|ps| - 1].name)
  }

  /** The names of a node and of everything below it, in the order of `Walk`. */
  function InternNode(s: Strings, n: Node): Strings
    decreases n, 0
  {
    InternNodes(InternProperties(s, n.properties), n.children)
  }

  function InternNodes(s: Strings, ns: seq<Node>): Strings
    decreases ns, 1
  {
    if ns == [] then s else InternNodes(InternNode(s, ns[0]), ns[1..])
  }

  function TreeStrings(root: Node): Strings {
    InternNode(Strings([], map[]), root)
  }

  /** At the offset of every name its bytes and a NUL can be read. */
  ghost predicate Indexed(s: Strings) {
    |s.block| < 0x1_0000_0000 ==> forall name :: name in s.offset ==> At(s.block, s.offset[name], name + [0])
  }

  /** Nothing that is in the strings block is moved or removed. */
  ghost predicate Extends(s: Strings, t: Strings) {
    && s.block <= t.block
    && (forall name :: name in s.offset ==> name in t.offset && t.offset[name] == s.offset[name])
  }

  lemma InternKeeps(s: Strings, name: Bytes)
    requires Indexed(s)
    ensures Indexed(Intern(s, name)) && Extends(s, Intern(s, name)) && name in Intern(s, name).offset
  {
    hide At;
    var t := Intern(s, name);
    if |t.block| < 0x1_0000_0000 && name !in s.offset {
      assert s.block + name + [0] == s.block + (name + [0]);
      WholeAt(t.block, s.block, name + [0]);
      forall x | x in t.offset && x != name ensures At(t.block, t.offset[x], x + [0]) {
        AtAt(t.block, 0, s.block, s.offset[x], x + [0]);
      }
    }
  }

  lemma ExtendsTrans(s: Strings, t: Strings, u: Strings)
    requires Extends(s, t) && Extends(t, u)
    ensures Extends(s, u)
  {
    assert s.block == u.block[..|s.block|];
  }

  /** Every name of the properties has an offset. */
  ghost predicate HasNames(s: Strings, ps: seq<Property>) {
    forall i :: 0 <= i < |ps| ==> ps[i].name in s.offset
  }

  ghost predicate HasNodeNames(s: Strings, n: Node)
    decreases n, 0
  {
    HasNames(s, n.properties) && HasNodesNames(s, n.children)
  }

  ghost predicate HasNodesNames(s: Strings, ns: seq<Node>)
    decreases ns, 1
  {
    ns == [] || (HasNodeNames(s, ns[0]) && HasNodesNames(s, ns[1..]))
  }

  lemma {:induction false} NamesKept(s: Strings, t: Strings, n: Node)
    requires Extends(s, t) && HasNodeNames(s, n)
    ensures HasNodeNames(t, n)
    decreases n, 0
  {
    NodesNamesKept(s, t, n.children);
  }

  lemma {:induction false} NodesNamesKept(s: Strings, t: Strings, ns: seq<Node>)
    requires Extends(s, t) && HasNodesNames(s, ns)
    ensures HasNodesNames(t, ns)
    decreases ns, 1
  {
    if ns != [] {
      NamesKept(s, t, ns[0]);
      NodesNamesKept(s, t, ns[1..]);
    }
  }

  lemma {:induction false} InternPropertiesKeeps(s: Strings, ps: seq<Property>)
    requires Indexed(s)
    ensures var t := InternProperties(s, ps); Indexed(t) && Extends(s, t) && HasNames(t, ps)
  {
    if ps != [] {
      var init := ps[..|ps| - 1];
      InternPropertiesKeeps(s, init);
      InternKeeps(InternProperties(s, init), ps[|ps| - 1].name);
      ExtendsTrans(s, InternProperties(s, init), InternProperties(s, ps));
      assert forall i :: 0 <= i < |init| ==> ps[i] == init[i];
    }
  }

  /** After the walk every name of the tree has an offset, at which it can be read. */
  lemma {:induction false} InternNodeKeeps(s: Strings, n: Node)
    requires Indexed(s)
    ensures var t := InternNode(s, n); Indexed(t) && Extends(s, t) && HasNodeNames(t, n)
    decreases n, 0
  {
    var t := InternProperties(s, n.properties);
    InternPropertiesKeeps(s, n.properties);
    InternNodesKeeps(t, n.children);
    ExtendsTrans(s, t, InternNodes(t, n.children));
  }

  lemma {:induction false} InternNodesKeeps(s: Strings, ns: seq<Node>)
    requires Indexed(s)
    ensures var t := InternNodes(s, ns); Indexed(t) && Extends(s, t) && HasNodesNames(t, ns)
    decreases ns, 1
  {
    if ns != [] {
      var t := InternNode(s, ns[0]);
      InternNodeKeeps(s, ns[0]);
      InternNodesKeeps(t, ns[1..]);
      ExtendsTrans(s, t, InternNodes(t, ns[1..]));
      NamesKept(t, InternNodes(t, ns[1..]), ns[0]);
    }
  }

  // ----- the structure block

  function EncodeProperty(p: Property, s: Strings): Bytes
    requires p.name in s.offset
  {
    Put32(PROP) + Put32(Wrap(|p.value|)) + Put32(s.offset[p.name]) + Padded(p.value)
  }

  function EncodeProperties(ps: seq<Property>, s: Strings): Bytes
    requires HasNames(s, ps)
  {
    if ps == [] then [] else EncodeProperties(ps[..|ps| - 1], s) + EncodeProperty(ps[|ps| - 1], s)
  }

  function EncodeNode(n: Node, s: Strings): Bytes
    requires HasNodeNames(s, n)
    decreases n, 0
  {
    Put32(BEGIN_NODE) + Padded(n.name + [0]) + EncodeProperties(n.properties, s) + EncodeNodes(n.children, s)
      + Put32(END_NODE)
  }

  function EncodeNodes(ns: seq<Node>, s: Strings): Bytes
    requires HasNodesNames(s, ns)
    decreases ns, 1
  {
    if ns == [] then [] else EncodeNode(ns[0], s) + EncodeNodes(ns[1..], s)
  }

  // ----- its size, calculated beforehand

  function PropertySize(p: Property): nat {
    12 + Up4(|p.value|)
  }

  function PropertiesSize(ps: seq<Property>): nat {
    if ps == [] then 0 else PropertiesSize(ps[..|ps| - 1]) + PropertySize(ps[|ps| - 1])
  }

  function NodeSize(n: Node): nat
    decreases n, 0
  {
    8 + Up4(|n.name| + 1) + PropertiesSize(n.properties) + NodesSize(n.children)
  }

  function NodesSize(ns: seq<Node>): nat
    decreases ns, 1
  {
    if ns == [] then 0 else NodeSize(ns[0]) + NodesSize(ns[1..])
  }

  /** The calculated size is the size of what is written. */
  lemma {:induction false} NodeSizeIsLength(n: Node, s: Strings)
    requires HasNodeNames(s, n)
    ensures |EncodeNode(n, s)| == NodeSize(n)
    decreases n, 0
  {
    PropertiesSizeIsLength(n.properties, s);
    NodesSizeIsLength(n.children, s);
    hide Put32, Up4, PropertiesSize, EncodeProperties, NodesSize, EncodeNodes;
  }

  lemma {:induction false} NodesSizeIsLength(ns: seq<Node>, s: Strings)
    requires HasNodesNames(s, ns)
    ensures |EncodeNodes(ns, s)| == NodesSize(ns)
    decreases ns, 1
  {
    hide EncodeNode, NodeSize;
    if ns != [] {
      NodeSizeIsLength(ns[0], s);
      NodesSizeIsLength(ns[1..], s);
    }
  }

  lemma {:induction false} PropertiesSizeIsLength(ps: seq<Property>, s: Strings)
    requires HasNames(s, ps)
    ensures |EncodeProperties(ps, s)| == PropertiesSize(ps)
  {
    hide Put32, Up4;
    if ps != [] {
      PropertiesSizeIsLength(ps[..|ps| - 1], s);
    }
  }

  /** The sizes are multiples of four. */
  lemma {:induction false} NodeSizeIsAligned(n: Node)
    ensures Aligned(NodeSize(n))
    decreases n, 0
  {
    PropertiesSizeIsAligned(n.properties);
    NodesSizeIsAligned(n.children);
    AlignedHeads(|n.name| + 1);
    hide Up4, Aligned, PropertiesSize, NodesSize;
    AlignedSum(8 + Up4(|n.name| + 1), PropertiesSize(n.properties));
    AlignedSum(8 + Up4(|n.name| + 1) + PropertiesSize(n.properties), NodesSize(n.children));
  }

  lemma {:induction false} NodesSizeIsAligned(ns: seq<Node>)
    ensures Aligned(NodesSize(ns))
    decreases ns, 1
  {
    hide NodeSize;
    if ns == [] {
      AlignedHeads(0);
    } else {
      NodeSizeIsAligned(ns[0]);
      NodesSizeIsAligned(ns[1..]);
      AlignedSum(NodeSize(ns[0]), NodesSize(ns[1..]));
      hide Aligned;
    }
  }

  lemma {:induction false} PropertiesSizeIsAligned(ps: seq<Property>)
    ensures Aligned(PropertiesSize(ps))
  {
    hide Up4;
    if ps == [] {
      AlignedHeads(0);
    } else {
      var last := Up4(|ps[|ps| - 1].value|);
      PropertiesSizeIsAligned(ps[..|ps| - 1]);
      AlignedHeads(|ps[|ps| - 1].value|);
      AlignedSum(PropertiesSize(ps[..|ps| - 1]), 12 + last);
      hide Aligned;
    }
  }

  // ----- header and memory reservation block

  function EncodeHeader(h: Header): (r: Bytes)
    ensures |r| == HEADER_SIZE
  {
    Put32(h.magic) + Put32(h.totalSize) + Put32(h.offDtStruct) + Put32(h.offDtStrings) + Put32(h.offMemRsvmap)
    + Put32(h.version) + Put32(h.lastCompVersion) + Put32(h.bootCpuidPhys) + Put32(h.sizeDtStrings)
      + Put32(h.sizeDtStruct)
  }

  function EncodeEntry(e: ReserveEntry): (r: Bytes)
    ensures |r| == 16
  {
    Put64(e.address) + Put64(e.size)
  }

  function EncodeEntries(es: seq<ReserveEntry>): (r: Bytes)
    ensures |r| == 16 * |es|
  {
    if es == [] then [] else EncodeEntries(es[..|es| - 1]) + EncodeEntry(es[|es| - 1])
  }
}
