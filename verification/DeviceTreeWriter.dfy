/**
 Writing a flattened device tree (`FDT.Write` of `fdt_linux.go`, with
 `AlignWriter` of `pkg/uio`).  Writing a byte never fails.
 */
module DeviceTreeWriter {
  import opened Sequences
  import opened Bytes
  import opened DeviceTree

  class AlignWriter {
    var out: Bytes
    var n: nat

    ghost predicate Valid()
      reads this
    {
      n == |out|
    }

    constructor ()
      ensures Valid() && out == []
    {
      out, n := [], 0;
    }

    method Write(s: Bytes)
      requires Valid()
      modifies this
      ensures Valid() && out == old(out) + s
    {
      out, n := out + s, n + |s|;
    }

    /** Pads with zeros up to the next multiple of a. */
    method Align(a: nat)
      requires Valid() && a > 0
      modifies this
      ensures Valid() && out == old(out) + Zeros((a - |old(out)| % a) % a)
    {
      Write(Zeros((a - n % a) % a));
    }
  }

  /** A piece written at a multiple of four and then aligned is padded. */
  lemma AlignPads(before: Bytes, s: Bytes)
    requires Aligned(|before|)
    ensures (before + s) + Zeros((4 - |before + s| % 4) % 4) == before + Padded(s)
    ensures Aligned(|before + Padded(s)|)
  {
    AlignedSum(|before|, Up4(|s|));
    UpAfter(|before|, |s|);
    SeqAssoc(before, s, Zeros((4 - |s| % 4) % 4));
  }

  /** Where the blocks of a tree go, as the header announces it. */
  function FinalHeader(h: Header, entries: seq<ReserveEntry>, root: Node): Header {
    var offDtStruct := Wrap(48 + 16 * (|entries| + 1));
    var sizeDtStruct := Wrap(4 + NodeSize(root));
    var sizeDtStrings := Wrap(|TreeStrings(root).block|);
    var offDtStrings := Wrap(offDtStruct + sizeDtStruct);
    h.(totalSize := Wrap(offDtStrings + sizeDtStrings), offDtStruct := offDtStruct, offDtStrings := offDtStrings,
       offMemRsvmap := 48, sizeDtStrings := sizeDtStrings, sizeDtStruct := sizeDtStruct)
  }

  function StructBlock(root: Node): Bytes {
    InternNodeKeeps(Strings([], map[]), root);
    EncodeNode(root, TreeStrings(root)) + Put32(END)
  }

  /** The header with its padding, and the reserved memory with its terminator. */
  function FirstBlocks(h: Header, entries: seq<ReserveEntry>): Bytes {
    EncodeHeader(h) + Zeros(8) + EncodeEntries(entries) + Zeros(16)
  }

  /** The whole file. */
  function Blob(h: Header, entries: seq<ReserveEntry>, root: Node): Bytes {
    FirstBlocks(FinalHeader(h, entries, root), entries) + StructBlock(root) + TreeStrings(root).block
  }

  lemma FirstBlocksLength(h: Header, entries: seq<ReserveEntry>)
    ensures |FirstBlocks(h, entries)| == 48 + 16 * (|entries| + 1)
  {
    hide EncodeHeader, EncodeEntries;
  }

  lemma StructBlockLength(root: Node)
    ensures |StructBlock(root)| == 4 + NodeSize(root) && Aligned(|StructBlock(root)|)
  {
    InternNodeKeeps(Strings([], map[]), root);
    NodeSizeIsLength(root, TreeStrings(root));
    NodeSizeIsAligned(root);
    AlignedHeads(0);
    AlignedSum(4, NodeSize(root));
    hide EncodeNode, NodeSize, TreeStrings, Put32, Aligned;
  }

  /**
   The announced size is the number of bytes modulo 2^32, and below 2^32 the
   three blocks are at the announced offsets with the announced sizes, without
   gaps or overlaps.
   */
  lemma LayoutExact(h: Header, entries: seq<ReserveEntry>, root: Node)
    ensures var f, b := FinalHeader(h, entries, root), Blob(h, entries, root);
            && (f.totalSize == |b| <==> |b| < 0x1_0000_0000)
            && (f.totalSize == |b| ==>
                  && At(b, 0, EncodeHeader(f))
                  && f.offMemRsvmap == 48 && At(b, f.offMemRsvmap, EncodeEntries(entries) + Zeros(16))
                  && f.offDtStruct == f.offMemRsvmap + 16 * (|entries| + 1)
                  && Aligned(f.offDtStruct) && |StructBlock(root)| == f.sizeDtStruct
                  && At(b, f.offDtStruct, StructBlock(root))
                  && f.offDtStrings == f.offDtStruct + f.sizeDtStruct && |TreeStrings(root).block| == f.sizeDtStrings
                  && At(b, f.offDtStrings, TreeStrings(root).block)
                  && f.offDtStrings + f.sizeDtStrings == |b|)
  {
    hide EncodeHeader, EncodeEntries, StructBlock, NodeSize, TreeStrings, At;
    var f, b := FinalHeader(h, entries, root), Blob(h, entries, root);
    FirstBlocksLength(f, entries);
    StructBlockLength(root);
    SizesFit(h, entries, root);
    hide FinalHeader, FirstBlocks, Aligned;
    var first, struct, strs := FirstBlocks(f, entries), StructBlock(root), TreeStrings(root).block;
    WholeAt(b, first + struct, strs);
    WholeAt(first + struct, first, struct);
    AtAt(b, 0, first + struct, 0, first);
    AtAt(b, 0, first + struct, |first|, struct);
    HeaderAndEntries(f, entries);
    AtAt(b, 0, first, 0, EncodeHeader(f));
    AtAt(b, 0, first, 48, EncodeEntries(entries) + Zeros(16));
  }

  /** The sum of the sizes, with and without the conversions to 32 bits. */
  lemma SizesFit(h: Header, entries: seq<ReserveEntry>, root: Node)
    ensures var f, n := FinalHeader(h, entries, root),
            48 + 16 * (|entries| + 1) + (4 + NodeSize(root)) + |TreeStrings(root).block|;
            && (f.totalSize == n <==> n < 0x1_0000_0000)
            && f.offMemRsvmap == 48
            && (f.totalSize == n ==>
                  && f.offDtStruct == 48 + 16 * (|entries| + 1) && Aligned(f.offDtStruct)
                  && f.sizeDtStruct == 4 + NodeSize(root) && f.sizeDtStrings == |TreeStrings(root).block|
                  && f.offDtStrings == f.offDtStruct + f.sizeDtStruct && f.offDtStrings + f.sizeDtStrings == n)
  {
    hide NodeSize, TreeStrings;
    AlignedHeads(|entries| + 1);
    AlignedSum(48, 16 * (|entries| + 1));
    var a, b, c := 48 + 16 * (|entries| + 1), 4 + NodeSize(root), |TreeStrings(root).block|;
    hide Aligned, Wrap;
    WrapSum(a, b);
    WrapSum(Wrap(a), b);
    WrapSum(a + b, c);
    WrapSum(Wrap(a + b), c);
    WrapExact(a);
    WrapExact(b);
    WrapExact(c);
    WrapExact(a + b);
    WrapExact(a + b + c);
  }

  lemma HeaderAndEntries(h: Header, entries: seq<ReserveEntry>)
    ensures At(FirstBlocks(h, entries), 0, EncodeHeader(h))
    ensures At(FirstBlocks(h, entries), 48, EncodeEntries(entries) + Zeros(16))
  {
    hide EncodeHeader, EncodeEntries;
    var head, rest := EncodeHeader(h) + Zeros(8), EncodeEntries(entries) + Zeros(16);
    assert FirstBlocks(h, entries) == head + rest;
  }

  class FDT {
    var header: Header
    var reserveEntries: seq<ReserveEntry>
    var rootNode: Node

    constructor (header: Header, reserveEntries: seq<ReserveEntry>, rootNode: Node)
      ensures this.header == header && this.reserveEntries == reserveEntries && this.rootNode == rootNode
    {
      this.header, this.reserveEntries, this.rootNode := header, reserveEntries, rootNode;
    }

    /** The first walk: the strings block and the offset of every name. */
    static method CollectStrings(n: Node, before: Strings) returns (s: Strings)
      ensures s == InternNode(before, n)
      decreases n
    {
      s := before;
      for i := 0 to |n.properties|
        invariant s == InternProperties(before, n.properties[..i])
      {
        assert n.properties[..i + 1][..i] == n.properties[..i];
        if n.properties[i].name !in s.offset {
          s := s.(offset := s.offset[n.properties[i].name := Wrap(|s.block|)]);
          s := s.(block := s.block + n.properties[i].name);
          s := s.(block := s.block + [0]);
        }
      }
      assert n.properties[..|n.properties|] == n.properties;
      ghost var own := s;
      for i := 0 to |n.children|
        invariant InternNodes(s, n.children[i..]) == InternNodes(own, n.children)
      {
        assert n.children[i..][1..] == n.children[i + 1..];
        s := CollectStrings(n.children[i], s);
      }
    }

    /** The second walk: the size of the structure block, in 32 bits. */
    method AddSizes(n: Node)
      modifies `header
      ensures header == old(header).(sizeDtStruct := Wrap(old(header).sizeDtStruct + NodeSize(n)))
      decreases n
    {
      hide Up4, Wrap;
      ghost var size := old(header).sizeDtStruct;
      GrowSize(8 + Wrap(Up4(|n.name| + 1)));
      WrapSum(size + 8, Up4(|n.name| + 1));
      size := size + 8 + Up4(|n.name| + 1);
      for i := 0 to |n.properties|
        invariant header == old(header).(sizeDtStruct := Wrap(size + PropertiesSize(n.properties[..i])))
      {
        assert n.properties[..i + 1][..i] == n.properties[..i];
        ghost var before := size + PropertiesSize(n.properties[..i]);
        GrowSize(12 + Wrap(Up4(|n.properties[i].value|)));
        WrapSum(before, 12 + Wrap(Up4(|n.properties[i].value|)));
        WrapSum(before + 12, Up4(|n.properties[i].value|));
      }
      assert n.properties[..|n.properties|] == n.properties;
      size := size + PropertiesSize(n.properties);
      AddChildren(n, size);
    }

    method GrowSize(more: nat)
      modifies `header
      ensures header == old(header).(sizeDtStruct := Wrap(old(header).sizeDtStruct + more))
    {
      header := header.(sizeDtStruct := Wrap(header.sizeDtStruct + more));
    }

    method AddChildren(n: Node, ghost size: nat)
      requires header.sizeDtStruct == Wrap(size)
      modifies `header
      ensures header == old(header).(sizeDtStruct := Wrap(size + NodesSize(n.children)))
      decreases n, 0
    {
      hide Up4, Wrap, NodeSize;
      ghost var sum: nat := size;
      for i := 0 to |n.children|
        invariant header == old(header).(sizeDtStruct := Wrap(sum))
        invariant sum + NodesSize(n.children[i..]) == size + NodesSize(n.children)
      {
        assert n.children[i..][1..] == n.children[i + 1..];
        AddSizes(n.children[i]);
        WrapSum(sum, NodeSize(n.children[i]));
        sum := sum + NodeSize(n.children[i]);
      }
    }

    static lemma Joined(start: Bytes, a: Bytes, b: Bytes, c: Bytes, d: Bytes, e: Bytes)
      ensures start + a + b + c + d + e == start + (a + b + c + d + e)
    {
      SeqAssoc(start, a, b);
      SeqAssoc(start, a + b, c);
      SeqAssoc(start, a + b + c, d);
      SeqAssoc(start, a + b + c + d, e);
    }

    /** `writeNode`. */
    static method WriteNode(w: AlignWriter, n: Node, s: Strings)
      requires w.Valid() && Aligned(|w.out|) && HasNodeNames(s, n)
      modifies w
      ensures w.Valid() && w.out == old(w.out) + EncodeNode(n, s) && Aligned(|w.out|)
      decreases n
    {
      hide Put32, Up4, Padded, EncodeProperties, EncodeNodes;
      ghost var start := w.out;
      NodeSizeIsLength(n, s);
      NodeSizeIsAligned(n);
      AlignedSum(|start|, NodeSize(n));
      w.Write(Put32(BEGIN_NODE));
      WritePadded(w, n.name + [0]);
      WriteProperties(w, n.properties, s);
      WriteChildren(w, n, s);
      w.Write(Put32(END_NODE));
      Joined(start, Put32(BEGIN_NODE), Padded(n.name + [0]), EncodeProperties(n.properties, s),
        EncodeNodes(n.children, s), Put32(END_NODE));
    }

    static method WritePadded(w: AlignWriter, piece: Bytes)
      requires w.Valid() && Aligned(|w.out|)
      modifies w
      ensures w.Valid() && w.out == old(w.out) + Padded(piece) && Aligned(|w.out|)
    {
      AlignPads(w.out, piece);
      w.Write(piece);
      w.Align(4);
    }

    static method WriteProperties(w: AlignWriter, ps: seq<Property>, s: Strings)
      requires w.Valid() && Aligned(|w.out|) && HasNames(s, ps)
      modifies w
      ensures w.Valid() && w.out == old(w.out) + EncodeProperties(ps, s) && Aligned(|w.out|)
    {
      hide Put32, Up4, Padded;
      for i := 0 to |ps|
        invariant w.Valid() && w.out == old(w.out) + EncodeProperties(ps[..i], s) && Aligned(|w.out|)
      {
        assert ps[..i + 1][..i] == ps[..i];
        ghost var before := w.out;
        w.Write(Put32(PROP) + Put32(Wrap(|ps[i].value|)) + Put32(s.offset[ps[i].name]));
        WritePadded(w, ps[i].value);
        assert w.out == before + EncodeProperty(ps[i], s);
      }
      assert ps[..|ps|] == ps;
    }

    static method WriteChildren(w: AlignWriter, n: Node, s: Strings)
      requires w.Valid() && Aligned(|w.out|) && HasNodesNames(s, n.children)
      modifies w
      ensures w.Valid() && w.out == old(w.out) + EncodeNodes(n.children, s) && Aligned(|w.out|)
      decreases n, 0
    {
      hide EncodeNode;
      for i := 0 to |n.children|
        invariant w.Valid() && Aligned(|w.out|) && HasNodesNames(s, n.children[i..])
        invariant w.out + EncodeNodes(n.children[i..], s) == old(w.out) + EncodeNodes(n.children, s)
      {
        assert n.children[i..][1..] == n.children[i + 1..];
        WriteNode(w, n.children[i], s);
      }
      assert n.children[|n.children|..] == [];
    }

    /** `Write`: fills in the header and returns the bytes and their number. */
    method Write() returns (out: Bytes, n: nat)
      modifies `header
      ensures header == FinalHeader(old(header), reserveEntries, rootNode)
      ensures out == Blob(old(header), reserveEntries, rootNode) && n == |out|
    {
      hide NodeSize, TreeStrings, Blob, FirstBlocks, StructBlock, FinalHeader;
      var s := CollectTree();
      FillHeader(s);
      var w := new AlignWriter();
      WriteFirst(w);
      FirstBlocksLength(header, reserveEntries);
      WriteStruct(w, s);
      w.Write(s.block);
      out, n := w.out, w.n;
      BlobIs(old(header), reserveEntries, rootNode);
    }

    static lemma BlobIs(h: Header, entries: seq<ReserveEntry>, root: Node)
      ensures Blob(h, entries, root)
           == FirstBlocks(FinalHeader(h, entries, root), entries) + StructBlock(root) + TreeStrings(root).block
    {
    }

    static lemma HeaderIsPadded()
      ensures Wrap(Up(HEADER_SIZE, 16)) == 48
    {
    }

    static lemma BlockOffsets(entries: nat)
      ensures Wrap(48 + Wrap(Up4(entries * 16))) == Wrap(48 + 16 * entries)
    {
      AlignedHeads(entries);
      hide Up4, Wrap, Aligned;
      Up4Exact(16 * entries);
      WrapSum(48, 16 * entries);
    }

    /** The sizes and the offsets. */
    method FillHeader(s: Strings)
      requires s == TreeStrings(rootNode)
      modifies `header
      ensures header == FinalHeader(old(header), reserveEntries, rootNode)
    {
      hide NodeSize, TreeStrings, Wrap, Up, Up4;
      header := header.(sizeDtStrings := Wrap(|s.block|), sizeDtStruct := 4);
      AddSizes(rootNode);
      header := header.(offMemRsvmap := Wrap(Up(HEADER_SIZE, 16)));
      HeaderIsPadded();
      BlockOffsets(|reserveEntries| + 1);
      header := header.(offDtStruct := Wrap(header.offMemRsvmap + Wrap(Up4((|reserveEntries| + 1) * 16))));
      header := header.(offDtStrings := Wrap(header.offDtStruct + header.sizeDtStruct));
      header := header.(totalSize := Wrap(header.offDtStrings + header.sizeDtStrings));
    }

    method CollectTree() returns (s: Strings)
      ensures s == TreeStrings(rootNode) && HasNodeNames(s, rootNode)
    {
      InternNodeKeeps(Strings([], map[]), rootNode);
      s := CollectStrings(rootNode, Strings([], map[]));
    }

    method WriteFirst(w: AlignWriter)
      requires w.Valid() && w.out == []
      modifies w
      ensures w.Valid() && w.out == FirstBlocks(header, reserveEntries)
    {
      hide EncodeHeader, EncodeEntries;
      w.Write(EncodeHeader(header));
      w.Align(16);
      w.Write(EncodeEntries(reserveEntries));
      w.Write(Zeros(16));
      assert w.out == FirstBlocks(header, reserveEntries);
    }

    method WriteStruct(w: AlignWriter, s: Strings)
      requires w.Valid() && Aligned(|w.out|) && s == TreeStrings(rootNode) && HasNodeNames(s, rootNode)
      modifies w
      ensures w.Valid() && w.out == old(w.out) + StructBlock(rootNode)
    {
      hide EncodeNode, TreeStrings, Put32;
      w.Align(4);
      assert w.out == old(w.out);
      WriteNode(w, rootNode, s);
      w.Write(Put32(END));
    }
  }
}
