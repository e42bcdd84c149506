/**
 FDT_NOP tokens (Devicetree Specification, Release 0.2, section 5.4.1): they
 can stand before every token of a structure block, and reading gives the same
 nodes with them (`readStructBlock` of `fdt_linux.go`).
 */
module DeviceTreeNops {
  import opened Wrappers
  import opened Bytes
  import opened DeviceTree
  import opened DeviceTreeReader
  import opened DeviceTreeRoundTrip
  import opened DeviceTreeWriter

  /** The block with one more FDT_NOP. */
  function InsertNop(b: Bytes, p: nat): (r: Bytes)
    requires p <= |b|
    ensures |r| == |b| + 4
  {
    b[..p] + Put32(NOP) + b[p..]
  }

  /** The loop that is at pos comes to p. */
  ghost predicate Comes(b: Bytes, size: U32, strs: Bytes, pos: nat, st: State, p: nat)
    requires Valid(st) && pos <= |b|
    decreases |b| - pos
  {
    || p == pos
    || (pos < p
        && match Step(b, size, strs, pos, st)
           case Go(pos', st') => Comes(b, size, strs, pos', st', p)
           case _ => false)
  }

  /** The loop reads a token at p. */
  ghost predicate TokenAt(b: Bytes, size: U32, strs: Bytes, p: nat) {
    Comes(b, size, strs, 0, State([], []), p)
  }

  // ----- what is read behind the new token

  /** What is at pos in one block is at pos' in the other one. */
  ghost predicate SameFrom(b: Bytes, pos: nat, b': Bytes, pos': nat) {
    pos <= |b| && pos' <= |b'| && b[pos..] == b'[pos'..]
  }

  lemma SameSlice(b: Bytes, pos: nat, b': Bytes, pos': nat, i: nat, n: nat)
    requires SameFrom(b, pos, b', pos') && pos + i + n <= |b|
    ensures pos' + i + n <= |b'| && b[pos + i..pos + i + n] == b'[pos' + i..pos' + i + n]
    ensures SameFrom(b, pos + i, b', pos' + i)
  {
    assert |b[pos..]| == |b'[pos'..]|;
    SliceBehind(b, pos, i, n);
    SliceBehind(b', pos', i, n);
  }

  lemma SliceBehind(b: Bytes, pos: nat, i: nat, n: nat)
    requires pos + i + n <= |b|
    ensures b[pos + i..pos + i + n] == b[pos..][i..i + n] && b[pos + i..] == b[pos..][i..]
  {
  }

  lemma SameNumber(b: Bytes, pos: nat, b': Bytes, pos': nat)
    requires SameFrom(b, pos, b', pos') && pos + 4 <= |b|
    ensures Get32(b, pos) == Get32(b', pos')
  {
    SameSlice(b, pos, b', pos', 0, 4);
  }

  lemma {:induction false} SameNul(b: Bytes, pos: nat, b': Bytes, pos': nat)
    requires SameFrom(b, pos, b', pos')
    ensures NulFrom(b', pos') - pos' == NulFrom(b, pos) - pos && |b'| - pos' == |b| - pos
    decreases |b| - pos
  {
    if pos < |b| {
      assert b[pos] == b[pos..][0] == b'[pos'..][0] == b'[pos'];
      SameSlice(b, pos, b', pos', 1, 0);
      SameNul(b, pos + 1, b', pos' + 1);
    }
  }

  /** An outcome four bytes further on. */
  function Later(o: Outcome): Outcome {
    match o case Go(pos, st) => Go(pos + 4, st) case _ => o
  }

  lemma UpLater(pos: nat)
    ensures Up4(pos + 4) == Up4(pos) + 4
  {
  }

  lemma SkipLater(b: Bytes, b': Bytes, pos: nat, st: State)
    requires |b'| == |b| + 4
    ensures Skip(b', pos + 4, st) == Later(Skip(b, pos, st))
  {
    UpLater(pos);
    hide Up4;
  }

  lemma BeginLater(b: Bytes, b': Bytes, pos: nat, st: State)
    requires SameFrom(b, pos, b', pos + 4) && |b'| == |b| + 4 && Valid(st)
    ensures BeginNode(b', pos + 4, st) == Later(BeginNode(b, pos, st))
  {
    hide Valid, OpenNode, NulFrom, NameOf, Skip, Ordered;
    SameNul(b, pos, b', pos + 4);
    var end := NulFrom(b, pos);
    SameSlice(b, pos, b', pos + 4, 0, end - pos);
    if !(st.stack == [] && st.nodes != []) && end < |b| {
      SkipLater(b, b', end + 1, OpenNode(st, NameOf(b[pos..end])));
    }
  }

  lemma PropLater(b: Bytes, b': Bytes, strs: Bytes, pos: nat, st: State)
    requires SameFrom(b, pos, b', pos + 4) && |b'| == |b| + 4 && Valid(st)
    ensures Prop(b', strs, pos + 4, st) == Later(Prop(b, strs, pos, st))
  {
    hide Valid, AddProperty, NulFrom, Skip, Get32, Ordered;
    if pos + 8 <= |b| {
      SameSlice(b, pos, b', pos + 4, 4, 4);
      SameNumber(b, pos, b', pos + 4);
      SameNumber(b, pos + 4, b', pos + 8);
      var len, nameoff := Get32(b, pos), Get32(b, pos + 4);
      if nameoff < |strs| && NulFrom(strs, nameoff) < |strs| && pos + 8 + len <= |b| && st.stack != [] {
        SameSlice(b, pos, b', pos + 4, 8, len);
        var p := Property(strs[nameoff..NulFrom(strs, nameoff)], b[pos + 8..pos + 8 + len]);
        SkipLater(b, b', pos + 8 + len, AddProperty(st, p));
      }
    }
  }

  /** A token means the same four bytes further on, if the block is four bytes larger. */
  lemma StepLater(b: Bytes, b': Bytes, size: U32, strs: Bytes, pos: nat, st: State)
    requires SameFrom(b, pos, b', pos + 4) && |b'| == |b| + 4 && Valid(st)
    requires size + 4 < 0x1_0000_0000 && |b'| < 0x1_0000_0000
    ensures Step(b', size + 4, strs, pos + 4, st) == Later(Step(b, size, strs, pos, st))
  {
    hide Valid, Ordered, NulFrom, Skip, Get32, BeginNode, Prop, CloseNode;
    if pos + 4 <= |b| {
      SameNumber(b, pos, b', pos + 4);
      SameSlice(b, pos, b', pos + 4, 4, 0);
      BeginLater(b, b', pos + 4, st);
      PropLater(b, b', strs, pos + 4, st);
      SkipLater(b, b', pos + 4, st);
      WrapExact(pos + 4);
      WrapExact(pos + 8);
      if st.stack != [] {
        SkipLater(b, b', pos + 4, CloseNode(st));
      }
    }
  }

  lemma {:induction false} RunLater(b: Bytes, b': Bytes, size: U32, strs: Bytes, pos: nat, st: State)
    requires pos <= |b| && SameFrom(b, pos, b', pos + 4) && |b'| == |b| + 4 && Valid(st)
    requires size + 4 < 0x1_0000_0000 && |b'| < 0x1_0000_0000
    ensures pos + 4 <= |b'| && Run(b', size + 4, strs, pos + 4, st) == Run(b, size, strs, pos, st)
    decreases |b| - pos
  {
    hide Valid, Step, SameFrom;
    StepLater(b, b', size, strs, pos, st);
    match Step(b, size, strs, pos, st) {
      case Go(pos', st') =>
        SameSlice(b, pos, b', pos + 4, pos' - pos, 0);
        RunLater(b, b', size, strs, pos', st');
      case _ =>
    }
  }

  // ----- what is read before the new token

  lemma SamePrefix(b: Bytes, b': Bytes, p: nat, i: nat, j: nat)
    requires p <= |b| && p <= |b'| && b[..p] == b'[..p] && i <= j <= p
    ensures b[i..j] == b'[i..j]
  {
    assert b[i..j] == b[..p][i..j] && b'[i..j] == b'[..p][i..j];
  }

  lemma NulBefore(b: Bytes, b': Bytes, p: nat, pos: nat)
    requires p <= |b| && p <= |b'| && b[..p] == b'[..p] && pos <= |b| && NulFrom(b, pos) < p
    ensures NulFrom(b', pos) == NulFrom(b, pos)
  {
    var end := NulFrom(b, pos);
    forall i | pos <= i <= end ensures b[i] == b'[i] {
      assert b[i] == b[..p][i] == b'[..p][i] == b'[i];
    }
    NulIs(b', pos, end);
  }

  lemma {:induction false} NulIs(s: Bytes, pos: nat, end: nat)
    requires pos <= end < |s| && s[end] == 0 && forall i :: pos <= i < end ==> s[i] != 0
    ensures NulFrom(s, pos) == end
  {
  }

  /** Up to p the outcome is the same, whatever follows. */
  lemma StepBefore(b: Bytes, b': Bytes, size: U32, size': U32, strs: Bytes, pos: nat, st: State, p: nat)
    requires p <= |b| && p <= |b'| && b[..p] == b'[..p] && Valid(st) && pos <= |b|
    requires Step(b, size, strs, pos, st).Go? && Step(b, size, strs, pos, st).pos <= p
    ensures pos <= |b'| && Step(b', size', strs, pos, st) == Step(b, size, strs, pos, st)
  {
    hide Valid, Ordered, NulFrom, Get32, BeginNode, Prop, CloseNode, Up4;
    SamePrefix(b, b', p, pos, pos + 4);
    assert Get32(b, pos) == Get32(b', pos) by { SameFour(b, b', pos); }
    if Get32(b, pos) == BEGIN_NODE {
      BeginBefore(b, b', pos + 4, st, p);
    } else if Get32(b, pos) == PROP {
      PropBefore(b, b', strs, pos + 4, st, p);
    }
  }

  lemma SameFour(b: Bytes, b': Bytes, pos: nat)
    requires pos + 4 <= |b| && pos + 4 <= |b'| && b[pos..pos + 4] == b'[pos..pos + 4]
    ensures Get32(b, pos) == Get32(b', pos)
  {
  }

  lemma BeginBefore(b: Bytes, b': Bytes, pos: nat, st: State, p: nat)
    requires p <= |b| && p <= |b'| && b[..p] == b'[..p] && Valid(st) && pos <= |b|
    requires BeginNode(b, pos, st).Go? && BeginNode(b, pos, st).pos <= p
    ensures pos <= |b'| && BeginNode(b', pos, st) == BeginNode(b, pos, st)
  {
    hide Valid, Ordered, NulFrom, OpenNode, NameOf;
    var end := NulFrom(b, pos);
    NulBefore(b, b', p, pos);
    SamePrefix(b, b', p, pos, end);
  }

  lemma PropBefore(b: Bytes, b': Bytes, strs: Bytes, pos: nat, st: State, p: nat)
    requires p <= |b| && p <= |b'| && b[..p] == b'[..p] && Valid(st) && pos <= |b|
    requires Prop(b, strs, pos, st).Go? && Prop(b, strs, pos, st).pos <= p
    ensures pos <= |b'| && Prop(b', strs, pos, st) == Prop(b, strs, pos, st)
  {
    hide Valid, Ordered, NulFrom, AddProperty, Get32;
    SamePrefix(b, b', p, pos, pos + 4);
    SamePrefix(b, b', p, pos + 4, pos + 8);
    SameFour(b, b', pos);
    SameFour(b, b', pos + 4);
    SamePrefix(b, b', p, pos + 8, pos + 8 + Get32(b, pos));
  }

  // ----- one more token

  /** The new token is skipped. */
  lemma NopStep(b: Bytes, size: U32, strs: Bytes, pos: nat, st: State)
    requires Valid(st) && Aligned(pos) && At(b, pos, Put32(NOP))
    ensures pos + 4 <= |b| && Step(b, size, strs, pos, st) == Go(pos + 4, st)
  {
    hide Valid, Ordered, Put32, Get32;
    AtPut32(b, pos, NOP);
    NodeStart(pos, 0);
    hide Up4, Aligned;
  }

  lemma InsertedParts(b: Bytes, p: nat)
    requires p <= |b|
    ensures var b' := InsertNop(b, p); At(b', p, Put32(NOP)) && SameFrom(b, p, b', p + 4) && b'[..p] == b[..p]
  {
    hide Put32;
    var b', nop := InsertNop(b, p), Put32(NOP);
    assert b'[p..p + 4] == nop && b'[p + 4..] == b[p..];
  }

  lemma {:induction false} NopOnTheWay(b: Bytes, size: U32, strs: Bytes, pos: nat, st: State, p: nat)
    requires Valid(st) && pos <= |b| && p <= |b| && Comes(b, size, strs, pos, st, p) && Aligned(pos)
    requires size + 4 < 0x1_0000_0000 && |b| + 4 < 0x1_0000_0000
    ensures Run(InsertNop(b, p), size + 4, strs, pos, st) == Run(b, size, strs, pos, st)
    decreases |b| - pos
  {
    hide Valid, Step, SameFrom, Put32, InsertNop, At, Aligned;
    var b' := InsertNop(b, p);
    InsertedParts(b, p);
    if pos == p {
      NopStep(b', size + 4, strs, pos, st);
      RunLater(b, b', size, strs, pos, st);
    } else {
      var o := Step(b, size, strs, pos, st);
      ComesBelow(b, size, strs, o.pos, o.st, p);
      StepBefore(b, b', size, size + 4, strs, pos, st, p);
      StepAligned(b, size, strs, pos, st);
      NopOnTheWay(b, size, strs, o.pos, o.st, p);
    }
  }

  lemma ComesBelow(b: Bytes, size: U32, strs: Bytes, pos: nat, st: State, p: nat)
    requires Valid(st) && pos <= |b| && Comes(b, size, strs, pos, st, p)
    ensures pos <= p
  {
    hide Valid, Step;
  }

  lemma StepAligned(b: Bytes, size: U32, strs: Bytes, pos: nat, st: State)
    requires Valid(st) && pos <= |b| && Step(b, size, strs, pos, st).Go?
    ensures Aligned(Step(b, size, strs, pos, st).pos)
  {
    hide Valid, Ordered, NulFrom, Get32, OpenNode, AddProperty, CloseNode, NameOf;
  }

  /**
   Whatever the block contains, one more FDT_NOP where a token is read does not
   change what is read, errors included.
   */
  lemma NopChangesNothing(b: Bytes, size: U32, strs: Bytes, p: nat)
    requires p <= |b| && TokenAt(b, size, strs, p) && size + 4 < 0x1_0000_0000 && |b| + 4 < 0x1_0000_0000
    ensures Run(InsertNop(b, p), size + 4, strs, 0, State([], [])) == Run(b, size, strs, 0, State([], []))
  {
    NopOnTheWay(b, size, strs, 0, State([], []), p);
  }

  // ----- any number of them

  /** n tokens FDT_NOP have been put into the block, one after the other, wherever a token is read. */
  ghost predicate WithNops(b: Bytes, size: U32, strs: Bytes, n: nat, b': Bytes) {
    if n == 0 then b' == b
    else
      && size + 4 * n < 0x1_0000_0000
      && exists mid: Bytes, p: nat ::
           && WithNops(b, size, strs, n - 1, mid) && p <= |mid|
           && TokenAt(mid, size + 4 * (n - 1), strs, p) && b' == InsertNop(mid, p)
  }

  /** They do not change what is read. */
  lemma {:induction false} NopsChangeNothing(b: Bytes, size: U32, strs: Bytes, n: nat, b': Bytes)
    requires WithNops(b, size, strs, n, b') && |b| + 4 * n < 0x1_0000_0000 && size + 4 * n < 0x1_0000_0000
    ensures |b'| == |b| + 4 * n
    ensures Run(b', size + 4 * n, strs, 0, State([], [])) == Run(b, size, strs, 0, State([], []))
  {
    hide Run, TokenAt, InsertNop;
    if n > 0 {
      var mid: Bytes, p: nat :|
        && WithNops(b, size, strs, n - 1, mid) && p <= |mid|
        && TokenAt(mid, size + 4 * (n - 1), strs, p) && b' == InsertNop(mid, p);
      NopsChangeNothing(b, size, strs, n - 1, mid);
      NopChangesNothing(mid, size + 4 * (n - 1), strs, p);
    }
  }

  /** The header of a file whose structure block has become longer. */
  function PatchedHeader(h: Header, entries: seq<ReserveEntry>, root: Node, more: nat): Header {
    var f := FinalHeader(h, entries, root);
    f.(totalSize := Wrap(f.totalSize + more), offDtStrings := Wrap(f.offDtStrings + more),
       sizeDtStruct := Wrap(f.sizeDtStruct + more))
  }

  /** The file with another structure block. */
  function Patched(f: Header, entries: seq<ReserveEntry>, struct: Bytes, strs: Bytes): Bytes {
    FirstBlocks(f, entries) + struct + strs
  }

  lemma PatchedLayout(f: Header, entries: seq<ReserveEntry>, struct: Bytes, strs: Bytes)
    ensures var data, k := Patched(f, entries, struct, strs), 48 + 16 * (|entries| + 1);
            && At(data, 0, EncodeHeader(f)) && At(data, 48, EncodeEntries(entries) + Zeros(16))
            && At(data, k, struct) && At(data, k + |struct|, strs) && |data| == k + |struct| + |strs|
  {
    hide EncodeHeader, EncodeEntries, At, FirstBlocks;
    var first, data := FirstBlocks(f, entries), Patched(f, entries, struct, strs);
    FirstBlocksLength(f, entries);
    WholeAt(data, first + struct, strs);
    WholeAt(first + struct, first, struct);
    AtAt(data, 0, first + struct, 0, first);
    AtAt(data, 0, first + struct, |first|, struct);
    HeaderAndEntries(f, entries);
    AtAt(data, 0, first, 0, EncodeHeader(f));
    AtAt(data, 0, first, 48, EncodeEntries(entries) + Zeros(16));
  }

  /**
   A file that was written and has got FDT_NOP tokens anywhere in its structure
   block, with sizes and offsets to match, is read like the original.
   */
  lemma RoundTripWithNops(h: Header, entries: seq<ReserveEntry>, root: Node, n: nat, struct: Bytes)
    requires |Blob(h, entries, root)| + 4 * n <= MAX_TOTAL_SIZE && NamesNulFree(root)
    requires h.magic == MAGIC && Compatible(h) && !Bare(root)
    requires WithNops(StructBlock(root), |StructBlock(root)|, TreeStrings(root).block, n, struct)
    ensures var f := PatchedHeader(h, entries, root, 4 * n);
            ContentsOf(Patched(f, entries, struct, TreeStrings(root).block))
            == Ok(Contents(f, ReadEntries(entries), Flat(root, 0)))
  {
    hide Blob, StructBlock, TreeStrings, Bare, WithNops, NamesNulFree, Flat, Patched, PatchedHeader, EncodeHeader,
      EncodeEntries, At, HeaderOf, EntriesOf, StringsOf, NodesOf, ReadEntries, LayoutOk, Readable, Aligned;
    var f, strs := PatchedHeader(h, entries, root, 4 * n), TreeStrings(root).block;
    var data := Patched(f, entries, struct, strs);
    BlocksOf(root);
    PatchedSizes(h, entries, root, 4 * n);
    NopsAreLonger(StructBlock(root), |StructBlock(root)|, strs, n, struct);
    PatchedLayout(f, entries, struct, strs);
    HeaderExact(data, f);
    EntriesFound(data, f, entries);
    LayoutReadBack(f, entries);
    StringsFound(data, f, strs);
    NodesFound(data, f, root, n, struct);
  }

  lemma NopsAreLonger(b: Bytes, size: U32, strs: Bytes, n: nat, b': Bytes)
    requires WithNops(b, size, strs, n, b') && |b| + 4 * n < 0x1_0000_0000 && size + 4 * n < 0x1_0000_0000
    ensures |b'| == |b| + 4 * n
  {
    NopsChangeNothing(b, size, strs, n, b');
  }

  lemma StringsFound(data: Bytes, f: Header, strs: Bytes)
    requires At(data, f.offDtStrings, strs) && |strs| == f.sizeDtStrings > 0
    ensures StringsOf(data, f) == Ok(strs)
  {
    hide Limited;
    LimitedAt(data, f.offDtStrings, strs);
    assert strs + Zeros(0) == strs;
  }

  lemma NodesFound(data: Bytes, f: Header, root: Node, n: nat, struct: Bytes)
    requires NamesNulFree(root) && |TreeStrings(root).block| < 0x1_0000_0000
    requires |StructBlock(root)| + 4 * n < 0x1_0000_0000
    requires WithNops(StructBlock(root), |StructBlock(root)|, TreeStrings(root).block, n, struct)
    requires At(data, f.offDtStruct, struct) && |struct| == f.sizeDtStruct && Aligned(f.offDtStruct)
    ensures NodesOf(data, f, TreeStrings(root).block) == Ok(Flat(root, 0))
  {
    hide StructBlock, TreeStrings, Run, Flat, NamesNulFree, Limited, WithNops;
    RunTree(root);
    NopsChangeNothing(StructBlock(root), |StructBlock(root)|, TreeStrings(root).block, n, struct);
    LimitedAt(data, f.offDtStruct, struct);
  }

  lemma BlocksOf(root: Node)
    requires !Bare(root)
    ensures TreeStrings(root).block != []
  {
    NodeBacked(Strings([], map[]), root);
    TreeStringsIs(root);
    hide InternNode, TreeStrings, Bare;
  }

  lemma PatchedSizes(h: Header, entries: seq<ReserveEntry>, root: Node, more: nat)
    requires |Blob(h, entries, root)| + more <= MAX_TOTAL_SIZE && h.magic == MAGIC && Compatible(h)
    ensures var f, b, k := PatchedHeader(h, entries, root, more), StructBlock(root), 48 + 16 * (|entries| + 1);
            && f.offMemRsvmap == 48 && f.offDtStruct == k && Aligned(k)
            && f.sizeDtStruct == |b| + more && f.offDtStrings == k + |b| + more
            && f.sizeDtStrings == |TreeStrings(root).block| && Readable(f)
            && |b| + more < 0x1_0000_0000 && |TreeStrings(root).block| < 0x1_0000_0000
  {
    LayoutExact(h, entries, root);
    hide Blob, StructBlock, TreeStrings, At, EncodeHeader, EncodeEntries, Aligned;
    var f := FinalHeader(h, entries, root);
    WrapExact(f.totalSize + more);
    WrapExact(f.offDtStrings + more);
    WrapExact(f.sizeDtStruct + more);
    assert f.magic == h.magic && f.version == h.version && f.lastCompVersion == h.lastCompVersion;
  }
}
