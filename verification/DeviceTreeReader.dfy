/**
 Reading a flattened device tree (`ReadFDT` of `fdt_linux.go`, with
 `AlignReader` of `pkg/uio`).

 The file is a sequence of bytes, read as `bytes.Reader` reads it: at its end
 every read fails, even one of zero bytes.  The nodes are objects, allocated in the order of their
 FDT_BEGIN_NODE tokens; a record describes an object, with the indices of its
 children in that order.
 */
module DeviceTreeReader {
  import opened Bytes
  import opened DeviceTree
  import opened Wrappers

  datatype Error =
    | UnexpectedEof | BadMagic | Incompatible | TooLarge | OverlapsHeader | RsvmapUnaligned | OverlapsRsvmap
    | StructUnaligned | MultipleRoots | Unbalanced | NameOffsetTooLarge | NameUnterminated | OutsideNode
    | ExtraData | NoRoot | UndefinedToken

  type Result<+T> = Wrappers.Result<T, Error>

  // ----- header, memory reservation block and strings block

  function DecodeHeader(data: Bytes): Header
    requires |data| >= HEADER_SIZE
  {
    Header(Get32(data, 0), Get32(data, 4), Get32(data, 8), Get32(data, 12), Get32(data, 16),
           Get32(data, 20), Get32(data, 24), Get32(data, 28), Get32(data, 32), Get32(data, 36))
  }

  predicate Compatible(h: Header) {
    h.version == 16 || h.version == 17 || (h.lastCompVersion <= 17 && h.version > 17)
  }

  function HeaderOf(data: Bytes): Result<Header> {
    if |data| < HEADER_SIZE then Err(UnexpectedEof)
    else
      var h := DecodeHeader(data);
      if h.magic != MAGIC then Err(BadMagic)
      else if !Compatible(h) then Err(Incompatible)
      else if h.totalSize > MAX_TOTAL_SIZE then Err(TooLarge)
      else Ok(h)
  }

  const ZERO_ENTRY := ReserveEntry(0, 0)

  function EntriesFrom(data: Bytes, pos: nat): Result<seq<ReserveEntry>>
    decreases |data| - pos
  {
    if pos + 16 > |data| then Err(UnexpectedEof)
    else
      var e := ReserveEntry(Get64(data, pos), Get64(data, pos + 8));
      if e == ZERO_ENTRY then Ok([]) else Prepend([e], EntriesFrom(data, pos + 16))
  }

  function Prepend<T>(s: seq<T>, r: Result<seq<T>>): Result<seq<T>> {
    if r.Ok? then Ok(s + r.value) else r
  }

  function EntriesOf(data: Bytes, h: Header): Result<seq<ReserveEntry>> {
    if h.offMemRsvmap < HEADER_SIZE then Err(OverlapsHeader)
    else if h.offMemRsvmap % 8 != 0 then Err(RsvmapUnaligned)
    else EntriesFrom(data, h.offMemRsvmap)
  }

  predicate LayoutOk(h: Header, entries: seq<ReserveEntry>) {
    h.offDtStruct >= Wrap(h.offMemRsvmap + Wrap(16 * (|entries| + 1)))
  }

  /** A short read leaves the rest of the buffer zero. */
  function StringsOf(data: Bytes, h: Header): Result<Bytes> {
    if h.offDtStrings >= |data| then Err(UnexpectedEof)
    else
      var strs := Limited(data, h.offDtStrings, h.sizeDtStrings);
      Ok(strs + Zeros(h.sizeDtStrings - |strs|))
  }

  /** What a reader of at most n bytes from pos on can give. */
  function Limited(data: Bytes, pos: nat, n: nat): (r: Bytes)
    ensures |r| <= n
  {
    if pos > |data| then [] else if pos + n <= |data| then data[pos..pos + n] else data[pos..]
  }

  // ----- structure block

  /** A node as far as it has been read. */
  datatype Record = Record(name: Bytes, properties: seq<Property>, children: seq<nat>)

  /** The nodes in the order of their allocation, and the stack of open nodes. */
  datatype State = State(nodes: seq<Record>, stack: seq<nat>)

  ghost predicate Valid(st: State) {
    && (forall i :: 0 <= i < |st.stack| ==> st.stack[i] < |st.nodes|)
    && Ordered(st.nodes)
  }

  /** Children come after their parents. */
  ghost predicate Ordered(nodes: seq<Record>) {
    forall i :: 0 <= i < |nodes| ==> After(nodes[i].children, i, |nodes|)
  }

  ghost predicate After(children: seq<nat>, i: nat, n: nat) {
    forall j :: 0 <= j < |children| ==> i < children[j] < n
  }

  /** `string(b)`: a byte becomes the UTF-8 encoding of the character with its number. */
  function Utf8(b: Byte): Bytes {
    if b < 128 then [b] else [192 + b / 64, 128 + b % 64]
  }

  function NameOf(s: Bytes): Bytes {
    if s == [] then [] else NameOf(s[..|s| - 1]) + Utf8(s[|s| - 1])
  }

  function OpenNode(st: State, name: Bytes): (r: State)
    requires Valid(st)
    ensures Valid(r)
  {
    var nodes :=
      if st.stack == [] then st.nodes
      else
        var top := st.stack[|st.stack| - 1];
        st.nodes[top := st.nodes[top].(children := st.nodes[top].children + [|st.nodes|])];
    State(nodes + [Record(name, [], [])], st.stack + [|st.nodes|])
  }

  function CloseNode(st: State): (r: State)
    requires Valid(st) && st.stack != []
    ensures Valid(r)
  {
    st.(stack := st.stack[..|st.stack| - 1])
  }

  function AddProperty(st: State, p: Property): (r: State)
    requires Valid(st) && st.stack != []
    ensures Valid(r)
  {
    var top := st.stack[|st.stack| - 1];
    st.(nodes := st.nodes[top := st.nodes[top].(properties := st.nodes[top].properties + [p])])
  }

  /** The outcome of one round of the loop. */
  datatype Outcome = Fail(error: Error) | Done | Go(pos: nat, st: State)

  /** After a token the reader skips to a multiple of four. */
  function Skip(b: Bytes, pos: nat, st: State): Outcome {
    if Up4(pos) > |b| then Fail(UnexpectedEof) else Go(Up4(pos), st)
  }

  function BeginNode(b: Bytes, pos: nat, st: State): (r: Outcome)
    requires Valid(st) && pos <= |b|
    ensures !r.Done? && (r.Go? ==> Valid(r.st) && pos < r.pos <= |b|)
  {
    if st.stack == [] && st.nodes != [] then Fail(MultipleRoots)
    else
      var end := NulFrom(b, pos);
      if end == |b| then Fail(UnexpectedEof) else Skip(b, end + 1, OpenNode(st, NameOf(b[pos..end])))
  }

  function Prop(b: Bytes, strs: Bytes, pos: nat, st: State): (r: Outcome)
    requires Valid(st) && pos <= |b|
    ensures !r.Done? && (r.Go? ==> Valid(r.st) && pos < r.pos <= |b|)
  {
    if pos + 8 > |b| then Fail(UnexpectedEof)
    else
      var len, nameoff := Get32(b, pos), Get32(b, pos + 4);
      if nameoff >= |strs| then Fail(NameOffsetTooLarge)
      else if NulFrom(strs, nameoff) == |strs| then Fail(NameUnterminated)
      else if pos + 8 + len > |b| then Fail(UnexpectedEof)
      else if st.stack == [] then Fail(OutsideNode)
      else
        var p := Property(strs[nameoff..NulFrom(strs, nameoff)], b[pos + 8..pos + 8 + len]);
        Skip(b, pos + 8 + len, AddProperty(st, p))
  }

  function Step(b: Bytes, size: U32, strs: Bytes, pos: nat, st: State): (r: Outcome)
    requires Valid(st) && pos <= |b|
    ensures r.Go? ==> Valid(r.st) && pos < r.pos <= |b|
    ensures r.Done? ==> st.nodes != []
  {
    if pos + 4 > |b| then Fail(UnexpectedEof)
    else
      var token := Get32(b, pos);
      if token == BEGIN_NODE then BeginNode(b, pos + 4, st)
      else if token == END_NODE then
        if st.stack == [] then Fail(Unbalanced) else Skip(b, pos + 4, CloseNode(st))
      else if token == PROP then Prop(b, strs, pos + 4, st)
      else if token == NOP then Skip(b, pos + 4, st)
      else if token == END then
        if Wrap(pos + 4) < size then Fail(ExtraData) else if st.nodes == [] then Fail(NoRoot) else Done
      else Fail(UndefinedToken)
  }

  function Run(b: Bytes, size: U32, strs: Bytes, pos: nat, st: State): (r: Result<seq<Record>>)
    requires Valid(st) && pos <= |b|
    ensures r.Ok? ==> r.value != [] && Ordered(r.value)
    decreases |b| - pos
  {
    match Step(b, size, strs, pos, st)
    case Fail(e) => Err(e)
    case Done => Ok(st.nodes)
    case Go(pos', st') => Run(b, size, strs, pos', st')
  }

  function NodesOf(data: Bytes, h: Header, strs: Bytes): (r: Result<seq<Record>>)
    ensures r.Ok? ==> r.value != [] && Ordered(r.value)
  {
    if h.offDtStruct % 4 != 0 then Err(StructUnaligned)
    else Run(Limited(data, h.offDtStruct, h.sizeDtStruct), h.sizeDtStruct, strs, 0, State([], []))
  }

  /** What a file contains. */
  datatype Contents = Contents(header: Header, entries: seq<ReserveEntry>, nodes: seq<Record>)

  function ContentsOf(data: Bytes): (r: Result<Contents>)
    ensures r.Ok? ==> r.value.nodes != [] && Ordered(r.value.nodes)
  {
    var h := HeaderOf(data);
    if h.Err? then Err(h.error)
    else
      var es := EntriesOf(data, h.value);
      if es.Err? then Err(es.error)
      else if !LayoutOk(h.value, es.value) then Err(OverlapsRsvmap)
      else
        var strs := StringsOf(data, h.value);
        if strs.Err? then Err(strs.error)
        else
          var nodes := NodesOf(data, h.value, strs.value);
          if nodes.Err? then Err(nodes.error) else Ok(Contents(h.value, es.value, nodes.value))
  }

  // ----- the tree of a list of records

  ghost function Tree(nodes: seq<Record>, i: nat): Node
    requires Ordered(nodes) && i < |nodes|
    decreases |nodes| - i, 1, 0
  {
    Node(nodes[i].name, nodes[i].properties, Trees(nodes, nodes[i].children, i))
  }

  ghost function Trees(nodes: seq<Record>, children: seq<nat>, i: nat): seq<Node>
    requires Ordered(nodes) && i < |nodes| && After(children, i, |nodes|)
    decreases |nodes| - i, 0, |children|
  {
    if children == [] then []
    else [Tree(nodes, children[0])] + Trees(nodes, children[1..], i)
  }

  // ----- whatever is read is a tree

  /** How often an index is a child. */
  ghost function Occurrences(nodes: seq<Record>, c: nat): nat {
    if nodes == [] then 0 else Occurrences(nodes[..|nodes| - 1], c) + multiset(nodes[|nodes| - 1].children)[c]
  }

  /** Every node but the first is a child exactly once, and nothing else is a child. */
  ghost predicate OneParentEach(nodes: seq<Record>) {
    forall c: nat :: Occurrences(nodes, c) == if 0 < c < |nodes| then 1 else 0
  }

  lemma {:induction false} OccurrencesUpdate(nodes: seq<Record>, i: nat, record: Record, c: nat)
    requires i < |nodes|
    ensures Occurrences(nodes[i := record], c) + multiset(nodes[i].children)[c]
         == Occurrences(nodes, c) + multiset(record.children)[c]
  {
    var init := nodes[..|nodes| - 1];
    if i == |nodes| - 1 {
      assert nodes[i := record][..|nodes| - 1] == init;
    } else {
      OccurrencesUpdate(init, i, record, c);
      assert nodes[i := record][..|nodes| - 1] == init[i := record];
    }
  }

  lemma ChildAdded(children: seq<nat>, x: nat, c: nat)
    ensures multiset(children + [x])[c] == multiset(children)[c] + if c == x then 1 else 0
  {
    assert multiset(children + [x]) == multiset(children) + multiset{x};
  }

  /** A new record without children. */
  lemma RecordAdded(nodes: seq<Record>, name: Bytes, c: nat)
    ensures Occurrences(nodes + [Record(name, [], [])], c) == Occurrences(nodes, c)
  {
    var more := nodes + [Record(name, [], [])];
    assert more[..|nodes|] == nodes;
    assert multiset(more[|nodes|].children)[c] == 0;
  }

  lemma OpenNodeKeeps(st: State, name: Bytes)
    requires Valid(st) && OneParentEach(st.nodes) && (st.stack == [] ==> st.nodes == [])
    ensures OneParentEach(OpenNode(st, name).nodes)
  {
    hide Ordered, Occurrences;
    var r, n := OpenNode(st, name).nodes, |st.nodes|;
    if st.stack == [] {
      assert r == st.nodes + [Record(name, [], [])];
      forall c: nat ensures Occurrences(r, c) == if 0 < c < |r| then 1 else 0 {
        RecordAdded(st.nodes, name, c);
      }
    } else {
      var top := st.stack[|st.stack| - 1];
      var own := st.nodes[top].children;
      var before := st.nodes[top := st.nodes[top].(children := own + [n])];
      assert r == before + [Record(name, [], [])];
      hide OpenNode, Valid;
      forall c: nat ensures Occurrences(r, c) == if 0 < c < |r| then 1 else 0 {
        RecordAdded(before, name, c);
        OccurrencesUpdate(st.nodes, top, st.nodes[top].(children := own + [n]), c);
        ChildAdded(own, n, c);
      }
    }
  }

  lemma StepKeeps(b: Bytes, size: U32, strs: Bytes, pos: nat, st: State)
    requires Valid(st) && pos <= |b| && OneParentEach(st.nodes)
    ensures var o := Step(b, size, strs, pos, st); o.Go? ==> OneParentEach(o.st.nodes)
  {
    hide Get32, NulFrom, NameOf, Ordered, Up4, OneParentEach, OpenNode;
    if st.stack == [] ==> st.nodes == [] {
      forall name ensures OneParentEach(OpenNode(st, name).nodes) {
        OpenNodeKeeps(st, name);
      }
    }
    if st.stack != [] {
      forall p ensures OneParentEach(AddProperty(st, p).nodes) {
        AddPropertyKeeps(st, p);
      }
    }
    hide AddProperty, Valid;
  }

  lemma AddPropertyKeeps(st: State, p: Property)
    requires Valid(st) && st.stack != [] && OneParentEach(st.nodes)
    ensures OneParentEach(AddProperty(st, p).nodes)
  {
    hide Ordered;
    var top := st.stack[|st.stack| - 1];
    var record := st.nodes[top].(properties := st.nodes[top].properties + [p]);
    var r := AddProperty(st, p).nodes;
    assert r == st.nodes[top := record];
    hide AddProperty, Occurrences, Valid;
    forall c: nat ensures Occurrences(r, c) == if 0 < c < |r| then 1 else 0 {
      OccurrencesUpdate(st.nodes, top, record, c);
    }
  }

  lemma {:induction false} RunKeeps(b: Bytes, size: U32, strs: Bytes, pos: nat, st: State)
    requires Valid(st) && pos <= |b| && OneParentEach(st.nodes)
    ensures var r := Run(b, size, strs, pos, st); r.Ok? ==> OneParentEach(r.value)
    decreases |b| - pos
  {
    hide Step, OneParentEach, Valid;
    StepKeeps(b, size, strs, pos, st);
    var o := Step(b, size, strs, pos, st);
    if o.Go? {
      RunKeeps(b, size, strs, o.pos, o.st);
    }
  }

  /** Whatever the bytes are: the nodes of an accepted file form one tree, with parents before children. */
  lemma AcceptedIsTree(data: Bytes)
    ensures var r := ContentsOf(data);
            r.Ok? ==> r.value.nodes != [] && Ordered(r.value.nodes) && OneParentEach(r.value.nodes)
  {
    hide HeaderOf, EntriesOf, LayoutOk, StringsOf, Run;
    assert OneParentEach([]);
    hide OneParentEach;
    var r := ContentsOf(data);
    if r.Ok? {
      var h := r.value.header;
      var strs := StringsOf(data, h);
      RunKeeps(Limited(data, h.offDtStruct, h.sizeDtStruct), h.sizeDtStruct, strs.value, 0, State([], []));
    }
  }

  // ----- the objects

  class AlignReader {
    const b: Bytes
    var n: nat

    ghost predicate Valid()
      reads this
    {
      n <= |b|
    }

    constructor (b: Bytes)
      ensures Valid() && this.b == b && n == 0
    {
      this.b, n := b, 0;
    }

    method ReadFull(k: nat) returns (r: Option<Bytes>)
      requires Valid()
      modifies this
      ensures Valid()
      ensures if old(n) + k <= |b| then r == Some(b[old(n)..old(n) + k]) && n == old(n) + k else r == None
    {
      if n + k > |b| {
        n := |b|;
        return None;
      }
      r := Some(b[n..n + k]);
      n := n + k;
    }

    method Read32() returns (r: Option<U32>)
      requires Valid()
      modifies this
      ensures Valid()
      ensures if old(n) + 4 <= |b| then r == Some(Get32(b, old(n))) && n == old(n) + 4 else r == None
    {
      hide Get32;
      var s := ReadFull(4);
      if s == None {
        return None;
      }
      r := Some(Get32(s.value, 0));
      assert s.value[0..4] == b[old(n)..old(n) + 4];
      Get32Slice(s.value, b, old(n));
    }

    method Align() returns (ok: bool)
      requires Valid()
      modifies this
      ensures Valid() && ok == (Up4(old(n)) <= |b|) && (ok ==> n == Up4(old(n)))
    {
      var pad := ReadFull(Up4(n) - n);
      ok := pad.Some?;
    }

    /** The loop that reads a name. */
    method ReadName() returns (r: Option<Bytes>)
      requires Valid()
      modifies this
      ensures Valid()
      ensures var end := NulFrom(b, old(n));
              if end == |b| then r == None else r == Some(NameOf(b[old(n)..end])) && n == end + 1
    {
      hide Utf8, NameOf, NulFrom;
      var name := [];
      ghost var start, text := n, [];
      NameOfNothing();
      while true
        invariant Valid() && n == start + |text| && b[start..n] == text
        invariant NulFrom(b, n) == NulFrom(b, start) && name == NameOf(text)
        decreases |b| - n
      {
        NulHere(b, n);
        if n == |b| {
          return None;
        }
        n := n + 1;
        if b[n - 1] == 0 {
          return Some(name);
        }
        NameOfMore(text, b[n - 1]);
        SliceMore(b, start, n - 1);
        text := text + [b[n - 1]];
        name := name + Utf8(b[n - 1]);
      }
    }
  }

  lemma SliceMore(b: Bytes, start: nat, n: nat)
    requires start <= n < |b|
    ensures b[start..n + 1] == b[start..n] + [b[n]]
  {
  }

  lemma NulHere(b: Bytes, n: nat)
    requires n <= |b|
    ensures NulFrom(b, n) == if n == |b| || b[n] == 0 then n else NulFrom(b, n + 1)
  {
  }

  lemma NameOfNothing()
    ensures NameOf([]) == []
  {
  }

  lemma NameOfMore(s: Bytes, b: Byte)
    ensures NameOf(s + [b]) == NameOf(s) + Utf8(b)
  {
    assert (s + [b])[..|s|] == s;
  }

  lemma Get32Slice(s: Bytes, b: Bytes, pos: nat)
    requires |s| == 4 && pos + 4 <= |b| && s[0..4] == b[pos..pos + 4]
    ensures Get32(s, 0) == Get32(b, pos)
  {
  }

  class TreeNode {
    var name: Bytes
    var properties: seq<Property>
    var children: seq<TreeNode>

    constructor ()
      ensures name == [] && properties == [] && children == []
    {
      name, properties, children := [], [], [];
    }
  }

  /** The objects are as the records say. */
  ghost predicate Mirrors(objects: seq<TreeNode>, nodes: seq<Record>)
    reads objects
  {
    && |objects| == |nodes|
    && Distinct(objects)
    && (forall i :: 0 <= i < |nodes| ==> MirrorsOne(objects, nodes[i], objects[i]))
  }

  ghost predicate Distinct(objects: seq<TreeNode>) {
    forall i, j :: 0 <= i < j < |objects| ==> objects[i] != objects[j]
  }

  ghost predicate MirrorsOne(objects: seq<TreeNode>, record: Record, x: TreeNode)
    reads x
  {
    && x.name == record.name && x.properties == record.properties && |x.children| == |record.children|
    && (forall j :: 0 <= j < |record.children| ==>
          record.children[j] < |objects| && x.children[j] == objects[record.children[j]])
  }

  /** The stack holds the objects that the indices name. */
  ghost predicate MirrorsStack(objects: seq<TreeNode>, indices: seq<nat>, stack: seq<TreeNode>) {
    && |stack| == |indices|
    && (forall i :: 0 <= i < |stack| ==> indices[i] < |objects| && stack[i] == objects[indices[i]])
  }

  lemma MirrorsNew(objects: seq<TreeNode>, nodes: seq<Record>, child: TreeNode)
    requires Mirrors(objects, nodes) && child !in objects && child.name == [] && child.properties == []
            && child.children == []
    ensures Mirrors(objects + [child], nodes + [Record([], [], [])])
  {
    forall i | 0 <= i < |nodes| ensures MirrorsOne(objects + [child], nodes[i], objects[i]) {
      assert MirrorsOne(objects, nodes[i], objects[i]);
    }
  }

  /** A change of one object, and of its record. */
  lemma MirrorsUpdate(objects: seq<TreeNode>, nodes: seq<Record>, i: nat, record: Record)
    requires Distinct(objects) && |objects| == |nodes| && i < |nodes|
    requires forall k :: 0 <= k < |nodes| && k != i ==> MirrorsOne(objects, nodes[k], objects[k])
    requires MirrorsOne(objects, record, objects[i])
    ensures Mirrors(objects, nodes[i := record])
  {
    hide MirrorsOne;
  }

  lemma MirrorsAt(objects: seq<TreeNode>, nodes: seq<Record>, i: nat)
    requires Mirrors(objects, nodes) && i < |nodes|
    ensures |objects| == |nodes| && MirrorsOne(objects, nodes[i], objects[i])
  {
  }

  class Reader {
    var header: Header
    var reserveEntries: seq<ReserveEntry>
    var rootNode: TreeNode?

    var stack: seq<TreeNode>
    /** The nodes in the order of their allocation, and what they stand for. */
    ghost var objects: seq<TreeNode>
    ghost var st: State

    ghost predicate Right()
      reads this, objects
    {
      && Valid(st) && Mirrors(objects, st.nodes) && MirrorsStack(objects, st.stack, stack)
      && rootNode == if objects == [] then null else objects[0]
    }

    constructor ()
      ensures Right() && objects == [] && st == State([], [])
    {
      header := Header(0, 0, 0, 0, 0, 0, 0, 0, 0, 0);
      reserveEntries, rootNode, stack := [], null, [];
      objects, st := [], State([], []);
    }

    method ReadHeader(data: Bytes) returns (err: Option<Error>)
      modifies `header
      ensures match HeaderOf(data) case Ok(h) => err == None && header == h case Err(e) => err == Some(e)
    {
      hide Get32;
      if |data| < HEADER_SIZE {
        return Some(UnexpectedEof);
      }
      header := DecodeHeader(data);
      if header.magic != MAGIC {
        return Some(BadMagic);
      }
      if !(header.version == 16 || header.version == 17 || (header.lastCompVersion <= 17 && header.version > 17)) {
        return Some(Incompatible);
      }
      if header.totalSize > MAX_TOTAL_SIZE {
        return Some(TooLarge);
      }
      return None;
    }

    method ReadMemoryReservationBlock(data: Bytes) returns (err: Option<Error>)
      modifies `reserveEntries
      ensures match EntriesOf(data, header)
              case Ok(es) => err == None && reserveEntries == es
              case Err(e) => err == Some(e)
    {
      hide Get64;
      if header.offMemRsvmap < HEADER_SIZE {
        return Some(OverlapsHeader);
      }
      if header.offMemRsvmap % 8 != 0 {
        return Some(RsvmapUnaligned);
      }
      var pos: nat := header.offMemRsvmap;
      reserveEntries := [];
      PrependNothing(EntriesFrom(data, pos));
      while true
        invariant EntriesFrom(data, header.offMemRsvmap) == Prepend(reserveEntries, EntriesFrom(data, pos))
        decreases |data| - pos
      {
        if pos + 16 > |data| {
          return Some(UnexpectedEof);
        }
        var entry := ReserveEntry(Get64(data, pos), Get64(data, pos + 8));
        pos := pos + 16;
        if entry.address == 0 && entry.size == 0 {
          return None;
        }
        PrependTwice(reserveEntries, [entry], EntriesFrom(data, pos));
        reserveEntries := reserveEntries + [entry];
      }
    }

    method CheckLayout() returns (ok: bool)
      ensures ok == LayoutOk(header, reserveEntries)
    {
      var memRscEnd := Wrap(header.offMemRsvmap + Wrap((|reserveEntries| + 1) * 16));
      ok := !(header.offDtStruct < memRscEnd);
    }

    method ReadStringsBlock(data: Bytes) returns (r: Result<Bytes>)
      ensures r == StringsOf(data, header)
    {
      if header.offDtStrings >= |data| {
        return Err(UnexpectedEof);
      }
      var strs := Limited(data, header.offDtStrings, header.sizeDtStrings);
      return Ok(strs + Zeros(header.sizeDtStrings - |strs|));
    }

    /** A node for FDT_BEGIN_NODE: on the stack, and a child of the node below it. */
    method Push() returns (err: Option<Error>)
      requires Right()
      modifies this`stack, this`rootNode, this`objects, this`st, objects
      ensures err == if old(st.stack) == [] && old(st.nodes) != [] then Some(MultipleRoots) else None
      ensures err == None ==> Right() && st == OpenNode(old(st), [])
      ensures Grown(old(objects))
    {
      hide OpenNode, MirrorsOne, Ordered;
      var child := new TreeNode();
      MirrorsNew(objects, st.nodes, child);
      stack := stack + [child];
      if |stack| == 1 {
        if rootNode != null {
          return Some(MultipleRoots);
        }
        rootNode := child;
        OpenNodeIs(st, []);
      } else {
        AddChild(stack[|stack| - 2], child);
      }
      objects := objects + [child];
      OpenNodeIs(st, []);
      st := OpenNode(st, []);
      assert Valid(st);
      assert Mirrors(objects, st.nodes);
      assert MirrorsStack(objects, st.stack, stack);
      assert rootNode == objects[0];
      err := None;
    }

    /** The assignment to the children of the parent. */
    method AddChild(parent: TreeNode, child: TreeNode)
      requires Valid(st) && st.stack != [] && Mirrors(objects + [child], st.nodes + [Record([], [], [])])
      requires st.stack[|st.stack| - 1] < |objects| && parent == objects[st.stack[|st.stack| - 1]]
      modifies parent
      ensures Mirrors(objects + [child], OpenNode(st, []).nodes)
    {
      hide Ordered;
      ghost var top := st.stack[|st.stack| - 1];
      ghost var records := st.nodes + [Record([], [], [])];
      ghost var parents := records[top].(children := records[top].children + [|st.nodes|]);
      MirrorsAt(objects + [child], records, top);
      OpenNodeIs(st, []);
      parent.children := parent.children + [child];
      MirrorsUpdate(objects + [child], records, top, parents);
    }

    /** The name of the node on top of the stack. */
    method SetName(name: Bytes)
      requires Right() && st.stack != [] && st.nodes[st.stack[|st.stack| - 1]].name == []
      modifies this`st, objects
      ensures Right() && st == Named(old(st), name)
    {
      hide Ordered;
      ghost var top := st.stack[|st.stack| - 1];
      MirrorsAt(objects, st.nodes, top);
      var x := stack[|stack| - 1];
      x.name := name;
      MirrorsUpdate(objects, st.nodes, top, st.nodes[top].(name := name));
      st := Named(st, name);
    }

    /** A property of the node on top of the stack. */
    method AddToTop(p: Property)
      requires Right() && st.stack != []
      modifies this`st, objects
      ensures Right() && st == AddProperty(old(st), p)
    {
      hide Ordered;
      ghost var top := st.stack[|st.stack| - 1];
      MirrorsAt(objects, st.nodes, top);
      var curNode := stack[|stack| - 1];
      curNode.properties := curNode.properties + [p];
      MirrorsUpdate(objects, st.nodes, top, st.nodes[top].(properties := st.nodes[top].properties + [p]));
      st := AddProperty(st, p);
    }

    method Pop()
      requires Right() && st.stack != []
      modifies this`stack, this`st
      ensures Right() && st == CloseNode(old(st))
    {
      hide Mirrors, Ordered;
      stack := stack[..|stack| - 1];
      st := CloseNode(st);
    }

    /** The case FDT_BEGIN_NODE. */
    method TakeBegin(r: AlignReader) returns (err: Option<Error>)
      requires Right() && r.Valid()
      modifies r, this`stack, this`rootNode, this`objects, this`st, objects
      ensures r.Valid() && Agrees(BeginNode(r.b, old(r.n), old(st)), err, r)
      ensures Grown(old(objects))
    {
      hide Mirrors, MirrorsStack, Ordered, NameOf, NulFrom, Up4;
      err := Push();
      if err.Some? {
        return;
      }
      PushTop(old(st));
      var name := r.ReadName();
      if name == None {
        return Some(UnexpectedEof);
      }
      SetName(name.value);
      err := SkipRest(r);
    }

    /** The case FDT_PROP. */
    method TakeProp(r: AlignReader, strs: Bytes) returns (err: Option<Error>)
      requires Right() && r.Valid()
      modifies r, this`st, objects
      ensures r.Valid() && Agrees(Prop(r.b, strs, old(r.n), old(st)), err, r)
    {
      hide Mirrors, MirrorsStack, Ordered, NulFrom, Up4, Get32;
      var len := r.Read32();
      if len == None {
        return Some(UnexpectedEof);
      }
      var nameoff := r.Read32();
      if nameoff == None {
        return Some(UnexpectedEof);
      }
      if nameoff.value >= |strs| {
        return Some(NameOffsetTooLarge);
      }
      var end := NulFrom(strs, nameoff.value);
      if end == |strs| {
        return Some(NameUnterminated);
      }
      var value := r.ReadFull(len.value);
      if value == None {
        return Some(UnexpectedEof);
      }
      if |stack| == 0 {
        assert st.stack == [] by { StackLength(); }
        return Some(OutsideNode);
      }
      assert st.stack != [] by { StackLength(); }
      AddToTop(Property(strs[nameoff.value..end], value.value));
      err := SkipRest(r);
    }

    lemma StackLength()
      requires Right()
      ensures |stack| == |st.stack|
    {
    }

    /** The method has done what the outcome says: failed, ended or gone on. */
    ghost predicate Agrees(o: Outcome, err: Option<Error>, r: AlignReader)
      reads this, objects, r
    {
      match o
      case Fail(e) => err == Some(e)
      case Done => err == None
      case Go(pos, s) => err == None && Right() && st == s && r.n == pos
    }

    /** One round of the loop over the tokens. */
    method TakeToken(r: AlignReader, size: U32, strs: Bytes) returns (err: Option<Error>, done: bool)
      requires Right() && r.Valid() && header.sizeDtStruct == size
      modifies r, this`stack, this`rootNode, this`objects, this`st, objects
      ensures r.Valid()
      ensures var o := Step(r.b, size, strs, old(r.n), old(st)); Agrees(o, err, r) && done == o.Done?
      ensures done ==> Right() && st == old(st)
      ensures Grown(old(objects))
    {
      hide Mirrors, MirrorsStack, Ordered, NulFrom, Up4, Get32, BeginNode, Prop, NameOf;
      done := false;
      var token := r.Read32();
      if token == None {
        return Some(UnexpectedEof), false;
      }
      if token.value == BEGIN_NODE {
        err := TakeBegin(r);
      } else if token.value == END_NODE {
        StackLength();
        if |stack| == 0 {
          return Some(Unbalanced), false;
        }
        Pop();
        err := SkipRest(r);
      } else if token.value == PROP {
        err := TakeProp(r, strs);
      } else if token.value == NOP {
        err := SkipRest(r);
      } else if token.value == END {
        if Wrap(r.n) < header.sizeDtStruct {
          return Some(ExtraData), false;
        }
        assert rootNode == null <==> st.nodes == [] by { RootIsFirst(); }
        if rootNode == null {
          return Some(NoRoot), false;
        }
        return None, true;
      } else {
        return Some(UndefinedToken), false;
      }
    }

    lemma RootIsFirst()
      requires Right()
      ensures rootNode == null <==> st.nodes == []
    {
    }

    /** The alignment after the token. */
    method SkipRest(r: AlignReader) returns (err: Option<Error>)
      requires Right() && r.Valid()
      modifies r
      ensures r.Valid() && Agrees(Skip(r.b, old(r.n), st), err, r)
    {
      hide Right, Up4;
      var ok := r.Align();
      err := if ok then None else Some(UnexpectedEof);
    }

    /** Objects are added, and all that have been added are new. */
    twostate predicate Grown(before: seq<TreeNode>)
      reads this
    {
      forall i :: 0 <= i < |objects| ==> objects[i] in before || fresh(objects[i])
    }

    /** The loop over the tokens. */
    method ReadStructBlock(data: Bytes, strs: Bytes) returns (err: Option<Error>)
      requires Right() && objects == [] && st == State([], [])
      modifies this`stack, this`rootNode, this`objects, this`st
      ensures match NodesOf(data, header, strs)
              case Ok(nodes) => err == None && Right() && st.nodes == nodes
              case Err(e) => err == Some(e)
      ensures Grown([])
    {
      hide Right, Valid, Step;
      if header.offDtStruct % 4 != 0 {
        return Some(StructUnaligned);
      }
      var r := new AlignReader(Limited(data, header.offDtStruct, header.sizeDtStruct));
      RightIsValid();
      while true
        invariant r.Valid() && Right() && Valid(st) && fresh(r) && Grown([])
        invariant Run(r.b, header.sizeDtStruct, strs, r.n, st) == Run(r.b, header.sizeDtStruct, strs, 0, State([], []))
        decreases |r.b| - r.n
      {
        var e, done := TakeToken(r, header.sizeDtStruct, strs);
        if e.Some? {
          return e;
        }
        if done {
          return None;
        }
        RightIsValid();
      }
    }

    lemma RightIsValid()
      requires Right()
      ensures Valid(st)
    {
    }

    /** `ReadFDT`: fails exactly as the contents say, or leaves them in the fields. */
    method ReadFDT(data: Bytes) returns (err: Option<Error>)
      requires Right() && objects == [] && st == State([], [])
      modifies this
      ensures match ContentsOf(data)
              case Err(e) => err == Some(e)
              case Ok(c) =>
                && err == None && header == c.header && reserveEntries == c.entries
                && Mirrors(objects, c.nodes) && rootNode == objects[0]
    {
      hide HeaderOf, EntriesOf, LayoutOk, StringsOf, NodesOf, Mirrors;
      err := ReadHeader(data);
      if err.Some? {
        return;
      }
      err := ReadMemoryReservationBlock(data);
      if err.Some? {
        return;
      }
      var ok := CheckLayout();
      if !ok {
        return Some(OverlapsRsvmap);
      }
      var strs := ReadStringsBlock(data);
      if strs.Err? {
        return Some(strs.error);
      }
      err := ReadStructBlock(data, strs.value);
      if err == None {
        MirrorsLength();
      }
    }

    lemma MirrorsLength()
      requires Right()
      ensures |objects| == |st.nodes|
    {
    }
  }

  /** `OpenNode`, the new record first. */
  lemma OpenNodeIs(st: State, name: Bytes)
    requires Valid(st)
    ensures var records := st.nodes + [Record(name, [], [])];
            OpenNode(st, name).nodes
            == if st.stack == [] then records
               else var top := st.stack[|st.stack| - 1];
                 records[top := records[top].(children := records[top].children + [|st.nodes|])]
    ensures OpenNode(st, name).stack == st.stack + [|st.nodes|]
  {
  }

  function Named(st: State, name: Bytes): (r: State)
    requires Valid(st) && st.stack != []
    ensures Valid(r)
  {
    var top := st.stack[|st.stack| - 1];
    st.(nodes := st.nodes[top := st.nodes[top].(name := name)])
  }

  /** The node is named after it has been put into the tree. */
  lemma PushTop(st: State)
    requires Valid(st)
    ensures var s := OpenNode(st, []);
            && s.stack != [] && s.nodes[s.stack[|s.stack| - 1]].name == []
            && forall name :: Named(s, name) == OpenNode(st, name)
  {
    hide Ordered;
    forall name ensures Named(OpenNode(st, []), name) == OpenNode(st, name) {
      OpenNodeIs(st, []);
      OpenNodeIs(st, name);
    }
  }

  lemma PrependNothing<T>(r: Result<seq<T>>)
    ensures Prepend([], r) == r
  {
    if r.Ok? {
      assert [] + r.value == r.value;
    }
  }

  lemma PrependTwice<T>(s: seq<T>, t: seq<T>, r: Result<seq<T>>)
    ensures Prepend(s, Prepend(t, r)) == Prepend(s + t, r)
  {
    if r.Ok? {
      assert s + (t + r.value) == (s + t) + r.value;
    }
  }
}
