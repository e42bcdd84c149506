/**
 Exactly which bytes `FDT` of `fdt_linux.go` accepts as a flattened device
 tree, and what it finds in them, in terms of the format (Devicetree
 Specification, Release 0.2, sections 5.2 to 5.5).
 */
module DeviceTreeFormat {
  import opened Wrappers
  import opened Sequences
  import opened Bytes
  import opened DeviceTree
  import opened DeviceTreeReader
  import opened DeviceTreeRoundTrip

  // ----- tokens

  /** A token of the structure block, with what belongs to it. */
  datatype Token = Opens(name: Bytes) | Closes | Has(name: Bytes, value: Bytes) | Nothing

  /** The token is written at pos, and the next one is at next. */
  ghost predicate Written(b: Bytes, strs: Bytes, pos: nat, t: Token, next: nat) {
    match t
    case Opens(name) =>
      NulFree(name) && At(b, pos, Put32(1)) && At(b, pos + 4, name + [0]) && Ends(b, pos + 4 + |name| + 1, next)
    case Closes => At(b, pos, Put32(2)) && Ends(b, pos + 4, next)
    case Has(name, value) => HasWritten(b, strs, pos, name, value) && Ends(b, pos + 12 + |value|, next)
    case Nothing => At(b, pos, Put32(4)) && Ends(b, pos + 4, next)
  }

  /** The length, the offset of the name, and the value, with the name in the strings block. */
  ghost predicate HasWritten(b: Bytes, strs: Bytes, pos: nat, name: Bytes, value: Bytes) {
    NulFree(name) && exists length: U32, offset: U32 ::
      && At(b, pos, Put32(3)) && At(b, pos + 4, Put32(length)) && At(b, pos + 8, Put32(offset))
      && At(b, pos + 12, value) && length == |value| && At(strs, offset, name + [0])
  }

  /** Padding up to a multiple of four, all of it inside the block. */
  predicate Ends(b: Bytes, end: nat, next: nat) {
    end <= next < end + 4 && next % 4 == 0 && next <= |b|
  }

  /** What a token does to the nodes, if it may stand where it does. */
  function Takes(st: State, t: Token): (r: Option<State>)
    requires Valid(st)
    ensures r.Some? ==> Valid(r.value)
  {
    match t
    case Opens(name) => if st.stack == [] && st.nodes != [] then None else Some(OpenNode(st, NameOf(name)))
    case Closes => if st.stack == [] then None else Some(CloseNode(st))
    case Has(name, value) => if st.stack == [] then None else Some(AddProperty(st, Property(name, value)))
    case Nothing => Some(st)
  }

  lemma EndsExact(b: Bytes, end: nat, next: nat)
    ensures Ends(b, end, next) <==> next == Up4(end) && next <= |b|
  {
  }

  /** Bytes up to a NUL. */
  lemma NameExact(s: Bytes, pos: nat, name: Bytes)
    requires pos <= |s|
    ensures NulFree(name) && At(s, pos, name + [0])
            <==> NulFrom(s, pos) < |s| && name == s[pos..NulFrom(s, pos)]
  {
    var end := NulFrom(s, pos);
    if NulFree(name) && At(s, pos, name + [0]) {
      NulAfter(s, pos, name);
      WholeName(name);
    }
    if end < |s| && name == s[pos..end] {
      assert forall i :: 0 <= i < |name| ==> name[i] == s[pos + i];
      assert s[pos..end + 1] == name + [0];
    }
  }

  // ----- one token

  lemma OpensAt(b: Bytes, strs: Bytes, pos: nat, name: Bytes, next: nat)
    requires pos + 4 <= |b|
    ensures Written(b, strs, pos, Opens(name), next)
            <==> var end := NulFrom(b, pos + 4);
                 && Get32(b, pos) == BEGIN_NODE && end < |b| && name == b[pos + 4..end]
                 && next == Up4(end + 1) && next <= |b|
  {
    hide NulFrom, Get32, Put32, At, NulFree, Up4, Ends;
    Put32Exact(b, pos, 1);
    NameExact(b, pos + 4, name);
    EndsExact(b, pos + 4 + |name| + 1, next);
  }

  lemma OpensExact(b: Bytes, strs: Bytes, pos: nat, st: State, next: nat, st': State)
    requires Valid(st) && pos + 4 <= |b| && Get32(b, pos) == BEGIN_NODE
    ensures BeginNode(b, pos + 4, st) == Go(next, st')
            <==> exists name :: Written(b, strs, pos, Opens(name), next) && Takes(st, Opens(name)) == Some(st')
  {
    hide Valid, OpenNode, NameOf, NulFrom, Get32, Up4, Written;
    forall name
      ensures Written(b, strs, pos, Opens(name), next)
              <==> var end := NulFrom(b, pos + 4);
                   end < |b| && name == b[pos + 4..end] && next == Up4(end + 1) && next <= |b|
    {
      OpensAt(b, strs, pos, name, next);
    }
    var end := NulFrom(b, pos + 4);
    if BeginNode(b, pos + 4, st) == Go(next, st') {
      assert Written(b, strs, pos, Opens(b[pos + 4..end]), next);
    }
  }

  lemma HasAt(b: Bytes, strs: Bytes, pos: nat, name: Bytes, value: Bytes, next: nat)
    requires pos + 12 <= |b|
    ensures Written(b, strs, pos, Has(name, value), next)
            <==> var length, offset := Get32(b, pos + 4), Get32(b, pos + 8);
                 && Get32(b, pos) == PROP && pos + 12 + length <= |b| && value == b[pos + 12..pos + 12 + length]
                 && offset <= |strs| && NulFrom(strs, offset) < |strs| && name == strs[offset..NulFrom(strs, offset)]
                 && next == Up4(pos + 12 + length) && next <= |b|
  {
    hide NulFrom, Get32, Put32, NulFree, Up4, Ends, At;
    var length, offset := Get32(b, pos + 4), Get32(b, pos + 8);
    Put32Exact(b, pos, 3);
    forall x: U32 ensures At(b, pos + 4, Put32(x)) <==> length == x {
      Put32Exact(b, pos + 4, x);
    }
    forall x: U32 ensures At(b, pos + 8, Put32(x)) <==> offset == x {
      Put32Exact(b, pos + 8, x);
    }
    AtIs(b, pos + 12, value);
    NameIs(strs, offset, name);
    EndsExact(b, pos + 12 + |value|, next);
    assert At(b, pos + 4, Put32(length)) && At(b, pos + 8, Put32(offset));
  }

  lemma AtIs(s: Bytes, pos: nat, piece: Bytes)
    ensures At(s, pos, piece) <==> pos + |piece| <= |s| && piece == s[pos..pos + |piece|]
  {
  }

  lemma NameIs(s: Bytes, pos: nat, name: Bytes)
    ensures NulFree(name) && At(s, pos, name + [0])
            <==> pos <= |s| && NulFrom(s, pos) < |s| && name == s[pos..NulFrom(s, pos)]
  {
    if pos <= |s| {
      NameExact(s, pos, name);
    }
  }

  lemma HasExact(b: Bytes, strs: Bytes, pos: nat, st: State, next: nat, st': State)
    requires Valid(st) && pos + 4 <= |b| && Get32(b, pos) == PROP
    ensures Prop(b, strs, pos + 4, st) == Go(next, st')
            <==> exists name, value ::
                   Written(b, strs, pos, Has(name, value), next) && Takes(st, Has(name, value)) == Some(st')
  {
    hide Valid, AddProperty, NulFrom, Get32, Up4, Written;
    if pos + 12 <= |b| {
      var length, offset := Get32(b, pos + 4), Get32(b, pos + 8);
      forall name, value
        ensures Written(b, strs, pos, Has(name, value), next)
                <==> && pos + 12 + length <= |b| && value == b[pos + 12..pos + 12 + length]
                     && offset <= |strs| && NulFrom(strs, offset) < |strs|
                     && name == strs[offset..NulFrom(strs, offset)]
                     && next == Up4(pos + 12 + length) && next <= |b|
      {
        HasAt(b, strs, pos, name, value, next);
      }
      if Prop(b, strs, pos + 4, st) == Go(next, st') {
        var name, value := strs[offset..NulFrom(strs, offset)], b[pos + 12..pos + 12 + length];
        assert Written(b, strs, pos, Has(name, value), next);
      }
    } else {
      TooShort(b, strs, pos, next);
    }
  }

  lemma TooShort(b: Bytes, strs: Bytes, pos: nat, next: nat)
    requires pos + 12 > |b|
    ensures !exists name, value :: Written(b, strs, pos, Has(name, value), next)
  {
  }

  lemma ClosesExact(b: Bytes, strs: Bytes, pos: nat, st: State, next: nat, st': State)
    requires Valid(st) && pos + 4 <= |b|
    ensures Written(b, strs, pos, Closes, next) <==> Get32(b, pos) == END_NODE && next == Up4(pos + 4) && next <= |b|
    ensures Written(b, strs, pos, Nothing, next) <==> Get32(b, pos) == NOP && next == Up4(pos + 4) && next <= |b|
  {
    hide Get32, Put32, At, Up4, Ends;
    Put32Exact(b, pos, 2);
    Put32Exact(b, pos, 4);
    EndsExact(b, pos + 4, next);
  }

  /** The token at pos is written and may stand there. */
  ghost predicate Follows(b: Bytes, strs: Bytes, pos: nat, st: State, t: Token, next: nat, st': State)
    requires Valid(st)
  {
    Written(b, strs, pos, t, next) && Takes(st, t) == Some(st')
  }

  /** The loop goes on exactly behind tokens that may stand where they are. */
  lemma StepExact(b: Bytes, size: U32, strs: Bytes, pos: nat, st: State, next: nat, st': State)
    requires Valid(st) && pos <= |b|
    ensures Step(b, size, strs, pos, st) == Go(next, st') <==> exists t :: Follows(b, strs, pos, st, t, next, st')
  {
    hide Valid, BeginNode, Prop, Get32, Up4, Written, Takes;
    if pos + 4 > |b| {
      NoRoom(b, strs, pos, next);
    } else {
      forall t | Written(b, strs, pos, t, next) ensures Kind(t) == Get32(b, pos) {
        KindIsWritten(b, strs, pos, t, next);
      }
      ClosesExact(b, strs, pos, st, next, st');
      TakesPlain(st);
      if Get32(b, pos) == BEGIN_NODE {
        OpensExact(b, strs, pos, st, next, st');
        if exists name :: Written(b, strs, pos, Opens(name), next) && Takes(st, Opens(name)) == Some(st') {
          var name :| Written(b, strs, pos, Opens(name), next) && Takes(st, Opens(name)) == Some(st');
          assert Follows(b, strs, pos, st, Opens(name), next, st');
        }
      } else if Get32(b, pos) == PROP {
        HasExact(b, strs, pos, st, next, st');
        if exists name, value ::
             Written(b, strs, pos, Has(name, value), next) && Takes(st, Has(name, value)) == Some(st')
        {
          var name, value :|
            Written(b, strs, pos, Has(name, value), next) && Takes(st, Has(name, value)) == Some(st');
          assert Follows(b, strs, pos, st, Has(name, value), next, st');
        }
      } else {
        assert Follows(b, strs, pos, st, Closes, next, st') || Follows(b, strs, pos, st, Nothing, next, st')
          <==> exists t :: Follows(b, strs, pos, st, t, next, st');
      }
    }
  }

  function Kind(t: Token): U32 {
    match t
    case Opens(_) => 1
    case Closes => 2
    case Has(_, _) => 3
    case Nothing => 4
  }

  lemma KindIsWritten(b: Bytes, strs: Bytes, pos: nat, t: Token, next: nat)
    requires pos + 4 <= |b| && Written(b, strs, pos, t, next)
    ensures Get32(b, pos) == Kind(t)
  {
    hide Get32, Put32, At, NulFree;
    Put32Exact(b, pos, Kind(t));
  }

  lemma NoRoom(b: Bytes, strs: Bytes, pos: nat, next: nat)
    requires pos + 4 > |b|
    ensures forall t :: !Written(b, strs, pos, t, next)
  {
  }

  lemma TakesPlain(st: State)
    requires Valid(st)
    ensures Takes(st, Closes) == if st.stack == [] then None else Some(CloseNode(st))
    ensures Takes(st, Nothing) == Some(st)
  {
  }

  // ----- the structure block

  /** The block ends with its last token, behind at least one node. */
  ghost predicate Finished(b: Bytes, size: nat, pos: nat, st: State) {
    At(b, pos, Put32(9)) && pos + 4 >= size && st.nodes != []
  }

  lemma DoneExact(b: Bytes, size: U32, strs: Bytes, pos: nat, st: State)
    requires Valid(st) && pos <= |b| < 0x1_0000_0000
    ensures Step(b, size, strs, pos, st) == Done <==> Finished(b, size, pos, st)
  {
    hide Valid, BeginNode, Prop, Get32, Put32, Up4, At;
    Put32Exact(b, pos, 9);
    if pos + 4 <= |b| {
      WrapExact(pos + 4);
    }
  }

  /** From pos on the block consists of tokens that may stand where they are, which give the nodes. */
  ghost predicate Describes(b: Bytes, size: nat, strs: Bytes, pos: nat, st: State, nodes: seq<Record>)
    requires Valid(st)
    decreases |b| - pos
  {
    || (Finished(b, size, pos, st) && nodes == st.nodes)
    || exists t, next: nat, st' ::
         && Follows(b, strs, pos, st, t, next, st') && pos < next <= |b|
         && Describes(b, size, strs, next, st', nodes)
  }

  /** Exactly such blocks are accepted. */
  lemma {:induction false} RunExact(b: Bytes, size: U32, strs: Bytes, pos: nat, st: State, nodes: seq<Record>)
    requires Valid(st) && pos <= |b| < 0x1_0000_0000
    ensures Run(b, size, strs, pos, st) == Ok(nodes) <==> Describes(b, size, strs, pos, st, nodes)
    decreases |b| - pos
  {
    hide Valid, Step, Finished, Written, Takes;
    DoneExact(b, size, strs, pos, st);
    if Run(b, size, strs, pos, st) == Ok(nodes) && Step(b, size, strs, pos, st).Go? {
      var next, st' := Step(b, size, strs, pos, st).pos, Step(b, size, strs, pos, st).st;
      StepExact(b, size, strs, pos, st, next, st');
      RunExact(b, size, strs, next, st', nodes);
    }
    if Describes(b, size, strs, pos, st, nodes) && !(Finished(b, size, pos, st) && nodes == st.nodes) {
      var t, next: nat, st' :|
        && Follows(b, strs, pos, st, t, next, st') && pos < next <= |b|
        && Describes(b, size, strs, next, st', nodes);
      StepExact(b, size, strs, pos, st, next, st');
      RunExact(b, size, strs, next, st', nodes);
    }
  }

  // ----- the file

  lemma HeaderWritten(data: Bytes, h: Header)
    ensures At(data, 0, EncodeHeader(h)) <==> |data| >= 40 && DecodeHeader(data) == h
  {
    hide Put32, Get32, At;
    if |data| >= 40 && DecodeHeader(data) == h {
      Put32Exact(data, 0, h.magic);
      Put32Exact(data, 4, h.totalSize);
      Put32Exact(data, 8, h.offDtStruct);
      Put32Exact(data, 12, h.offDtStrings);
      Put32Exact(data, 16, h.offMemRsvmap);
      Put32Exact(data, 20, h.version);
      Put32Exact(data, 24, h.lastCompVersion);
      Put32Exact(data, 28, h.bootCpuidPhys);
      Put32Exact(data, 32, h.sizeDtStrings);
      Put32Exact(data, 36, h.sizeDtStruct);
      FieldsFollow(data, h);
    }
    if At(data, 0, EncodeHeader(h)) {
      HeaderReadBack(data, h);
    }
  }

  lemma FieldsFollow(data: Bytes, h: Header)
    requires At(data, 0, Put32(h.magic)) && At(data, 4, Put32(h.totalSize)) && At(data, 8, Put32(h.offDtStruct))
    requires At(data, 12, Put32(h.offDtStrings)) && At(data, 16, Put32(h.offMemRsvmap))
    requires At(data, 20, Put32(h.version)) && At(data, 24, Put32(h.lastCompVersion))
    requires At(data, 28, Put32(h.bootCpuidPhys)) && At(data, 32, Put32(h.sizeDtStrings))
    requires At(data, 36, Put32(h.sizeDtStruct))
    ensures At(data, 0, EncodeHeader(h))
  {
    hide Put32, At;
    var x1 := Put32(h.magic) + Put32(h.totalSize);
    var x2 := x1 + Put32(h.offDtStruct);
    var x3 := x2 + Put32(h.offDtStrings);
    var x4 := x3 + Put32(h.offMemRsvmap);
    var x5 := x4 + Put32(h.version);
    var x6 := x5 + Put32(h.lastCompVersion);
    var x7 := x6 + Put32(h.bootCpuidPhys);
    var x8 := x7 + Put32(h.sizeDtStrings);
    AtAppend(data, 0, Put32(h.magic), Put32(h.totalSize));
    AtAppend(data, 0, x1, Put32(h.offDtStruct));
    AtAppend(data, 0, x2, Put32(h.offDtStrings));
    AtAppend(data, 0, x3, Put32(h.offMemRsvmap));
    AtAppend(data, 0, x4, Put32(h.version));
    AtAppend(data, 0, x5, Put32(h.lastCompVersion));
    AtAppend(data, 0, x6, Put32(h.bootCpuidPhys));
    AtAppend(data, 0, x7, Put32(h.sizeDtStrings));
    AtAppend(data, 0, x8, Put32(h.sizeDtStruct));
  }

  /** The reserved memory, ended by an entry of zeros. */
  lemma {:induction false} EntriesExact(data: Bytes, pos: nat, es: seq<ReserveEntry>)
    ensures EntriesFrom(data, pos) == Ok(es)
            <==> At(data, pos, EncodeEntries(es) + Zeros(16)) && ZERO_ENTRY !in es
    decreases |data| - pos
  {
    hide Get64, At, EncodeEntry;
    if At(data, pos, EncodeEntries(es) + Zeros(16)) && ZERO_ENTRY !in es {
      EntriesReadBack(data, pos, es);
      NotMoreEntries(es);
    }
    if EntriesFrom(data, pos) == Ok(es) {
      var e := ReserveEntry(Get64(data, pos), Get64(data, pos + 8));
      EntryWritten(data, pos, e);
      if e == ZERO_ENTRY {
        ZeroEntryBytes();
        assert EncodeEntries([]) + Zeros(16) == Zeros(16);
      } else {
        assert es == [e] + es[1..];
        EntriesExact(data, pos + 16, es[1..]);
        EntriesFront(es);
        SeqAssoc(EncodeEntry(e), EncodeEntries(es[1..]), Zeros(16));
        AtAppend(data, pos, EncodeEntry(e), EncodeEntries(es[1..]) + Zeros(16));
      }
    }
  }

  lemma EntryWritten(data: Bytes, pos: nat, e: ReserveEntry)
    requires pos + 16 <= |data| && Get64(data, pos) == e.address && Get64(data, pos + 8) == e.size
    ensures At(data, pos, EncodeEntry(e))
  {
    hide Get64, Put64, At;
    Put64Exact(data, pos, e.address);
    Put64Exact(data, pos + 8, e.size);
    AtAppend(data, pos, Put64(e.address), Put64(e.size));
  }

  /** The header can be read, and the blocks may lie where it says. */
  predicate HeaderFits(data: Bytes, h: Header, entries: nat) {
    && h.magic == 0xd00dfeed && h.totalSize <= 0x4000_0000
    && (h.version == 16 || h.version == 17 || (h.version > 17 && h.lastCompVersion <= 17))
    && h.offMemRsvmap >= 40 && h.offMemRsvmap % 8 == 0
    && h.offDtStruct >= (h.offMemRsvmap + 16 * (entries + 1)) % 0x1_0000_0000 && h.offDtStruct % 4 == 0
    && h.offDtStrings < |data|
  }

  /** The strings block as far as the file goes, and zeros behind it. */
  function StringsIn(data: Bytes, h: Header): (r: Bytes) {
    var rest := if h.offDtStrings <= |data| then data[h.offDtStrings..] else [];
    if |rest| >= h.sizeDtStrings then rest[..h.sizeDtStrings] else rest + Zeros(h.sizeDtStrings - |rest|)
  }

  /** The structure block as far as the file goes. */
  function StructIn(data: Bytes, h: Header): (r: Bytes)
    ensures |r| <= h.sizeDtStruct
  {
    var rest := if h.offDtStruct <= |data| then data[h.offDtStruct..] else [];
    if |rest| >= h.sizeDtStruct then rest[..h.sizeDtStruct] else rest
  }

  lemma BlocksIn(data: Bytes, h: Header)
    ensures StringsOf(data, h) == if h.offDtStrings < |data| then Ok(StringsIn(data, h)) else Err(UnexpectedEof)
    ensures Limited(data, h.offDtStruct, h.sizeDtStruct) == StructIn(data, h)
  {
    if h.offDtStrings < |data| {
      var strs := Limited(data, h.offDtStrings, h.sizeDtStrings);
      assert strs + Zeros(0) == strs;
      if h.offDtStrings + h.sizeDtStrings <= |data| {
        assert data[h.offDtStrings..][..h.sizeDtStrings] == strs;
      }
    }
    if h.offDtStruct + h.sizeDtStruct <= |data| {
      assert data[h.offDtStruct..][..h.sizeDtStruct] == Limited(data, h.offDtStruct, h.sizeDtStruct);
    }
  }

  lemma WrapTwice(x: nat, y: nat)
    ensures Wrap(x + Wrap(y)) == (x + y) % 0x1_0000_0000
  {
  }

  /** Exactly these files are accepted, with these contents. */
  lemma FileExact(data: Bytes, h: Header, es: seq<ReserveEntry>, nodes: seq<Record>)
    ensures ContentsOf(data) == Ok(Contents(h, es, nodes))
            <==> && At(data, 0, EncodeHeader(h)) && HeaderFits(data, h, |es|)
                 && At(data, h.offMemRsvmap, EncodeEntries(es) + Zeros(16)) && ZERO_ENTRY !in es
                 && Describes(StructIn(data, h), h.sizeDtStruct, StringsIn(data, h), 0, State([], []), nodes)
  {
    hide At, EncodeHeader, EncodeEntries, DecodeHeader, EntriesFrom, Run, Describes, Limited, StringsOf, StructIn,
      StringsIn, Wrap;
    HeaderWritten(data, h);
    EntriesExact(data, h.offMemRsvmap, es);
    WrapTwice(h.offMemRsvmap, 16 * (|es| + 1));
    BlocksIn(data, h);
    RunExact(StructIn(data, h), h.sizeDtStruct, StringsIn(data, h), 0, State([], []), nodes);
  }
}
