/**
 Archives in the newc format of cpio (`newc.go` and `utils.go` of `pkg/cpio`;
 cpio(5), "New ASCII Format").

 Positions are mathematical integers, writing a byte never fails, and the
 archive is read as `bytes.Reader` reads it: a read that reaches the end of
 the file yields EOF.  `Normalize` is a function that is given.
 */
module Cpio {
  import opened Sequences
  import opened Bytes
  import opened Wrappers

  datatype Info = Info(
    ino: U64, mode: U64, uid: U64, gid: U64, nlink: U64, mtime: U64, fileSize: U64,
    dev: U64, major: U64, minor: U64, rmajor: U64, rminor: U64, name: Bytes)

  /** A record; a file without content has none. */
  datatype Record = Record(info: Info, content: Option<Bytes>)

  datatype Header = Header(
    ino: U32, mode: U32, uid: U32, gid: U32, nlink: U32, mtime: U32, fileSize: U32,
    major: U32, minor: U32, rmajor: U32, rminor: U32, nameLength: U32, crc: U32)

  /** "070701" */
  const MAGIC: Bytes := [48, 55, 48, 55, 48, 49]
  /** "TRAILER!!!" */
  const TRAILER: Bytes := [84, 82, 65, 73, 76, 69, 82, 33, 33, 33]
  /** The size of the header in the archive. */
  const HEAD := 110

  // ----- hexadecimal digits

  type Nibble = d: int | 0 <= d < 16

  function Digit(d: Nibble): Byte {
    if d < 10 then 48 + d else 55 + d
  }

  /** `hex.Decode` takes capital and small letters. */
  function FromDigit(b: Byte): Option<Nibble> {
    if 48 <= b <= 57 then Some(b - 48)
    else if 65 <= b <= 70 then Some(b - 55)
    else if 97 <= b <= 102 then Some(b - 87)
    else None
  }

  function Hex(s: Bytes): (r: Bytes)
    ensures |r| == 2 * |s|
  {
    if s == [] then [] else [Digit(s[0] / 16), Digit(s[0] % 16)] + Hex(s[1..])
  }

  function FromHex(s: Bytes): (r: Option<Bytes>)
    requires |s| % 2 == 0
    ensures r.Some? ==> 2 * |r.value| == |s|
  {
    if s == [] then Some([])
    else
      var high, low, rest := FromDigit(s[0]), FromDigit(s[1]), FromHex(s[2..]);
      if high.Some? && low.Some? && rest.Some? then Some([16 * high.value + low.value] + rest.value) else None
  }

  lemma {:induction false} HexRoundTrip(s: Bytes)
    ensures FromHex(Hex(s)) == Some(s)
  {
    if s != [] {
      HexRoundTrip(s[1..]);
      assert Hex(s)[2..] == Hex(s[1..]);
      assert s == [s[0]] + s[1..];
    }
  }

  /** The same digit, a letter in either case. */
  predicate SameDigit(b: Byte, digit: Byte) {
    b == digit || (65 <= digit <= 70 && b == digit + 32)
  }

  /** The text writes the bytes in hexadecimal, with letters in either case. */
  predicate Spells(t: Bytes, s: Bytes) {
    |t| == 2 * |s| && forall i :: 0 <= i < |t| ==> SameDigit(t[i], Hex(s)[i])
  }

  lemma FromDigitExact(b: Byte, d: Nibble)
    ensures FromDigit(b) == Some(d) <==> SameDigit(b, Digit(d))
  {
  }

  /** Decoding accepts exactly the ways to write bytes. */
  lemma {:induction false} FromHexExact(t: Bytes, s: Bytes)
    requires |t| % 2 == 0
    ensures FromHex(t) == Some(s) <==> Spells(t, s)
  {
    if t == [] || s == [] {
      assert |t| == 2 * |s| ==> t == [] && s == [];
    } else {
      FromHexExact(t[2..], s[1..]);
      FromDigitExact(t[0], s[0] / 16);
      FromDigitExact(t[1], s[0] % 16);
      hide FromDigit, Digit, SameDigit;
      SpellsMore(t, s);
      FromHexStep(t, s);
    }
  }

  lemma SpellsMore(t: Bytes, s: Bytes)
    requires |t| >= 2 && s != []
    ensures Spells(t, s)
            <==> Spells(t[2..], s[1..]) && SameDigit(t[0], Digit(s[0] / 16)) && SameDigit(t[1], Digit(s[0] % 16))
  {
    hide SameDigit, Digit;
    var h := Hex(s);
    assert h[2..] == Hex(s[1..]) && h[0] == Digit(s[0] / 16) && h[1] == Digit(s[0] % 16);
    if Spells(t[2..], s[1..]) && SameDigit(t[0], h[0]) && SameDigit(t[1], h[1]) {
      forall i | 0 <= i < |t| ensures SameDigit(t[i], h[i]) {
        if i >= 2 {
          assert t[2..][i - 2] == t[i] && h[2..][i - 2] == h[i];
        }
      }
    }
    if Spells(t, s) {
      forall i | 0 <= i < |t| - 2 ensures SameDigit(t[2..][i], h[2..][i]) {
        assert t[2..][i] == t[i + 2] && h[2..][i] == h[i + 2];
      }
    }
  }

  lemma FromHexStep(t: Bytes, s: Bytes)
    requires |t| >= 2 && |t| % 2 == 0 && s != []
    ensures FromHex(t) == Some(s)
            <==> && FromDigit(t[0]) == Some(s[0] / 16) && FromDigit(t[1]) == Some(s[0] % 16)
                 && FromHex(t[2..]) == Some(s[1..])
  {
    hide FromDigit;
    match (FromDigit(t[0]), FromDigit(t[1]), FromHex(t[2..]))
    case (Some(x), Some(y), Some(rest)) => FirstByte(x, y, rest, s);
    case _ =>
  }

  lemma FirstByte(x: nat, y: nat, rest: Bytes, s: Bytes)
    requires x < 16 && y < 16 && s != []
    ensures [16 * x + y] + rest == s <==> x == s[0] / 16 && y == s[0] % 16 && rest == s[1..]
  {
    assert s == [s[0]] + s[1..];
    assert ([16 * x + y] + rest)[1..] == rest;
  }

  // ----- headers

  function EncodeHeader(h: Header): (r: Bytes)
    ensures |r| == 52
  {
    Put32(h.ino) + Put32(h.mode) + Put32(h.uid) + Put32(h.gid) + Put32(h.nlink) + Put32(h.mtime) + Put32(h.fileSize)
    + Put32(h.major) + Put32(h.minor) + Put32(h.rmajor) + Put32(h.rminor) + Put32(h.nameLength) + Put32(h.crc)
  }

  function DecodeHeader(s: Bytes): Header
    requires |s| == 52
  {
    Header(Get32(s, 0), Get32(s, 4), Get32(s, 8), Get32(s, 12), Get32(s, 16), Get32(s, 20), Get32(s, 24),
           Get32(s, 28), Get32(s, 32), Get32(s, 36), Get32(s, 40), Get32(s, 44), Get32(s, 48))
  }

  lemma HeaderReadBack(h: Header)
    ensures DecodeHeader(EncodeHeader(h)) == h
  {
    hide Put32, Get32;
    var s := EncodeHeader(h);
    var x1 := Put32(h.ino) + Put32(h.mode);
    var x2 := x1 + Put32(h.uid);
    var x3 := x2 + Put32(h.gid);
    var x4 := x3 + Put32(h.nlink);
    var x5 := x4 + Put32(h.mtime);
    var x6 := x5 + Put32(h.fileSize);
    var x7 := x6 + Put32(h.major);
    var x8 := x7 + Put32(h.minor);
    var x9 := x8 + Put32(h.rmajor);
    var x10 := x9 + Put32(h.rminor);
    var x11 := x10 + Put32(h.nameLength);
    assert s == x11 + Put32(h.crc);
    assert At(s, 0, s);
    hide EncodeHeader;
    FieldReadBack(s, x11, h.crc);
    FieldReadBack(s, x10, h.nameLength);
    FieldReadBack(s, x9, h.rminor);
    FieldReadBack(s, x8, h.rmajor);
    FieldReadBack(s, x7, h.minor);
    FieldReadBack(s, x6, h.major);
    FieldReadBack(s, x5, h.fileSize);
    FieldReadBack(s, x4, h.mtime);
    FieldReadBack(s, x3, h.nlink);
    FieldReadBack(s, x2, h.gid);
    FieldReadBack(s, x1, h.uid);
    FieldReadBack(s, Put32(h.ino), h.mode);
    AtPut32(s, 0, h.ino);
    hide At;
  }

  /** `headerFromInfo`. */
  function HeaderFromInfo(i: Info): Header {
    Header(Wrap(i.ino), Wrap(i.mode), Wrap(i.uid), Wrap(i.gid), Wrap(i.nlink), Wrap(i.mtime), Wrap(i.fileSize),
           Wrap(i.major), Wrap(i.minor), Wrap(i.rmajor), Wrap(i.rminor), Wrap(Wrap(|i.name|) + 1), 0)
  }

  /** `header.Info`, with the name. */
  function InfoOf(h: Header, name: Bytes): Info {
    Info(h.ino, h.mode, h.uid, h.gid, h.nlink, h.mtime, h.fileSize, 0, h.major, h.minor, h.rmajor, h.rminor, name)
  }

  function RecordHeader(r: Record): Header {
    var h := HeaderFromInfo(r.info);
    if r.content.None? then h.(fileSize := 0) else h
  }

  // ----- writing

  /** Magic, header and name. */
  function Head(r: Record): (b: Bytes)
    ensures |b| == HEAD + |r.info.name| + 1
  {
    MAGIC + Hex(EncodeHeader(RecordHeader(r))) + (r.info.name + [0])
  }

  function Data(r: Record): Bytes {
    if r.content.Some? then r.content.value else []
  }

  function Encode(r: Record): (b: Bytes)
    ensures Aligned(|b|)
  {
    AlignedSum(Up4(|Head(r)|), Up4(|Data(r)|));
    Padded(Head(r)) + Padded(Data(r))
  }

  /** The content has the announced size. */
  predicate Sized(r: Record) {
    r.content.Some? ==> |r.content.value| == r.info.fileSize
  }

  function EncodeAll(rs: seq<Record>): Bytes {
    if rs == [] then [] else EncodeAll(rs[..|rs| - 1]) + Encode(rs[|rs| - 1])
  }

  class Writer {
    var out: Bytes
    var pos: nat

    ghost predicate Valid()
      reads this
    {
      pos == |out|
    }

    constructor ()
      ensures Valid() && out == []
    {
      out, pos := [], 0;
    }

    method Write(b: Bytes)
      requires Valid()
      modifies this
      ensures Valid() && out == old(out) + b
    {
      out, pos := out + b, pos + |b|;
    }

    /** `pad`. */
    method Pad()
      requires Valid()
      modifies this
      ensures Valid() && out == old(out) + Zeros(Up4(|old(out)|) - |old(out)|)
    {
      var o := Up4(pos);
      if o != pos {
        Write(Zeros(o - pos));
      } else {
        assert out == out + Zeros(0);
      }
    }

    method WritePadded(b: Bytes)
      requires Valid() && Aligned(|out|)
      modifies this
      ensures Valid() && Aligned(|out|) && out == old(out) + Padded(b)
    {
      PadAfter(out, b);
      Write(b);
      Pad();
    }

    /** `WriteRecord`: if it fails, the archive is corrupt. */
    method WriteRecord(r: Record) returns (ok: bool)
      requires Valid() && Aligned(|out|)
      modifies this
      ensures Valid() && ok == Sized(r)
      ensures ok ==> Aligned(|out|) && out == old(out) + Encode(r)
      ensures !ok ==> out == old(out) + Padded(Head(r)) + Data(r)
    {
      hide Hex, EncodeHeader, HeaderFromInfo, Aligned, Up4, Padded;
      ghost var start := out;
      var hdr := HeaderFromInfo(r.info);
      if r.content == None {
        hdr := hdr.(fileSize := 0);
      }
      WritePadded(MAGIC + Hex(EncodeHeader(hdr)) + (r.info.name + [0]));
      assert out == start + Padded(Head(r));
      if r.content == None {
        NoPadding();
        assert out == start + (Padded(Head(r)) + Padded([]));
        return true;
      }
      var m := |r.content.value|;
      if m != r.info.fileSize {
        Write(r.content.value);
        return false;
      }
      if m > 0 {
        WritePadded(r.content.value);
      } else {
        NoPadding();
        assert r.content.value == [];
        Write([]);
      }
      assert out == start + (Padded(Head(r)) + Padded(Data(r)));
      return true;
    }
  }

  lemma NoPadding()
    ensures Padded([]) == []
  {
  }

  lemma PadAfter(before: Bytes, b: Bytes)
    requires Aligned(|before|)
    ensures (before + b) + Zeros(Up4(|before + b|) - |before + b|) == before + Padded(b)
    ensures Aligned(|before + Padded(b)|)
  {
    AlignedSum(|before|, Up4(|b|));
    UpAfter(|before|, |b|);
    hide Up4;
  }

  /** `DedupWriter`: the first record of each name, the name normalized. */
  function Dedup(normalize: Bytes -> Bytes, rs: seq<Record>): seq<Record> {
    if rs == [] then []
    else
      var before, r := Dedup(normalize, rs[..|rs| - 1]), Renamed(normalize, rs[|rs| - 1]);
      if r.info.name in Names(before) then before else before + [r]
  }

  function Renamed(normalize: Bytes -> Bytes, r: Record): Record {
    r.(info := r.info.(name := normalize(r.info.name)))
  }

  function Names(rs: seq<Record>): set<Bytes> {
    set i | 0 <= i < |rs| :: rs[i].info.name
  }

  /** No record before has the same normalized name. */
  predicate IsFirst(normalize: Bytes -> Bytes, rs: seq<Record>, i: nat)
    requires i < |rs|
  {
    forall j :: 0 <= j < i ==> normalize(rs[j].info.name) != normalize(rs[i].info.name)
  }

  /** The places of the records that are kept, in order: exactly the first ones of their names. */
  ghost predicate AreFirsts(normalize: Bytes -> Bytes, rs: seq<Record>, places: seq<nat>) {
    && (forall k :: 0 <= k < |places| ==> places[k] < |rs| && IsFirst(normalize, rs, places[k]))
    && (forall k, l :: 0 <= k < l < |places| ==> places[k] < places[l])
    && (forall i :: 0 <= i < |rs| && IsFirst(normalize, rs, i) ==> i in places)
  }

  lemma FirstsMore(normalize: Bytes -> Bytes, rs: seq<Record>, r: Record, places: seq<nat>)
    requires AreFirsts(normalize, rs, places)
    ensures var more := rs + [r];
            AreFirsts(normalize, more, if IsFirst(normalize, more, |rs|) then places + [|rs|] else places)
  {
    var more := rs + [r];
    forall i | 0 <= i < |rs| ensures IsFirst(normalize, more, i) <==> IsFirst(normalize, rs, i) {
      assert more[i] == rs[i] && forall j :: 0 <= j < i ==> more[j] == rs[j];
    }
    hide IsFirst;
  }

  /** Exactly the first record of each normalized name is kept, in the order of the records. */
  lemma {:induction false} DedupExact(normalize: Bytes -> Bytes, rs: seq<Record>) returns (places: seq<nat>)
    ensures AreFirsts(normalize, rs, places) && |Dedup(normalize, rs)| == |places|
    ensures forall k :: 0 <= k < |places| ==> Dedup(normalize, rs)[k] == Renamed(normalize, rs[places[k]])
  {
    places := [];
    if rs != [] {
      var init, r := rs[..|rs| - 1], rs[|rs| - 1];
      var before := DedupExact(normalize, init);
      assert rs == init + [r];
      FirstsMore(normalize, init, r, before);
      NameIsTaken(normalize, init, r, before);
      places := if IsFirst(normalize, rs, |init|) then before + [|init|] else before;
      forall k | 0 <= k < |places| ensures Dedup(normalize, rs)[k] == Renamed(normalize, rs[places[k]]) {
        if k < |before| {
          assert rs[before[k]] == init[before[k]];
        }
      }
    }
  }

  lemma NameIsTaken(normalize: Bytes -> Bytes, rs: seq<Record>, r: Record, places: seq<nat>)
    requires AreFirsts(normalize, rs, places) && |Dedup(normalize, rs)| == |places|
    requires forall k :: 0 <= k < |places| ==> Dedup(normalize, rs)[k] == Renamed(normalize, rs[places[k]])
    ensures normalize(r.info.name) in Names(Dedup(normalize, rs)) <==> !IsFirst(normalize, rs + [r], |rs|)
  {
    var d, more, name := Dedup(normalize, rs), rs + [r], normalize(r.info.name);
    hide Dedup;
    assert forall j :: 0 <= j < |rs| ==> more[j] == rs[j];
    if name in Names(d) {
      var k :| 0 <= k < |d| && d[k].info.name == name;
      assert normalize(more[places[k]].info.name) == name;
    }
    if !IsFirst(normalize, more, |rs|) {
      var j :| 0 <= j < |rs| && normalize(rs[j].info.name) == name;
      var i := FirstWith(normalize, rs, j);
      var k :| 0 <= k < |places| && places[k] == i;
      assert d[k].info.name == name;
    }
  }

  lemma {:induction false} FirstWith(normalize: Bytes -> Bytes, rs: seq<Record>, j: nat) returns (i: nat)
    requires j < |rs|
    ensures i <= j && IsFirst(normalize, rs, i) && normalize(rs[i].info.name) == normalize(rs[j].info.name)
    decreases j
  {
    i := j;
    if !IsFirst(normalize, rs, j) {
      var k :| 0 <= k < j && normalize(rs[k].info.name) == normalize(rs[j].info.name);
      i := FirstWith(normalize, rs, k);
    }
  }

  function TrailerRecord(): Record {
    Record(Info(0, 0, 0, 0, 0, 0, 0, 0, 0, 0, 0, 0, TRAILER), Some([]))
  }

  class DedupWriter {
    const normalize: Bytes -> Bytes
    const rw: Writer
    var alreadyWritten: set<Bytes>
    /** The records that this writer has been given and that have been written. */
    ghost var given: seq<Record>

    ghost predicate Valid()
      reads this, rw
    {
      && rw.Valid() && Aligned(|rw.out|)
      && rw.out == EncodeAll(Dedup(normalize, given))
      && alreadyWritten == Names(Dedup(normalize, given))
    }

    constructor (normalize: Bytes -> Bytes)
      ensures Valid() && given == [] && this.normalize == normalize && fresh(rw)
    {
      this.normalize := normalize;
      rw := new Writer();
      alreadyWritten, given := {}, [];
      new;
      assert Aligned(0);
    }

    method WriteRecord(rec: Record) returns (ok: bool)
      requires Valid()
      modifies this, rw
      ensures ok ==> Valid() && given == old(given) + [rec]
      ensures ok <==> normalize(rec.info.name) in old(alreadyWritten) || Sized(rec)
    {
      hide Encode, Aligned;
      assert (given + [rec])[..|given|] == given;
      var r := rec.(info := rec.info.(name := normalize(rec.info.name)));
      NamesMore(Dedup(normalize, given), r);
      EncodeMore(Dedup(normalize, given), r);
      if r.info.name in alreadyWritten {
        given := given + [rec];
        return true;
      }
      alreadyWritten := alreadyWritten + {r.info.name};
      ok := rw.WriteRecord(r);
      given := given + [rec];
    }

    /** `WriteRecords`, up to the first record that fails. */
    method WriteRecords(rs: seq<Record>) returns (ok: bool)
      requires Valid()
      modifies this, rw
      ensures ok ==> Valid() && given == old(given) + rs
      ensures (forall r :: r in rs ==> Sized(r)) ==> ok
    {
      hide Valid, Sized;
      assert rs[..0] == [] && given + [] == given;
      for i := 0 to |rs|
        invariant Valid() && given == old(given) + rs[..i]
      {
        ghost var before := given;
        ok := WriteRecord(rs[i]);
        if !ok {
          return;
        }
        assert rs[..i + 1] == rs[..i] + [rs[i]];
      }
      assert rs[..|rs|] == rs;
      return true;
    }

    /** The records and the trailer. */
    method WriteArchive(rs: seq<Record>) returns (ok: bool)
      requires Valid() && given == []
      modifies this, rw
      ensures ok ==> rw.out == Archive(normalize, rs)
      ensures (forall r :: r in rs ==> Sized(r)) ==> ok
    {
      ok := WriteRecords(rs);
      if ok {
        ok := WriteRecord(TrailerRecord());
        assert [] + rs == rs;
      }
    }
  }

  lemma NamesMore(rs: seq<Record>, r: Record)
    ensures Names(rs + [r]) == Names(rs) + {r.info.name}
  {
    var all := rs + [r];
    forall n ensures n in Names(all) <==> n in Names(rs) || n == r.info.name {
      if n in Names(rs) {
        var i :| 0 <= i < |rs| && rs[i].info.name == n;
        assert all[i].info.name == n;
      }
      assert all[|rs|] == r;
    }
  }

  lemma EncodeMore(rs: seq<Record>, r: Record)
    ensures EncodeAll(rs + [r]) == EncodeAll(rs) + Encode(r)
  {
    assert (rs + [r])[..|rs|] == rs;
  }

  function Archive(normalize: Bytes -> Bytes, rs: seq<Record>): Bytes {
    EncodeAll(Dedup(normalize, rs + [TrailerRecord()]))
  }

  // ----- reading

  datatype Error = Eof | BadMagic | BadHex | Panic

  type Result<+T> = Wrappers.Result<T, Error>

  /** A record that has been read, with its place, and where the next one begins. */
  datatype Place = Place(record: Record, recPos: nat, filePos: nat, next: nat)

  /** What the section of a file that ends early yields. */
  function Section(data: Bytes, pos: nat, n: nat): Bytes {
    if pos > |data| then [] else if pos + n <= |data| then data[pos..pos + n] else data[pos..]
  }

  /** `ReadRecord`. */
  function ReadAt(data: Bytes, pos: nat): Result<Place> {
    if pos + HEAD > |data| then Err(Eof)
    else if data[pos..pos + 6] != MAGIC then Err(BadMagic)
    else
      var fields := FromHex(data[pos + 6..pos + HEAD]);
      if fields == None then Err(BadHex) else ReadName(data, pos, DecodeHeader(fields.value))
  }

  /** The name, and where the content is; a name without terminator makes a slice go out of range. */
  function ReadName(data: Bytes, pos: nat, h: Header): Result<Place> {
    var start := pos + HEAD;
    if start >= |data| || start + h.nameLength > |data| then Err(Eof)
    else if h.nameLength == 0 then Err(Panic)
    else
      var filePos := Up4(start + h.nameLength);
      Ok(Place(Record(InfoOf(h, data[start..start + h.nameLength - 1]), Some(Section(data, filePos, h.fileSize))),
               pos, filePos, Up4(filePos + h.fileSize)))
  }

  /** The bytes of a header are spelled behind the magic number. */
  predicate HeaderAt(data: Bytes, pos: nat, s: Bytes) {
    && pos + HEAD <= |data| && data[pos..pos + 6] == MAGIC
    && |s| == 52 && Spells(data[pos + 6..pos + HEAD], s)
  }

  /** The name is there, with a terminator. */
  predicate NameFits(data: Bytes, pos: nat, h: Header) {
    h.nameLength > 0 && pos + HEAD + h.nameLength <= |data|
  }

  /**
   A record is read exactly where the magic number, hexadecimal digits and the
   announced bytes of the name are; otherwise the first of them that is missing
   decides the error.
   */
  lemma ReadAtExact(data: Bytes, pos: nat)
    ensures ReadAt(data, pos).Ok? <==> exists s :: HeaderAt(data, pos, s) && NameFits(data, pos, DecodeHeader(s))
    ensures pos + HEAD <= |data| ==> (ReadAt(data, pos) == Err(BadMagic) <==> data[pos..pos + 6] != MAGIC)
    ensures pos + HEAD <= |data| && data[pos..pos + 6] == MAGIC ==>
              (ReadAt(data, pos) == Err(BadHex) <==> !exists s :: HeaderAt(data, pos, s))
    ensures ReadAt(data, pos) == Err(Panic) <==>
              exists s :: HeaderAt(data, pos, s) && DecodeHeader(s).nameLength == 0 && pos + HEAD < |data|
  {
    hide FromHex, Spells, DecodeHeader, Up4, Section;
    if pos + HEAD <= |data| {
      var t := data[pos + 6..pos + HEAD];
      forall s ensures FromHex(t) == Some(s) <==> Spells(t, s) {
        FromHexExact(t, s);
      }
      if FromHex(t).Some? {
        assert HeaderAt(data, pos, FromHex(t).value) <==> data[pos..pos + 6] == MAGIC;
      }
    }
  }

  /** `EOFReader` and `ForEachRecord`: the records up to the end of the file or the trailer. */
  function ReadAll(data: Bytes, pos: nat): Result<seq<Record>>
    decreases |data| - pos
  {
    match ReadAt(data, pos)
    case Err(Eof) => Ok([])
    case Err(e) => Err(e)
    case Ok(p) =>
      ReadGoesOn(data, pos);
      if p.record.info.name == TRAILER then Ok([]) else Prepend(p.record, ReadAll(data, p.next))
  }

  function Prepend(r: Record, rs: Result<seq<Record>>): Result<seq<Record>> {
    if rs.Ok? then Ok([r] + rs.value) else rs
  }

  class Reader {
    const data: Bytes
    var pos: nat

    constructor (data: Bytes)
      ensures this.data == data && pos == 0
    {
      this.data, pos := data, 0;
    }

    method Read(n: nat) returns (r: Option<Bytes>)
      modifies this
      ensures if old(pos) < |data| && old(pos) + n <= |data| then
                r == Some(data[old(pos)..old(pos) + n]) && pos == old(pos) + n
              else r == None && pos == old(pos)
    {
      if pos >= |data| || pos + n > |data| {
        return None;
      }
      r := Some(data[pos..pos + n]);
      pos := pos + n;
    }

    method ReadRecord() returns (r: Result<Place>)
      modifies this
      ensures r == ReadAt(data, old(pos)) && (r.Ok? ==> pos == r.value.next)
    {
      hide Up4, FromHex, DecodeHeader;
      var recPos := pos;
      var buf := Read(HEAD);
      if buf == None {
        return Err(Eof);
      }
      assert buf.value[..6] == data[recPos..recPos + 6] && buf.value[6..] == data[recPos + 6..recPos + HEAD];
      if buf.value[..6] != MAGIC {
        return Err(BadMagic);
      }
      var dst := FromHex(buf.value[6..]);
      if dst == None {
        return Err(BadHex);
      }
      r := FinishRecord(recPos, DecodeHeader(dst.value));
    }

    /** The name and the section with the content. */
    method FinishRecord(recPos: nat, hdr: Header) returns (r: Result<Place>)
      requires pos == recPos + HEAD
      modifies this
      ensures r == ReadName(data, recPos, hdr) && (r.Ok? ==> pos == r.value.next)
    {
      hide Up4;
      var nameBuf := Read(hdr.nameLength);
      pos := Up4(pos);
      if nameBuf == None {
        return Err(Eof);
      }
      if hdr.nameLength == 0 {
        return Err(Panic);
      }
      ghost var start := recPos + HEAD;
      assert nameBuf.value[..hdr.nameLength - 1] == data[start..start + hdr.nameLength - 1];
      var info := InfoOf(hdr, nameBuf.value[..hdr.nameLength - 1]);
      var filePos := pos;
      var content := Section(data, pos, hdr.fileSize);
      pos := Up4(pos + hdr.fileSize);
      r := Ok(Place(Record(info, Some(content)), recPos, filePos, pos));
    }

    /** `ReadAllRecords` over an `EOFReader`. */
    method ReadAllRecords() returns (r: Result<seq<Record>>)
      requires pos == 0
      modifies this
      ensures r == ReadAll(data, 0)
    {
      hide ReadAt;
      var files := [];
      PrependNone(ReadAll(data, 0));
      while true
        invariant ReadAll(data, 0) == PrependAll(files, ReadAll(data, pos))
        decreases |data| - pos
      {
        ReadGoesOn(data, pos);
        var rec := ReadRecord();
        assert files + [] == files;
        if rec == Err(Eof) {
          return Ok(files);
        }
        if rec.Err? {
          return Err(rec.error);
        }
        if rec.value.record.info.name == TRAILER {
          return Ok(files);
        }
        PrependOne(files, rec.value.record, ReadAll(data, pos));
        files := files + [rec.value.record];
      }
    }
  }

  function PrependAll(rs: seq<Record>, r: Result<seq<Record>>): Result<seq<Record>> {
    if r.Ok? then Ok(rs + r.value) else r
  }

  lemma PrependNone(r: Result<seq<Record>>)
    ensures PrependAll([], r) == r
  {
    if r.Ok? {
      assert [] + r.value == r.value;
    }
  }

  lemma PrependOne(rs: seq<Record>, x: Record, r: Result<seq<Record>>)
    ensures PrependAll(rs, Prepend(x, r)) == PrependAll(rs + [x], r)
  {
    if r.Ok? {
      assert rs + ([x] + r.value) == (rs + [x]) + r.value;
    }
  }

  /** A record that is read leads on, inside or at the end of the data. */
  lemma ReadGoesOn(data: Bytes, pos: nat)
    ensures ReadAt(data, pos).Ok? ==> ReadAt(data, pos).value.next > pos && pos < |data|
    ensures ReadAt(data, pos).Ok? ==> Aligned(ReadAt(data, pos).value.filePos) && Aligned(ReadAt(data, pos).value.next)
  {
    hide FromHex, DecodeHeader, Section;
  }

  // ----- what was written is read

  /** The record as it comes back: 32 bits of each number, no Dev, and some content. */
  function ReadBack(r: Record): Record {
    Record(InfoOf(RecordHeader(r), r.info.name), Some(Data(r)))
  }

  function ReadBacks(rs: seq<Record>): (b: seq<Record>)
    ensures |b| == |rs| && forall i :: 0 <= i < |rs| ==> b[i] == ReadBack(rs[i])
  {
    if rs == [] then [] else [ReadBack(rs[0])] + ReadBacks(rs[1..])
  }

  /** The sizes fit into the header. */
  predicate Fits(r: Record) {
    |r.info.name| + 1 < 0x1_0000_0000 && (r.content.Some? ==> r.info.fileSize < 0x1_0000_0000)
  }

  lemma HeadParts(data: Bytes, pos: nat, r: Record)
    requires At(data, pos, Encode(r))
    ensures var start := pos + HEAD;
            && start + |r.info.name| + 1 <= |data|
            && data[pos..pos + 6] == MAGIC
            && data[pos + 6..start] == Hex(EncodeHeader(RecordHeader(r)))
            && data[start..start + |r.info.name|] == r.info.name
            && At(data, pos + Up4(|Head(r)|), Data(r))
  {
    hide Hex, EncodeHeader, Up4, Aligned;
    var hex, name := Hex(EncodeHeader(RecordHeader(r))), r.info.name + [0];
    AtAppend(data, pos, Padded(Head(r)), Padded(Data(r)));
    AtAppend(data, pos, Head(r), Zeros(Up4(|Head(r)|) - |Head(r)|));
    AtAppend(data, pos + Up4(|Head(r)|), Data(r), Zeros(Up4(|Data(r)|) - |Data(r)|));
    HeadIs(r);
    AtAppend(data, pos, MAGIC + hex, name);
    AtAppend(data, pos, MAGIC, hex);
    AtAppend(data, pos + HEAD, r.info.name, [0]);
    hide Padded, Head;
  }

  lemma HeadIs(r: Record)
    ensures Head(r) == MAGIC + Hex(EncodeHeader(RecordHeader(r))) + (r.info.name + [0])
  {
  }

  lemma SectionAt(data: Bytes, pos: nat, piece: Bytes)
    requires At(data, pos, piece)
    ensures Section(data, pos, |piece|) == piece
  {
  }

  /** The header is decoded. */
  lemma ReadHead(data: Bytes, pos: nat, r: Record)
    requires At(data, pos, Encode(r))
    ensures ReadAt(data, pos) == ReadName(data, pos, RecordHeader(r))
  {
    HeadParts(data, pos, r);
    HexRoundTrip(EncodeHeader(RecordHeader(r)));
    HeaderReadBack(RecordHeader(r));
    hide At, Encode, Hex, EncodeHeader, DecodeHeader, FromHex, RecordHeader, ReadName, Up4, Head, Data;
  }

  /** One record at an aligned position; its content begins at an aligned position. */
  lemma ReadOne(data: Bytes, pos: nat, r: Record)
    requires Aligned(pos) && At(data, pos, Encode(r)) && Sized(r) && Fits(r)
    ensures ReadAt(data, pos) == Ok(Place(ReadBack(r), pos, pos + Up4(|Head(r)|), pos + |Encode(r)|))
    ensures Aligned(pos + Up4(|Head(r)|)) && Aligned(pos + |Encode(r)|)
  {
    hide At, Hex, EncodeHeader, RecordHeader, Up4, Aligned, Section, Sized, Fits, Encode, Head, Data, ReadAt, ReadName,
      ReadBack, MAGIC;
    ReadHead(data, pos, r);
    HeadParts(data, pos, r);
    RecordSizes(r);
    SectionAt(data, pos + Up4(|Head(r)|), Data(r));
    Offsets(pos, |Head(r)|, |Data(r)|);
    NameRead(data, pos, r, RecordHeader(r));
  }

  lemma Offsets(pos: nat, head: nat, size: nat)
    requires Aligned(pos)
    ensures Aligned(pos + Up4(head)) && Aligned(pos + Up4(head) + Up4(size))
    ensures Up4(pos + head) == pos + Up4(head) && Up4(pos + Up4(head) + size) == pos + Up4(head) + Up4(size)
  {
    AlignedSum(pos, Up4(head));
    AlignedSum(pos + Up4(head), Up4(size));
    UpAfter(pos, head);
    UpAfter(pos + Up4(head), size);
    hide Up4, Aligned;
  }

  lemma NameRead(data: Bytes, pos: nat, r: Record, h: Header)
    requires h == RecordHeader(r) && h.nameLength == |r.info.name| + 1 && h.fileSize == |Data(r)|
    requires |Head(r)| == HEAD + |r.info.name| + 1
    requires var start := pos + HEAD;
             start + |r.info.name| + 1 <= |data| && data[start..start + |r.info.name|] == r.info.name
    requires Up4(pos + |Head(r)|) == pos + Up4(|Head(r)|)
    requires Section(data, pos + Up4(|Head(r)|), |Data(r)|) == Data(r)
    requires Up4(pos + Up4(|Head(r)|) + |Data(r)|) == pos + Up4(|Head(r)|) + Up4(|Data(r)|)
    ensures ReadName(data, pos, h) == Ok(Place(ReadBack(r), pos, pos + Up4(|Head(r)|),
                                             pos + Up4(|Head(r)|) + Up4(|Data(r)|)))
  {
    hide RecordHeader, Section, Head, Data, Up4;
  }

  lemma RecordSizes(r: Record)
    requires Sized(r) && Fits(r)
    ensures RecordHeader(r).nameLength == |r.info.name| + 1 && RecordHeader(r).fileSize == |Data(r)|
    ensures |Encode(r)| == Up4(|Head(r)|) + Up4(|Data(r)|) && |Head(r)| == HEAD + |r.info.name| + 1
  {
    hide Up4, Aligned;
    WrapExact(|r.info.name|);
    WrapExact(|r.info.name| + 1);
    WrapExact(r.info.fileSize);
    hide Wrap;
  }

  lemma {:induction false} EncodeFront(rs: seq<Record>)
    requires rs != []
    ensures EncodeAll(rs) == Encode(rs[0]) + EncodeAll(rs[1..])
  {
    hide Encode;
    if |rs| == 1 {
      assert rs[..0] == [] && rs[1..] == [];
    } else {
      var init := rs[..|rs| - 1];
      EncodeFront(init);
      assert init[1..] == rs[1..][..|rs| - 2];
      SeqAssoc(Encode(rs[0]), EncodeAll(init[1..]), Encode(rs[|rs| - 1]));
    }
  }

  /** The records before the first trailer. */
  function UpToTrailer(rs: seq<Record>): seq<Record> {
    if rs == [] || rs[0].info.name == TRAILER then [] else [rs[0]] + UpToTrailer(rs[1..])
  }

  lemma {:induction false} ReadBackAll(data: Bytes, pos: nat, rs: seq<Record>)
    requires Aligned(pos) && At(data, pos, EncodeAll(rs)) && pos + |EncodeAll(rs)| == |data|
    requires forall r :: r in rs ==> Sized(r) && Fits(r)
    ensures ReadAll(data, pos) == Ok(ReadBacks(UpToTrailer(rs)))
    decreases rs
  {
    hide At, Encode, ReadAt, Aligned, Sized, Fits, ReadBack;
    if rs == [] {
      assert ReadAt(data, pos) == Err(Eof) by { AtTheEnd(data, pos); }
    } else {
      EncodeFront(rs);
      AtAppend(data, pos, Encode(rs[0]), EncodeAll(rs[1..]));
      ReadOne(data, pos, rs[0]);
      NameBack(rs[0]);
      if rs[0].info.name != TRAILER {
        ReadBackAll(data, pos + |Encode(rs[0])|, rs[1..]);
        assert ([rs[0]] + UpToTrailer(rs[1..]))[1..] == UpToTrailer(rs[1..]);
      }
    }
  }

  lemma AtTheEnd(data: Bytes, pos: nat)
    requires pos == |data|
    ensures ReadAt(data, pos) == Err(Eof)
  {
  }

  lemma NameBack(r: Record)
    ensures ReadBack(r).info.name == r.info.name
  {
  }

  lemma {:induction false} DedupMembers(normalize: Bytes -> Bytes, rs: seq<Record>, x: Record)
    requires x in Dedup(normalize, rs)
    ensures exists r :: r in rs && x == Renamed(normalize, r)
  {
    var init, last := rs[..|rs| - 1], rs[|rs| - 1];
    if x != Renamed(normalize, last) {
      DedupMembers(normalize, init, x);
      var r :| r in init && x == Renamed(normalize, r);
      assert r in rs;
    }
  }

  /**
   Reading an archive gives the records that were written: of each normalized
   name the first one, in order, up to one with the name of the trailer.
   */
  lemma ArchiveRoundTrip(normalize: Bytes -> Bytes, rs: seq<Record>)
    requires forall r :: r in rs + [TrailerRecord()] ==> Sized(r) && Fits(Renamed(normalize, r))
    ensures ReadAll(Archive(normalize, rs), 0) == Ok(ReadBacks(UpToTrailer(Dedup(normalize, rs + [TrailerRecord()]))))
  {
    var all := Dedup(normalize, rs + [TrailerRecord()]);
    forall x | x in all ensures Sized(x) && Fits(x) {
      DedupMembers(normalize, rs + [TrailerRecord()], x);
    }
    assert At(EncodeAll(all), 0, EncodeAll(all)) && Aligned(0);
    hide Dedup, At, Aligned;
    ReadBackAll(EncodeAll(all), 0, all);
  }

  /** Names that are normalized, different from each other and from the trailer's. */
  predicate PlainNames(normalize: Bytes -> Bytes, rs: seq<Record>) {
    && (forall i :: 0 <= i < |rs| ==> normalize(rs[i].info.name) == rs[i].info.name && rs[i].info.name != TRAILER)
    && (forall i, j :: 0 <= i < j < |rs| ==> rs[i].info.name != rs[j].info.name)
  }

  lemma {:induction false} DedupPlain(normalize: Bytes -> Bytes, rs: seq<Record>)
    requires PlainNames(normalize, rs)
    ensures Dedup(normalize, rs) == rs
  {
    if rs != [] {
      var init, last := rs[..|rs| - 1], rs[|rs| - 1];
      assert PlainNames(normalize, init) by {
        assert forall i :: 0 <= i < |init| ==> init[i] == rs[i];
      }
      DedupPlain(normalize, init);
      assert Renamed(normalize, last) == last;
      assert last.info.name !in Names(init) by {
        forall i | 0 <= i < |init| ensures init[i].info.name != last.info.name {
          assert init[i] == rs[i];
        }
      }
      hide Names, PlainNames;
      assert rs == init + [last];
    }
  }

  lemma {:induction false} UpToFirstTrailer(rs: seq<Record>, t: Record)
    requires t.info.name == TRAILER && forall r :: r in rs ==> r.info.name != TRAILER
    ensures UpToTrailer(rs + [t]) == rs
  {
    if rs == [] {
      assert rs + [t] == [t];
    } else {
      assert (rs + [t])[1..] == rs[1..] + [t];
      UpToFirstTrailer(rs[1..], t);
      assert rs == [rs[0]] + rs[1..];
    }
  }

  /** The archive of records with plain names contains them all, and then the trailer. */
  lemma PlainArchive(normalize: Bytes -> Bytes, rs: seq<Record>)
    requires PlainNames(normalize, rs) && normalize(TRAILER) == TRAILER
    ensures Dedup(normalize, rs + [TrailerRecord()]) == rs + [TrailerRecord()]
    ensures UpToTrailer(rs + [TrailerRecord()]) == rs
    ensures Archive(normalize, rs) == EncodeAll(rs) + Encode(TrailerRecord())
  {
    var t := TrailerRecord();
    hide Encode;
    DedupPlain(normalize, rs);
    assert (rs + [t])[..|rs|] == rs;
    assert Renamed(normalize, t) == t;
    EncodeMore(rs, t);
    UpToFirstTrailer(rs, t);
  }

  /**
   Every record comes back, in order; exactly when each has 32-bit numbers, no
   Dev and some content it is the same list.
   */
  lemma PlainRoundTrip(normalize: Bytes -> Bytes, rs: seq<Record>)
    requires PlainNames(normalize, rs) && normalize(TRAILER) == TRAILER
    requires forall r :: r in rs ==> Sized(r) && Fits(r)
    ensures ReadAll(Archive(normalize, rs), 0) == Ok(ReadBacks(rs))
    ensures ReadBacks(rs) == rs <==> forall r :: r in rs ==> Portable(r)
  {
    hide ReadBack, Portable;
    var t := TrailerRecord();
    PlainArchive(normalize, rs);
    forall r | r in rs + [t] ensures Sized(r) && Fits(Renamed(normalize, r)) {
      if r in rs {
        assert Renamed(normalize, r) == r;
      } else {
        assert r == t;
      }
    }
    hide Sized, Fits;
    ArchiveRoundTrip(normalize, rs);
    ReadBacksExact(rs);
  }

  lemma ReadBacksExact(rs: seq<Record>)
    requires forall r :: r in rs ==> Sized(r) && Fits(r)
    ensures ReadBacks(rs) == rs <==> forall r :: r in rs ==> Portable(r)
  {
    hide ReadBack, Portable, Sized, Fits;
    forall r | r in rs ensures ReadBack(r) == r <==> Portable(r) {
      ReadBackExact(r);
    }
    var b := ReadBacks(rs);
    hide ReadBacks;
    if b == rs {
      forall r | r in rs ensures Portable(r) {
        var i :| 0 <= i < |rs| && rs[i] == r;
        assert b[i] == ReadBack(rs[i]);
      }
    }
  }

  predicate Portable(r: Record) {
    var i := r.info;
    && i.ino < 0x1_0000_0000 && i.mode < 0x1_0000_0000 && i.uid < 0x1_0000_0000 && i.gid < 0x1_0000_0000
    && i.nlink < 0x1_0000_0000 && i.mtime < 0x1_0000_0000 && i.major < 0x1_0000_0000 && i.minor < 0x1_0000_0000
    && i.rmajor < 0x1_0000_0000 && i.rminor < 0x1_0000_0000 && i.dev == 0 && r.content.Some?
  }

  lemma ReadBackExact(r: Record)
    requires Sized(r) && Fits(r)
    ensures ReadBack(r) == r <==> Portable(r)
  {
    RecordSizes(r);
    var i := r.info;
    WrapExact(i.ino);
    WrapExact(i.mode);
    WrapExact(i.uid);
    WrapExact(i.gid);
    WrapExact(i.nlink);
    WrapExact(i.mtime);
    WrapExact(i.major);
    WrapExact(i.minor);
    WrapExact(i.rmajor);
    WrapExact(i.rminor);
    WrapExact(i.fileSize);
    hide Wrap, Encode, Head;
  }

  // ----- reading and writing again

  lemma EncodeReadBack(r: Record)
    requires Sized(r) && Fits(r)
    ensures Encode(ReadBack(r)) == Encode(r) && Sized(ReadBack(r))
  {
    RecordSizes(r);
    var i := r.info;
    WrapSum(i.ino, 0);
    WrapSum(i.mode, 0);
    WrapSum(i.uid, 0);
    WrapSum(i.gid, 0);
    WrapSum(i.nlink, 0);
    WrapSum(i.mtime, 0);
    WrapSum(i.major, 0);
    WrapSum(i.minor, 0);
    WrapSum(i.rmajor, 0);
    WrapSum(i.rminor, 0);
    WrapSum(|Data(r)|, 0);
    assert Wrap(0) == 0;
    WrapExact(i.fileSize);
    hide Wrap, Hex, EncodeHeader, Padded;
    assert RecordHeader(ReadBack(r)) == RecordHeader(r);
  }

  lemma {:induction false} EncodeReadBacks(rs: seq<Record>)
    requires forall r :: r in rs ==> Sized(r) && Fits(r)
    ensures EncodeAll(ReadBacks(rs)) == EncodeAll(rs)
  {
    hide Encode, Sized, Fits, ReadBack;
    if rs != [] {
      var init, last, b := rs[..|rs| - 1], rs[|rs| - 1], ReadBacks(rs);
      EncodeReadBacks(init);
      assert b[..|rs| - 1] == ReadBacks(init);
      EncodeReadBack(last);
    }
  }

  /** `Passthrough`: reading an archive and writing what was read gives the same bytes. */
  lemma PassthroughIsIdentity(normalize: Bytes -> Bytes, rs: seq<Record>)
    requires PlainNames(normalize, rs) && normalize(TRAILER) == TRAILER
    requires forall r :: r in rs ==> Sized(r) && Fits(r)
    ensures var read := ReadAll(Archive(normalize, rs), 0);
            read.Ok? && (forall r :: r in read.value ==> Sized(r))
              && Archive(normalize, read.value) == Archive(normalize, rs)
  {
    hide Encode, Fits, ReadBack, Sized, ReadAll, Archive, Portable, PlainNames, EncodeAll;
    PlainRoundTrip(normalize, rs);
    SameNames(normalize, rs);
    PlainArchive(normalize, rs);
    PlainArchive(normalize, ReadBacks(rs));
    EncodeReadBacks(rs);
  }

  lemma SameNames(normalize: Bytes -> Bytes, rs: seq<Record>)
    requires PlainNames(normalize, rs) && forall r :: r in rs ==> Sized(r) && Fits(r)
    ensures PlainNames(normalize, ReadBacks(rs)) && forall r :: r in ReadBacks(rs) ==> Sized(r)
  {
    hide Encode, Fits, ReadBack, Sized;
    var b := ReadBacks(rs);
    forall i | 0 <= i < |rs| ensures b[i].info.name == rs[i].info.name && Sized(b[i]) {
      NameBack(rs[i]);
      EncodeReadBack(rs[i]);
    }
    hide ReadBacks;
  }

  // ----- a truncated archive

  /** The same records, some at the end perhaps missing and contents perhaps cut off. */
  predicate CutOff(cut: seq<Record>, rs: seq<Record>) {
    |cut| <= |rs| && forall i :: 0 <= i < |cut| ==> CutRecord(cut[i], rs[i])
  }

  predicate CutRecord(cut: Record, r: Record) {
    cut.info == r.info && cut.content.Some? && r.content.Some? && cut.content.value <= r.content.value
  }

  lemma ReadCut(data: Bytes, n: nat, pos: nat)
    requires n <= |data| && ReadAt(data[..n], pos) != Err(Eof)
    ensures match ReadAt(data[..n], pos)
            case Err(e) => ReadAt(data, pos) == Err(e)
            case Ok(p) =>
              && ReadAt(data, pos).Ok? && ReadAt(data, pos).value.next == p.next
              && CutRecord(p.record, ReadAt(data, pos).value.record)
  {
    hide FromHex, DecodeHeader, Up4;
    var cut := data[..n];
    assert cut[pos..pos + 6] == data[pos..pos + 6] && cut[pos + 6..pos + HEAD] == data[pos + 6..pos + HEAD];
    var fields := FromHex(data[pos + 6..pos + HEAD]);
    if data[pos..pos + 6] == MAGIC && fields.Some? {
      var h := DecodeHeader(fields.value);
      var start := pos + HEAD;
      if h.nameLength > 0 {
        assert cut[start..start + h.nameLength - 1] == data[start..start + h.nameLength - 1];
        SectionCut(data, n, Up4(start + h.nameLength), h.fileSize);
        hide Section;
      }
    }
  }

  lemma SectionCut(data: Bytes, n: nat, pos: nat, size: nat)
    requires n <= |data|
    ensures Section(data[..n], pos, size) <= Section(data, pos, size)
  {
  }

  /** Cutting an archive off anywhere is not reported: what is read is a beginning of what would have been read. */
  lemma {:induction false} TruncationIsSilent(data: Bytes, n: nat, pos: nat)
    requires n <= |data| && ReadAll(data, pos).Ok?
    ensures ReadAll(data[..n], pos).Ok? && CutOff(ReadAll(data[..n], pos).value, ReadAll(data, pos).value)
    decreases |data| - pos
  {
    hide ReadAt;
    if ReadAt(data[..n], pos) != Err(Eof) {
      ReadCut(data, n, pos);
      ReadGoesOn(data, pos);
      var p := ReadAt(data, pos).value;
      if ReadAt(data[..n], pos).Ok? && p.record.info.name != TRAILER {
        TruncationIsSilent(data, n, p.next);
      }
    }
  }
}
