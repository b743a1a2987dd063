/** The file save writes, and what load reads back from it. */
module SaveLoad {
  import opened Arith
  import opened Bytes
  import Endian
  import Layout
  import LayoutSafety
  import opened Options
  import Pack
  import opened ElfTypes
  import opened Streams
  import opened ElfSection
  import opened ElfSegment
  import opened StringTable

  /** A section as save finds it: its header after layout, its data if it has a buffer, its name. */
  datatype Sect = Sect(header: Shdr, data: Option<seq<byte>>, name: seq<byte>)

  /** An object after layout, ready to be written. */
  datatype Object = Object(c: Class, ehdr: Ehdr, sects: seq<Sect>, phdrs: seq<Phdr>) {
    predicate SwapOn() { Swapped(ehdr.ident) }

    function HeadersEnd(): nat { ehdr.ehsize + ehdr.phentsize * |phdrs| }

    /** The bytes save writes for the data of section i. */
    function DataOf(i: nat): seq<byte>
      requires i < |sects|
    {
      if FileBacked(sects[i].header) && sects[i].data.Some? then sects[i].data.value else []
    }

    predicate FieldsFit() {
      && EhdrFits(c, ehdr) && IdentOk(c, ehdr.ident)
      && (forall i :: 0 <= i < |sects| ==> ShdrFits(c, sects[i].header))
      && (forall i :: 0 <= i < |phdrs| ==> PhdrFits(c, phdrs[i]))
    }

    function HeaderChunk(i: nat): Chunk
      requires FieldsFit() && i < |sects|
    {
      Chunk(ehdr.shoff + ehdr.shentsize * i, ShdrImage(c, SwapOn(), sects[i].header))
    }

    function DataChunk(i: nat): Chunk
      requires i < |sects|
    {
      Chunk(sects[i].header.offset, DataOf(i))
    }

    function PhdrChunk(i: nat): Chunk
      requires FieldsFit() && i < |phdrs|
    {
      Chunk(ehdr.phoff + ehdr.phentsize * i, PhdrImage(c, SwapOn(), phdrs[i]))
    }

    function EhdrChunk(): Chunk
      requires FieldsFit()
    {
      Chunk(0, EhdrImage(c, SwapOn(), ehdr))
    }

    /** The writes of save_sections: header and data of each section in turn. */
    function SectionWrites(n: nat): (r: seq<Chunk>)
      requires FieldsFit() && n <= |sects|
      ensures |r| == 2 * n
    {
      seq(2 * n, k requires 0 <= k < 2 * n => if k % 2 == 0 then HeaderChunk(k / 2) else DataChunk(k / 2))
    }

    function SegmentWrites(n: nat): (r: seq<Chunk>)
      requires FieldsFit() && n <= |phdrs|
      ensures |r| == n
    {
      seq(n, k requires 0 <= k < n => PhdrChunk(k))
    }

    /** All writes of save in their order: file header, sections, segments. */
    function Writes(): seq<Chunk>
      requires FieldsFit()
    {
      [EhdrChunk()] + SectionWrites(|sects|) + SegmentWrites(|phdrs|)
    }

    function Image(): seq<byte>
      requires FieldsFit()
    {
      WriteAll([], Writes())
    }

    /** What layout establishes (LayoutIsDisjoint) and what the table fields say. */
    predicate Placed() {
      && ehdr.ehsize >= EhdrSize(c) && ehdr.phentsize >= PhdrSize(c) && ehdr.shentsize >= ShdrSize(c)
      && ehdr.shnum == |sects| && ehdr.phnum == |phdrs| && (|phdrs| > 0 ==> ehdr.phoff == ehdr.ehsize)
      && HeadersEnd() <= ehdr.shoff
      && (forall i :: 0 <= i < |sects| && FileBacked(sects[i].header) ==>
            && HeadersEnd() <= sects[i].header.offset
            && sects[i].header.offset + sects[i].header.size <= ehdr.shoff)
      && (forall i, j :: 0 <= i < |sects| && 0 <= j < |sects| && i != j
                         && FileBacked(sects[i].header) && FileBacked(sects[j].header) ==>
            || sects[i].header.offset + sects[i].header.size <= sects[j].header.offset
            || sects[j].header.offset + sects[j].header.size <= sects[i].header.offset)
      && (forall i :: 0 <= i < |sects| && sects[i].data.Some? && FileBacked(sects[i].header) ==>
            |sects[i].data.value| == sects[i].header.size)
    }

    /** The data a reader finds for section i: what was written, or the zeros of the hole that
        layout reserved for a section without a buffer. */
    function Stored(i: nat): Option<seq<byte>>
      requires i < |sects|
    {
      var h := sects[i].header;
      if !FileBacked(h) then None
      else if sects[i].data.Some? then sects[i].data
      else Some(Zeros(h.size))
    }
  }

  /** The headers of o are those of a finished layout. */
  predicate FromLayout(o: Object, secs: seq<Layout.Sec>, shoff: nat) {
    && |o.sects| == |secs| == o.ehdr.shnum && |o.phdrs| == o.ehdr.phnum && o.ehdr.shoff == shoff
    && (forall i :: 0 <= i < |secs| ==>
          && o.sects[i].header.stype == secs[i].stype
          && o.sects[i].header.size == secs[i].size
          && o.sects[i].header.offset == secs[i].offset
          && (o.sects[i].data.Some? ==> |o.sects[i].data.value| == secs[i].size))
    && (|o.phdrs| > 0 ==> o.ehdr.phoff == o.ehdr.ehsize)
    && o.ehdr.ehsize >= EhdrSize(o.c) && o.ehdr.phentsize >= PhdrSize(o.c) && o.ehdr.shentsize >= ShdrSize(o.c)
  }

  /** A successful layout puts everything where the writer needs it. */
  lemma LayoutPlaces(o: Object, h: Layout.Head, segs: seq<Layout.Seg>, order: seq<nat>, secs: seq<Layout.Sec>)
    requires h.m > 0 && LayoutSafety.InputOk(segs, order, secs) && Layout.LayoutAll(h, segs, order, secs, o.HeadersEnd()).ok
    requires var r := Layout.LayoutAll(h, segs, order, secs, o.HeadersEnd()); FromLayout(o, r.cur.secs, r.shoff)
    ensures o.Placed()
  {
    hide Layout.LayoutAll;
    LayoutSafety.LayoutIsDisjoint(h, segs, order, secs, o.HeadersEnd());
    LayoutSafety.TableBehind(h, segs, order, secs, o.HeadersEnd());
    var r := Layout.LayoutAll(h, segs, order, secs, o.HeadersEnd());
    forall i | 0 <= i < |secs| && FileBacked(o.sects[i].header)
      ensures Layout.InFile(secs[i])
      ensures LayoutSafety.EndOf(r.cur.secs[i]) == o.sects[i].header.offset + o.sects[i].header.size
    {
      assert LayoutSafety.SameData(secs[i], r.cur.secs[i]);
    }
    forall i, j | 0 <= i < |secs| && 0 <= j < |secs| && i != j
                  && FileBacked(o.sects[i].header) && FileBacked(o.sects[j].header)
      ensures || o.sects[i].header.offset + o.sects[i].header.size <= o.sects[j].header.offset
              || o.sects[j].header.offset + o.sects[j].header.size <= o.sects[i].header.offset
    {
      assert Layout.InFile(secs[i]) && Layout.InFile(secs[j]);
      assert LayoutSafety.Apart(r.cur.secs[i], r.cur.secs[j]);
    }
  }

  /** save_sections adds two writes per section, save_segments one per segment. */
  lemma NextSectionWrites(o: Object, i: nat)
    requires o.FieldsFit() && i < |o.sects|
    ensures o.SectionWrites(i + 1) == o.SectionWrites(i) + [o.HeaderChunk(i), o.DataChunk(i)]
  {
    hide Object.HeaderChunk, Object.DataChunk, Object.FieldsFit;
    var a, b := o.SectionWrites(i + 1), o.SectionWrites(i);
    forall k | 0 <= k < |a| ensures a[k] == (b + [o.HeaderChunk(i), o.DataChunk(i)])[k] {
      if k >= 2 * i {
        assert k == 2 * i || k == 2 * i + 1;
      }
    }
  }

  lemma NextSegmentWrites(o: Object, i: nat)
    requires o.FieldsFit() && i < |o.phdrs|
    ensures o.SegmentWrites(i + 1) == o.SegmentWrites(i) + [o.PhdrChunk(i)]
  {}

  // ---------------------------------------------------------------- places of the writes

  /** Record i of a table with entries of size n stays inside its slot. */
  lemma Slots(base: nat, n: nat, i: nat, j: nat)
    requires i < j
    ensures base + n * i + n <= base + n * j
  {
    MulMono(i + 1, j, n);
    assert (i + 1) * n == n * i + n && j * n == n * j;
  }

  lemma SlotInside(n: nat, i: nat, count: nat)
    requires i < count
    ensures n * i + n <= n * count
  {
    Slots(0, n, i, count);
  }

  lemma EhdrBefore(o: Object, d: Chunk)
    requires o.FieldsFit() && o.Placed() && o.ehdr.ehsize <= d.pos
    ensures Streams.Apart(o.EhdrChunk(), d)
  {}

  lemma HeaderAfter(o: Object, i: nat, d: Chunk)
    requires o.FieldsFit() && i < |o.sects| && d.End() <= o.ehdr.shoff
    ensures Streams.Apart(o.HeaderChunk(i), d) && Streams.Apart(d, o.HeaderChunk(i))
  {}

  lemma HeadersApart(o: Object, i: nat, j: nat)
    requires o.FieldsFit() && o.Placed() && i < j < |o.sects|
    ensures Streams.Apart(o.HeaderChunk(i), o.HeaderChunk(j))
  {
    Slots(o.ehdr.shoff, o.ehdr.shentsize, i, j);
  }

  lemma PhdrsApart(o: Object, i: nat, j: nat)
    requires o.FieldsFit() && o.Placed() && i < j < |o.phdrs|
    ensures Streams.Apart(o.PhdrChunk(i), o.PhdrChunk(j))
  {
    Slots(o.ehdr.phoff, o.ehdr.phentsize, i, j);
  }

  lemma PhdrPlace(o: Object, i: nat)
    requires o.FieldsFit() && o.Placed() && i < |o.phdrs|
    ensures o.ehdr.ehsize <= o.PhdrChunk(i).pos && o.PhdrChunk(i).End() <= o.HeadersEnd()
  {
    hide PhdrImage, ShdrFits, PhdrFits, EhdrFits, IdentOk;
    SlotInside(o.ehdr.phentsize, i, |o.phdrs|);
  }

  lemma DataPlace(o: Object, i: nat)
    requires o.Placed() && i < |o.sects|
    ensures o.DataChunk(i).bytes == [] ||
            (o.HeadersEnd() <= o.DataChunk(i).pos && o.DataChunk(i).End() <= o.ehdr.shoff)
  {}

  lemma DataApart(o: Object, i: nat, j: nat)
    requires o.Placed() && i < |o.sects| && j < |o.sects| && i != j
    ensures Streams.Apart(o.DataChunk(i), o.DataChunk(j))
  {}

  /** Writes k and l of save_sections do not touch. */
  lemma SectionWritesApart(o: Object, k: nat, l: nat)
    requires o.FieldsFit() && o.Placed() && k < l < 2 * |o.sects|
    ensures Streams.Apart(o.SectionWrites(|o.sects|)[k], o.SectionWrites(|o.sects|)[l])
  {
    hide Object.HeaderChunk, Object.DataChunk, Streams.Apart, Object.Placed, Object.FieldsFit;
    var i, j := k / 2, l / 2;
    DataPlace(o, i);
    DataPlace(o, j);
    if k % 2 == 0 && l % 2 == 0 {
      HeadersApart(o, i, j);
    } else if k % 2 == 1 && l % 2 == 1 {
      DataApart(o, i, j);
    } else if k % 2 == 0 {
      EmptyApart(o.HeaderChunk(i), o.DataChunk(j));
      if o.DataChunk(j).bytes != [] { HeaderAfter(o, i, o.DataChunk(j)); }
    } else {
      EmptyApart(o.DataChunk(i), o.HeaderChunk(j));
      if o.DataChunk(i).bytes != [] { HeaderAfter(o, j, o.DataChunk(i)); }
    }
  }

  lemma EmptyApart(a: Chunk, b: Chunk)
    ensures a.bytes == [] || b.bytes == [] ==> Streams.Apart(a, b)
  {}

  lemma SectionAndPhdrApart(o: Object, k: nat, i: nat)
    requires o.FieldsFit() && o.Placed() && k < 2 * |o.sects| && i < |o.phdrs|
    ensures Streams.Apart(o.SectionWrites(|o.sects|)[k], o.PhdrChunk(i))
  {
    PhdrPlace(o, i);
    DataPlace(o, k / 2);
    if k % 2 == 0 {
      HeaderAfter(o, k / 2, o.PhdrChunk(i));
    }
  }

  lemma HeaderPlace(o: Object, i: nat)
    requires o.FieldsFit() && o.Placed() && i < |o.sects|
    ensures o.ehdr.ehsize <= o.HeadersEnd() <= o.ehdr.shoff <= o.HeaderChunk(i).pos
    ensures |o.HeaderChunk(i).bytes| == ShdrSize(o.c)
  {
    hide ShdrImage, ShdrFits, PhdrFits, EhdrFits, IdentOk;
  }

  lemma HeaderBehind(o: Object, k: nat)
    requires o.FieldsFit() && o.Placed() && k < 2 * |o.sects|
    ensures Streams.Apart(o.EhdrChunk(), o.SectionWrites(|o.sects|)[k])
  {
    hide Object.HeaderChunk, Object.DataChunk, Object.EhdrChunk, Streams.Apart, Object.Placed, Object.FieldsFit;
    var i := k / 2;
    HeaderPlace(o, i);
    DataPlace(o, i);
    if k % 2 == 0 {
      EhdrBefore(o, o.HeaderChunk(i));
    } else if o.DataChunk(i).bytes == [] {
      EmptyApart(o.EhdrChunk(), o.DataChunk(i));
    } else {
      EhdrBefore(o, o.DataChunk(i));
    }
  }

  lemma AllWritesApart(o: Object)
    requires o.FieldsFit() && o.Placed()
    ensures PairwiseApart(o.Writes())
  {
    hide Object.Writes, Object.FieldsFit, Object.Placed, Streams.Apart;
    var w := o.Writes();
    forall k, l | 0 <= k < l < |w| ensures Streams.Apart(w[k], w[l]) {
      TwoWritesApart(o, k, l);
    }
  }

  lemma WriteAtIndex(o: Object, k: nat)
    requires o.FieldsFit() && k < |o.Writes()|
    ensures var n := 2 * |o.sects|;
            && |o.Writes()| == 1 + n + |o.phdrs|
            && o.Writes()[k] == (if k == 0 then o.EhdrChunk() else if k <= n then o.SectionWrites(|o.sects|)[k - 1] else o.PhdrChunk(k - 1 - n))
  {
    hide Object.HeaderChunk, Object.DataChunk, Object.EhdrChunk, Object.PhdrChunk, Object.FieldsFit, Object.SectionWrites;
  }

  lemma TwoWritesApart(o: Object, k: nat, l: nat)
    requires o.FieldsFit() && o.Placed() && k < l < |o.Writes()|
    ensures Streams.Apart(o.Writes()[k], o.Writes()[l])
  {
    hide Object.HeaderChunk, Object.DataChunk, Streams.Apart, Object.Placed, Object.FieldsFit, Object.SectionWrites, Object.EhdrChunk,
         Object.PhdrChunk, Object.Writes;
    var n := 2 * |o.sects|;
    WriteAtIndex(o, k);
    WriteAtIndex(o, l);
    if k == 0 {
      if l <= n {
        HeaderBehind(o, l - 1);
      } else {
        PhdrPlace(o, l - 1 - n);
        EhdrBefore(o, o.PhdrChunk(l - 1 - n));
      }
    } else if k <= n {
      if l <= n {
        SectionWritesApart(o, k - 1, l - 1);
      } else {
        SectionAndPhdrApart(o, k - 1, l - 1 - n);
      }
    } else {
      PhdrsApart(o, k - 1 - n, l - 1 - n);
    }
  }

  // ---------------------------------------------------------------- reading back

  /** Stream s is positioned anywhere in the file o was written to. */
  predicate ReaderOf(s: In, o: Object)
    requires o.FieldsFit()
  {
    s.bytes == o.Image() && !s.fail
  }

  /** The file fits the signed stream offsets. */
  predicate Seekable(o: Object)
    requires o.FieldsFit()
  {
    |o.Image()| < 0x8000_0000_0000_0000
  }

  lemma HeaderHeld(o: Object, i: nat)
    requires o.FieldsFit() && o.Placed() && i < |o.sects|
    ensures Holds(o.Image(), o.HeaderChunk(i)) && Holds(o.Image(), o.DataChunk(i))
    ensures o.HeaderChunk(i).End() <= |o.Image()|
  {
    AllWritesApart(o);
    var w := o.Writes();
    assert w[1 + 2 * i] == o.SectionWrites(|o.sects|)[2 * i] == o.HeaderChunk(i);
    assert w[2 + 2 * i] == o.SectionWrites(|o.sects|)[2 * i + 1] == o.DataChunk(i);
    AllHeld([], w, 1 + 2 * i);
    AllHeld([], w, 2 + 2 * i);
    assert |o.HeaderChunk(i).bytes| == ShdrSize(o.c);
  }

  /** No write covers the room reserved for a section without a buffer. */
  lemma NotCovered(o: Object, i: nat, p: nat, k: nat)
    requires o.FieldsFit() && o.Placed() && i < |o.sects| && k < |o.Writes()|
    requires FileBacked(o.sects[i].header) && o.sects[i].data.None?
    requires o.sects[i].header.offset <= p < o.sects[i].header.offset + o.sects[i].header.size
    ensures !o.Writes()[k].Covers(p)
  {
    hide Object.HeaderChunk, Object.EhdrChunk, Object.PhdrChunk, Object.FieldsFit;
    var n := 2 * |o.sects|;
    if k == 0 {
      EhdrPlace(o);
    } else if k <= n {
      var j := (k - 1) / 2;
      HeaderPlace(o, j);
      assert o.Writes()[k] == o.SectionWrites(|o.sects|)[k - 1];
      if (k - 1) % 2 == 1 {
        RoomUntouched(o, i, p, j);
      }
    } else {
      PhdrPlace(o, k - 1 - n);
      assert o.Writes()[k] == o.PhdrChunk(k - 1 - n);
    }
  }

  lemma EhdrPlace(o: Object)
    requires o.FieldsFit() && o.Placed()
    ensures o.EhdrChunk().End() <= o.HeadersEnd()
  {}

  lemma RoomUntouched(o: Object, i: nat, p: nat, j: nat)
    requires o.Placed() && i < |o.sects| && j < |o.sects|
    requires FileBacked(o.sects[i].header) && o.sects[i].data.None?
    requires o.sects[i].header.offset <= p < o.sects[i].header.offset + o.sects[i].header.size
    ensures !o.DataChunk(j).Covers(p)
  {}

  lemma ReservedRoom(o: Object, i: nat, p: nat)
    requires o.FieldsFit() && o.Placed() && i < |o.sects| && p < |o.Image()|
    requires FileBacked(o.sects[i].header) && o.sects[i].data.None?
    requires o.sects[i].header.offset <= p < o.sects[i].header.offset + o.sects[i].header.size
    ensures o.Image()[p] == 0
  {
    hide Object.FieldsFit, Object.Placed, Object.Writes, WriteAll;
    forall k | 0 <= k < |o.Writes()| ensures !o.Writes()[k].Covers(p) {
      NotCovered(o, i, p, k);
    }
    Hole(o.Writes(), p);
  }

  lemma ReservedZeros(o: Object, i: nat)
    requires o.FieldsFit() && o.Placed() && i < |o.sects|
    requires FileBacked(o.sects[i].header) && o.sects[i].data.None?
    ensures var h := o.sects[i].header;
            h.offset + h.size <= |o.Image()| && o.Image()[h.offset..h.offset + h.size] == Zeros(h.size)
  {
    hide Object.Image, Object.FieldsFit, Object.Placed;
    var h := o.sects[i].header;
    PlacedBounds(o, i);
    HeaderHeld(o, i);
    forall p | h.offset <= p < h.offset + h.size ensures o.Image()[p] == 0 {
      ReservedRoom(o, i, p);
    }
  }

  lemma PlacedBounds(o: Object, i: nat)
    requires o.FieldsFit() && o.Placed() && i < |o.sects|
    ensures FileBacked(o.sects[i].header) ==> o.sects[i].header.offset + o.sects[i].header.size <= o.ehdr.shoff
    ensures FileBacked(o.sects[i].header) && o.sects[i].data.Some? ==> |o.sects[i].data.value| == o.sects[i].header.size
    ensures FileBacked(o.sects[i].header) ==> o.sects[i].header.offset > 0
    ensures o.ehdr.shoff <= o.HeaderChunk(i).pos && o.ehdr.shoff < o.HeaderChunk(i).End()
  {
    hide Object.HeaderChunk, Object.FieldsFit;
    HeaderPlace(o, i);
  }

  /** The bytes a reader finds where section i's header says its data is. */
  lemma DataInFile(o: Object, i: nat)
    requires o.FieldsFit() && o.Placed() && i < |o.sects| && FileBacked(o.sects[i].header)
    ensures var h := o.sects[i].header;
            && h.offset + h.size < |o.Image()|
            && Some(o.Image()[h.offset..h.offset + h.size]) == o.Stored(i)
  {
    hide Object.Image, Object.Placed, Object.FieldsFit;
    HeaderHeld(o, i);
    PlacedBounds(o, i);
    var h := o.sects[i].header;
    if o.sects[i].data.None? {
      ReservedZeros(o, i);
    } else if h.size == 0 {
      assert o.sects[i].data.value == [] == o.Image()[h.offset..h.offset + h.size];
    } else {
      assert o.DataChunk(i) == Chunk(h.offset, o.sects[i].data.value);
    }
  }

  /** LoadSection on a stream that holds the record img of header h at position at. */
  lemma LoadSectionAt(c: Class, swap: bool, s: In, at: nat, h: Shdr, img: seq<byte>)
    requires !s.fail && |img| == ShdrSize(c) && at + ShdrSize(c) <= |s.bytes| < 0x8000_0000_0000_0000
    requires s.bytes[at..at + ShdrSize(c)] == img && ReadShdr(c, swap, img) == h
    requires FileBacked(h) ==> h.offset > 0 && h.offset + h.size < |s.bytes|
    ensures var (l, s') := LoadSection(c, swap, s, at);
            && l == Loaded(h, if FileBacked(h) then Some(s.bytes[h.offset..h.offset + h.size]) else None)
            && s'.bytes == s.bytes && !s'.fail
  {
    hide ReadShdr;
    var s0 := s.(pos := |s.bytes|);
    var s1 := s0.Seek(at);
    assert s1.Take(ShdrSize(c)) == img;
    assert PadTo(img, ShdrSize(c)) == img;
    if FileBacked(h) {
      assert h.size < |s.bytes|;
      if h.size == 0 {
        assert s.bytes[h.offset..h.offset + h.size] == [];
      }
    }
  }

  /** Loading section i with stream s yields its header and its exact stored bytes. */
  predicate ReadsBack(o: Object, s: In, i: nat)
    requires i < |o.sects|
  {
    var (l, s') := LoadSection(o.c, o.SwapOn(), s, o.ehdr.shoff + o.ehdr.shentsize * i);
    l == Loaded(o.sects[i].header, o.Stored(i)) && s'.bytes == s.bytes && !s'.fail
  }

  lemma SectionReadsBack(o: Object, s: In, i: nat)
    requires o.FieldsFit() && o.Placed() && Seekable(o) && ReaderOf(s, o) && i < |o.sects|
    ensures ReadsBack(o, s, i)
  {
    hide Object.Image, Object.Placed, ShdrImage, ReadShdr, ShdrFits, PhdrFits, EhdrFits, IdentOk, LoadSection;
    var h := o.sects[i].header;
    HeaderHeld(o, i);
    PlacedBounds(o, i);
    ShdrRoundTrip(o.c, o.SwapOn(), h);
    if FileBacked(h) {
      DataInFile(o, i);
    }
    LoadSectionAt(o.c, o.SwapOn(), s, o.HeaderChunk(i).pos, h, o.HeaderChunk(i).bytes);
  }

  // ---------------------------------------------------------------- the whole file

  /** load_sections: sections i, i+1, ..., num-1 of the table. */
  function LoadSections(c: Class, swap: bool, e: Ehdr, i: nat, s: In): (r: (seq<Loaded>, In))
    requires i <= e.shnum
    ensures |r.0| == e.shnum - i
    decreases e.shnum - i
  {
    if i == e.shnum then ([], s) else
      var (l, s1) := LoadSection(c, swap, s, e.shoff + i * e.shentsize);
      var (rest, s2) := LoadSections(c, swap, e, i + 1, s1);
      ([l] + rest, s2)
  }

  /** The name load_sections gives a section: looked up in the section e_shstrndx names. */
  function LoadedName(e: Ehdr, loaded: seq<Loaded>, i: nat): Option<seq<byte>>
    requires i < |loaded|
  {
    if e.shstrndx == SHN_UNDEF || e.shstrndx >= |loaded| then None
    else
      var t := loaded[e.shstrndx];
      if loaded[i].header.name < t.header.size && t.data.Some? then GetString(t.data.value, loaded[i].header.name)
      else None
  }

  lemma {:induction false} AllSectionsReadBack(o: Object, s: In, i: nat)
    requires o.FieldsFit() && o.Placed() && Seekable(o) && ReaderOf(s, o) && i <= |o.sects| == o.ehdr.shnum
    ensures var (ls, s') := LoadSections(o.c, o.SwapOn(), o.ehdr, i, s);
            && ReaderOf(s', o)
            && forall j :: i <= j < |o.sects| ==> ls[j - i] == Loaded(o.sects[j].header, o.Stored(j))
    decreases |o.sects| - i
  {
    hide LoadSection, Object.Stored, Object.FieldsFit, Object.Placed, Object.Image, Object.SwapOn;
    if i < |o.sects| {
      SectionReadsBack(o, s, i);
      assert o.ehdr.shentsize * i == i * o.ehdr.shentsize;
      var (l, s1) := LoadSection(o.c, o.SwapOn(), s, o.ehdr.shoff + i * o.ehdr.shentsize);
      AllSectionsReadBack(o, s1, i + 1);
      var rest := LoadSections(o.c, o.SwapOn(), o.ehdr, i + 1, s1).0;
      assert LoadSections(o.c, o.SwapOn(), o.ehdr, i, s).0 == [l] + rest;
    }
  }

  /** The file header as load reads it: sixteen identification bytes first, then the whole
      record from the start again. None when load refuses the file. */
  function LoadHeader(s: In): Option<(Class, bool, Ehdr, In)> {
    var ident := s.Take(EI_NIDENT);
    var s1 := s.Read(EI_NIDENT);
    if |ident| != EI_NIDENT || ident[..4] != [0x7f, 0x45, 0x4c, 0x46] then None
    else if ident[EI_CLASS] != ELFCLASS64 && ident[EI_CLASS] != ELFCLASS32 then None
    else
      var c := if ident[EI_CLASS] == ELFCLASS64 then Elf64 else Elf32;
      var swap := Swapped(ident);
      var s2 := s1.Seek(0);
      var bytes := s2.Take(EhdrSize(c));
      if |bytes| != EhdrSize(c) then None
      else Some((c, swap, ReadEhdr(c, swap, bytes), s2.Read(EhdrSize(c))))
  }

  /** What load accepts from the beginning of a file is a header that fits its class. */
  lemma LoadedHeaderOk(s: In)
    requires s.pos == 0 && LoadHeader(s).Some?
    ensures var (c, swap, e, _) := LoadHeader(s).value; EhdrFits(c, e) && IdentOk(c, e.ident)
  {
    hide ReadEhdr, EhdrFits;
    var (c, swap, e, _) := LoadHeader(s).value;
    var bytes := s.Read(EI_NIDENT).Seek(0).Take(EhdrSize(c));
    EhdrReads(c, swap, bytes);
    assert bytes[..EI_NIDENT] == s.Take(EI_NIDENT);
  }

  lemma IdentLeads(o: Object)
    requires o.FieldsFit()
    ensures EhdrImage(o.c, o.SwapOn(), o.ehdr)[..EI_NIDENT] == o.ehdr.ident
  {
    IdentPrefix(o.SwapOn(), EhdrFields(o.ehdr), EhdrWidths(o.c), EI_NIDENT);
    var s := EhdrImage(o.c, o.SwapOn(), o.ehdr);
    forall k | 0 <= k < EI_NIDENT ensures s[k] == o.ehdr.ident[k] {
      assert EhdrFields(o.ehdr)[k] == o.ehdr.ident[k];
    }
  }

  /** One-byte fields stand in the image as they are. */
  lemma {:induction false} IdentPrefix(swap: bool, vs: seq<nat>, ws: seq<nat>, n: nat)
    requires Pack.Fits(vs, ws) && n <= |ws| && forall k :: 0 <= k < n ==> ws[k] == 1
    ensures |Pack.Image(swap, vs, ws)| >= n
    ensures forall k :: 0 <= k < n ==> Pack.Image(swap, vs, ws)[k] == vs[k]
    decreases n
  {
    if n > 0 {
      IdentPrefix(swap, vs[1..], ws[1..], n - 1);
      PowValues();
      OneByte(swap, vs[0]);
      assert Pack.Image(swap, vs, ws) == [vs[0]] + Pack.Image(swap, vs[1..], ws[1..]);
    }
  }

  lemma OneByte(swap: bool, v: nat)
    requires v < Pow256(1)
    ensures v < 256 && Endian.FieldBytes(swap, v, 1) == [v]
  {
    PowValues();
    assert LE(v, 1) == [v % 256] + LE(v / 256, 0);
  }

  /** Reading the file header of a written file gives it back, with its class and byte order. */
  lemma HeaderReadsBack(o: Object)
    requires o.FieldsFit() && o.Placed()
    ensures var r := LoadHeader(In(o.Image(), 0, false));
            r.Some? && r.value.0 == o.c && r.value.1 == o.SwapOn() && r.value.2 == o.ehdr && ReaderOf(r.value.3, o)
  {
    hide Object.Placed, ReadEhdr, EhdrImage, ShdrFits, PhdrFits, WriteAll;
    AllWritesApart(o);
    AllHeld([], o.Writes(), 0);
    assert Holds(o.Image(), o.EhdrChunk());
    IdentLeads(o);
    EhdrRoundTrip(o.c, o.SwapOn(), o.ehdr);
    var f := o.Image();
    var h := EhdrImage(o.c, o.SwapOn(), o.ehdr);
    assert f[0..EhdrSize(o.c)] == h;
    assert f[0..EI_NIDENT] == h[..EI_NIDENT];
  }

  // ---------------------------------------------------------------- segments

  /** The first loop of load_segments: segments i, i+1, ..., num-1 of the table. */
  function LoadSegments(c: Class, swap: bool, e: Ehdr, i: nat, s: In): (r: (seq<LoadedSegment>, In))
    requires i <= e.phnum
    ensures |r.0| == e.phnum - i
    decreases e.phnum - i
  {
    if i == e.phnum then ([], s) else
      var (l, s1) := LoadSegment(c, swap, s, e.phoff + i * e.phentsize);
      var (rest, s2) := LoadSegments(c, swap, e, i + 1, s1);
      ([l] + rest, s2)
  }

  /** The segment's part of the file is there to be read. */
  predicate Readable(o: Object, i: nat)
    requires o.FieldsFit() && i < |o.phdrs|
  {
    var p := o.phdrs[i];
    p.ptype == PT_NULL || p.filesz == 0 || p.offset + p.filesz <= |o.Image()|
  }

  /** What load keeps of segment i: its header and its bytes in the file. */
  function SegmentOf(o: Object, i: nat): LoadedSegment
    requires o.FieldsFit() && i < |o.phdrs| && Readable(o, i)
  {
    var p := o.phdrs[i];
    LoadedSegment(p, if p.ptype == PT_NULL || p.filesz == 0 then None else Some(o.Image()[p.offset..p.offset + p.filesz]))
  }

  lemma PhdrHeld(o: Object, i: nat)
    requires o.FieldsFit() && o.Placed() && i < |o.phdrs|
    ensures Holds(o.Image(), o.PhdrChunk(i)) && o.PhdrChunk(i).End() <= |o.Image()|
    ensures |o.PhdrChunk(i).bytes| == PhdrSize(o.c)
  {
    hide PhdrImage, Object.Placed, WriteAll;
    AllWritesApart(o);
    var k := 1 + 2 * |o.sects| + i;
    assert o.Writes()[k] == o.PhdrChunk(i);
    AllHeld([], o.Writes(), k);
  }

  lemma LoadSegmentAt(c: Class, swap: bool, s: In, at: nat, h: Phdr, img: seq<byte>)
    requires !s.fail && |img| == PhdrSize(c) && at + PhdrSize(c) <= |s.bytes| < 0x8000_0000_0000_0000
    requires s.bytes[at..at + PhdrSize(c)] == img && ReadPhdr(c, swap, img) == h
    requires h.ptype == PT_NULL || h.filesz == 0 || h.offset + h.filesz <= |s.bytes|
    ensures var (l, s') := LoadSegment(c, swap, s, at);
            && l == LoadedSegment(h, if h.ptype == PT_NULL || h.filesz == 0 then None else Some(s.bytes[h.offset..h.offset + h.filesz]))
            && s'.bytes == s.bytes && !s'.fail
  {
    hide ReadPhdr;
    var s0 := s.(pos := |s.bytes|);
    var s1 := s0.Seek(at);
    assert s1.Take(PhdrSize(c)) == img;
    assert PadTo(img, PhdrSize(c)) == img;
  }

  predicate SegmentReads(o: Object, s: In, i: nat, g: LoadedSegment) {
    var (l, s') := LoadSegment(o.c, o.SwapOn(), s, o.ehdr.phoff + o.ehdr.phentsize * i);
    l == g && s'.bytes == s.bytes && !s'.fail
  }

  lemma SegmentReadsBack(o: Object, s: In, i: nat)
    requires o.FieldsFit() && o.Placed() && Seekable(o) && ReaderOf(s, o) && i < |o.phdrs| && Readable(o, i)
    ensures SegmentReads(o, s, i, SegmentOf(o, i))
  {
    hide Object.Image, Object.Placed, PhdrImage, ReadPhdr, ShdrFits, PhdrFits, EhdrFits, IdentOk, LoadSegment;
    PhdrHeld(o, i);
    PhdrRoundTrip(o.c, o.SwapOn(), o.phdrs[i]);
    LoadSegmentAt(o.c, o.SwapOn(), s, o.PhdrChunk(i).pos, o.phdrs[i], o.PhdrChunk(i).bytes);
  }

  /** The segments read back as well: program headers and the bytes they cover. */
  lemma {:induction false} AllSegmentsReadBack(o: Object, s: In, i: nat)
    requires o.FieldsFit() && o.Placed() && Seekable(o) && ReaderOf(s, o) && i <= |o.phdrs| == o.ehdr.phnum
    requires forall j :: 0 <= j < |o.phdrs| ==> Readable(o, j)
    ensures var (ls, s') := LoadSegments(o.c, o.SwapOn(), o.ehdr, i, s);
            forall j :: i <= j < |o.phdrs| ==> ls[j - i] == SegmentOf(o, j)
    decreases |o.phdrs| - i
  {
    hide LoadSegment, SegmentOf, Readable, Object.FieldsFit, Object.Placed, Object.Image, Object.SwapOn;
    if i < |o.phdrs| {
      SegmentReadsBack(o, s, i);
      assert o.ehdr.phentsize * i == i * o.ehdr.phentsize;
      var (l, s1) := LoadSegment(o.c, o.SwapOn(), s, o.ehdr.phoff + i * o.ehdr.phentsize);
      AllSegmentsReadBack(o, s1, i + 1);
      var rest := LoadSegments(o.c, o.SwapOn(), o.ehdr, i + 1, s1).0;
      assert LoadSegments(o.c, o.SwapOn(), o.ehdr, i, s).0 == [l] + rest;
    }
  }

  // ---------------------------------------------------------------- section names

  /** Section i's name offset leads to its name in the section name string table. */
  predicate NameRecorded(o: Object, i: nat)
    requires i < |o.sects|
  {
    && o.ehdr.shstrndx != SHN_UNDEF && o.ehdr.shstrndx < |o.sects|
    && FileBacked(o.sects[o.ehdr.shstrndx].header)
    && o.sects[o.ehdr.shstrndx].data.Some?
    && GetString(o.sects[o.ehdr.shstrndx].data.value, o.sects[i].header.name) == Some(CStr(o.sects[i].name))
  }

  /** ls is what load should find of o's sections. */
  ghost predicate AllLoaded(o: Object, ls: seq<Loaded>) {
    |ls| == |o.sects| && forall j :: 0 <= j < |ls| ==> ls[j] == Loaded(o.sects[j].header, o.Stored(j))
  }

  lemma SectionsLoaded(o: Object, s: In)
    requires o.FieldsFit() && o.Placed() && Seekable(o) && ReaderOf(s, o)
    ensures o.ehdr.shnum == |o.sects|
    ensures AllLoaded(o, LoadSections(o.c, o.SwapOn(), o.ehdr, 0, s).0)
    ensures ReaderOf(LoadSections(o.c, o.SwapOn(), o.ehdr, 0, s).1, o)
  {
    hide Object.Image, Object.FieldsFit, LoadSections, Object.Stored, Object.SwapOn;
    AllSectionsReadBack(o, s, 0);
    var ls := LoadSections(o.c, o.SwapOn(), o.ehdr, 0, s).0;
    forall j | 0 <= j < |ls| ensures ls[j] == Loaded(o.sects[j].header, o.Stored(j)) {
      assert ls[j - 0] == Loaded(o.sects[j].header, o.Stored(j));
    }
  }

  lemma NameReadsBack(o: Object, ls: seq<Loaded>, i: nat)
    requires AllLoaded(o, ls) && o.Placed() && i < |o.sects| && NameRecorded(o, i)
    ensures LoadedName(o.ehdr, ls, i) == Some(CStr(o.sects[i].name))
  {
    hide GetString, CStr;
    var t := o.ehdr.shstrndx;
    assert ls[t] == Loaded(o.sects[t].header, o.Stored(t));
    assert ls[i].header == o.sects[i].header;
    GetInside(o.sects[t].data.value, o.sects[i].header.name);
  }

  /** Loading what save wrote: the file header, every section's header fields and exact data
      bytes, and the name of every section whose name was recorded (Sections::add records it). */
  lemma SaveLoadRoundTrip(o: Object)
    requires o.FieldsFit() && o.Placed() && Seekable(o)
    ensures var h := LoadHeader(In(o.Image(), 0, false));
            && h.Some? && h.value.2 == o.ehdr
            && var (c, swap, e, s) := h.value;
               var loaded := LoadSections(c, swap, e, 0, s).0;
               && AllLoaded(o, loaded)
               && (forall i :: 0 <= i < |loaded| && NameRecorded(o, i) ==>
                     LoadedName(e, loaded, i) == Some(CStr(o.sects[i].name)))
  {
    hide Object.Image, Object.FieldsFit, LoadHeader, LoadSections, Object.SwapOn, LoadedName, NameRecorded, Object.Placed, Object.Stored, CStr;
    HeaderReadsBack(o);
    var s := LoadHeader(In(o.Image(), 0, false)).value.3;
    SectionsLoaded(o, s);
    var loaded := LoadSections(o.c, o.SwapOn(), o.ehdr, 0, s).0;
    forall i | 0 <= i < |loaded| && NameRecorded(o, i)
      ensures LoadedName(o.ehdr, loaded, i) == Some(CStr(o.sects[i].name))
    {
      NameReadsBack(o, loaded, i);
    }
  }

  ghost predicate AllSegmentsLoaded(o: Object, ls: seq<LoadedSegment>)
    requires o.FieldsFit()
  {
    |ls| == |o.phdrs| && forall j :: 0 <= j < |ls| ==> Readable(o, j) && ls[j] == SegmentOf(o, j)
  }

  /** And the rest of load: every program header with the bytes it covers. */
  lemma SaveLoadSegments(o: Object)
    requires o.FieldsFit() && o.Placed() && Seekable(o)
    requires forall j :: 0 <= j < |o.phdrs| ==> Readable(o, j)
    ensures var h := LoadHeader(In(o.Image(), 0, false));
            && h.Some?
            && var (c, swap, e, s) := h.value;
               AllSegmentsLoaded(o, LoadSegments(c, swap, e, 0, LoadSections(c, swap, e, 0, s).1).0)
  {
    hide Object.Image, Object.FieldsFit, LoadHeader, LoadSections, LoadSegments, Object.SwapOn, Object.Stored, SegmentOf, Readable;
    HeaderReadsBack(o);
    var s := LoadHeader(In(o.Image(), 0, false)).value.3;
    SectionsLoaded(o, s);
    var s1 := LoadSections(o.c, o.SwapOn(), o.ehdr, 0, s).1;
    AllSegmentsReadBack(o, s1, 0);
    var ls := LoadSegments(o.c, o.SwapOn(), o.ehdr, 0, s1).0;
    forall j | 0 <= j < |ls| ensures ls[j] == SegmentOf(o, j) {
      assert ls[j - 0] == SegmentOf(o, j);
    }
  }

  lemma GetInside(tab: seq<byte>, index: nat)
    requires GetString(tab, index).Some?
    ensures index < |tab|
  {}
}
