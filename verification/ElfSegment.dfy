/** A segment: its program header, the list of its sections, and its own part of load and save
    (elfio_segment.hpp). */
module ElfSegment {
  import opened Arith
  import opened Bytes
  import opened Options
  import opened Pack
  import opened ElfTypes
  import opened Streams
  import opened ElfSection

  // ---------------------------------------------------------------- load, on values

  /** A segment as load leaves it: data is what was read of its part of the file. */
  datatype LoadedSegment = LoadedSegment(header: Phdr, data: Option<seq<byte>>)

  function ParsePhdr(c: Class, swap: bool, chunk: seq<byte>): Phdr {
    ReadPhdr(c, swap, PadTo(chunk, PhdrSize(c)))
  }

  lemma ParsePhdrFits(c: Class, swap: bool, chunk: seq<byte>)
    ensures PhdrFits(c, ParsePhdr(c, swap, chunk))
  {
    hide Fields, Size;
    var s := PadTo(chunk, PhdrSize(c));
    RecordSizes(c);
    FieldsFit(swap, s, PhdrWidths(c));
    assert PhdrFields(c, ParsePhdr(c, swap, chunk)) == Fields(swap, s, PhdrWidths(c));
  }

  /** The segment at header position at, and the stream afterwards. */
  function LoadSegment(c: Class, swap: bool, s: In, at: nat): (LoadedSegment, In) {
    var streamSize := if s.fail then M64 - 1 else |s.bytes|;
    var s0 := if s.fail then s else s.(pos := |s.bytes|);
    var s1 := s0.Seek(at);
    var h := ParsePhdr(c, swap, s1.Take(PhdrSize(c)));
    var s2 := s1.Read(PhdrSize(c));
    if h.ptype == PT_NULL || h.filesz == 0 then (LoadedSegment(h, None), s2)
    else
      var s3 := s2.Seek(h.offset);
      if h.filesz > streamSize then (LoadedSegment(h, None), s3)
      else (LoadedSegment(h, Some(s3.Take(h.filesz))), s3.Read(h.filesz))
  }

  // ---------------------------------------------------------------- which sections belong to it

  /** is_sect_in_seg, in 64-bit arithmetic. */
  predicate IsSectInSeg(sectBegin: nat, sectSize: nat, segBegin: nat, segEnd: nat) {
    segBegin <= sectBegin && W64(sectBegin + sectSize) <= segEnd && sectBegin < segEnd
  }

  /** load_segments matches sections in memory by address and the others by file offset. */
  predicate Belongs(h: Shdr, p: Phdr) {
    if Alloc(h.flags) then IsSectInSeg(h.addr, h.size, p.vaddr, W64(p.vaddr + p.memsz))
    else IsSectInSeg(h.offset, h.size, p.offset, W64(p.offset + p.filesz))
  }

  /** The sections of a loaded segment. */
  function Members(hs: seq<Shdr>, p: Phdr): seq<nat> {
    if hs == [] then [] else
      var n := |hs| - 1;
      Members(hs[..n], p) + (if Belongs(hs[n], p) then [n] else [])
  }

  /** They are the sections that belong to it, in ascending order. */
  lemma {:induction false} MembersExact(hs: seq<Shdr>, p: Phdr)
    ensures forall k: nat :: k in Members(hs, p) <==> k < |hs| && Belongs(hs[k], p)
    ensures forall i, j :: 0 <= i < j < |Members(hs, p)| ==> Members(hs, p)[i] < Members(hs, p)[j]
  {
    hide Belongs;
    if hs != [] {
      var n := |hs| - 1;
      MembersExact(hs[..n], p);
      var front := Members(hs[..n], p);
      forall i | 0 <= i < |front| ensures front[i] < n {
        assert front[i] in front;
      }
    }
  }

  // ---------------------------------------------------------------- the class

  class Segment {
    const cls: Class
    var ph: Phdr
    var index: nat
    var sections: seq<nat>
    var offsetSet: bool
    var data: Option<seq<byte>>

    constructor (c: Class)
      ensures Valid() && cls == c && ph == Phdr(0, 0, 0, 0, 0, 0, 0, 0) && index == 0 && sections == [] && !offsetSet && data == None
    {
      PowValues();
      cls := c;
      ph := Phdr(0, 0, 0, 0, 0, 0, 0, 0);
      index := 0;
      sections := [];
      offsetSet := false;
      data := None;
    }

    ghost predicate Valid()
      reads this
    {
      PhdrFits(cls, ph)
    }

    /** Setters store a value in a field of the class's width. */
    method SetAlign(value: nat)
      requires Valid()
      modifies this`ph
      ensures Valid() && ph == old(ph).(align := value % cls.Limit())
    {
      FitsWide(ph.offset, ph.filesz, ph.memsz, value % cls.Limit());
      ph := ph.(align := value % cls.Limit());
    }

    method SetFileSize(value: nat)
      requires Valid()
      modifies this`ph
      ensures Valid() && ph == old(ph).(filesz := value % cls.Limit())
    {
      FitsWide(ph.offset, value % cls.Limit(), ph.memsz, ph.align);
      ph := ph.(filesz := value % cls.Limit());
    }

    method SetMemorySize(value: nat)
      requires Valid()
      modifies this`ph
      ensures Valid() && ph == old(ph).(memsz := value % cls.Limit())
    {
      FitsWide(ph.offset, ph.filesz, value % cls.Limit(), ph.align);
      ph := ph.(memsz := value % cls.Limit());
    }

    method SetOffset(value: nat)
      requires Valid()
      modifies this`ph, this`offsetSet
      ensures Valid() && ph == old(ph).(offset := value % cls.Limit()) && offsetSet
    {
      FitsWide(value % cls.Limit(), ph.filesz, ph.memsz, ph.align);
      ph := ph.(offset := value % cls.Limit());
      offsetSet := true;
    }

    lemma FitsWide(offset: nat, filesz: nat, memsz: nat, align: nat)
      requires PhdrFits(cls, ph)
      requires offset == ph.offset || offset < cls.Limit()
      requires filesz == ph.filesz || filesz < cls.Limit()
      requires memsz == ph.memsz || memsz < cls.Limit()
      requires align == ph.align || align < cls.Limit()
      ensures PhdrFits(cls, ph.(offset := offset, filesz := filesz, memsz := memsz, align := align))
    {
      PowValues();
      var updated := ph.(offset := offset, filesz := filesz, memsz := memsz, align := align);
      var vs, us, ws := PhdrFields(cls, updated), PhdrFields(cls, ph), PhdrWidths(cls);
      forall k | 0 <= k < |vs| ensures vs[k] < Pow256(ws[k]) {
        assert us[k] < Pow256(ws[k]);
      }
    }

    /** Reads the program header and the segment's bytes. */
    method Load(swap: bool, stream: InputFile, at: nat)
      modifies this`ph, this`offsetSet, this`data, stream
      ensures Valid() && offsetSet
      ensures LoadedSegment(ph, data) == LoadSegment(cls, swap, old(stream.state), at).0
      ensures stream.state == LoadSegment(cls, swap, old(stream.state), at).1
    {
      hide ParsePhdr, PhdrFits;
      var streamSize := stream.StreamSize();
      stream.Seekg(at);
      var chunk := stream.Read(PhdrSize(cls));
      ph := ParsePhdr(cls, swap, chunk);
      ParsePhdrFits(cls, swap, chunk);
      offsetSet := true;
      data := None;
      if ph.ptype != PT_NULL && ph.filesz != 0 {
        stream.Seekg(ph.offset);
        if ph.filesz <= streamSize {
          var bytes := stream.Read(ph.filesz);
          data := Some(bytes);
        }
      }
    }

    /** Writes the program header. */
    method Save(swap: bool, stream: OutputFile, headerAt: nat, dataAt: nat)
      requires Valid() && dataAt < cls.Limit()
      modifies this`ph, stream
      ensures Valid() && ph == old(ph).(offset := dataAt)
      ensures stream.bytes == WriteAt(old(stream.bytes), headerAt, PhdrImage(cls, swap, ph))
    {
      FitsWide(dataAt, ph.filesz, ph.memsz, ph.align);
      ph := ph.(offset := dataAt);
      stream.Seekp(headerAt);
      stream.Write(PhdrImage(cls, swap, ph));
    }

    lemma WideFields()
      requires Valid()
      ensures ph.offset < cls.Limit()
    {
      var k := if cls.Elf32? then 1 else 2;
      assert PhdrFields(cls, ph)[k] < Pow256(PhdrWidths(cls)[k]);
    }

    /** Adding a section raises the segment's alignment to the section's. */
    method AddSectionIndex(secIndex: nat, addrAlign: nat) returns (n: nat)
      requires Valid() && addrAlign < cls.Limit()
      modifies this`sections, this`ph
      ensures Valid() && sections == old(sections) + [secIndex] && n == |sections|
      ensures ph == old(ph).(align := if addrAlign > old(ph).align then addrAlign else old(ph).align)
    {
      sections := sections + [secIndex];
      if addrAlign > ph.align {
        ModShift(0, cls.Limit(), addrAlign);
        SetAlign(addrAlign);
      }
      n := |sections|;
    }
  }
}
