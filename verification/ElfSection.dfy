/** A section: its header, its growable data buffer, and its own part of load and save
    (elfio_section.hpp). */
module ElfSection {
  import opened Bytes
  import opened Pack
  import opened ElfTypes
  import opened Options
  import opened Streams

  // ---------------------------------------------------------------- the buffer, on values

  /** The bytes in use, the recorded capacity, and how many bytes were copied so far. */
  datatype Buffer = Buffer(content: seq<byte>, capacity: nat, copied: nat)

  const EMPTY_BUFFER := Buffer([], 0, 0)

  /** One append: in place while it stays strictly below the capacity, otherwise into a
      buffer of twice the sum of old capacity and addition. */
  function Append(b: Buffer, raw: seq<byte>): Buffer {
    if |b.content| + |raw| < b.capacity then
      Buffer(b.content + raw, b.capacity, b.copied + |raw|)
    else
      Buffer(b.content + raw, 2 * (b.capacity + |raw|), b.copied + |b.content| + |raw|)
  }

  function AppendAll(b: Buffer, chunks: seq<seq<byte>>): Buffer {
    if chunks == [] then b
    else Append(AppendAll(b, chunks[..|chunks| - 1]), chunks[|chunks| - 1])
  }

  function Concat(chunks: seq<seq<byte>>): seq<byte> {
    if chunks == [] then [] else Concat(chunks[..|chunks| - 1]) + chunks[|chunks| - 1]
  }

  /** What every append from an empty buffer keeps. The second-to-last bound is the
      amortisation argument: the bytes moved by reallocations never exceed the capacity. */
  predicate Amortised(b: Buffer) {
    && |b.content| <= b.capacity <= 4 * |b.content|
    && (b.content != [] ==> |b.content| < b.capacity)
    && |b.content| <= b.copied
    && b.copied - |b.content| <= b.capacity
    && b.copied <= 3 * |b.content|
  }

  lemma AppendAmortised(b: Buffer, raw: seq<byte>)
    requires Amortised(b)
    ensures Amortised(Append(b, raw))
  {}

  /** Any sequence of appends to an empty section is concatenation; a nonempty buffer is never
      full, and all copying together is at most three bytes per byte appended. */
  lemma {:induction false} AppendsRefineConcatenation(chunks: seq<seq<byte>>)
    ensures var b := AppendAll(EMPTY_BUFFER, chunks);
            && b.content == Concat(chunks)
            && |b.content| <= b.capacity <= 4 * |b.content|
            && (b.content != [] ==> |b.content| < b.capacity)
            && b.copied <= 3 * |Concat(chunks)|
    ensures Amortised(AppendAll(EMPTY_BUFFER, chunks))
  {
    if chunks != [] {
      AppendsRefineConcatenation(chunks[..|chunks| - 1]);
      AppendAmortised(AppendAll(EMPTY_BUFFER, chunks[..|chunks| - 1]), chunks[|chunks| - 1]);
    }
  }

  /** The 32-bit capacity does not wrap while the total stays below 2^30 bytes. */
  lemma CapacityFits(chunks: seq<seq<byte>>, raw: seq<byte>)
    requires |Concat(chunks)| + |raw| < 0x4000_0000
    ensures var b := AppendAll(EMPTY_BUFFER, chunks);
            |b.content| + |raw| >= b.capacity ==> 2 * (b.capacity + |raw|) < M32
    ensures AppendAll(EMPTY_BUFFER, chunks).capacity < M32
  {
    AppendsRefineConcatenation(chunks);
  }

  // ---------------------------------------------------------------- load and save, on values

  /** Whether a section's bytes are in the file. */
  predicate FileBacked(h: Shdr) { h.stype != SHT_NOBITS && h.stype != SHT_NULL }

  /** A section as load leaves it: data is what was read of the section's bytes. */
  datatype Loaded = Loaded(header: Shdr, data: Option<seq<byte>>)

  function PadTo(s: seq<byte>, n: nat): (r: seq<byte>)
    ensures |r| >= n
  {
    s + Zeros(n - |s|)
  }

  function ParseHeader(c: Class, swap: bool, chunk: seq<byte>): Shdr {
    ReadShdr(c, swap, PadTo(chunk, ShdrSize(c)))
  }

  lemma ParseFits(c: Class, swap: bool, chunk: seq<byte>)
    ensures ShdrFits(c, ParseHeader(c, swap, chunk))
  {
    hide Fields, Size;
    var s := PadTo(chunk, ShdrSize(c));
    RecordSizes(c);
    FieldsFit(swap, s, ShdrWidths(c));
    assert ShdrFields(ParseHeader(c, swap, chunk)) == Fields(swap, s, ShdrWidths(c));
  }

  /** The section at header position at, and the stream afterwards. */
  function LoadSection(c: Class, swap: bool, s: In, at: nat): (Loaded, In) {
    var streamSize := if s.fail then M64 - 1 else |s.bytes|;
    var s0 := if s.fail then s else s.(pos := |s.bytes|);
    var s1 := s0.Seek(at);
    var h := ParseHeader(c, swap, s1.Take(ShdrSize(c)));
    var s2 := s1.Read(ShdrSize(c));
    if !FileBacked(h) || h.size >= streamSize then (Loaded(h, None), s2)
    else if h.size == 0 then (Loaded(h, Some([])), s2)
    else
      var s3 := s2.Seek(h.offset);
      (Loaded(h, Some(s3.Take(h.size))), s3.Read(h.size))
  }

  // ---------------------------------------------------------------- the class

  class Section {
    const cls: Class
    var header: Shdr
    var index: nat
    var name: seq<byte>
    var data: array?<byte>
    var dataSize: nat
    var addressSet: bool
    ghost var copied: nat

    ghost function Repr(): set<object>
      reads this
    {
      if data == null then {this} else {this, data}
    }

    ghost predicate Valid()
      reads this
    {
      && ShdrFits(cls, header)
      && (data == null ==> dataSize == 0)
      && (data != null ==> dataSize <= data.Length && (header.stype != SHT_NOBITS ==> header.size <= dataSize))
    }

    /** All of the section's bytes are in the buffer. A section can have a size and no buffer: after
        load, when the file is shorter than that. Appending to such a section would copy from null. */
    ghost predicate Full()
      reads this
    {
      Valid() && (data == null && header.stype != SHT_NOBITS ==> header.size == 0)
    }

    /** The section's bytes. */
    ghost function Contents(): (s: seq<byte>)
      requires Valid()
      reads this, data
    {
      if data == null || header.stype == SHT_NOBITS then [] else data[..header.size]
    }

    ghost function View(): Buffer
      requires Valid()
      reads this, data
    {
      Buffer(Contents(), dataSize, copied)
    }

    constructor (c: Class)
      ensures Full() && fresh(Repr()) && cls == c
      ensures header == ZERO_SHDR && index == 0 && name == [] && !addressSet && data == null
      ensures View() == EMPTY_BUFFER
    {
      cls := c;
      header := ZERO_SHDR;
      index := 0;
      name := [];
      data := null;
      dataSize := 0;
      addressSet := false;
      copied := 0;
    }

    /** std::copy of src to dst + at. */
    static method Copy(src: seq<byte>, dst: array<byte>, at: nat)
      requires at + |src| <= dst.Length
      modifies dst
      ensures dst[..] == old(dst[..at]) + src + old(dst[at + |src|..])
    {
      var k := 0;
      while k < |src|
        invariant 0 <= k <= |src|
        invariant forall i :: at <= i < at + k ==> dst[i] == src[i - at]
        invariant forall i :: 0 <= i < at || at + k <= i < dst.Length ==> dst[i] == old(dst[i])
      {
        dst[at + k] := src[k];
        k := k + 1;
      }
    }

    /** Setters store a value in a field of the class's width. */
    method SetAddress(value: nat)
      requires Valid()
      modifies this`header, this`addressSet
      ensures Valid() && header == old(header).(addr := value % cls.Limit()) && addressSet
    {
      FitsWide(value % cls.Limit(), header.offset);
      header := header.(addr := value % cls.Limit());
      addressSet := true;
    }

    method SetOffset(value: nat)
      requires Valid()
      modifies this`header
      ensures Valid() && header == old(header).(offset := value % cls.Limit())
    {
      FitsWide(header.addr, value % cls.Limit());
      header := header.(offset := value % cls.Limit());
    }

    /** Replaces the data; a NOBITS section only takes the size. */
    method SetData(raw: seq<byte>)
      requires Valid() && |raw| < M32
      modifies this
      ensures Full() && fresh(Repr() - old(Repr()))
      ensures header == old(header).(size := |raw|)
      ensures index == old(index) && name == old(name) && addressSet == old(addressSet)
      ensures header.stype != SHT_NOBITS ==> Contents() == raw && dataSize == |raw|
      ensures header.stype == SHT_NOBITS ==> data == old(data) && dataSize == old(dataSize)
    {
      assert ShdrFits(cls, header.(size := |raw|)) by { FitsSize(|raw|); }
      if header.stype != SHT_NOBITS {
        var buffer := new byte[|raw|](_ => 0);
        Copy(raw, buffer, 0);
        data := buffer;
        dataSize := |raw|;
      }
      header := header.(size := |raw|);
    }

    lemma FitsSize(n: nat)
      requires ShdrFits(cls, header) && n < M32
      ensures ShdrFits(cls, header.(size := n))
    {
      PowValues();
      var vs, ws := ShdrFields(header.(size := n)), ShdrWidths(cls);
      forall k | 0 <= k < |vs| ensures vs[k] < Pow256(ws[k]) {
        assert ShdrFields(header)[k] < Pow256(ws[k]);
        assert k != 5 ==> vs[k] == ShdrFields(header)[k];
      }
    }

    /** Appends raw. The capacity is a 32-bit word, so doubling must not wrap. */
    method AppendData(raw: seq<byte>)
      requires Full() && |raw| < M32
      requires header.stype != SHT_NOBITS ==> header.size + |raw| < M32
      requires header.stype != SHT_NOBITS && header.size + |raw| >= dataSize ==> 2 * (dataSize + |raw|) < M32
      modifies this, Repr()
      ensures Full() && fresh(Repr() - old(Repr()))
      ensures index == old(index) && name == old(name) && addressSet == old(addressSet)
      ensures header.stype != SHT_NOBITS ==> View() == Append(old(View()), raw)
      ensures header.stype != SHT_NOBITS ==> Contents() == old(Contents()) + raw
      ensures header.stype != SHT_NOBITS ==> header == old(header).(size := old(header).size + |raw|)
      ensures header.stype == SHT_NOBITS ==> View() == old(View()) && header == old(header)
    {
      hide ShdrFits;
      if header.stype == SHT_NOBITS {
        return;
      }
      var size := header.size;
      assert ShdrFits(cls, header.(size := size + |raw|)) by { FitsSize(size + |raw|); }
      ghost var before := Contents();
      if size + |raw| < dataSize {
        Copy(raw, data, size);
        assert data[..size + |raw|] == before + raw;
        copied := copied + |raw|;
      } else {
        dataSize := 2 * (dataSize + |raw|);
        var newData := new byte[dataSize](_ => 0);
        if data != null {
          Copy(data[..size], newData, 0);
        }
        assert newData[..size] == before;
        Copy(raw, newData, size);
        assert newData[..size + |raw|] == before + raw;
        data := newData;
        copied := copied + size + |raw|;
      }
      header := header.(size := size + |raw|);
    }

    /** Reads the header at the given position and then the data. */
    method Load(swap: bool, stream: InputFile, at: nat)
      requires Valid() && data == null
      modifies this, stream
      ensures Valid()
      ensures index == old(index) && name == old(name) && addressSet == old(addressSet)
      ensures header == LoadSection(cls, swap, old(stream.state), at).0.header
      ensures stream.state == LoadSection(cls, swap, old(stream.state), at).1
      ensures data == null || fresh(data)
      ensures match LoadSection(cls, swap, old(stream.state), at).0.data
              case None => data == null
              case Some(bytes) => data != null && data.Length == header.size + 1
                                  && |bytes| <= header.size && data[..|bytes|] == bytes
                                  && (header.size != 0 ==> data[header.size] == 0)
    {
      hide ParseHeader, ShdrFits;
      ghost var s := stream.state;
      var streamSize := stream.StreamSize();
      stream.Seekg(at);
      var chunk := stream.Read(ShdrSize(cls));
      header := ParseHeader(cls, swap, chunk);
      ParseFits(cls, swap, chunk);
      if FileBacked(header) && header.size < streamSize {
        var buffer := new byte[header.size + 1](_ => 0);
        data := buffer;
        if header.size != 0 {
          stream.Seekg(header.offset);
          var bytes := stream.Read(header.size);
          Copy(bytes, buffer, 0);
          buffer[header.size] := 0;
          dataSize := header.size;
        }
      }
    }

    /** Writes the header and, for a section with bytes, the data. */
    method Save(swap: bool, stream: OutputFile, headerAt: nat, dataAt: nat)
      requires Valid() && dataAt < cls.Limit()
      modifies this`header, stream
      ensures Valid() && header == if index == 0 then old(header) else old(header).(offset := dataAt)
      ensures stream.bytes == WriteAll(old(stream.bytes), SectionChunks(cls, swap, header, headerAt, dataAt, old(Bytes())))
    {
      hide ShdrImage, ShdrFits, WriteAt;
      ghost var payload := Bytes();
      if index != 0 {
        FitsWide(header.addr, dataAt);
        header := header.(offset := dataAt);
      }
      ghost var first := Chunk(headerAt, ShdrImage(cls, swap, header));
      ghost var start := stream.bytes;
      stream.Seekp(headerAt);
      stream.Write(ShdrImage(cls, swap, header));
      WriteAllStep(start, [], first);
      assert [] + [first] == [first];
      WriteAllStep(start, [first], Chunk(dataAt, payload));
      assert [first] + [Chunk(dataAt, payload)] == [first, Chunk(dataAt, payload)];
      if FileBacked(header) && header.size != 0 && data != null {
        stream.Seekp(dataAt);
        stream.Write(data[..header.size]);
      }
    }

    method SetNameOffset(value: nat)
      requires Valid() && value < M32
      modifies this`header
      ensures Valid() && header == old(header).(name := value)
    {
      FitsWords(value, header.stype);
      header := header.(name := value);
    }

    /** A section that had NOBITS may have a size its buffer does not cover. */
    method SetType(value: nat)
      requires Valid() && value < M32 && header.stype != SHT_NOBITS
      modifies this`header
      ensures Valid() && header == old(header).(stype := value)
    {
      FitsWords(header.name, value);
      header := header.(stype := value);
    }

    method SetAddrAlign(value: nat)
      requires Valid()
      modifies this`header
      ensures Valid() && header == old(header).(addralign := value % cls.Limit())
    {
      PowValues();
      ghost var vs, us, ws := ShdrFields(header.(addralign := value % cls.Limit())), ShdrFields(header), ShdrWidths(cls);
      assert forall k :: 0 <= k < 10 ==> us[k] < Pow256(ws[k]);
      header := header.(addralign := value % cls.Limit());
    }

    lemma FitsWords(name: nat, stype: nat)
      requires ShdrFits(cls, header)
      requires (name == header.name || name < M32) && (stype == header.stype || stype < M32)
      ensures ShdrFits(cls, header.(name := name, stype := stype))
    {
      PowValues();
      var vs, us, ws := ShdrFields(header.(name := name, stype := stype)), ShdrFields(header), ShdrWidths(cls);
      forall k | 0 <= k < |vs| ensures vs[k] < Pow256(ws[k]) {
        assert us[k] < Pow256(ws[k]);
      }
    }

    lemma WideFields()
      requires Valid()
      ensures header.addr < cls.Limit() && header.offset < cls.Limit() && header.addralign < cls.Limit()
    {
      assert ShdrFields(header)[3] < Pow256(ShdrWidths(cls)[3]);
      assert ShdrFields(header)[4] < Pow256(ShdrWidths(cls)[4]);
      assert ShdrFields(header)[8] < Pow256(ShdrWidths(cls)[8]);
    }

    lemma FitsWide(addr: nat, offset: nat)
      requires ShdrFits(cls, header)
      requires addr == header.addr || addr < cls.Limit()
      requires offset == header.offset || offset < cls.Limit()
      ensures ShdrFits(cls, header.(addr := addr, offset := offset))
    {
      PowValues();
      var vs, ws := ShdrFields(header.(addr := addr, offset := offset)), ShdrWidths(cls);
      forall k | 0 <= k < |vs| ensures vs[k] < Pow256(ws[k]) {
        assert ShdrFields(header)[k] < Pow256(ws[k]);
        assert k != 3 && k != 4 ==> vs[k] == ShdrFields(header)[k];
      }
    }

    /** The bytes save writes for the section's data. */
    ghost function Bytes(): seq<byte>
      requires Valid()
      reads this, data
    {
      if FileBacked(header) then Contents() else []
    }
  }

  /** The two positioned writes that save one section. */
  function SectionChunks(c: Class, swap: bool, h: Shdr, headerAt: nat, dataAt: nat, bytes: seq<byte>): seq<Chunk>
    requires ShdrFits(c, h)
  {
    [Chunk(headerAt, ShdrImage(c, swap, h)), Chunk(dataAt, bytes)]
  }
}
