/** Note sections: writing notes, finding them again, and reading one (elfio_note.hpp). */
module Notes {
  import opened Bytes
  import opened Endian
  import opened ElfTypes
  import opened ElfSection
  import opened Options
  import opened Streams
  import opened StringTable

  datatype Note = Note(ntype: nat, name: seq<byte>, desc: seq<byte>)

  predicate NoteFits(n: Note) {
    n.ntype < M32 && |n.name| + 4 < M32 && |n.desc| + 3 < M32 && |n.name| + |n.desc| + 1 < M32
  }

  function Word(swap: bool, v: nat): (s: seq<byte>)
    requires v < M32
    ensures |s| == 4
  {
    PowValues();
    FieldBytes(swap, v, 4)
  }

  function WordAt(swap: bool, data: seq<byte>, at: nat): nat
    requires at + 4 <= |data|
  {
    FieldValue(swap, data[at..at + 4])
  }

  lemma WordReads(swap: bool, pre: seq<byte>, v: nat, post: seq<byte>)
    requires v < M32
    ensures WordAt(swap, pre + Word(swap, v) + post, |pre|) == v
  {
    hide FieldBytes, FieldValue;
    PowValues();
    var s := pre + Word(swap, v) + post;
    assert s[|pre|..|pre| + 4] == Word(swap, v);
    FieldRoundTrip(swap, v, 4);
  }

  /** Rounding up to words, in 32-bit arithmetic. */
  function Align4(n: nat): (r: nat)
    ensures n + 3 < M32 ==> n <= r < n + 4 && r % 4 == 0
  {
    (n + 3) % M32 / 4 * 4
  }

  function Pad(n: nat): (s: seq<byte>)
    ensures n + 3 < M32 ==> n + |s| == Align4(n)
  {
    if n % 4 != 0 then Zeros(4 - n % 4) else []
  }

  function NameField(name: seq<byte>): (s: seq<byte>)
    requires |name| + 4 < M32
    ensures |s| == Align4(|name| + 1) && name <= s
  {
    name + [0] + Pad(|name| + 1)
  }

  function DescField(desc: seq<byte>): (s: seq<byte>)
    requires |desc| + 3 < M32
    ensures |s| == Align4(|desc|) && desc <= s
  {
    if desc == [] then [] else desc + Pad(|desc|)
  }

  /** The record add_note appends. */
  function NoteBytes(swap: bool, n: Note): (s: seq<byte>)
    requires NoteFits(n)
    ensures |s| == 12 + Align4(|n.name| + 1) + Align4(|n.desc|)
  {
    Word(swap, |n.name| + 1) + Word(swap, |n.desc|) + Word(swap, n.ntype) + NameField(n.name) + DescField(n.desc)
  }

  predicate AllFit(notes: seq<Note>) { forall i :: 0 <= i < |notes| ==> NoteFits(notes[i]) }

  function Encode(swap: bool, notes: seq<Note>): seq<byte>
    requires AllFit(notes)
  {
    if notes == [] then [] else NoteBytes(swap, notes[0]) + Encode(swap, notes[1..])
  }

  /** Where each note starts when the first starts at base. */
  function Starts(notes: seq<Note>, base: nat): (r: seq<nat>)
    requires AllFit(notes)
    ensures |r| == |notes|
  {
    if notes == [] then [] else [base] + Starts(notes[1..], base + |NoteBytes(false, notes[0])|)
  }

  lemma {:induction false} EncodeAppend(swap: bool, notes: seq<Note>, n: Note, base: nat)
    requires AllFit(notes) && NoteFits(n)
    ensures Encode(swap, notes + [n]) == Encode(swap, notes) + NoteBytes(swap, n)
    ensures Starts(notes + [n], base) == Starts(notes, base) + [base + |Encode(swap, notes)|]
  {
    hide NoteBytes, NoteFits;
    if notes == [] {
      assert notes + [n] == [n] && [n][1..] == [];
      assert Encode(swap, [n]) == NoteBytes(swap, n) + Encode(swap, []);
      assert Starts([n], base) == [base] + Starts([], base + |NoteBytes(false, n)|);
    } else {
      assert (notes + [n])[1..] == notes[1..] + [n];
      EncodeAppend(swap, notes[1..], n, base + |NoteBytes(false, notes[0])|);
      assert |NoteBytes(false, notes[0])| == |NoteBytes(swap, notes[0])|;
    }
  }

  // ---------------------------------------------------------------- parsing

  /** The start positions process_section records, from position current on. */
  function Positions(swap: bool, data: seq<byte>, current: nat): seq<nat>
    decreases |data| - current
  {
    if current + 12 > |data| then [] else
      var namesz := WordAt(swap, data, current);
      var descsz := WordAt(swap, data, current + 4);
      [current] + Positions(swap, data, current + 12 + Align4(namesz) + Align4(descsz))
  }

  lemma NextPosition(swap: bool, data: seq<byte>, current: nat, found: seq<nat>)
    requires current + 12 <= |data|
    ensures var next := current + 12 + Align4(WordAt(swap, data, current)) + Align4(WordAt(swap, data, current + 4));
            (found + [current]) + Positions(swap, data, next) == found + Positions(swap, data, current)
  {
    hide Align4, WordAt;
  }

  lemma NoPosition(swap: bool, data: seq<byte>, current: nat)
    requires current + 12 > |data|
    ensures Positions(swap, data, current) == []
  {}

  /** The three header words of a note read back wherever the note stands. */
  lemma HeaderReads(swap: bool, pre: seq<byte>, n: Note, post: seq<byte>)
    requires NoteFits(n)
    ensures var data := pre + NoteBytes(swap, n) + post;
            && WordAt(swap, data, |pre|) == |n.name| + 1
            && WordAt(swap, data, |pre| + 4) == |n.desc|
            && WordAt(swap, data, |pre| + 8) == n.ntype
  {
    hide Word, WordAt, NameField, DescField;
    var a, b, c := Word(swap, |n.name| + 1), Word(swap, |n.desc|), Word(swap, n.ntype);
    var tail := NameField(n.name) + DescField(n.desc) + post;
    Regroup(pre, a, b, c, NameField(n.name), DescField(n.desc), post);
    WordReads(swap, pre, |n.name| + 1, b + c + tail);
    WordReads(swap, pre + a, |n.desc|, c + tail);
    WordReads(swap, pre + a + b, n.ntype, tail);
  }

  lemma Regroup(pre: seq<byte>, a: seq<byte>, b: seq<byte>, c: seq<byte>, d: seq<byte>, e: seq<byte>, post: seq<byte>)
    ensures pre + (a + b + c + d + e) + post == pre + a + (b + c + (d + e + post))
    ensures pre + (a + b + c + d + e) + post == (pre + a) + b + (c + (d + e + post))
    ensures pre + (a + b + c + d + e) + post == (pre + a + b) + c + (d + e + post)
  {}

  /** Parsing what a sequence of add_note calls wrote finds exactly the notes' starts. */
  lemma {:induction false} Reparse(swap: bool, pre: seq<byte>, notes: seq<Note>)
    requires AllFit(notes)
    ensures Positions(swap, pre + Encode(swap, notes), |pre|) == Starts(notes, |pre|)
    decreases |notes|
  {
    hide NoteBytes, WordAt;
    if notes != [] {
      var rec := NoteBytes(swap, notes[0]);
      var rest := Encode(swap, notes[1..]);
      var data := pre + Encode(swap, notes);
      assert data == pre + rec + rest;
      HeaderReads(swap, pre, notes[0], rest);
      Reparse(swap, pre + rec, notes[1..]);
      assert data == (pre + rec) + rest;
      assert |rec| == |NoteBytes(false, notes[0])|;
    }
  }

  // ---------------------------------------------------------------- reading one note

  /** The size test of get_note, with its 32-bit sum. */
  predicate SizesOk(namesz: nat, descsz: nat, room: nat) {
    namesz <= room && (namesz + descsz) % M32 <= room
  }

  predicate FieldsInside(data: seq<byte>, at: nat, namesz: nat, descsz: nat) {
    namesz > 0 && at + 12 + namesz - 1 <= |data| && at + 12 + Align4(namesz) + descsz <= |data|
  }

  function ReadNote(swap: bool, data: seq<byte>, at: nat): Option<Note>
    requires at + 12 <= |data|
  {
    var namesz := WordAt(swap, data, at);
    var descsz := WordAt(swap, data, at + 4);
    if !SizesOk(namesz, descsz, |data| - at) || !FieldsInside(data, at, namesz, descsz) then None
    else Some(Note(WordAt(swap, data, at + 8), data[at + 12..at + 12 + namesz - 1],
                   data[at + 12 + Align4(namesz)..at + 12 + Align4(namesz) + descsz]))
  }

  lemma FieldsThere(swap: bool, data: seq<byte>, at: nat)
    requires at + 12 <= |data| && ReadNote(swap, data, at).Some?
    ensures FieldsInside(data, at, WordAt(swap, data, at), WordAt(swap, data, at + 4))
  {
    hide WordAt, Align4;
  }

  lemma Middle(a: seq<byte>, b: seq<byte>, c: seq<byte>, prefix: seq<byte>)
    requires prefix <= b
    ensures (a + b + c)[|a|..|a| + |prefix|] == prefix
  {}

  lemma NoteReads(swap: bool, pre: seq<byte>, n: Note, post: seq<byte>)
    requires NoteFits(n)
    ensures ReadNote(swap, pre + NoteBytes(swap, n) + post, |pre|) == Some(n)
  {
    hide NoteBytes, Word, WordAt, Align4;
    HeaderReads(swap, pre, n, post);
    PartsRead(swap, pre, n, post);
  }

  /** Name and descriptor stand behind the three words, both padded. */
  lemma PartsRead(swap: bool, pre: seq<byte>, n: Note, post: seq<byte>)
    requires NoteFits(n)
    ensures var data, at, k := pre + NoteBytes(swap, n) + post, |pre| + 12, Align4(|n.name| + 1);
            && at + |n.name| <= at + k <= at + k + |n.desc| <= |data|
            && data[at..at + |n.name|] == n.name && data[at + k..at + k + |n.desc|] == n.desc
  {
    hide Word, WordAt, Align4, Pad, NameField, DescField;
    var data := pre + NoteBytes(swap, n) + post;
    var at := |pre|;
    var head := pre + (Word(swap, |n.name| + 1) + Word(swap, |n.desc|) + Word(swap, n.ntype));
    assert |head| == at + 12;
    var nameField, descField := NameField(n.name), DescField(n.desc);
    assert data == head + nameField + descField + post;
    Middle(head, nameField, descField + post, n.name);
    assert head + nameField + (descField + post) == data;
    Middle(head + nameField, descField, post, n.desc);
  }

  /** Every recorded start leads back to the note added there. */
  lemma {:induction false} EveryNoteReads(swap: bool, pre: seq<byte>, notes: seq<Note>, i: nat)
    requires AllFit(notes) && i < |notes|
    ensures var at := Starts(notes, |pre|)[i];
            |pre| + i <= at && at + 12 <= |pre + Encode(swap, notes)| && ReadNote(swap, pre + Encode(swap, notes), at) == Some(notes[i])
    decreases i
  {
    hide NoteBytes, ReadNote;
    var rec := NoteBytes(swap, notes[0]);
    var rest := Encode(swap, notes[1..]);
    assert |rec| == |NoteBytes(false, notes[0])|;
    assert pre + Encode(swap, notes) == pre + rec + rest;
    if i == 0 {
      NoteReads(swap, pre, notes[0], rest);
    } else {
      EveryNoteReads(swap, pre + rec, notes[1..], i - 1);
      assert Starts(notes, |pre|)[i] == Starts(notes[1..], |pre + rec|)[i - 1];
    }
  }

  /** What get_note computes at the i-th recorded start of a section filled with notes. */
  lemma NoteAt(swap: bool, notes: seq<Note>, i: nat)
    requires AllFit(notes) && i < |notes|
    ensures var data, at := Encode(swap, notes), Starts(notes, 0)[i];
            && i <= at && at + 12 <= |data|
            && ReadNote(swap, data, at) == Some(notes[i])
  {
    hide NoteFits, ReadNote, Starts, Encode;
    EveryNoteReads(swap, [], notes, i);
    assert [] + Encode(swap, notes) == Encode(swap, notes);
  }

  // ---------------------------------------------------------------- the accessor

  class NoteAccessor {
    const swap: bool
    const noteSection: Section
    var noteStartPositions: seq<nat>

    /** The constructor runs process_section. */
    constructor (swap: bool, noteSection: Section)
      requires noteSection.Valid() && noteSection.header.stype != SHT_NOBITS
      ensures this.swap == swap && this.noteSection == noteSection
      ensures noteStartPositions == Positions(swap, noteSection.Contents(), 0)
    {
      this.swap := swap;
      this.noteSection := noteSection;
      noteStartPositions := [];
      new;
      ProcessSection();
    }

    method ProcessSection()
      requires noteSection.Valid() && noteSection.header.stype != SHT_NOBITS
      modifies this
      ensures noteStartPositions == Positions(swap, noteSection.Contents(), 0)
    {
      hide Positions, ShdrFits;
      noteStartPositions := [];
      if noteSection.data == null || noteSection.header.size == 0 {
        NoPosition(swap, noteSection.Contents(), 0);
        return;
      }
      CollectPositions(noteSection.data[..noteSection.header.size]);
    }

    /** The parsing loop. */
    method CollectPositions(data: seq<byte>)
      requires noteStartPositions == []
      modifies this
      ensures noteStartPositions == Positions(swap, data, 0)
    {
      hide Align4, WordAt, Positions;
      var current := 0;
      assert [] + Positions(swap, data, 0) == Positions(swap, data, 0);
      while current + 12 <= |data|
        invariant noteStartPositions + Positions(swap, data, current) == Positions(swap, data, 0)
        decreases |data| - current
      {
        NextPosition(swap, data, current, noteStartPositions);
        noteStartPositions := noteStartPositions + [current];
        var namesz := WordAt(swap, data, current);
        var descsz := WordAt(swap, data, current + 4);
        current := current + 12 + Align4(namesz) + Align4(descsz);
      }
      NoPosition(swap, data, current);
    }

    /** True when the accessor and its section stand for these notes, added to an empty section. */
    ghost predicate Holds(notes: seq<Note>)
      reads this, noteSection, noteSection.data
    {
      && noteSection.Full() && noteSection.header.stype != SHT_NOBITS
      && AllFit(notes)
      && noteSection.Contents() == Encode(swap, notes)
      && noteStartPositions == Starts(notes, 0)
    }

    /** Builds the record of one note piece by piece. */
    static method Record(swap: bool, n: Note) returns (buffer: seq<byte>)
      requires NoteFits(n)
      ensures buffer == NoteBytes(swap, n)
    {
      hide Word, Align4, Zeros;
      var nameLen := |n.name| + 1;
      buffer := Word(swap, nameLen);
      buffer := buffer + Word(swap, |n.desc|);
      buffer := buffer + Word(swap, n.ntype);
      ghost var head := buffer;
      buffer := buffer + n.name;
      buffer := buffer + [0];
      if nameLen % 4 != 0 {
        buffer := buffer + Zeros(4 - nameLen % 4);
      }
      assert buffer == head + NameField(n.name);
      ghost var named := buffer;
      if |n.desc| != 0 {
        buffer := buffer + n.desc;
        if |n.desc| % 4 != 0 {
          buffer := buffer + Zeros(4 - |n.desc| % 4);
        }
      }
      assert buffer == named + DescField(n.desc);
    }

    method AddNote(n: Note, ghost notes: seq<Note>)
      requires Holds(notes) && NoteFits(n) && Room(noteSection.dataSize, |n.name| + |n.desc| + 20)
      requires this !in noteSection.Repr()
      modifies this, noteSection.Repr()
      ensures Holds(notes + [n])
      ensures fresh(noteSection.Repr() - old(noteSection.Repr()))
    {
      hide NoteBytes, Encode, Starts, ShdrFits;
      EncodeAppend(swap, notes, n, 0);
      var buffer := Record(swap, n);
      noteStartPositions := noteStartPositions + [noteSection.header.size];
      noteSection.AppendData(buffer);
    }

    /** The note at index i of those added so far. */
    method GetNote(i: nat, ghost notes: seq<Note>) returns (ok: bool, ntype: nat, name: seq<byte>, desc: seq<byte>)
      requires Holds(notes) && (i < |notes| || i >= noteSection.header.size)
      ensures ok <==> i < |notes|
      ensures ok ==> Note(ntype, name, desc) == notes[i]
    {
      hide NoteFits, AllFit, Encode, Starts, ShdrFits, ReadNote, FieldsInside, SizesOk, WordAt;
      ok, ntype, name, desc := false, 0, [], [];
      ghost var bytes := noteSection.Contents();
      if i < |notes| {
        NoteAt(swap, notes, i);
      }
      if i >= noteSection.header.size {
        return;
      }
      var data := if noteSection.data == null then [] else noteSection.data[..noteSection.header.size];
      assert data == bytes;
      FieldsThere(swap, data, noteStartPositions[i]);
      ok, ntype, name, desc := ReadFields(data, noteStartPositions[i]);
    }

    /** The fields of the note at a recorded start; the source reads them without looking further. */
    method ReadFields(data: seq<byte>, at: nat) returns (ok: bool, ntype: nat, name: seq<byte>, desc: seq<byte>)
      requires at + 12 <= |data|
      requires var namesz, descsz := WordAt(swap, data, at), WordAt(swap, data, at + 4);
               SizesOk(namesz, descsz, |data| - at) ==> FieldsInside(data, at, namesz, descsz)
      ensures ReadNote(swap, data, at) == if ok then Some(Note(ntype, name, desc)) else None
    {
      hide WordAt, Align4;
      ntype := WordAt(swap, data, at + 8);
      var namesz := WordAt(swap, data, at);
      var descSize := WordAt(swap, data, at + 4);
      var maxNameSize := |data| - at;
      if namesz > maxNameSize || (namesz + descSize) % M32 > maxNameSize {
        ok, name, desc := false, [], [];
        return;
      }
      ok, name, desc := true, data[at + 12..at + 12 + namesz - 1], [];
      if descSize != 0 {
        desc := data[at + 12 + Align4(namesz)..at + 12 + Align4(namesz) + descSize];
      } else {
        assert data[at + 12 + Align4(namesz)..at + 12 + Align4(namesz) + descSize] == [];
      }
    }
  }

  /** When the size test lets a note pass: the sizes fit, or their sum, taken in 32 bits, has wrapped
      around. */
  lemma SizesOkIff(namesz: nat, descsz: nat, room: nat)
    requires namesz < M32 && descsz < M32 && room < M32
    ensures SizesOk(namesz, descsz, room) <==>
            namesz <= room && (namesz + descsz <= room || M32 <= namesz + descsz <= M32 + room)
  {}

  /** Where the note behind the one at a position would start. */
  function After(swap: bool, data: seq<byte>, at: nat): nat
    requires at + 12 <= |data|
  {
    at + 12 + Align4(WordAt(swap, data, at)) + Align4(WordAt(swap, data, at + 4))
  }

  /** The positions follow each other. */
  predicate Linked(swap: bool, data: seq<byte>, ps: seq<nat>) {
    && (forall i :: 0 <= i < |ps| ==> ps[i] + 12 <= |data|)
    && (forall i, j :: 0 <= i < |ps| && j == i + 1 && j < |ps| ==> ps[j] == After(swap, data, ps[i]))
  }

  lemma PositionsCons(swap: bool, data: seq<byte>, current: nat)
    requires current + 12 <= |data|
    ensures After(swap, data, current) > current
    ensures Positions(swap, data, current) == [current] + Positions(swap, data, After(swap, data, current))
  {
    hide WordAt, Align4;
  }

  /** Parsing any bytes: from the first position on every note follows the one before, and none is left
      out as long as there is room for the three words. */
  lemma {:induction false} PositionsExact(swap: bool, data: seq<byte>, current: nat)
    ensures var ps := Positions(swap, data, current);
            && (ps == [] <==> current + 12 > |data|) && Linked(swap, data, ps)
            && (ps != [] ==> ps[0] == current && After(swap, data, ps[|ps| - 1]) + 12 > |data|)
    decreases |data| - current
  {
    hide Positions, After;
    if current + 12 <= |data| {
      PositionsCons(swap, data, current);
      PositionsExact(swap, data, After(swap, data, current));
    } else {
      NoPosition(swap, data, current);
    }
  }

  /** Starting a second accessor on a section filled by the first finds the same notes. */
  lemma ReparseAgrees(swap: bool, notes: seq<Note>)
    requires AllFit(notes)
    ensures Positions(swap, Encode(swap, notes), 0) == Starts(notes, 0)
  {
    assert [] + Encode(swap, notes) == Encode(swap, notes);
    Reparse(swap, [], notes);
  }
}
