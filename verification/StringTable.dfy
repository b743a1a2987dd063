/** String tables: NUL-terminated names addressed by byte offset (elfio_strings.hpp). */
module StringTable {
  import opened Bytes
  import opened ElfTypes
  import opened ElfSection
  import opened Options

  /** The table after adding str, and the offset handed out. An empty table first gets a
      NUL, so that offset 0 names the empty string; str ends at its first NUL. */
  function AddString(tab: seq<byte>, str: seq<byte>): (seq<byte>, nat) {
    if tab == [] then ([0] + CStr(str) + [0], 1) else (tab + CStr(str) + [0], |tab|)
  }

  /** The C string at an offset inside the table. A string without terminator ends with the
      table: load puts a NUL there. */
  function GetString(tab: seq<byte>, index: nat): Option<seq<byte>> {
    if index < |tab| then Some(CStr(tab[index..])) else None
  }

  predicate Terminated(tab: seq<byte>) {
    tab == [] || (tab[0] == 0 && tab[|tab| - 1] == 0)
  }

  /** The offset returned by an addition reads back the string added. */
  lemma AddThenGet(tab: seq<byte>, str: seq<byte>)
    ensures var (t, pos) := AddString(tab, str);
            && GetString(t, pos) == Some(CStr(str))
            && pos == (if tab == [] then 1 else |tab|) && |t| == pos + |CStr(str)| + 1
  {
    var (t, pos) := AddString(tab, str);
    assert t[pos..] == CStr(str) + [0] + [];
    CStrTerminated(CStr(str), []);
  }

  lemma AddTerminates(tab: seq<byte>, str: seq<byte>)
    requires Terminated(tab)
    ensures Terminated(AddString(tab, str).0) && tab <= AddString(tab, str).0
    ensures AddString(tab, str).0 != [] && AddString(tab, str).1 > 0
  {}

  /** Growing a table never changes the strings already in it. */
  lemma GetStable(tab: seq<byte>, grown: seq<byte>, index: nat)
    requires Terminated(tab) && tab <= grown && index < |tab|
    ensures GetString(grown, index) == GetString(tab, index)
  {
    assert tab[index..][|tab| - 1 - index] == 0;
    assert grown[index..] == tab[index..] + grown[|tab|..];
    CStrStable(tab[index..], grown[|tab|..]);
  }

  // ---------------------------------------------------------------- the accessor

  /** No append of up to n more bytes makes the 32-bit capacity wrap. */
  predicate Room(capacity: nat, n: nat) {
    4 * (capacity + n + 2) < M32
  }

  method Add(table: Section?, str: seq<byte>) returns (pos: nat)
    requires table != null ==> table.Full() && table.header.stype != SHT_NOBITS && Room(table.dataSize, |str|)
    modifies if table == null then {} else table.Repr()
    ensures table == null ==> pos == 0
    ensures table != null ==> table.Full() && fresh(table.Repr() - old(table.Repr()))
    ensures table != null ==> (table.Contents(), pos) == AddString(old(table.Contents()), str)
    ensures table != null ==> table.header == old(table.header).(size := |table.Contents()|)
    ensures table != null ==> table.index == old(table.index) && table.name == old(table.name)
                              && table.addressSet == old(table.addressSet)
  {
    hide CStr, ShdrFits;
    pos := 0;
    if table != null {
      ghost var before := table.Contents();
      assert |before| == table.header.size;
      pos := table.header.size;
      if pos == 0 {
        table.AppendData([0]);
        pos := pos + 1;
      }
      assert table.Contents() == if before == [] then [0] else before;
      table.AppendData(CStr(str) + [0]);
      assert table.Contents() == (if before == [] then [0] else before) + CStr(str) + [0];
    }
  }

  method Get(table: Section?, index: nat) returns (r: Option<seq<byte>>)
    requires table != null ==> table.Valid() && table.header.stype != SHT_NOBITS
    ensures r == if table == null then None else GetString(table.Contents(), index)
  {
    r := None;
    if table != null {
      if index < table.header.size && table.data != null {
        r := Some(CStr(table.data[..table.header.size][index..]));
      }
    }
  }
}
