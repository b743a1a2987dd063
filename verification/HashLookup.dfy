/** Symbol lookup by name through the hash section (elfio_symbols.hpp). */
module HashLookup {
  import opened Bytes
  import opened ElfTypes
  import opened ElfSection
  import opened Options
  import opened StringTable
  import opened SymbolTable
  import opened NameHash

  /** The sections a lookup consults: symbol table, its string table, and the hash section. */
  datatype Env = Env(c: Class, swap: bool, tab: seq<byte>, entsize: nat, strtab: seq<byte>, hash: seq<byte>) {
    predicate Ok() { entsize >= SymSize(c) && |hash| >= 8 }

    function SymbolsNum(): nat { EntriesNum(|tab|, entsize) }

    function Symbol(k: nat): (r: Option<Sym>)
      requires Ok()
      ensures r.Some? <==> k < SymbolsNum()
    {
      GetSymbol(c, swap, tab, entsize, k)
    }

    function NameOf(k: nat): (r: Option<seq<byte>>)
      requires Ok()
      ensures r.Some? ==> k < SymbolsNum() && 0 !in r.value
    {
      match Symbol(k)
      case None => None
      case Some(s) => GetString(strtab, s.name)
    }

    /** Word k of the hash section, read as the host stores words: without conversion. */
    function Word(k: nat): nat
      requires 4 * k + 4 <= |hash|
    {
      FromLE(hash[4 * k..4 * k + 4])
    }

    function NBucket(): nat
      requires Ok()
    {
      Word(0)
    }

    function NChain(): nat
      requires Ok()
    {
      Word(1)
    }

    predicate WordsOk()
      requires Ok()
    {
      NBucket() > 0 && NChain() == SymbolsNum() > 0 && 4 * (2 + NBucket() + NChain()) <= |hash|
    }

    function Bucket(name: seq<byte>): nat
      requires Ok() && WordsOk()
    {
      Word(2 + (ElfHash(CStr(name)) as nat) % NBucket())
    }

    function Chain(y: nat): nat
      requires Ok() && WordsOk() && y < NChain()
    {
      Word(2 + NBucket() + y)
    }

    /** Following the chain words from y visits exactly path and then ends at STN_UNDEF. */
    predicate ChainFrom(y: nat, path: seq<nat>)
      requires Ok() && WordsOk()
      decreases |path|
    {
      if path == [] then y == STN_UNDEF
      else y == path[0] && 0 < y < NChain() && ChainFrom(Chain(y), path[1..])
    }

    /** A hash section as the System V gABI, chapter 5, "Hash Table" describes it: chains end,
        and every named symbol is on the chain of its own hash. Symbol 0 is the null symbol. */
    ghost predicate WellFormed()
      requires Ok()
    {
      && WordsOk()
      && (NameOf(0).Some? ==> NameOf(0).value == [])
      && (forall name: seq<byte> :: exists path :: ChainFrom(Bucket(name), path))
      && (forall k :: 0 < k < SymbolsNum() && NameOf(k).Some? ==>
            exists path :: ChainFrom(Bucket(NameOf(k).value), path) && k in path)
    }

    /** The first symbol at or after k with the given name, found by scanning the table. */
    function LinearScan(name: seq<byte>, k: nat): Option<nat>
      requires Ok()
      decreases SymbolsNum() - k
    {
      if k >= SymbolsNum() then None
      else if NameOf(k) == Some(name) then Some(k)
      else LinearScan(name, k + 1)
    }
  }

  /** 32-bit words, least significant byte first. */
  function Words(ws: seq<nat>): (s: seq<byte>)
    ensures |s| == 4 * |ws|
  {
    if ws == [] then [] else Words(ws[..|ws| - 1]) + LE(ws[|ws| - 1], 4)
  }

  lemma {:induction false} WordsAt(ws: seq<nat>, k: nat)
    requires k < |ws|
    ensures Words(ws)[4 * k..4 * k + 4] == LE(ws[k], 4)
    decreases |ws|
  {
    hide LE;
    var n := |ws| - 1;
    if k < n {
      WordsAt(ws[..n], k);
      assert Words(ws)[4 * k..4 * k + 4] == Words(ws[..n])[4 * k..4 * k + 4];
    }
  }

  lemma WordIs(e: Env, ws: seq<nat>, k: nat)
    requires e.hash == Words(ws) && k < |ws| && ws[k] < M32
    ensures e.Word(k) == ws[k]
  {
    PowValues();
    WordsAt(ws, k);
    StoreLoad(ws[k], 4);
  }

  /** A hash section as the gABI draws it: nbucket, nchain, the buckets and then the chains. */
  ghost predicate Drawn(e: Env, buckets: seq<nat>, chains: seq<nat>) {
    && e.hash == Words([|buckets|, |chains|] + buckets + chains)
    && 0 < |buckets| < M32 && |chains| < M32
    && forall w :: w in buckets || w in chains ==> w < M32
  }

  lemma DrawnWords(e: Env, buckets: seq<nat>, chains: seq<nat>)
    requires Drawn(e, buckets, chains)
    ensures |e.hash| == 4 * (2 + |buckets| + |chains|) && e.Word(0) == |buckets| && e.Word(1) == |chains|
    ensures forall b :: 0 <= b < |buckets| ==> e.Word(2 + b) == buckets[b]
    ensures forall y :: 0 <= y < |chains| ==> e.Word(2 + |buckets| + y) == chains[y]
  {
    hide Env.Word, Words;
    var ws := [|buckets|, |chains|] + buckets + chains;
    WordIs(e, ws, 0);
    WordIs(e, ws, 1);
    forall b | 0 <= b < |buckets| ensures e.Word(2 + b) == buckets[b] {
      assert ws[2 + b] == buckets[b] && buckets[b] in buckets;
      WordIs(e, ws, 2 + b);
    }
    forall y | 0 <= y < |chains| ensures e.Word(2 + |buckets| + y) == chains[y] {
      assert ws[2 + |buckets| + y] == chains[y] && chains[y] in chains;
      WordIs(e, ws, 2 + |buckets| + y);
    }
  }

  /** From such a section a lookup takes the bucket of the name's hash and the chain words. */
  lemma SectionReads(e: Env, buckets: seq<nat>, chains: seq<nat>, name: seq<byte>, y: nat)
    requires e.Ok() && Drawn(e, buckets, chains) && |chains| == e.SymbolsNum() && y < |chains|
    ensures e.WordsOk() && e.Bucket(name) == buckets[(ElfHash(CStr(name)) as nat) % |buckets|] && e.Chain(y) == chains[y]
  {
    hide ElfHash, CStr, Env.Word, Words, Drawn;
    assert |buckets| > 0 by { DrawnSome(e, buckets, chains); }
    DrawnWords(e, buckets, chains);
  }

  lemma DrawnSome(e: Env, buckets: seq<nat>, chains: seq<nat>)
    requires Drawn(e, buckets, chains)
    ensures |buckets| > 0
  {}

  lemma {:induction false} ScanFinds(e: Env, name: seq<byte>, k: nat)
    requires e.Ok()
    ensures e.LinearScan(name, k).Some? <==> exists j :: k <= j < e.SymbolsNum() && e.NameOf(j) == Some(name)
    decreases e.SymbolsNum() - k
  {
    hide Env.NameOf;
    if k < e.SymbolsNum() && e.NameOf(k) != Some(name) {
      ScanFinds(e, name, k + 1);
    }
  }

  lemma {:induction false} ChainUnique(e: Env, y: nat, p: seq<nat>, q: seq<nat>)
    requires e.Ok() && e.WordsOk() && e.ChainFrom(y, p) && e.ChainFrom(y, q)
    ensures p == q
    decreases |p|
  {
    if p != [] && q != [] {
      ChainUnique(e, e.Chain(y), p[1..], q[1..]);
      assert p == [y] + p[1..] && q == [y] + q[1..];
    }
  }

  lemma WellFormedParts(e: Env)
    requires e.Ok() && e.WellFormed()
    ensures e.WordsOk() && (e.NameOf(0).Some? ==> e.NameOf(0).value == [])
  {}

  /** The chain a lookup walks carries every symbol with the name looked up. */
  lemma Candidates(e: Env, name: seq<byte>) returns (path: seq<nat>)
    requires e.Ok() && e.WellFormed() && name != []
    ensures e.ChainFrom(e.Bucket(name), path)
    ensures forall k :: 0 <= k < e.SymbolsNum() && e.NameOf(k) == Some(name) ==> k in path
  {
    hide ElfHash, CStr, FromLE, Env.ChainFrom, Env.NameOf;
    path :| e.ChainFrom(e.Bucket(name), path);
    forall k | 0 <= k < e.SymbolsNum() && e.NameOf(k) == Some(name)
      ensures k in path
    {
      var q :| e.ChainFrom(e.Bucket(name), q) && k in q;
      ChainUnique(e, e.Bucket(name), path, q);
    }
  }

  // ---------------------------------------------------------------- the lookup

  datatype Info = Info(value: nat, size: nat, bind: nat, symType: nat, shndx: nat, other: nat)

  function InfoOf(s: Sym): Info {
    Info(s.value, s.size, StBind(s.info), StType(s.info), s.shndx, s.other)
  }

  /** get_symbol by index: on success every field is set, the name only when it resolves. */
  method GetByIndex(e: Env, k: nat, str0: seq<byte>, info0: Info) returns (str: seq<byte>, info: Info, ok: bool)
    requires e.Ok()
    ensures ok <==> k < e.SymbolsNum()
    ensures ok ==> info == InfoOf(e.Symbol(k).value)
    ensures str == if e.NameOf(k).Some? then e.NameOf(k).value else str0
    ensures !ok ==> info == info0
  {
    str, info, ok := str0, info0, false;
    if k < EntriesNum(|e.tab|, e.entsize) {
      var s := e.Symbol(k).value;
      var name := GetString(e.strtab, s.name);
      if name.Some? {
        str := name.value;
      }
      info := InfoOf(s);
      ok := true;
    }
  }

  /** get_symbol by name: terminates, and succeeds exactly when scanning the table would. */
  method Lookup(e: Env, name: seq<byte>, info0: Info) returns (found: bool, info: Info)
    requires e.Ok() && e.WellFormed() && name != []
    ensures found <==> e.LinearScan(name, 0).Some?
    ensures found ==> exists k :: 0 <= k < e.SymbolsNum() && e.NameOf(k) == Some(name)
                                  && info == InfoOf(e.Symbol(k).value)
  {
    hide ElfHash, CStr, FromLE, InfoOf, Env.NameOf, Env.Symbol, Env.LinearScan, Env.WellFormed;
    assert e.WordsOk() && (e.NameOf(0).Some? ==> e.NameOf(0).value == []) by { WellFormedParts(e); }
    ghost var rest := Candidates(e, name);
    ScanFinds(e, name, 0);
    var nbucket := e.Word(0);
    var nchain := e.Word(1);
    var val := ComputeHash(name);
    var y: nat := e.Word(2 + (val as nat) % nbucket);
    var str, ok;
    str, info, ok := GetByIndex(e, y, [], info0);
    while str != name && y != STN_UNDEF && y < nchain
      invariant e.ChainFrom(y, rest) && y < e.SymbolsNum()
      invariant e.NameOf(y) == Some(name) ==> str == name
      invariant str == name ==> e.NameOf(y) == Some(name) && info == InfoOf(e.Symbol(y).value)
      invariant forall k :: 0 <= k < e.SymbolsNum() && e.NameOf(k) == Some(name) ==> k in rest
      decreases |rest|
    {
      assert e.NameOf(y) != Some(name);
      y := e.Word(2 + nbucket + y);
      rest := rest[1..];
      str, info, ok := GetByIndex(e, y, str, info);
    }
    found := str == name;
  }

  /** find_hash_section: the first section after section 0 that links to the symbol table. */
  method FindHashSection(links: seq<nat>, symbolIndex: nat) returns (index: nat)
    ensures index == 0 ==> forall i :: 0 < i < |links| ==> links[i] != symbolIndex
    ensures index != 0 ==> index < |links| && links[index] == symbolIndex
                           && forall i :: 0 < i < index ==> links[i] != symbolIndex
  {
    index := 0;
    var i := 0;
    while i < |links| && index == 0
      invariant 0 <= i <= |links|
      invariant index == 0 ==> forall k :: 0 < k < i ==> links[k] != symbolIndex
      invariant index != 0 ==> index < i && links[index] == symbolIndex
                               && forall k :: 0 < k < index ==> links[k] != symbolIndex
      decreases |links| - i
    {
      if links[i] == symbolIndex {
        index := i;
      }
      i := i + 1;
    }
  }
}
