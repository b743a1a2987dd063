/** The image registry shared by the profiler's workers (identification/tools/profiler.cpp,
    update_image_registry): images are identified by name and hash, and get numbers that stay. */
module ImageRegistry {
  import opened Options
  import opened Images
  import opened OrderedKeys

  /** Image tables by program. */
  type Registry = map<string, Table>

  predicate SameFile(a: Image, b: Image) { a.name == b.name && a.sha1 == b.sha1 }

  /** A table as it should be: images under their own number, no image twice, not empty. */
  predicate TableOk(t: Table) {
    && t.Keys != {}
    && (forall k :: k in t ==> t[k].seqno == k)
    && (forall j, k :: j in t && k in t && SameFile(t[j], t[k]) ==> j == k)
  }

  // ---------------------------------------------------------------- one image

  /** The first of some keys under which the image is registered. */
  function FindIn(t: Table, keys: seq<int>, img: Image): (r: Option<int>)
    requires forall i :: 0 <= i < |keys| ==> keys[i] in t
    ensures r.Some? ==> r.value in t && SameFile(img, t[r.value])
    ensures r.None? ==> forall i :: 0 <= i < |keys| ==> !SameFile(img, t[keys[i]])
  {
    if keys == [] then None
    else if SameFile(img, t[keys[0]]) then Some(keys[0])
    else
      var r := FindIn(t, keys[1..], img);
      assert r.None? ==> forall i :: 0 < i < |keys| ==> keys[1..][i - 1] == keys[i];
      r
  }

  function Find(t: Table, img: Image): (r: Option<int>)
    ensures r.Some? ==> r.value in t && SameFile(img, t[r.value])
    ensures r.None? ==> forall k :: k in t ==> !SameFile(img, t[k])
  {
    IntsTotal();
    var keys := Ascending(IntLess, t.Keys);
    assert forall i :: 0 <= i < |keys| ==> keys[i] in keys && keys[i] in t.Keys;
    FindIn(t, keys, img)
  }

  /** One more than the largest number. */
  function NextId(t: Table): (n: int)
    requires t.Keys != {}
    ensures forall k :: k in t ==> k < n
    ensures n - 1 in t
  {
    Largest(t.Keys) + 1
  }

  function Largest(s: set<int>): (n: int)
    requires s != {}
    ensures n in s && forall k :: k in s ==> k <= n
  {
    IntsTotal();
    LargestLast(s);
    var keys := Ascending(IntLess, s);
    keys[|keys| - 1]
  }

  lemma LargestLast(s: set<int>)
    requires s != {} && Total(IntLess)
    ensures var keys := Ascending(IntLess, s);
            keys != [] && keys[|keys| - 1] in s && forall k :: k in s ==> k <= keys[|keys| - 1]
  {
    var keys := Ascending(IntLess, s);
    forall k | k in s ensures k <= keys[|keys| - 1] {
      var i := IndexOf(keys, k);
      if i < |keys| - 1 { IncreasingAt(IntLess, keys, i, |keys| - 1); }
    }
  }

  // ---------------------------------------------------------------- one table

  /** Registry, pending updates, and the table of the trace. */
  datatype Books = Books(registry: Registry, update: Registry, imgs: Table)

  function Get(r: Registry, program: string): Table { if program in r then r[program] else map[] }

  /** The images under some keys, in order: known ones take the number they are registered
      under, others the next free one. */
  function RegisterFrom(b: Books, program: string, keys: seq<int>): Books
    requires program in b.registry && b.registry[program].Keys != {}
    requires forall k :: k in keys ==> k in b.imgs
    decreases |keys|
  {
    if keys == [] then b else RegisterFrom(RegisterOne(b, program, keys[0]), program, keys[1..])
  }

  function RegisterOne(b: Books, program: string, k: int): (r: Books)
    requires program in b.registry && b.registry[program].Keys != {} && k in b.imgs
    ensures program in r.registry && r.registry[program].Keys != {} && r.imgs.Keys == b.imgs.Keys
  {
    var reg, img := b.registry[program], b.imgs[k];
    match Find(reg, img)
    case Some(id) => b.(imgs := b.imgs[k := img.(seqno := id)])
    case None =>
      var id := NextId(reg);
      var added := img.(seqno := id);
      Books(b.registry[program := reg[id := added]],
            b.update[program := Get(b.update, program)[id := added]],
            b.imgs[k := added])
  }

  /** The first trace of a program brings the table; the others look their images up. */
  function Register(b: Books, program: string): Books
    requires program in b.registry ==> b.registry[program].Keys != {}
  {
    if program !in b.registry then
      Books(b.registry[program := b.imgs], b.update[program := b.imgs], b.imgs)
    else
      IntsTotal();
      RegisterFrom(b, program, Ascending(IntLess, b.imgs.Keys))
  }

  // ---------------------------------------------------------------- what registration promises

  ghost predicate RegistryOk(r: Registry) { forall p :: p in r ==> TableOk(r[p]) }

  /** Entries stay, with their numbers. */
  ghost predicate Grows(a: Registry, b: Registry) {
    forall p :: p in a ==> p in b && forall k :: k in a[p] ==> k in b[p] && b[p][k] == a[p][k]
  }

  /** The image under key k has the number under which its file is registered. */
  ghost predicate Numbered(t: Table, before: Image, after: Image) {
    && after == before.(seqno := after.seqno)
    && after.seqno in t && SameFile(t[after.seqno], before)
  }

  /** Every image of a trace's table has been renumbered. */
  ghost predicate Renumbered(t: Table, before: Table, after: Table) {
    after.Keys == before.Keys && forall k :: k in before ==> Numbered(t, before[k], after[k])
  }

  /** update holds exactly what the registry has beyond what it started with. */
  ghost predicate Journal(start: Registry, b: Books) {
    && (forall p :: p in b.registry <==> p in start || p in b.update)
    && forall p :: Get(start, p).Keys !! Get(b.update, p).Keys && Get(b.registry, p) == Get(start, p) + Get(b.update, p)
  }

  lemma OneKeepsTable(t: Table, img: Image)
    requires TableOk(t) && Find(t, img).None?
    ensures TableOk(t[NextId(t) := img.(seqno := NextId(t))])
  {}

  lemma GrowsTransitive(a: Registry, b: Registry, c: Registry)
    requires Grows(a, b) && Grows(b, c)
    ensures Grows(a, c)
  {}

  lemma OneRegistered(b: Books, program: string, k: int)
    requires RegistryOk(b.registry) && program in b.registry && k in b.imgs && b.registry[program].Keys != {}
    ensures var r := RegisterOne(b, program, k);
            && RegistryOk(r.registry) && Grows(b.registry, r.registry)
            && r.imgs.Keys == b.imgs.Keys && Numbered(r.registry[program], b.imgs[k], r.imgs[k])
            && (forall j :: j in b.imgs && j != k ==> r.imgs[j] == b.imgs[j])
  {
    hide TableOk, Find, NextId;
    var t := b.registry[program];
    if Find(t, b.imgs[k]).None? {
      OneKeepsTable(t, b.imgs[k]);
    }
  }

  lemma OneJournaled(start: Registry, b: Books, program: string, k: int)
    requires program in b.registry && k in b.imgs && b.registry[program].Keys != {} && Journal(start, b)
    ensures Journal(start, RegisterOne(b, program, k))
  {
    hide Journal, Find, NextId;
    var t := b.registry[program];
    if Find(t, b.imgs[k]).None? {
      var id, img := NextId(t), b.imgs[k].(seqno := NextId(t));
      JournalOne(start, b, program, id, img);
      JournalSame(start, Books(b.registry[program := t[id := img]], b.update[program := Get(b.update, program)[id := img]], b.imgs),
                  b.imgs[k := img]);
    } else {
      JournalSame(start, b, RegisterOne(b, program, k).imgs);
    }
  }

  lemma JournalSame(start: Registry, b: Books, imgs: Table)
    requires Journal(start, b)
    ensures Journal(start, b.(imgs := imgs))
  {}

  lemma TableNotEmpty(t: Table)
    requires TableOk(t)
    ensures t.Keys != {}
  {}

  lemma JournalOne(start: Registry, b: Books, program: string, id: int, img: Image)
    requires Journal(start, b) && program in b.registry && id !in b.registry[program]
    ensures Journal(start, Books(b.registry[program := b.registry[program][id := img]],
                                 b.update[program := Get(b.update, program)[id := img]], b.imgs))
  {
    var c := Books(b.registry[program := b.registry[program][id := img]],
                   b.update[program := Get(b.update, program)[id := img]], b.imgs);
    forall p ensures Get(start, p).Keys !! Get(c.update, p).Keys && Get(c.registry, p) == Get(start, p) + Get(c.update, p) {
      assert Get(b.registry, p) == Get(start, p) + Get(b.update, p);
      if p == program {
        OneMoreEntry(Get(start, p), Get(b.update, p), Get(b.registry, p), id, img);
      }
    }
  }

  lemma OneMoreEntry(a: Table, b: Table, all: Table, id: int, img: Image)
    requires a.Keys !! b.Keys && all == a + b && id !in all
    ensures a.Keys !! b[id := img].Keys && all[id := img] == a + b[id := img]
  {
    assert id !in a;
  }

  lemma {:induction false} FromRegistered(start: Registry, b: Books, program: string, keys: seq<int>)
    requires RegistryOk(b.registry) && program in b.registry && b.registry[program].Keys != {}
    requires (forall k :: k in keys ==> k in b.imgs) && Increasing(IntLess, keys)
    ensures var r := RegisterFrom(b, program, keys);
            && RegistryOk(r.registry) && Grows(b.registry, r.registry)
            && r.imgs.Keys == b.imgs.Keys && program in r.registry
            && (forall k :: k in keys ==> Numbered(r.registry[program], b.imgs[k], r.imgs[k]))
            && (forall k :: k in b.imgs && k !in keys ==> r.imgs[k] == b.imgs[k])
    ensures Journal(start, b) ==> Journal(start, RegisterFrom(b, program, keys))
    decreases |keys|
  {
    hide RegisterOne, TableOk, Journal, Numbered;
    if keys != [] {
      var c := RegisterOne(b, program, keys[0]);
      OneRegistered(b, program, keys[0]);
      if Journal(start, b) { OneJournaled(start, b, program, keys[0]); }
      assert keys[0] !in keys[1..] by { Ahead(keys); }
      FromRegistered(start, c, program, keys[1..]);
      var r := RegisterFrom(c, program, keys[1..]);
      GrowsTransitive(b.registry, c.registry, r.registry);
      StaysNumbered(c.registry[program], r.registry[program], b.imgs[keys[0]], c.imgs[keys[0]]);
    } else {
      assert Grows(b.registry, b.registry);
    }
  }

  lemma Ahead(keys: seq<int>)
    requires Increasing(IntLess, keys) && keys != []
    ensures keys[0] !in keys[1..] && Increasing(IntLess, keys[1..])
  {
    forall i | 0 <= i < |keys[1..]| ensures keys[1..][i] != keys[0] {
      assert IntLess(keys[0], keys[i + 1]);
    }
  }

  lemma StaysNumbered(t: Table, u: Table, before: Image, after: Image)
    requires Numbered(t, before, after) && forall k :: k in t ==> k in u && u[k] == t[k]
    ensures Numbered(u, before, after)
  {}

  /** The registry only grows and keeps its numbers, stays free of duplicates, and every image of
      the table gets the number of its file. */
  lemma Registered(start: Registry, b: Books, program: string)
    requires RegistryOk(b.registry) && TableOk(b.imgs)
    ensures var r := Register(b, program);
            && RegistryOk(r.registry) && Grows(b.registry, r.registry) && program in r.registry
            && Renumbered(r.registry[program], b.imgs, r.imgs)
    ensures Journal(start, b) ==> Journal(start, Register(b, program))
  {
    hide RegisterFrom, Journal;
    IntsTotal();
    if program in b.registry {
      FromRegistered(start, b, program, Ascending(IntLess, b.imgs.Keys));
    } else if Journal(start, b) {
      JournalFirst(start, b, program);
    }
  }

  lemma JournalFirst(start: Registry, b: Books, program: string)
    requires Journal(start, b) && program !in b.registry
    ensures Journal(start, Books(b.registry[program := b.imgs], b.update[program := b.imgs], b.imgs))
  {
    var c := Books(b.registry[program := b.imgs], b.update[program := b.imgs], b.imgs);
    forall p ensures Get(start, p).Keys !! Get(c.update, p).Keys && Get(c.registry, p) == Get(start, p) + Get(c.update, p) {
      assert Get(b.registry, p) == Get(start, p) + Get(b.update, p);
      assert program !in start;
    }
  }

  // ---------------------------------------------------------------- the numbers of new images

  /** No registered image is this file. */
  ghost predicate Unknown(t: Table, img: Image) { forall k :: k in t ==> !SameFile(img, t[k]) }

  /** How many of the first n images are new. */
  ghost function NewBefore(t: Table, imgs: Table, keys: seq<int>, n: nat): nat
    requires n <= |keys| && forall i :: 0 <= i < |keys| ==> keys[i] in imgs
  {
    if n == 0 then 0 else
      (if Unknown(t, imgs[keys[0]]) then 1 else 0) + NewBefore(t, imgs, keys[1..], n - 1)
  }

  lemma {:induction false} SameNew(t: Table, imgs: Table, u: Table, jmgs: Table, keys: seq<int>, n: nat)
    requires n <= |keys|
    requires forall i :: 0 <= i < |keys| ==>
               keys[i] in imgs && keys[i] in jmgs && (Unknown(t, imgs[keys[i]]) <==> Unknown(u, jmgs[keys[i]]))
    ensures NewBefore(t, imgs, keys, n) == NewBefore(u, jmgs, keys, n)
  {
    hide Unknown;
    if n > 0 {
      SameNew(t, imgs, u, jmgs, keys[1..], n - 1);
    }
  }

  /** The images of the list are different files. */
  ghost predicate NoTwins(imgs: Table, keys: seq<int>) {
    && (forall k :: k in keys ==> k in imgs)
    && forall i, j :: 0 <= i < j < |keys| ==> keys[i] != keys[j] && !SameFile(imgs[keys[j]], imgs[keys[i]])
  }

  /** One registration, as the others see it. */
  lemma OneNumbered(b: Books, program: string, keys: seq<int>)
    requires program in b.registry && b.registry[program].Keys != {} && keys != [] && NoTwins(b.imgs, keys)
    ensures var c := RegisterOne(b, program, keys[0]);
            var t, u := b.registry[program], c.registry[program];
            && (Unknown(t, b.imgs[keys[0]]) ==> c.imgs[keys[0]].seqno == NextId(t) && NextId(u) == NextId(t) + 1)
            && (!Unknown(t, b.imgs[keys[0]]) ==> NextId(u) == NextId(t))
            && NoTwins(c.imgs, keys[1..])
            && forall k :: k in keys[1..] ==> (Unknown(u, c.imgs[k]) <==> Unknown(t, b.imgs[k]))
  {
    hide NextId, Find;
    var c := RegisterOne(b, program, keys[0]);
    var t, u := b.registry[program], c.registry[program];
    forall k | k in keys[1..] ensures k in keys && k != keys[0] && !SameFile(b.imgs[k], b.imgs[keys[0]]) && c.imgs[k] == b.imgs[k] {
      var i :| 0 <= i < |keys[1..]| && keys[1..][i] == k;
      assert keys[i + 1] == k;
    }
    if Find(t, b.imgs[keys[0]]).None? {
      OneMoreId(t, u);
    }
  }

  lemma OneMoreId(t: Table, u: Table)
    requires t.Keys != {} && u.Keys == t.Keys + {NextId(t)}
    ensures NextId(u) == NextId(t) + 1
  {}

  /** New images get the next free numbers one after the other, in the order of the table. */
  lemma {:induction false} NewNumbers(b: Books, program: string, keys: seq<int>, i: nat)
    requires program in b.registry && b.registry[program].Keys != {} && i < |keys| && NoTwins(b.imgs, keys)
    ensures var t, r := b.registry[program], RegisterFrom(b, program, keys);
            && keys[i] in r.imgs
            && (Unknown(t, b.imgs[keys[i]]) ==> r.imgs[keys[i]].seqno == NextId(t) + NewBefore(t, b.imgs, keys, i))
    decreases |keys|
  {
    hide RegisterOne, NextId, Unknown, SameFile;
    var c := RegisterOne(b, program, keys[0]);
    OneNumbered(b, program, keys);
    if i == 0 {
      OthersStay(c, program, keys[1..], keys[0]);
    } else {
      NewNumbers(c, program, keys[1..], i - 1);
      SameNew(c.registry[program], c.imgs, b.registry[program], b.imgs, keys[1..], i - 1);
    }
  }

  lemma {:induction false} OthersStay(b: Books, program: string, keys: seq<int>, k: int)
    requires program in b.registry && b.registry[program].Keys != {} && (forall j :: j in keys ==> j in b.imgs)
    requires k in b.imgs && k !in keys
    ensures k in RegisterFrom(b, program, keys).imgs && RegisterFrom(b, program, keys).imgs[k] == b.imgs[k]
    decreases |keys|
  {
    hide Find, NextId;
    if keys != [] {
      OthersStay(RegisterOne(b, program, keys[0]), program, keys[1..], k);
    }
  }

  /** A table of a known program: its new images get the numbers from the next free one on, by
      ascending key. */
  lemma NewNumbersAscend(b: Books, program: string, i: nat)
    requires RegistryOk(b.registry) && TableOk(b.imgs) && program in b.registry
    ensures Total(IntLess) && b.registry[program].Keys != {}
    ensures var keys, t, r := Ascending(IntLess, b.imgs.Keys), b.registry[program], Register(b, program);
            i < |keys| && Unknown(t, b.imgs[keys[i]]) ==>
              keys[i] in r.imgs && r.imgs[keys[i]].seqno == NextId(t) + NewBefore(t, b.imgs, keys, i)
  {
    hide RegisterFrom, NextId, Unknown;
    IntsTotal();
    var keys := Ascending(IntLess, b.imgs.Keys);
    assert NoTwins(b.imgs, keys) by {
      forall i, j | 0 <= i < j < |keys| ensures keys[i] != keys[j] && !SameFile(b.imgs[keys[j]], b.imgs[keys[i]]) {
        IncreasingAt(IntLess, keys, i, j);
      }
    }
    if i < |keys| {
      NewNumbers(b, program, keys, i);
    }
  }

  // ---------------------------------------------------------------- the loops

  class Registrar {
    var registry: Registry
    var update: Registry

    function Abs(imgs: Table): Books
      reads this
    {
      Books(registry, update, imgs)
    }

    constructor (known: Registry)
      ensures registry == known && update == map[]
    {
      registry, update := known, map[];
    }

    /** The inner loop: the registered images in ascending order, up to the first match. */
    method Lookup(program: string, img: Image) returns (r: Option<int>)
      requires program in registry
      ensures r == Find(registry[program], img)
    {
      hide Increasing, Total, IntLess, Ascending;
      IntsTotal();
      var keys := Ascending(IntLess, registry[program].Keys);
      forall j | 0 <= j < |keys| ensures keys[j] in registry[program] {
        assert keys[j] in keys && keys[j] in registry[program].Keys;
      }
      assert keys[0..] == keys;
      var i := 0;
      while i < |keys|
        invariant i <= |keys|
        invariant FindIn(registry[program], keys[i..], img) == FindIn(registry[program], keys, img)
      {
        assert keys[i..][0] == keys[i] && keys[i..][1..] == keys[i + 1..];
        if img.name == registry[program][keys[i]].name && img.sha1 == registry[program][keys[i]].sha1 {
          return Some(keys[i]);
        }
        i := i + 1;
      }
      r := None;
    }

    /** One image of the caller's table. */
    method RegisterImage(program: string, imgs: Table, k: int) returns (out: Table)
      requires program in registry && registry[program].Keys != {} && k in imgs
      modifies this
      ensures Abs(out) == RegisterOne(old(Abs(imgs)), program, k)
    {
      hide Find, NextId;
      var found := Lookup(program, imgs[k]);
      if found.Some? {
        out := imgs[k := imgs[k].(seqno := found.value)];
      } else {
        var id := NextId(registry[program]);
        out := imgs[k := imgs[k].(seqno := id)];
        registry := registry[program := registry[program][id := out[k]]];
        update := update[program := Get(update, program)[id := out[k]]];
      }
    }

    /** update_image_registry; the caller's table comes back renumbered. */
    method UpdateImageRegistry(program: string, imgs: Table) returns (out: Table)
      requires program in registry ==> registry[program].Keys != {}
      modifies this
      ensures Abs(out) == Register(old(Abs(imgs)), program)
    {
      hide Increasing, Total, IntLess, Ascending, RegisterOne, RegisterFrom;
      out := imgs;
      if program !in registry {
        registry := registry[program := imgs];
        update := update[program := imgs];
        return;
      }
      IntsTotal();
      var keys := Ascending(IntLess, imgs.Keys);
      var i := 0;
      assert keys[0..] == keys;
      while i < |keys|
        invariant i <= |keys| && out.Keys == imgs.Keys
        invariant program in registry && registry[program].Keys != {}
        invariant RegisterFrom(Abs(out), program, keys[i..]) == RegisterFrom(old(Abs(imgs)), program, keys)
      {
        assert keys[i] in imgs.Keys;
        NextRegistered(Abs(out), program, keys, i);
        out := RegisterImage(program, out, keys[i]);
        i := i + 1;
      }
      NoneLeft(Abs(out), program, keys);
    }
  }

  lemma NextRegistered(b: Books, program: string, keys: seq<int>, i: nat)
    requires i < |keys| && program in b.registry && b.registry[program].Keys != {} && forall k :: k in keys ==> k in b.imgs
    ensures RegisterFrom(b, program, keys[i..]) == RegisterFrom(RegisterOne(b, program, keys[i]), program, keys[i + 1..])
  {
    hide RegisterOne;
    assert keys[i..][0] == keys[i] && keys[i..][1..] == keys[i + 1..];
  }

  lemma NoneLeft(b: Books, program: string, keys: seq<int>)
    requires program in b.registry && b.registry[program].Keys != {}
    ensures RegisterFrom(b, program, keys[|keys|..]) == b
  {}
}
