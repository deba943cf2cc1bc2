/** Directory entries as the bytes that formatting tools write, trees of directories made of them,
    and that opening a path in such a tree opens the file that the tree has there. */
module PathTable {
  import opened Bits
  import opened Card
  import opened FatVolume
  import opened FatNames
  import opened FileModel
  import opened FileEngine
  import opened DirModel
  import opened DirEngine
  import opened DirTable
  import opened PathEngine

  /** The fields of a directory entry in the order of the FAT specification. */
  datatype Entry = Entry(
    name: seq<byte>,       // 11 bytes
    attr: byte,
    times: seq<byte>,      // 14 bytes: case, times and dates, and the high half of a FAT32 cluster
    cluster: nat,
    size: nat)

  predicate EntryOk(e: Entry) {
    |e.name| == 11 && |e.times| == 14 && e.cluster < 0x1_0000 && e.size < 0x1_0000_0000
  }

  function EntryBytes(e: Entry): (r: Record)
    requires EntryOk(e)
  {
    e.name + [e.attr] + e.times + Word(e.cluster) + Dword(e.size)
  }

  /** Bit 4 of the attributes: the entry is one of a directory. */
  predicate SaysDirectory(e: Entry) {
    e.attr / 16 % 2 == 1
  }

  lemma DirectoryBit(a: byte)
    ensures BitAnd(a, 0x10) == 16 * (a as int / 16 % 2)
  {
    AndEven(a, 8, 16);
    AndEven(a as int / 2, 4, 8);
    AndEven(a as int / 2 / 2, 2, 4);
    AndEven(a as int / 2 / 2 / 2, 1, 2);
    AndOdd(a as int / 2 / 2 / 2 / 2, 0, 1);
  }

  lemma EntrySlices(e: Entry, r: Record)
    requires EntryOk(e) && r == EntryBytes(e)
    ensures r[..11] == e.name && r[11] == e.attr && r[26..28] == Word(e.cluster) && r[28..32] == Dword(e.size)
  {}

  /** Reading an entry gives its fields. */
  lemma EntryParsed(e: Entry, r: Record)
    requires EntryOk(e) && r == EntryBytes(e)
    ensures IsDirectory(r) <==> SaysDirectory(e)
    ensures FirstCluster(r) == e.cluster && LdDword(r, DIR_FILE_SIZE) == e.size
  {
    EntrySlices(e, r);
    DirectoryBit(e.attr);
    LdWordIs(r, 26, e.cluster);
    LdDwordIs(r, 28, e.size);
  }

  // ------------------------------------------------------------------- trees

  /** The table at start has the entry e under the given 11 bytes. */
  ghost predicate Has(d: Image, v: Volume, start: nat, name: seq<byte>, e: Entry) {
    && EntryOk(e)
    && exists recs, n: nat :: TableAt(d, v, start, recs) && FoundAt(recs, name, n) && recs[n] == EntryBytes(e)
  }

  /** The table at start has nothing under the given 11 bytes. */
  ghost predicate Lacks(d: Image, v: Volume, start: nat, name: seq<byte>) {
    exists recs :: TableAt(d, v, start, recs) && Absent(recs, name)
  }

  /** Going from the table at start through directories called names leads to the table at end. */
  ghost predicate Through(d: Image, v: Volume, start: nat, names: seq<seq<byte>>, end: nat)
    decreases |names|
  {
    if names == [] then start == end
    else exists e: Entry ::
        Has(d, v, start, names[0], e) && SaysDirectory(e) && Through(d, v, e.cluster, names[1..], end)
  }

  lemma LookupHas(d: Image, v: Volume, start: nat, name: seq<byte>, e: Entry, last: bool)
    requires Sound(v, |d|) && Has(d, v, start, name, e)
    ensures Lookup(d, v, start, name, last) == Object(EntryBytes(e))
  {
    var recs, n: nat :| TableAt(d, v, start, recs) && FoundAt(recs, name, n) && recs[n] == EntryBytes(e);
    TableRead(d, v, start, recs);
    SearchFinds(d, v, start, name, recs, n);
    LookupIs(d, v, start, name, n);
  }

  lemma LookupLacks(d: Image, v: Volume, start: nat, name: seq<byte>, last: bool)
    requires Sound(v, |d|) && Lacks(d, v, start, name)
    ensures Lookup(d, v, start, name, last) == Nothing(if last then FrNoFile else FrNoPath)
  {
    var recs :| TableAt(d, v, start, recs) && Absent(recs, name);
    TableRead(d, v, start, recs);
    var n := SearchFails(d, v, start, name, recs);
    LookupIs(d, v, start, name, n);
  }

  lemma EnterFirst(d: Image, v: Volume, start: nat, name: seq<byte>, e: Entry, rest: seq<seq<byte>>,
                   names: seq<seq<byte>>)
    requires Sound(v, |d|) && Has(d, v, start, name, e) && SaysDirectory(e) && rest != [] && names == [name] + rest
    ensures Descend(d, v, start, names) == Descend(d, v, e.cluster, rest)
  {
    LookupHas(d, v, start, name, e, false);
    EntryParsed(e, EntryBytes(e));
    assert names[1..] == rest;
  }

  lemma FirstApart(names: seq<seq<byte>>, rest: seq<seq<byte>>)
    requires names != []
    ensures names + rest == [names[0]] + (names[1..] + rest)
  {}

  lemma SplitAt(names: seq<seq<byte>>, k: nat)
    requires k < |names|
    ensures names == names[..k] + ([names[k]] + names[k + 1..])
  {}

  /** A path through directories continues in the table of the last of them. */
  lemma {:induction false} DescendThrough(d: Image, v: Volume, start: nat, names: seq<seq<byte>>, end: nat,
                                          rest: seq<seq<byte>>, path: seq<seq<byte>>)
    requires Sound(v, |d|) && Through(d, v, start, names, end) && rest != [] && path == names + rest
    ensures Descend(d, v, start, path) == Descend(d, v, end, rest)
    decreases |names|
  {
    if names == [] {
      assert path == rest;
    } else {
      var name, others := names[0], names[1..];
      var e: Entry :| Has(d, v, start, name, e) && SaysDirectory(e) && Through(d, v, e.cluster, others, end);
      var next := others + rest;
      FirstApart(names, rest);
      EnterFirst(d, v, start, name, e, next, path);
      DescendThrough(d, v, e.cluster, others, end, rest, next);
    }
  }

  /** Where a path ends: at a last name, or at one that something should follow. */
  lemma DescendEnds(d: Image, v: Volume, at: nat, name: seq<byte>, more: seq<seq<byte>>, e: Entry)
    requires Sound(v, |d|)
    ensures Has(d, v, at, name, e) && more == [] ==> Descend(d, v, at, [name] + more) == Object(EntryBytes(e))
    ensures Has(d, v, at, name, e) && more != [] && !SaysDirectory(e) ==>
      Descend(d, v, at, [name] + more) == Nothing(FrNoPath)
    ensures Lacks(d, v, at, name) ==>
      Descend(d, v, at, [name] + more) == Nothing(if more == [] then FrNoFile else FrNoPath)
  {
    if Has(d, v, at, name, e) {
      LookupHas(d, v, at, name, e, more == []);
      EntryParsed(e, EntryBytes(e));
    }
    if Lacks(d, v, at, name) { LookupLacks(d, v, at, name, more == []); }
  }

  // -------------------------------------------------------------------- opening

  /** What there is under the last of the names, in the table that the ones before it lead to. */
  datatype Goal = File(entry: Entry) | Missing | NoWay

  /** The path leads to the goal: through directories to a table that has the last name as the goal's
      entry or not at all; or to one that lacks a name on the way or has it as a file. */
  ghost predicate Denotes(d: Image, v: Volume, names: seq<seq<byte>>, goal: Goal) {
    exists k: nat, at: nat, e: Entry :: DenotesBy(d, v, names, k, at, e, goal)
  }

  ghost predicate DenotesBy(d: Image, v: Volume, names: seq<seq<byte>>, k: nat, at: nat, e: Entry, goal: Goal) {
    && k < |names| && Through(d, v, 0, names[..k], at)
    && match goal
       case File(f) => k + 1 == |names| && f == e && Has(d, v, at, names[k], e)
       case Missing => k + 1 == |names| && Lacks(d, v, at, names[k])
       case NoWay =>
         k + 1 < |names| && (Lacks(d, v, at, names[k]) || (Has(d, v, at, names[k], e) && !SaysDirectory(e)))
  }

  lemma DenotedDescend(d: Image, v: Volume, names: seq<seq<byte>>, goal: Goal)
    requires Sound(v, |d|) && Denotes(d, v, names, goal)
    ensures names != [] && (goal.File? ==> EntryOk(goal.entry))
    ensures Descend(d, v, 0, names) == match goal
                                       case File(e) => Object(EntryBytes(e))
                                       case Missing => Nothing(FrNoFile)
                                       case NoWay => Nothing(FrNoPath)
  {
    var k: nat, at: nat, e: Entry :| DenotesBy(d, v, names, k, at, e, goal);
    var name, more := names[k], names[k + 1..];
    SplitAt(names, k);
    DescendThrough(d, v, 0, names[..k], at, [name] + more, names);
    DescendEnds(d, v, at, name, more, e);
  }

  /** pf_open of a path of valid names in a tree of directories: the file's entry gives first cluster
      and size; a directory, or nothing, under the last name is FR_NO_FILE; a file, or nothing, under
      a name before it is FR_NO_PATH. */
  method OpenNamed(fs: FileSystem, names: seq<Name>, k: nat, slash: bool, end: seq<byte>, ghost goal: Goal,
                   ghost chain: seq<nat>) returns (res: FResult)
    requires fs.mounted && Sound(fs.vol, |fs.card.sectors|) && fs.card.transfer.Idle?
    requires names != [] && (forall i :: 0 <= i < |names| ==> ValidName(names[i])) && Ends(end)
    requires Denotes(fs.card.sectors, fs.vol, SfnAll(names), goal)
    modifies fs`isOpen, fs`wip, fs`orgClust, fs`fsize, fs`fptr, fs`chain
    modifies fs.card`transfer, fs.card`clocked, fs.card`forwarded, fs.card`ops
    ensures fs.card.transfer.Idle? && fs.isOpen == (res == FrOk) && old(fs.card.ops) <= fs.card.ops
    ensures fs.card.FaultSince(old(fs.card.ops)) ==> res == FrDiskErr
    ensures !fs.card.FaultSince(old(fs.card.ops)) ==>
      res == (match goal
              case File(e) => if SaysDirectory(e) then FrNoFile else FrOk
              case Missing => FrNoFile
              case NoWay => FrNoPath)
    ensures res == FrOk && !fs.card.FaultSince(old(fs.card.ops)) ==>
      && goal.File? && fs.orgClust == goal.entry.cluster && fs.fsize == goal.entry.size && fs.fptr == 0
      && fs.chain == chain && (FileOk(fs.card.sectors, fs.vol, chain, fs.fsize, fs.orgClust) ==> fs.Ready())
  {
    ghost var d, v := fs.card.sectors, fs.vol;
    var path := Lead(k, slash) + Join(names) + end;
    ResolveJoined(d, v, names, k, slash, end, path);
    DenotedDescend(d, v, SfnAll(names), goal);
    if goal.File? { EntryParsed(goal.entry, EntryBytes(goal.entry)); }
    res := Open(fs, path, chain);
  }
}
