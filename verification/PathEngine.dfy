/** Paths: what a path denotes, and follow_path and pf_open, which find it. */
module PathEngine {
  import opened Bits
  import opened Card
  import opened FatVolume
  import opened FatNames
  import opened FileModel
  import opened FileEngine
  import opened DirModel
  import opened DirEngine

  const DIR_FST_CLUS_LO := 26
  const DIR_FILE_SIZE := 28

  /** What a path leads to. */
  datatype Target = Root | Object(entry: seq<byte>) | Nothing(reason: FResult)

  predicate IsDirectory(e: seq<byte>)
    requires |e| == 32
  {
    BitAnd(e[DIR_ATTR], AM_DIR) != 0
  }

  function FirstCluster(e: seq<byte>): nat
    requires |e| == 32
  {
    LdWord(e, DIR_FST_CLUS_LO)
  }

  // --------------------------------------------------------- what it should find

  /** Index at which a search for name in the table at start is decided. */
  ghost function DecidedIndex(d: Image, v: Volume, start: nat, name: seq<byte>): (n: nat)
    requires v.csize > 0
    ensures DecidedAt(d, v, start, name, n)
  {
    DecidedSomewhere(d, v, start, name);
    var n: nat :| DecidedAt(d, v, start, name, n);
    n
  }

  lemma DecidedSomewhere(d: Image, v: Volume, start: nat, name: seq<byte>)
    requires v.csize > 0
    ensures exists n: nat :: DecidedAt(d, v, start, name, n)
  {
    var n := DecidedOnce(d, v, start, name);
  }

  /** The object called name in the table at start; last says that nothing follows it. */
  ghost function Lookup(d: Image, v: Volume, start: nat, name: seq<byte>, last: bool): (t: Target)
    requires v.csize > 0
    ensures t.Object? ==> |t.entry| == 32
    ensures !t.Root?
  {
    var n := DecidedIndex(d, v, start, name);
    match KindOf(d, v, start, name, n)
    case Hit => Object(EntryAt(d, PlaceOf(d, v, start, n).sect, n))
    case Stop => Nothing(if last then FrNoFile else FrNoPath)
    case Fail => Nothing(FrDiskErr)
  }

  lemma LookupIs(d: Image, v: Volume, start: nat, name: seq<byte>, n: nat)
    requires v.csize > 0 && DecidedAt(d, v, start, name, n)
    ensures DecidedIndex(d, v, start, name) == n
  {
    var m := DecidedOnce(d, v, start, name);
  }

  /** Descends through the tables named by all but the last name. */
  ghost function Descend(d: Image, v: Volume, start: nat, names: seq<seq<byte>>): Target
    requires v.csize > 0 && names != []
    decreases |names|
  {
    var last := |names| == 1;
    var t := Lookup(d, v, start, names[0], last);
    if last || t.Nothing? then t
    else if !IsDirectory(t.entry) then Nothing(FrNoPath)
    else Descend(d, v, FirstCluster(t.entry), names[1..])
  }

  /** The names in the path from p on, as create_name splits it. */
  function NamesFrom(path: seq<byte>, p: nat): (names: seq<seq<byte>>)
    ensures names != []
    decreases |path| - p
  {
    var g := SegmentAt(path, p);
    if CharAt(path, g.end) <= SPACE then [Sfn(g)]
    else [Sfn(g)] + NamesFrom(path, g.end + 1)
  }

  /** Position of the first segment: after leading spaces and one slash. */
  function SkipSpaces(path: seq<byte>, p: nat): (q: nat)
    ensures p <= q && CharAt(path, q) != SPACE
    decreases |path| - p
  {
    if CharAt(path, p) == SPACE then SkipSpaces(path, p + 1) else p
  }

  function PathStart(path: seq<byte>): nat {
    var q := SkipSpaces(path, 0);
    if CharAt(path, q) == SLASH then q + 1 else q
  }

  ghost function Resolve(d: Image, v: Volume, path: seq<byte>): Target
    requires v.csize > 0
  {
    var p := PathStart(path);
    if CharAt(path, p) <= SPACE then Root else Descend(d, v, 0, NamesFrom(path, p))
  }

  // ------------------------------------------------- joined names split back

  /** A name with an extension if it has one, as it is written in a path. */
  datatype Name = Name(body: seq<byte>, ext: seq<byte>)

  predicate ValidName(n: Name) {
    1 <= |n.body| <= 8 && |n.ext| <= 3 && AllNameChars(n.body) && AllNameChars(n.ext)
  }

  function NameSfn(n: Name): seq<byte>
    requires ValidName(n)
  {
    Sfn(Segment(n.body, n.ext, 0))
  }

  function Join(names: seq<Name>): seq<byte>
    requires names != []
  {
    if |names| == 1 then Text(names[0].body, names[0].ext)
    else Text(names[0].body, names[0].ext) + [SLASH] + Join(names[1..])
  }

  function SfnAll(names: seq<Name>): seq<seq<byte>>
    requires forall i :: 0 <= i < |names| ==> ValidName(names[i])
  {
    if names == [] then [] else [NameSfn(names[0])] + SfnAll(names[1..])
  }

  lemma NamesStep(path: seq<byte>, p: nat, g: Segment, last: bool, next: nat, tail: seq<seq<byte>>)
    requires g == SegmentAt(path, p) && next == g.end + 1 && last == (CharAt(path, g.end) <= SPACE)
    requires tail == if last then [] else NamesFrom(path, next)
    ensures NamesFrom(path, p) == [Sfn(g)] + tail
  {}

  /** The first name of a path, and the names that follow it from position next on. */
  lemma FirstName(path: seq<byte>, pre: seq<byte>, n: Name, rest: seq<byte>, p: nat, next: nat, tail: seq<seq<byte>>)
    requires ValidName(n) && path == pre + Text(n.body, n.ext) + rest
    requires CharAt(rest, 0) <= SPACE || CharAt(rest, 0) == SLASH
    requires p == |pre| && next == p + |Text(n.body, n.ext)| + 1
    requires tail == if CharAt(rest, 0) <= SPACE then [] else NamesFrom(path, next)
    ensures NamesFrom(path, p) == [NameSfn(n)] + tail
  {
    SegmentOfText(path, pre, n.body, n.ext, rest);
    var g := Segment(n.body, n.ext, next - 1);
    NamesStep(path, p, g, CharAt(rest, 0) <= SPACE, next, tail);
    assert Sfn(g) == NameSfn(n);
  }

  /** A path ends at its end or before a character up to the space. */
  predicate Ends(end: seq<byte>) {
    end == [] || end[0] <= 32
  }

  lemma JoinSplit(path: seq<byte>, pre: seq<byte>, names: seq<Name>, end: seq<byte>, text: seq<byte>)
    requires |names| > 1 && path == pre + Join(names) + end && text == Text(names[0].body, names[0].ext)
    ensures path == pre + text + ([SLASH] + Join(names[1..]) + end)
    ensures path == (pre + text + [SLASH]) + Join(names[1..]) + end
  {
    Reassociate(pre, text, [SLASH], Join(names[1..]), end);
  }

  lemma Reassociate(a: seq<byte>, b: seq<byte>, c: seq<byte>, d: seq<byte>, e: seq<byte>)
    ensures a + (b + c + d) + e == a + b + (c + d + e)
    ensures a + (b + c + d) + e == (a + b + c) + d + e
  {}

  lemma SplitMore(path: seq<byte>, pre: seq<byte>, n: Name, more: seq<byte>, p: nat, next: nat, tail: seq<seq<byte>>)
    requires ValidName(n) && path == pre + Text(n.body, n.ext) + more && more != [] && more[0] == SLASH
    requires p == |pre| && next == p + |Text(n.body, n.ext)| + 1 && tail == NamesFrom(path, next)
    ensures NamesFrom(path, p) == [NameSfn(n)] + tail
  {
    FirstName(path, pre, n, more, p, next, tail);
  }

  /** Splitting a path made of valid names gives their directory forms, in order. */
  lemma {:induction false} SplitJoined(path: seq<byte>, pre: seq<byte>, names: seq<Name>, end: seq<byte>, p: nat)
    requires names != [] && forall i :: 0 <= i < |names| ==> ValidName(names[i])
    requires path == pre + Join(names) + end && p == |pre| && Ends(end)
    ensures NamesFrom(path, p) == SfnAll(names)
    decreases |names|
  {
    var n, others := names[0], names[1..];
    var text := Text(n.body, n.ext);
    var next := p + |text| + 1;
    if |names| == 1 {
      FirstName(path, pre, n, end, p, next, []);
      assert SfnAll(others) == [];
    } else {
      JoinSplit(path, pre, names, end, text);
      SplitJoined(path, pre + text + [SLASH], others, end, next);
      SplitMore(path, pre, n, [SLASH] + Join(others) + end, p, next, NamesFrom(path, next));
    }
  }

  /** Spaces and at most one slash before a path. */
  function Lead(k: nat, slash: bool): seq<byte> {
    seq<byte>(k, _ => 32) + if slash then [47] else []
  }

  lemma {:induction false} SkipsSpaces(path: seq<byte>, p: nat, k: nat)
    requires p <= k && (forall i :: p <= i < k ==> CharAt(path, i) == 32) && CharAt(path, k) != 32
    ensures SkipSpaces(path, p) == k
    decreases k - p
  {
    if p < k { SkipsSpaces(path, p + 1, k); }
  }

  lemma LeadSkipped(path: seq<byte>, k: nat, slash: bool, rest: seq<byte>)
    requires path == Lead(k, slash) + rest && (slash || (CharAt(rest, 0) != 32 && CharAt(rest, 0) != 47))
    ensures PathStart(path) == |Lead(k, slash)| && CharAt(path, PathStart(path)) == CharAt(rest, 0)
  {
    SkipsSpaces(path, 0, k);
  }

  /** So a path made of valid names leads where descending by those names leads. */
  lemma ResolveJoined(d: Image, v: Volume, names: seq<Name>, k: nat, slash: bool, end: seq<byte>, path: seq<byte>)
    requires v.csize > 0 && names != [] && (forall i :: 0 <= i < |names| ==> ValidName(names[i])) && Ends(end)
    requires path == Lead(k, slash) + Join(names) + end
    ensures SfnAll(names) != []
    ensures Resolve(d, v, path) == Descend(d, v, 0, SfnAll(names))
  {
    var pre := Lead(k, slash);
    SplitJoined(path, pre, names, end, |pre|);
    PathStarts(path, names, k, slash, end);
    ResolveFrom(d, v, path, |pre|);
  }

  lemma PathStarts(path: seq<byte>, names: seq<Name>, k: nat, slash: bool, end: seq<byte>)
    requires names != [] && ValidName(names[0]) && path == Lead(k, slash) + Join(names) + end
    ensures PathStart(path) == |Lead(k, slash)| && CharAt(path, |Lead(k, slash)|) > 32
  {
    JoinStarts(names, end);
    assert path == Lead(k, slash) + (Join(names) + end);
    LeadSkipped(path, k, slash, Join(names) + end);
  }

  lemma JoinStarts(names: seq<Name>, end: seq<byte>)
    requires names != [] && ValidName(names[0])
    ensures CharAt(Join(names) + end, 0) > 32 && CharAt(Join(names) + end, 0) != 47
  {
    assert (Join(names) + end)[0] == names[0].body[0];
  }

  lemma ResolveFrom(d: Image, v: Volume, path: seq<byte>, p: nat)
    requires v.csize > 0 && PathStart(path) == p && CharAt(path, p) > 32
    ensures Resolve(d, v, path) == Descend(d, v, 0, NamesFrom(path, p))
  {}

  /** And an empty path leads to the root directory. */
  lemma ResolveRoot(d: Image, v: Volume, k: nat, slash: bool, end: seq<byte>)
    requires v.csize > 0 && Ends(end) && (slash || end == [] || end[0] < 32)
    ensures Resolve(d, v, Lead(k, slash) + end) == Root
  {
    LeadSkipped(Lead(k, slash) + end, k, slash, end);
  }

  // ------------------------------------------------------------- the code

  /** One name of a path. */
  lemma DescendStep(d: Image, v: Volume, start: nat, path: seq<byte>, p: nat, name: seq<byte>, last: bool, next: nat,
                    goal: Target) returns (t: Target, rest: Target)
    requires v.csize > 0 && goal == Descend(d, v, start, NamesFrom(path, p))
    requires var g := SegmentAt(path, p);
             name == Sfn(g) && last == (CharAt(path, g.end) <= SPACE) && next == g.end + 1
    ensures t == Lookup(d, v, start, name, last) && LeadsTo(goal, t, last, rest)
    ensures !last ==> p < next && p < |path|
    ensures t.Object? ==> rest == Descend(d, v, FirstCluster(t.entry), NamesFrom(path, next))
  {
    t := Lookup(d, v, start, name, last);
    var tail := if last then [] else NamesFrom(path, next);
    NamesStep(path, p, SegmentAt(path, p), last, next, tail);
    assert NamesFrom(path, p)[1..] == tail;
    rest := if t.Object? then Descend(d, v, FirstCluster(t.entry), NamesFrom(path, next)) else Root;
  }

  /** The result code and the entry buffer report the target. */
  ghost predicate Reports(t: Target, res: FResult, dir: seq<byte>) {
    match t
    case Root => res == FrOk && |dir| == 32 && dir[0] == 0
    case Object(e) => res == FrOk && dir == e && |e| == 32 && e[0] != 0
    case Nothing(r) => res == r && r != FrOk
  }

  /** Looks up one name: the body of the loop of follow_path up to the test for the
      last segment. */
  method FindName(dj: Directory, name: seq<byte>, last: bool, ghost t: Target) returns (res: FResult, dir: seq<byte>)
    requires dj.Mounted() && |name| == 11 && t == Lookup(dj.fs.card.sectors, dj.fs.vol, dj.sclust, name, last)
    modifies dj`index, dj`clust, dj`sect
    modifies dj.fs.card`transfer, dj.fs.card`clocked, dj.fs.card`forwarded, dj.fs.card`ops
    ensures dj.Mounted() && old(dj.fs.card.ops) <= dj.fs.card.ops
    ensures dj.fs.card.FaultSince(old(dj.fs.card.ops)) ==> res == FrDiskErr
    ensures !dj.fs.card.FaultSince(old(dj.fs.card.ops)) ==> Reports(t, res, dir)
    ensures res == FrOk ==> |dir| == 32
  {
    ghost var n;
    res, dir, n := dj.Find(name);
    if !dj.fs.card.FaultSince(old(dj.fs.card.ops)) {
      LookupIs(dj.fs.card.sectors, dj.fs.vol, dj.sclust, name, n);
    }
    if res == FrNoFile && !last {
      res := FrNoPath;
    }
  }

  /** follow_path. */
  method FollowPath(dj: Directory, path: seq<byte>) returns (res: FResult, dir: seq<byte>)
    requires dj.Mounted()
    modifies dj`index, dj`clust, dj`sect, dj`sclust
    modifies dj.fs.card`transfer, dj.fs.card`clocked, dj.fs.card`forwarded, dj.fs.card`ops
    ensures dj.Mounted() && old(dj.fs.card.ops) <= dj.fs.card.ops
    ensures dj.fs.card.FaultSince(old(dj.fs.card.ops)) ==> res == FrDiskErr
    ensures !dj.fs.card.FaultSince(old(dj.fs.card.ops)) ==>
      Reports(Resolve(dj.fs.card.sectors, dj.fs.vol, path), res, dir)
    ensures res == FrOk ==> |dir| == 32
  {
    var p := 0;
    while CharAt(path, p) == SPACE
      invariant SkipSpaces(path, 0) == SkipSpaces(path, p)
      decreases |path| - p
    {
      p := p + 1;
    }
    if CharAt(path, p) == SLASH { p := p + 1; }
    dj.sclust := 0;
    if CharAt(path, p) <= SPACE {
      res := dj.Rewind();
      dir := Zeros(32);
      return;
    }
    res, dir := FollowNames(dj, path, p);
  }

  /** What looking up one name leads to: the target itself, or, through a directory, rest. */
  ghost predicate LeadsTo(goal: Target, t: Target, last: bool, rest: Target) {
    && !t.Root? && (t.Object? ==> |t.entry| == 32)
    && goal == if last || t.Nothing? then t
               else if !IsDirectory(t.entry) then Nothing(FrNoPath)
               else rest
  }

  /** Looks up one name and enters the directory it names unless it is the last. */
  method EnterName(dj: Directory, name: seq<byte>, last: bool, ghost t: Target, ghost goal: Target, ghost rest: Target)
    returns (res: FResult, dir: seq<byte>, more: bool)
    requires dj.Mounted() && |name| == 11 && t == Lookup(dj.fs.card.sectors, dj.fs.vol, dj.sclust, name, last)
    requires LeadsTo(goal, t, last, rest)
    modifies dj`index, dj`clust, dj`sect, dj`sclust
    modifies dj.fs.card`transfer, dj.fs.card`clocked, dj.fs.card`forwarded, dj.fs.card`ops
    ensures dj.Mounted() && old(dj.fs.card.ops) <= dj.fs.card.ops
    ensures dj.fs.card.FaultSince(old(dj.fs.card.ops)) ==> !more && res == FrDiskErr
    ensures !dj.fs.card.FaultSince(old(dj.fs.card.ops)) && !more ==> Reports(goal, res, dir)
    ensures res == FrOk ==> |dir| == 32
    ensures more ==> !last && goal == rest && t.Object? && dj.sclust == FirstCluster(t.entry)
  {
    res, dir := FindName(dj, name, last, t);
    more := false;
    if res == FrOk && !last {
      if BitAnd(dir[DIR_ATTR], AM_DIR) == 0 {
        res := FrNoPath;
      } else {
        dj.sclust := LdWord(dir, DIR_FST_CLUS_LO);
        more := true;
      }
    }
  }

  /** One pass of the loop of follow_path: either it ends with what the path leads to, or the
      directory it found leads there by the rest of the path. */
  method FollowOne(dj: Directory, path: seq<byte>, p: nat, fn: array<byte>, ghost goal: Target)
    returns (res: FResult, dir: seq<byte>, more: bool, next: nat)
    requires dj.Mounted() && fn.Length == 12
    requires goal == Descend(dj.fs.card.sectors, dj.fs.vol, dj.sclust, NamesFrom(path, p))
    modifies fn, dj`index, dj`clust, dj`sect, dj`sclust
    modifies dj.fs.card`transfer, dj.fs.card`clocked, dj.fs.card`forwarded, dj.fs.card`ops
    ensures dj.Mounted() && old(dj.fs.card.ops) <= dj.fs.card.ops
    ensures dj.fs.card.FaultSince(old(dj.fs.card.ops)) ==> !more && res == FrDiskErr
    ensures !dj.fs.card.FaultSince(old(dj.fs.card.ops)) && !more ==> Reports(goal, res, dir)
    ensures res == FrOk ==> |dir| == 32
    ensures more ==> p < next && p < |path|
    ensures more ==> goal == Descend(dj.fs.card.sectors, dj.fs.vol, dj.sclust, NamesFrom(path, next))
  {
    next := CreateName(path, p, fn);
    var name, last := fn[..11], fn[11] != 0;
    ghost var t, rest := DescendStep(dj.fs.card.sectors, dj.fs.vol, dj.sclust, path, p, name, last, next, goal);
    res, dir, more := EnterName(dj, name, last, t, goal, rest);
  }

  /** The loop of follow_path. */
  method FollowNames(dj: Directory, path: seq<byte>, p0: nat) returns (res: FResult, dir: seq<byte>)
    requires dj.Mounted()
    modifies dj`index, dj`clust, dj`sect, dj`sclust
    modifies dj.fs.card`transfer, dj.fs.card`clocked, dj.fs.card`forwarded, dj.fs.card`ops
    ensures dj.Mounted() && old(dj.fs.card.ops) <= dj.fs.card.ops
    ensures dj.fs.card.FaultSince(old(dj.fs.card.ops)) ==> res == FrDiskErr
    ensures !dj.fs.card.FaultSince(old(dj.fs.card.ops)) ==>
      Reports(Descend(dj.fs.card.sectors, dj.fs.vol, old(dj.sclust), NamesFrom(path, p0)), res, dir)
    ensures res == FrOk ==> |dir| == 32
  {
    ghost var goal := Descend(dj.fs.card.sectors, dj.fs.vol, dj.sclust, NamesFrom(path, p0));
    var p, more := p0, true;
    var fn := new byte[12];
    res, dir := FrOk, [];
    while more
      invariant dj.Mounted() && old(dj.fs.card.ops) <= dj.fs.card.ops
      invariant more ==> !dj.fs.card.FaultSince(old(dj.fs.card.ops))
      invariant more ==> goal == Descend(dj.fs.card.sectors, dj.fs.vol, dj.sclust, NamesFrom(path, p))
      invariant !more && dj.fs.card.FaultSince(old(dj.fs.card.ops)) ==> res == FrDiskErr
      invariant !more && !dj.fs.card.FaultSince(old(dj.fs.card.ops)) ==> Reports(goal, res, dir)
      invariant !more && res == FrOk ==> |dir| == 32
      decreases more, |path| - p
    {
      res, dir, more, p := FollowOne(dj, path, p, fn, goal);
    }
  }

  /** What opening a target gives. */
  ghost predicate Opens(t: Target, res: FResult, org: nat, size: nat, fptr: nat) {
    match t
    case Root => res == FrNoFile
    case Nothing(r) => res == r
    case Object(e) =>
      && |e| == 32
      && if IsDirectory(e) then res == FrNoFile
         else res == FrOk && org == FirstCluster(e) && size == LdDword(e, DIR_FILE_SIZE) && fptr == 0
  }

  /** The second half of pf_open: opens the file whose directory entry is dir. */
  method OpenEntry(fs: FileSystem, dir: seq<byte>, ghost chain: seq<nat>) returns (res: FResult)
    requires fs.mounted && !fs.isOpen && |dir| == 32
    modifies fs`isOpen, fs`orgClust, fs`fsize, fs`fptr, fs`chain
    ensures fs.isOpen == (res == FrOk)
    ensures if dir[0] == 0 || IsDirectory(dir) then res == FrNoFile
            else && res == FrOk && fs.orgClust == FirstCluster(dir) && fs.fsize == LdDword(dir, DIR_FILE_SIZE)
                 && fs.fptr == 0 && fs.chain == chain
  {
    if dir[0] == 0 || BitAnd(dir[DIR_ATTR], AM_DIR) != 0 {
      return FrNoFile;
    }
    fs.orgClust := LdWord(dir, DIR_FST_CLUS_LO);
    fs.fsize := LdDword(dir, DIR_FILE_SIZE);
    fs.fptr := 0;
    fs.isOpen := true;
    fs.chain := chain;
    res := FrOk;
  }

  /** pf_open.  chain is the cluster chain that the file is claimed to have. */
  method Open(fs: FileSystem, path: seq<byte>, ghost chain: seq<nat>) returns (res: FResult)
    requires fs.mounted ==> Sound(fs.vol, |fs.card.sectors|) && fs.card.transfer.Idle?
    modifies fs`isOpen, fs`wip, fs`orgClust, fs`fsize, fs`fptr, fs`chain
    modifies fs.card`transfer, fs.card`clocked, fs.card`forwarded, fs.card`ops
    ensures old(fs.card.ops) <= fs.card.ops
    ensures !fs.mounted ==> res == FrNotEnabled
    ensures fs.mounted ==> fs.card.transfer.Idle? && fs.isOpen == (res == FrOk) && !fs.wip
    ensures fs.mounted && fs.card.FaultSince(old(fs.card.ops)) ==> res == FrDiskErr
    ensures fs.mounted && !fs.card.FaultSince(old(fs.card.ops)) ==>
      Opens(Resolve(fs.card.sectors, fs.vol, path), res, fs.orgClust, fs.fsize, fs.fptr)
    ensures res == FrOk ==> fs.Quiet() && fs.fptr == 0 && fs.chain == chain
    ensures res == FrOk && FileOk(fs.card.sectors, fs.vol, chain, fs.fsize, fs.orgClust) ==> fs.Ready()
  {
    if !fs.mounted {
      return FrNotEnabled;
    }
    fs.isOpen, fs.wip := false, false;
    var dj := new Directory(fs);
    var dir;
    res, dir := FollowPath(dj, path);
    if res == FrOk {
      res := OpenEntry(fs, dir, chain);
    }
  }
}
