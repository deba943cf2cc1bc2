/** File names: path segments as text, and the 11-byte form that directory entries
    hold (8 bytes of name, 3 of extension, padded with spaces). */
module FatNames {
  import opened Bits

  const SPACE: byte := 32
  const DOT: byte := 46
  const SLASH: byte := 47

  /** A path is a C string: reading past its end gives the terminating zero. */
  function CharAt(s: seq<byte>, i: nat): byte {
    if i < |s| then s[i] else 0
  }

  function Upper(c: byte): byte {
    if 97 <= c <= 122 then c - 32 else c
  }

  function UpperAll(s: seq<byte>): (r: seq<byte>)
    ensures |r| == |s|
  {
    seq(|s|, i requires 0 <= i < |s| => Upper(s[i]))
  }

  /** A character that neither ends a segment nor separates its two parts. */
  predicate NameChar(c: byte) {
    c > SPACE && c != SLASH && c != DOT
  }

  /** End of the run of name characters that starts at p, but at most lim. */
  function RunEnd(s: seq<byte>, p: nat, lim: nat): (q: nat)
    requires p <= lim
    ensures p <= q <= lim
    ensures forall i :: p <= i < q ==> NameChar(CharAt(s, i))
    ensures q < lim ==> !NameChar(CharAt(s, q))
    decreases lim - p
  {
    if p == lim || !NameChar(CharAt(s, p)) then p else RunEnd(s, p + 1, lim)
  }

  /** A run of name characters that cannot be longer is the whole of them. */
  lemma RunEndIs(s: seq<byte>, p: nat, lim: nat, q: nat)
    requires p <= lim && p <= q <= RunEnd(s, p, lim) && (q == lim || !NameChar(CharAt(s, q)))
    ensures q == RunEnd(s, p, lim)
  {}

  function Spaces(n: nat): (r: seq<byte>)
    ensures |r| == n
  {
    seq(n, _ => SPACE)
  }

  function Pad(s: seq<byte>, n: nat): (r: seq<byte>)
    requires |s| <= n
    ensures |r| == n
  {
    s + Spaces(n - |s|)
  }

  /** The two parts of the segment that starts at p, and where it ends. */
  datatype Segment = Segment(body: seq<byte>, ext: seq<byte>, end: nat)

  function SegmentAt(s: seq<byte>, p: nat): (g: Segment)
    ensures |g.body| <= 8 && |g.ext| <= 3 && p <= g.end
  {
    var b := RunEnd(s, p, p + 8);
    if CharAt(s, b) == DOT then
      var e := RunEnd(s, b + 1, b + 4);
      Segment(Slice(s, p, b), Slice(s, b + 1, e), e)
    else
      Segment(Slice(s, p, b), [], b)
  }

  function Slice(s: seq<byte>, p: nat, q: nat): (r: seq<byte>)
    requires p <= q
    ensures |r| == q - p
  {
    seq<byte>(q - p, i requires i >= 0 => CharAt(s, p + i))
  }

  /** The directory form of a segment. */
  function Sfn(g: Segment): (n: seq<byte>)
    requires |g.body| <= 8 && |g.ext| <= 3
    ensures |n| == 11
  {
    Pad(UpperAll(g.body), 8) + Pad(UpperAll(g.ext), 3)
  }

  /** The loop of create_name has put the characters from p to q at index from of fn. */
  ghost predicate Filled(fn: seq<byte>, from: nat, s: seq<byte>, p: nat, q: nat) {
    && p <= q && from + (q - p) <= |fn|
    && forall j :: from <= j < from + (q - p) ==> fn[j] == Upper(CharAt(s, p + (j - from)))
  }

  ghost predicate Blank(fn: seq<byte>, from: nat, to: nat) {
    to <= |fn| && forall j :: from <= j < to ==> fn[j] == SPACE
  }

  lemma FilledPad(fn: seq<byte>, from: nat, s: seq<byte>, p: nat, q: nat, n: nat)
    requires p <= q <= p + n && from + n <= |fn|
    requires Filled(fn, from, s, p, q) && Blank(fn, from + (q - p), from + n)
    ensures fn[from..from + n] == Pad(UpperAll(Slice(s, p, q)), n)
  {
    var r := Pad(UpperAll(Slice(s, p, q)), n);
    forall j | 0 <= j < n ensures fn[from..from + n][j] == r[j] {
      assert fn[from..from + n][j] == fn[from + j];
    }
  }

  /** fn holds the segment at p in directory form. */
  ghost predicate HoldsSegment(fn: seq<byte>, s: seq<byte>, p: nat) {
    var b := RunEnd(s, p, p + 8);
    && Filled(fn, 0, s, p, b) && Blank(fn, b - p, 8)
    && if CharAt(s, b) == DOT then
        var e := RunEnd(s, b + 1, b + 4);
        Filled(fn, 8, s, b + 1, e) && Blank(fn, 8 + (e - b - 1), 11)
      else
        Blank(fn, 8, 11)
  }

  lemma HoldsSegmentSfn(fn: seq<byte>, s: seq<byte>, p: nat)
    requires |fn| == 12 && HoldsSegment(fn, s, p)
    ensures fn[..11] == Sfn(SegmentAt(s, p))
  {
    var b := RunEnd(s, p, p + 8);
    FilledPad(fn, 0, s, p, b, 8);
    if CharAt(s, b) == DOT {
      FilledPad(fn, 8, s, b + 1, RunEnd(s, b + 1, b + 4), 3);
    } else {
      FilledPad(fn, 8, s, p, p, 3);
    }
    assert fn[..11] == fn[0..8] + fn[8..11];
  }

  /** What the loop of create_name keeps: it is in the body of the name (ni is 8) or in
      its extension (ni is 11), and everything before position q is in fn. */
  ghost predicate Scanning(fn: seq<byte>, s: seq<byte>, p: nat, q: nat, i: nat, ni: nat) {
    var b := RunEnd(s, p, p + 8);
    && i <= ni && Blank(fn, i, 11)
    && if ni == 8 then
        i == q - p && p <= q <= b && Filled(fn, 0, s, p, q)
      else
        && ni == 11 && 8 <= i && CharAt(s, b) == DOT
        && q == b + 1 + (i - 8) <= RunEnd(s, b + 1, b + 4)
        && Filled(fn, 0, s, p, b) && Blank(fn, b - p, 8) && Filled(fn, 8, s, b + 1, q)
  }

  lemma ScanDot(fn: seq<byte>, s: seq<byte>, p: nat, q: nat, i: nat)
    requires Scanning(fn, s, p, q, i, 8) && CharAt(s, q) == DOT
    ensures Scanning(fn, s, p, q + 1, 8, 11)
  {
    RunEndIs(s, p, p + 8, q);
  }

  lemma ScanEnd(fn: seq<byte>, s: seq<byte>, p: nat, q: nat, i: nat, ni: nat)
    requires Scanning(fn, s, p, q, i, ni)
    requires !NameChar(CharAt(s, q)) || i == ni
    requires ni == 8 ==> CharAt(s, q) != DOT
    ensures q == SegmentAt(s, p).end && HoldsSegment(fn, s, p)
  {
    var b := RunEnd(s, p, p + 8);
    if ni == 8 {
      RunEndIs(s, p, p + 8, q);
    } else {
      RunEndIs(s, b + 1, b + 4, q);
    }
  }

  lemma ScanChar(fn: seq<byte>, s: seq<byte>, p: nat, q: nat, i: nat, ni: nat)
    requires |fn| == 12 && Scanning(fn, s, p, q, i, ni) && i < ni && NameChar(CharAt(s, q))
    ensures Scanning(fn[i := Upper(CharAt(s, q))], s, p, q + 1, i + 1, ni)
  {}

  /** The loop of create_name, on a name of 11 spaces. */
  method ScanSegment(s: seq<byte>, p: nat, fn: array<byte>) returns (q: nat, c: byte)
    requires fn.Length == 12 && Blank(fn[..], 0, 11)
    modifies fn
    ensures q == SegmentAt(s, p).end && c == CharAt(s, q) && HoldsSegment(fn[..], s, p)
  {
    var i, ni := 0, 8;
    q := p;
    while true
      invariant 0 <= i <= ni <= 11 && Scanning(fn[..], s, p, q, i, ni)
      decreases 11 - ni, 11 - i
    {
      c := CharAt(s, q);
      if c <= SPACE || c == SLASH { break; }
      if c == DOT || i >= ni {
        if ni != 8 || c != DOT { break; }
        ScanDot(fn[..], s, p, q, i);
        i, ni, q := 8, 11, q + 1;
        continue;
      }
      ScanChar(fn[..], s, p, q, i, ni);
      fn[i] := Upper(c);
      i, q := i + 1, q + 1;
    }
    ScanEnd(fn[..], s, p, q, i, ni);
  }

  /** create_name: fills the 12 bytes of fn from the segment at p and returns the start
      of the next one. */
  method CreateName(s: seq<byte>, p: nat, fn: array<byte>) returns (next: nat)
    requires fn.Length == 12
    modifies fn
    ensures fn[..11] == Sfn(SegmentAt(s, p))
    ensures fn[11] == if CharAt(s, SegmentAt(s, p).end) <= SPACE then 1 else 0
    ensures next == SegmentAt(s, p).end + 1
    ensures forall k :: 0 <= k < 11 ==> !(97 <= fn[k] <= 122)
  {
    for k := 0 to 11
      invariant forall j :: 0 <= j < k ==> fn[j] == SPACE
    {
      fn[k] := SPACE;
    }
    var q, c := ScanSegment(s, p, fn);
    next := q + 1;
    HoldsSegmentSfn(fn[..], s, p);
    SfnBytes(SegmentAt(s, p));
    assert forall k :: 0 <= k < 11 ==> fn[k] == fn[..11][k];
    fn[11] := if c <= SPACE then 1 else 0;
  }

  /** The two parts of a segment, in plain numbers: the characters above the space that are neither
      '.' nor '/', up to eight of them, and behind a '.' up to three more. */
  lemma SegmentMeaning(s: seq<byte>, p: nat, g: Segment, b: nat)
    requires g == SegmentAt(s, p) && b == p + |g.body|
    ensures AllNameChars(g.body) && forall i :: 0 <= i < |g.body| ==> g.body[i] == CharAt(s, p + i)
    ensures |g.body| < 8 ==> CharAt(s, b) <= 32 || CharAt(s, b) == 46 || CharAt(s, b) == 47
    ensures CharAt(s, b) != 46 ==> g.ext == [] && g.end == b
    ensures CharAt(s, b) == 46 ==>
      && g.end == b + 1 + |g.ext| && AllNameChars(g.ext)
      && (forall i :: 0 <= i < |g.ext| ==> g.ext[i] == CharAt(s, b + 1 + i))
      && (|g.ext| < 3 ==> CharAt(s, g.end) <= 32 || CharAt(s, g.end) == 46 || CharAt(s, g.end) == 47)
  {}

  /** The directory form of a segment, in plain numbers. */
  lemma SfnBytes(g: Segment)
    requires |g.body| <= 8 && |g.ext| <= 3
    ensures forall k :: 0 <= k < 11 ==>
      var c := if k < |g.body| then g.body[k] else if 8 <= k < 8 + |g.ext| then g.ext[k - 8] else 32;
      Sfn(g)[k] == if 97 <= c <= 122 then c - 32 else c
  {}

  // ------------------------------------------------------------- printing

  /** End of the run of non-spaces that starts at p. */
  function WordEnd(e: seq<byte>, p: nat, lim: nat): (q: nat)
    requires p <= lim <= |e|
    ensures p <= q <= lim
    ensures forall i :: p <= i < q ==> e[i] != SPACE
    ensures q < lim ==> e[q] == SPACE
    decreases lim - p
  {
    if p == lim || e[p] == SPACE then p else WordEnd(e, p + 1, lim)
  }

  /** A first byte of 05 stands for E5; get_fileinfo translates it anywhere in the body. */
  function Shown(c: byte): byte {
    if c == 0x05 then 0xE5 else c
  }

  function ShownAll(s: seq<byte>): (r: seq<byte>)
    ensures |r| == |s|
  {
    seq(|s|, i requires 0 <= i < |s| => Shown(s[i]))
  }

  /** The text of a directory entry's name. */
  function PrintName(e: seq<byte>): (t: seq<byte>)
    requires |e| >= 11
    ensures |t| <= 12
  {
    ShownAll(e[..WordEnd(e, 0, 8)]) +
    if e[8] != SPACE then [DOT] + e[8..WordEnd(e, 8, 11)] else []
  }

  /** The same in plain numbers: the bytes up to b of the body and from 8 up to x of the extension, up to
      the first space in each, with '.' between them if there is an extension, and in the body E5
      for 05. */
  lemma PrintMeaning(e: seq<byte>, t: seq<byte>) returns (b: nat, x: nat)
    requires |e| >= 11 && t == PrintName(e)
    ensures b <= 8 && (forall i :: 0 <= i < b ==> e[i] != 32) && (b < 8 ==> e[b] == 32)
    ensures 8 <= x <= 11 && (forall i :: 8 <= i < x ==> e[i] != 32) && (x < 11 ==> e[x] == 32)
    ensures |t| >= b && t[b..] == if x == 8 then [] else [46] + e[8..x]
    ensures forall i :: 0 <= i < b ==> t[i] == if e[i] == 0x05 then 0xE5 else e[i]
  {
    b, x := WordEnd(e, 0, 8), WordEnd(e, 8, 11);
  }

  /** The first loop of get_fileinfo. */
  method PutBody(dir: seq<byte>, lim: nat, fname: array<byte>) returns (n: nat)
    requires lim <= |dir| && lim <= fname.Length
    modifies fname
    ensures n == WordEnd(dir, 0, lim) && fname[..n] == ShownAll(dir[..n])
  {
    n := 0;
    while n < lim && dir[n] != SPACE
      invariant n <= WordEnd(dir, 0, lim) && fname[..n] == ShownAll(dir[..n])
    {
      fname[n] := if dir[n] == 0x05 then 0xE5 else dir[n];
      n := n + 1;
      assert ShownAll(dir[..n]) == ShownAll(dir[..n - 1]) + [Shown(dir[n - 1])];
    }
    WordEndIs(dir, 0, lim, n);
  }

  /** The second loop: bytes from p on, to index at of fname. */
  method PutExtension(dir: seq<byte>, p: nat, lim: nat, fname: array<byte>, at: nat) returns (n: nat)
    requires p <= lim <= |dir| && at + (lim - p) <= fname.Length
    modifies fname
    ensures n == at + (WordEnd(dir, p, lim) - p)
    ensures fname[..n] == old(fname[..at]) + dir[p..WordEnd(dir, p, lim)]
  {
    var i := p;
    n := at;
    while i < lim && dir[i] != SPACE
      invariant p <= i <= WordEnd(dir, p, lim) && n == at + (i - p)
      invariant fname[..n] == old(fname[..at]) + dir[p..i]
    {
      fname[n] := dir[i];
      i, n := i + 1, n + 1;
    }
    WordEndIs(dir, p, lim, i);
  }

  /** get_fileinfo, as far as the name goes: fills fname, which ends with a zero. */
  method GetFileName(sect: nat, dir: seq<byte>, fname: array<byte>) returns (n: nat)
    requires |dir| == 32 && fname.Length == 13
    modifies fname
    ensures n <= 12 && fname[n] == 0
    ensures fname[..n] == if sect != 0 then PrintName(dir) else []
  {
    n := 0;
    if sect != 0 {
      n := PutBody(dir, 8, fname);
      if dir[8] != SPACE {
        ghost var body := fname[..n];
        fname[n] := DOT;
        assert fname[..n + 1] == body + [DOT];
        n := PutExtension(dir, 8, 11, fname, n + 1);
      }
    }
    fname[n] := 0;
  }

  lemma WordEndIs(e: seq<byte>, p: nat, lim: nat, q: nat)
    requires p <= lim <= |e| && p <= q <= WordEnd(e, p, lim) && (q == lim || e[q] == SPACE)
    ensures q == WordEnd(e, p, lim)
  {}

  // ---------------------------------------------------------- round trips

  /** Characters of names only: above the space, and neither '.' nor '/'. */
  predicate AllNameChars(s: seq<byte>) {
    forall i :: 0 <= i < |s| ==> s[i] > 32 && s[i] != 46 && s[i] != 47
  }

  function Text(body: seq<byte>, ext: seq<byte>): seq<byte> {
    body + if ext == [] then [] else [DOT] + ext
  }

  lemma RunOf(s: seq<byte>, pre: seq<byte>, part: seq<byte>, rest: seq<byte>, p: nat, lim: nat)
    requires s == pre + part + rest && p == |pre| && |part| <= lim - p && AllNameChars(part)
    requires |part| == lim - p || !NameChar(CharAt(rest, 0))
    ensures RunEnd(s, p, lim) == p + |part| && Slice(s, p, p + |part|) == part
    ensures CharAt(s, p + |part|) == CharAt(rest, 0)
  {
    var q := p + |part|;
    forall i | p <= i < q ensures CharAt(s, i) == part[i - p] {}
    RunEndOf(s, p, lim, q);
  }

  lemma DottedText(s: seq<byte>, pre: seq<byte>, body: seq<byte>, ext: seq<byte>, rest: seq<byte>)
    requires ext != [] && s == pre + Text(body, ext) + rest
    ensures s == pre + body + ([DOT] + ext + rest)
    ensures s == (pre + body + [DOT]) + ext + rest
  {}

  lemma SegmentOfDotted(s: seq<byte>, pre: seq<byte>, body: seq<byte>, ext: seq<byte>, rest: seq<byte>, p: nat, b: nat)
    requires |body| <= 8 && 1 <= |ext| <= 3 && AllNameChars(body) && AllNameChars(ext)
    requires !NameChar(CharAt(rest, 0)) && s == pre + Text(body, ext) + rest && p == |pre| && b == p + |body|
    ensures SegmentAt(s, p) == Segment(body, ext, b + 1 + |ext|)
    ensures CharAt(s, b + 1 + |ext|) == CharAt(rest, 0)
  {
    DottedText(s, pre, body, ext, rest);
    RunOf(s, pre, body, [DOT] + ext + rest, p, p + 8);
    RunOf(s, pre + body + [DOT], ext, rest, b + 1, b + 4);
    SegmentIs(s, p, b, b + 1 + |ext|, body, ext);
  }

  lemma SegmentIs(s: seq<byte>, p: nat, b: nat, e: nat, body: seq<byte>, ext: seq<byte>)
    requires b == RunEnd(s, p, p + 8) && CharAt(s, b) == DOT && e == RunEnd(s, b + 1, b + 4)
    requires body == Slice(s, p, b) && ext == Slice(s, b + 1, e)
    ensures SegmentAt(s, p) == Segment(body, ext, e)
  {}

  /** Splitting finds the two parts of a name wherever it stands in a path. */
  lemma SegmentOfText(s: seq<byte>, pre: seq<byte>, body: seq<byte>, ext: seq<byte>, rest: seq<byte>)
    requires |body| <= 8 && |ext| <= 3 && AllNameChars(body) && AllNameChars(ext)
    requires !NameChar(CharAt(rest, 0)) && CharAt(rest, 0) != DOT
    requires s == pre + Text(body, ext) + rest
    ensures SegmentAt(s, |pre|) == Segment(body, ext, |pre| + |Text(body, ext)|)
    ensures CharAt(s, |pre| + |Text(body, ext)|) == CharAt(rest, 0)
  {
    var p := |pre|;
    if ext == [] {
      RunOf(s, pre, body, rest, p, p + 8);
    } else {
      SegmentOfDotted(s, pre, body, ext, rest, p, p + |body|);
    }
  }

  lemma {:induction false} RunEndOf(s: seq<byte>, p: nat, lim: nat, q: nat)
    requires p <= q <= lim && (forall i :: p <= i < q ==> NameChar(CharAt(s, i)))
    requires q == lim || !NameChar(CharAt(s, q))
    ensures RunEnd(s, p, lim) == q
    decreases q - p
  {
    if p < q { RunEndOf(s, p + 1, lim, q); }
  }

  lemma {:induction false} WordEndOf(e: seq<byte>, p: nat, lim: nat, q: nat)
    requires p <= q <= lim <= |e| && (forall i :: p <= i < q ==> e[i] != SPACE)
    requires q == lim || e[q] == SPACE
    ensures WordEnd(e, p, lim) == q
    decreases q - p
  {
    if p < q { WordEndOf(e, p + 1, lim, q); }
  }

  lemma SfnBody(body: seq<byte>, ext: seq<byte>, e: seq<byte>)
    requires |body| <= 8 && |ext| <= 3 && AllNameChars(body) && e == Sfn(Segment(body, ext, 0))
    ensures WordEnd(e, 0, 8) == |body| && ShownAll(e[..|body|]) == UpperAll(body)
  {
    WordEndOf(e, 0, 8, |body|);
  }

  lemma SfnExt(body: seq<byte>, ext: seq<byte>, e: seq<byte>)
    requires |body| <= 8 && |ext| <= 3 && AllNameChars(ext) && e == Sfn(Segment(body, ext, 0))
    ensures WordEnd(e, 8, 11) == 8 + |ext| && e[8..8 + |ext|] == UpperAll(ext)
    ensures e[8] == SPACE <==> ext == []
  {
    WordEndOf(e, 8, 11, 8 + |ext|);
    if ext != [] { assert e[8] == Upper(ext[0]); }
  }

  /** Printing the directory form of a name gives the name in upper case. */
  lemma PrintUndoesCreate(body: seq<byte>, ext: seq<byte>)
    requires |body| <= 8 && |ext| <= 3 && AllNameChars(body) && AllNameChars(ext)
    ensures PrintName(Sfn(Segment(body, ext, 0))) == UpperAll(Text(body, ext))
  {
    var e := Sfn(Segment(body, ext, 0));
    SfnBody(body, ext, e);
    SfnExt(body, ext, e);
    if ext != [] {
      assert UpperAll(Text(body, ext)) == UpperAll(body) + ([DOT] + UpperAll(ext));
    }
  }

  /** An entry's name that create_name can produce: in each part upper-case name
      characters followed by spaces only. */
  predicate Canonical(e: seq<byte>)
    requires |e| == 11
  {
    CanonicalPart(e, 0, 8) && CanonicalPart(e, 8, 11)
  }

  predicate CanonicalPart(e: seq<byte>, p: nat, lim: nat)
    requires p <= lim <= |e|
  {
    var q := WordEnd(e, p, lim);
    && (forall i :: p <= i < q ==> e[i] > 32 && e[i] != 46 && e[i] != 47 && !(97 <= e[i] <= 122))
    && (forall i :: q <= i < lim ==> e[i] == 32)
  }

  lemma SfnCanonical(body: seq<byte>, ext: seq<byte>)
    requires |body| <= 8 && |ext| <= 3 && AllNameChars(body) && AllNameChars(ext)
    ensures Canonical(Sfn(Segment(body, ext, 0)))
  {
    var e := Sfn(Segment(body, ext, 0));
    WordEndOf(e, 0, 8, |body|);
    WordEndOf(e, 8, 11, 8 + |ext|);
  }

  lemma PrintCanonical(e: seq<byte>, b: nat, x: nat)
    requires |e| == 11 && Canonical(e) && b == WordEnd(e, 0, 8) && x == WordEnd(e, 8, 11)
    ensures PrintName(e) == Text(e[..b], e[8..x])
    ensures AllNameChars(e[..b]) && AllNameChars(e[8..x])
  {
    assert ShownAll(e[..b]) == e[..b];
  }

  lemma CanonicalBack(e: seq<byte>, b: nat, x: nat)
    requires |e| == 11 && Canonical(e) && b == WordEnd(e, 0, 8) && x == WordEnd(e, 8, 11)
    ensures Sfn(SegmentAt(PrintName(e), 0)) == e
  {
    PrintCanonical(e, b, x);
    TextBack(PrintName(e), e[..b], e[8..x]);
    PaddedParts(e, b, x);
  }

  lemma PaddedParts(e: seq<byte>, b: nat, x: nat)
    requires |e| == 11 && Canonical(e) && b == WordEnd(e, 0, 8) && x == WordEnd(e, 8, 11)
    ensures Pad(UpperAll(e[..b]), 8) + Pad(UpperAll(e[8..x]), 3) == e
  {
    PadBack(e, 0, 8);
    PadBack(e, 8, 11);
    assert e[0..b] == e[..b];
    assert e == e[0..8] + e[8..11];
  }

  lemma TextBack(name: seq<byte>, body: seq<byte>, ext: seq<byte>)
    requires |body| <= 8 && |ext| <= 3 && AllNameChars(body) && AllNameChars(ext) && name == Text(body, ext)
    ensures Sfn(SegmentAt(name, 0)) == Pad(UpperAll(body), 8) + Pad(UpperAll(ext), 3)
  {
    assert [] + Text(body, ext) + [] == name;
    SegmentOfText(name, [], body, ext, []);
  }

  /** Reading back the printed name of an entry gives the entry's 11 bytes exactly when
      they are canonical. */
  lemma CreateUndoesPrint(e: seq<byte>)
    requires |e| == 11
    ensures Sfn(SegmentAt(PrintName(e), 0)) == e <==> Canonical(e)
  {
    var g := SegmentAt(PrintName(e), 0);
    SfnCanonical(g.body, g.ext);
    if Canonical(e) {
      CanonicalBack(e, WordEnd(e, 0, 8), WordEnd(e, 8, 11));
    }
  }

  /** An entry that another system wrote in lower case: it prints as "a", which is read as "A". */
  lemma LowerCaseLost(e: seq<byte>)
    requires e == [0x61] + Spaces(10)
    ensures PrintName(e) == [0x61] && Sfn(SegmentAt(PrintName(e), 0)) == [0x41] + Spaces(10)
    ensures !Canonical(e)
  {
    WordEndOf(e, 0, 8, 1);
    assert ShownAll(e[..1]) == [0x61];
    TextBack([0x61], [0x61], []);
    assert UpperAll([0x61]) == [0x41];
    assert Pad([0x41], 8) + Pad([], 3) == [0x41] + Spaces(10);
  }

  lemma PadBack(e: seq<byte>, p: nat, lim: nat)
    requires p <= lim <= |e| && CanonicalPart(e, p, lim)
    ensures Pad(UpperAll(e[p..WordEnd(e, p, lim)]), lim - p) == e[p..lim]
  {
    var q := WordEnd(e, p, lim);
    assert UpperAll(e[p..q]) == e[p..q];
    assert e[q..lim] == Spaces(lim - q);
  }
}
