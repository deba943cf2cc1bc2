/** Page-organised flash memory: what erasing, filling and committing pages leaves behind. */
module FlashModel {
  import opened Bits

  const BLANK: byte := 0xFF

  function Blanks(n: nat): (s: seq<byte>)
    ensures |s| == n
  {
    seq(n, _ => BLANK)
  }

  predicate AllBlank(s: seq<byte>) {
    forall i :: 0 <= i < |s| ==> s[i] == BLANK
  }

  /** s with the bytes from p on replaced by part. */
  function Splice(s: seq<byte>, p: nat, part: seq<byte>): (r: seq<byte>)
    requires p + |part| <= |s|
    ensures |r| == |s|
  {
    s[..p] + part + s[p + |part|..]
  }

  /** Replacing the tail of a replaced part. */
  lemma SpliceTail(s: seq<byte>, p: nat, head: seq<byte>, tail: seq<byte>, newer: seq<byte>)
    requires |tail| == |newer| && p + |head| + |tail| <= |s|
    ensures Splice(Splice(s, p, head + tail), p + |head|, newer) == Splice(s, p, head + newer)
  {}

  /** Replacing the stretch that follows a replaced part. */
  lemma SpliceNext(s: seq<byte>, p: nat, head: seq<byte>, next: seq<byte>)
    requires p + |head| + |next| <= |s|
    ensures Splice(Splice(s, p, head), p + |head|, next) == Splice(s, p, head + next)
  {}

  /** Replacing a part and more. */
  lemma SpliceAgain(s: seq<byte>, p: nat, part: seq<byte>, more: seq<byte>)
    requires |part| <= |more| && p + |more| <= |s|
    ensures Splice(s, p, part)[p..p + |part|] == part
    ensures Splice(Splice(s, p, part), p, more) == Splice(s, p, more)
  {}

  /** One more byte of a replaced part. */
  lemma SpliceByte(s: seq<byte>, p: nat, data: seq<byte>, k: nat)
    requires k < |data| && p + k < |s|
    ensures Splice(s, p, data[..k])[p + k := data[k]] == Splice(s, p, data[..k + 1])
  {}

  /** A page with data at its front and behind it what was there before. */
  function Over(data: seq<byte>, under: seq<byte>): (r: seq<byte>)
    requires |data| <= |under|
    ensures |r| == |under|
  {
    data + under[|data|..]
  }

  lemma OverMore(data: seq<byte>, lo: byte, hi: byte, under: seq<byte>)
    requires |data| + 2 <= |under|
    ensures Over(data, under)[|data| := lo][|data| + 1 := hi] == Over(data + [lo, hi], under)
  {}

  lemma OverBlank(data: seq<byte>, under: seq<byte>)
    requires |data| <= |under|
    ensures Over(data, under) == Blanks(|under|) <==> AllBlank(data) && AllBlank(under[|data|..])
  {
    var r := Over(data, under);
    if r == Blanks(|under|) {
      assert forall i :: 0 <= i < |data| ==> data[i] == r[i];
      assert forall i :: 0 <= i < |under| - |data| ==> under[|data|..][i] == r[|data| + i];
    }
  }

  /** Whole pages that n bytes of data take up, in bytes; at least one page. */
  function Span(n: nat, page: nat): (r: nat)
    requires page > 0
    ensures n <= r && page <= r
  {
    if n <= page then page else page + Span(n - page, page)
  }

  /** Bytes of the whole pages in n bytes. */
  function FullPages(n: nat, page: nat): (r: nat)
    requires page > 0
    ensures r <= n < r + page
  {
    if n < page then 0 else page + FullPages(n - page, page)
  }

  predicate Aligned(a: nat, m: nat)
    requires m > 0
  {
    a == 0 || (a >= m && Aligned(a - m, m))
  }

  /** In terms of division. */
  lemma {:induction false} AlignedIs(a: nat, m: nat)
    requires m > 0
    ensures Aligned(a, m) <==> a % m == 0
  {
    if a < m {
      DivModUnique(a, m, 0, a);
    } else {
      AlignedIs(a - m, m);
      DivModEq(a - m, m);
      MulSucc((a - m) / m, m);
      DivModUnique(a, m, (a - m) / m + 1, (a - m) % m);
    }
  }

  lemma {:induction false} AlignedSum(a: nat, b: nat, m: nat)
    requires m > 0 && Aligned(a, m) && Aligned(b, m)
    ensures Aligned(a + b, m)
  {
    if b > 0 { AlignedSum(a, b - m, m); }
  }

  lemma {:induction false} FullPagesIs(n: nat, page: nat, d: nat)
    requires page > 0 && Aligned(d, page) && d <= n < d + page
    ensures FullPages(n, page) == d
  {
    if d > 0 { FullPagesIs(n - page, page, d - page); }
  }

  /** Data that ends inside the page after `done` bytes of full pages spans those and that page. */
  lemma {:induction false} SpanIs(n: nat, page: nat, done: nat)
    requires page > 0 && Aligned(done, page)
    requires n == done == 0 || done < n <= done + page
    ensures Span(n, page) == done + page
  {
    if done > 0 { SpanIs(n - page, page, done - page); }
  }

  /** Data that goes on beyond the page after `done` bytes spans at least one page more. */
  lemma {:induction false} SpanRoom(n: nat, page: nat, done: nat)
    requires page > 0 && Aligned(done, page) && done + page < n
    ensures done + 2 * page <= Span(n, page)
  {
    if done > 0 { SpanRoom(n - page, page, done - page); }
  }

  /** Flash after data was programmed from the page boundary base on: the data, blanks up
      to the end of its last page, and everything else as before. */
  function Programmed(flash: seq<byte>, base: nat, data: seq<byte>, page: nat): (r: seq<byte>)
    requires page > 0 && base + Span(|data|, page) <= |flash|
    ensures |r| == |flash|
  {
    Splice(flash, base, data + Blanks(Span(|data|, page) - |data|))
  }

  /** The meaning of Programmed, byte by byte. */
  lemma ProgrammedAt(flash: seq<byte>, base: nat, data: seq<byte>, page: nat, a: nat)
    requires page > 0 && base + Span(|data|, page) <= |flash| && a < |flash|
    ensures Programmed(flash, base, data, page)[a] ==
            if base <= a < base + |data| then data[a - base]
            else if base + |data| <= a < base + Span(|data|, page) then BLANK
            else flash[a]
  {
  }

  /** What n bytes of data leave behind them in their last page: blanks, but what was in the
      page buffer before them if they do not go beyond the first page. */
  function Rest(n: nat, buffer: seq<byte>): (r: seq<byte>)
    requires |buffer| > 0
    ensures |r| == Span(n, |buffer|) - n
  {
    if 0 < n <= |buffer| then
      SpanIs(n, |buffer|, 0);
      buffer[n..]
    else Blanks(Span(n, |buffer|) - n)
  }

  /** Flash after data was written from the page boundary base on by a loop that found buffer in
      the page buffer. */
  function Written(flash: seq<byte>, base: nat, data: seq<byte>, buffer: seq<byte>): (r: seq<byte>)
    requires |buffer| > 0 && base + Span(|data|, |buffer|) <= |flash|
    ensures |r| == |flash|
  {
    Splice(flash, base, data + Rest(|data|, buffer))
  }

  /** It is programmed exactly if there was no data, or the data fills the first page, or what
      lay behind it in the page buffer was blank. */
  lemma WrittenExact(flash: seq<byte>, base: nat, data: seq<byte>, buffer: seq<byte>)
    requires |buffer| > 0 && base + Span(|data|, |buffer|) <= |flash|
    ensures Written(flash, base, data, buffer) == Programmed(flash, base, data, |buffer|)
            <==> |data| == 0 || |data| >= |buffer| || AllBlank(buffer[|data|..])
  {
    var n, page := |data|, |buffer|;
    var rest, blanks := Rest(n, buffer), Blanks(Span(n, page) - n);
    SpliceSame(flash, base, data, rest, blanks);
    if 0 < n <= page {
      assert AllBlank(rest) ==> rest == blanks;
    }
  }

  lemma SpliceSame(s: seq<byte>, p: nat, head: seq<byte>, a: seq<byte>, b: seq<byte>)
    requires |a| == |b| && p + |head| + |a| <= |s|
    ensures Splice(s, p, head + a) == Splice(s, p, head + b) <==> a == b
  {
    var x, y := Splice(s, p, head + a), Splice(s, p, head + b);
    assert x[p + |head|..p + |head| + |a|] == a && y[p + |head|..p + |head| + |b|] == b;
  }

  /** Reading the written stretch back gives the data, whatever was in the page buffer. */
  lemma ReadBack(flash: seq<byte>, base: nat, data: seq<byte>, buffer: seq<byte>)
    requires |buffer| > 0 && base + Span(|data|, |buffer|) <= |flash|
    ensures base + |data| <= |flash|
    ensures Written(flash, base, data, buffer)[base..base + |data|] == data
  {
    SpliceFront(flash, base, data, Rest(|data|, buffer));
  }

  lemma SpliceFront(s: seq<byte>, p: nat, head: seq<byte>, tail: seq<byte>)
    requires p + |head| + |tail| <= |s|
    ensures Splice(s, p, head + tail)[p..p + |head|] == head
  {}

  /** A programming run of `words` words: flash and page buffer at its start, base address and
      data. The data is shorter than the words when the sender goes away. */
  datatype Run = Run(flash: seq<byte>, buffer: seq<byte>, base: nat, data: seq<byte>, page: nat, words: nat) {
    ghost predicate Good() {
      && page > 0 && page % 2 == 0 && |buffer| == page && Aligned(base, page) && |data| <= 2 * words
      && base + Span(2 * words, page) <= |flash|
    }

    /** `done` bytes are in full pages that were committed before the page now being filled,
        and `inPage` words have gone into that one. */
    ghost predicate Pos(done: nat, inPage: nat) {
      && Good() && Aligned(done, page)
      && done + 2 * inPage <= |data| && done + page <= Span(2 * words, page)
      && if done + 2 * inPage == 2 * words && inPage > 0 then 2 * inPage <= page else 2 * inPage < page
    }

    /** The last word has been taken, so the last page is committed. */
    ghost predicate Last(done: nat, inPage: nat) {
      done + 2 * inPage == 2 * words && inPage > 0
    }

    /** Flash between two words: the committed pages and one erased page, or all of it. */
    ghost function FlashAt(done: nat, inPage: nat): (r: seq<byte>)
      requires Pos(done, inPage)
      ensures |r| == |flash|
    {
      if Last(done, inPage) then Written(flash, base, data, buffer)
      else Splice(flash, base, data[..done] + Blanks(page))
    }

    /** What the page buffer held when the page after `done` bytes was begun. */
    ghost function Under(done: nat): (r: seq<byte>)
      requires |buffer| == page
      ensures |r| == page
    {
      if done == 0 then buffer else Blanks(page)
    }

    /** The page buffer between two words. */
    ghost function BufferAt(done: nat, inPage: nat): (r: seq<byte>)
      requires Pos(done, inPage)
      ensures |r| == page
    {
      if Last(done, inPage) then Blanks(page) else Over(data[done..done + 2 * inPage], Under(done))
    }
  }

  lemma RunBegin(run: Run)
    requires run.Good() && run.base + run.page <= |run.flash|
    requires run.flash[run.base..run.base + run.page] == Blanks(run.page)
    ensures run.Pos(0, 0) && run.FlashAt(0, 0) == run.flash && run.BufferAt(0, 0) == run.buffer
  {
    assert run.flash == Splice(run.flash, run.base, Blanks(run.page));
    assert run.data[..0] + Blanks(run.page) == Blanks(run.page);
    assert run.buffer == Over(run.data[0..0], run.buffer);
  }

  /** The next word goes into the page buffer. */
  lemma RunFill(run: Run, done: nat, inPage: nat, lo: byte, hi: byte)
    requires run.Pos(done, inPage) && !run.Last(done, inPage) && done + 2 * inPage + 2 <= |run.data|
    requires lo == run.data[done + 2 * inPage] && hi == run.data[done + 2 * inPage + 1]
    ensures 2 * inPage + 2 <= run.page
    ensures Fill(run.BufferAt(done, inPage), 2 * inPage, lo, hi) ==
            Over(run.data[done..done + 2 * inPage + 2], run.Under(done))
  {
    var k := done + 2 * inPage;
    OverMore(run.data[done..k], lo, hi, run.Under(done));
    assert run.data[done..k] + [lo, hi] == run.data[done..k + 2];
  }

  /** A full page is committed and the next one erased. */
  lemma RunCommit(run: Run, done: nat, inPage: nat)
    requires run.Pos(done, inPage) && done + 2 * inPage + 2 <= |run.data| && 2 * inPage + 2 == run.page
    requires done + run.page < 2 * run.words
    ensures run.Pos(done + run.page, 0) && run.base + done + 2 * run.page <= |run.flash|
    ensures Erase(Commit(run.FlashAt(done, inPage), run.base + done, run.data[done..done + run.page]),
                  run.base + done + run.page, run.page) == run.FlashAt(done + run.page, 0)
    ensures Blanks(run.page) == run.BufferAt(done + run.page, 0)
  {
    var k := done + run.page;
    NextPage(run, done);
    EmptyBuffer(run, k);
    CommitFlash(run, done, k, run.FlashAt(done, inPage), run.FlashAt(k, 0));
  }

  lemma EmptyBuffer(run: Run, done: nat)
    requires run.Pos(done, 0) && done > 0
    ensures run.BufferAt(done, 0) == Blanks(run.page)
  {
    assert run.data[done..done] == [];
  }

  lemma CommitFlash(run: Run, done: nat, k: nat, f: seq<byte>, g: seq<byte>)
    requires k == done + run.page <= |run.data| && run.base + k + run.page <= |run.flash|
    requires f == Splice(run.flash, run.base, run.data[..done] + Blanks(run.page))
    requires g == Splice(run.flash, run.base, run.data[..k] + Blanks(run.page))
    ensures Erase(Commit(f, run.base + done, run.data[done..k]), run.base + k, run.page) == g
  {
    CommitErase(run.flash, run.base, run.data[..done], run.data[done..k], run.page, run.data[..k]);
  }

  lemma CommitErase(flash: seq<byte>, base: nat, head: seq<byte>, part: seq<byte>, page: nat, all: seq<byte>)
    requires |part| == page && base + |head| + 2 * page <= |flash| && all == head + part
    ensures Erase(Commit(Splice(flash, base, head + Blanks(page)), base + |head|, part), base + |head| + page, page) ==
            Splice(flash, base, all + Blanks(page))
  {
    SpliceTail(flash, base, head, Blanks(page), part);
    SpliceNext(flash, base, all, Blanks(page));
  }

  lemma NextPage(run: Run, done: nat)
    requires run.Good() && Aligned(done, run.page) && done + run.page < 2 * run.words
    ensures Aligned(done + run.page, run.page) && done + 2 * run.page <= Span(2 * run.words, run.page)
  {
    SpanRoom(2 * run.words, run.page, done);
  }

  /** Positions of the loop are decoded exactly. */
  lemma RunAligned(run: Run, done: nat)
    requires run.Good() && Aligned(done, run.page)
    ensures Aligned(run.base + done, run.page)
  {
    AlignedSum(run.base, done, run.page);
  }

  /** The last page is committed. */
  lemma RunFinish(run: Run, done: nat, inPage: nat)
    requires run.Pos(done, inPage) && done + 2 * inPage + 2 == |run.data| == 2 * run.words
    requires 2 * inPage + 2 <= run.page
    ensures run.Pos(done, inPage + 1)
    ensures Commit(run.FlashAt(done, inPage), run.base + done, Over(run.data[done..], run.Under(done))) ==
            run.FlashAt(done, inPage + 1)
  {
    SpanIs(2 * run.words, run.page, done);
    var part := Over(run.data[done..], run.Under(done));
    SpliceTail(run.flash, run.base, run.data[..done], Blanks(run.page), part);
    LastPage(run.data, done, run.buffer, part);
  }

  lemma LastPage(data: seq<byte>, done: nat, buffer: seq<byte>, part: seq<byte>)
    requires |buffer| > 0 && Aligned(done, |buffer|) && done < |data| <= done + |buffer|
    requires part == Over(data[done..], if done == 0 then buffer else Blanks(|buffer|))
    ensures data[..done] + part == data + Rest(|data|, buffer)
  {
    SpanIs(|data|, |buffer|, done);
    assert data[..done] + data[done..] == data;
  }

  /** After all words flash is programmed, also when there were none. */
  lemma RunEnd(run: Run, done: nat, inPage: nat)
    requires run.Pos(done, inPage) && done + 2 * inPage == 2 * run.words
    ensures |run.data| == 2 * run.words
    ensures run.words > 0 ==> inPage > 0
    ensures run.FlashAt(done, inPage) == Written(run.flash, run.base, run.data, run.buffer)
  {
    if inPage == 0 {
      SpanTight(done, run.page);
      assert run.data[..done] + Blanks(run.page) == run.data + Blanks(Span(0, run.page) - 0);
    }
  }

  lemma SpanTight(n: nat, page: nat)
    requires page > 0 && Aligned(n, page) && n + page <= Span(n, page)
    ensures n == 0
  {
    if n > 0 { SpanIs(n, page, n - page); }
  }

  /** An address in a memory of `size` bytes; address bits beyond it are not decoded. */
  function Wrap(a: nat, size: nat): (r: nat)
    requires size > 0
    ensures r < size && (a < size ==> r == a)
  {
    if a < size then a else a % size
  }

  /** Erasing the page at p. */
  function Erase(flash: seq<byte>, p: nat, page: nat): (r: seq<byte>)
    requires p + page <= |flash|
    ensures |r| == |flash|
  {
    Splice(flash, p, Blanks(page))
  }

  /** Putting a word into slot o of the page buffer. */
  function Fill(buffer: seq<byte>, o: nat, lo: byte, hi: byte): (r: seq<byte>)
    requires o + 2 <= |buffer|
    ensures |r| == |buffer|
  {
    buffer[o := lo][o + 1 := hi]
  }

  /** Committing the page buffer to the page at p. */
  function Commit(flash: seq<byte>, p: nat, buffer: seq<byte>): (r: seq<byte>)
    requires p + |buffer| <= |flash|
    ensures |r| == |flash|
  {
    Splice(flash, p, buffer)
  }

  /** Flash and page buffer after one word of a programming loop: the word is buffered, and at
      the end of a page or of the data the page at p is committed and the one at q erased. */
  function WordDone(flash: seq<byte>, buffer: seq<byte>, p: nat, o: nat, q: nat, full: bool, more: bool,
                    lo: byte, hi: byte): (r: (seq<byte>, seq<byte>))
    requires o + 2 <= |buffer| && p + |buffer| <= |flash| && q + |buffer| <= |flash|
    ensures |r.0| == |flash| && |r.1| == |buffer|
  {
    var b := Fill(buffer, o, lo, hi);
    if !full && more then (flash, b)
    else if !more then (Commit(flash, p, b), Blanks(|b|))
    else (Erase(Commit(flash, p, b), q, |b|), Blanks(|b|))
  }

  /** The loop step keeps the run on course: inside a page, */
  lemma RunWordInside(run: Run, done: nat, inPage: nat, q: nat, lo: byte, hi: byte)
    requires run.Pos(done, inPage) && done + 2 * inPage + 2 < 2 * run.words && done + 2 * inPage + 2 <= |run.data|
    requires lo == run.data[done + 2 * inPage] && hi == run.data[done + 2 * inPage + 1] && 2 * inPage + 2 < run.page
    requires q + run.page <= |run.flash|
    ensures run.Pos(done, inPage + 1)
    ensures WordDone(run.FlashAt(done, inPage), run.BufferAt(done, inPage), run.base + done, 2 * inPage, q,
                     false, true, lo, hi) == (run.FlashAt(done, inPage + 1), run.BufferAt(done, inPage + 1))
  {
    RunFill(run, done, inPage, lo, hi);
  }

  /** at its end, */
  lemma RunWordFull(run: Run, done: nat, inPage: nat, q: nat, lo: byte, hi: byte)
    requires run.Pos(done, inPage) && done + 2 * inPage + 2 < 2 * run.words && done + 2 * inPage + 2 <= |run.data|
    requires lo == run.data[done + 2 * inPage] && hi == run.data[done + 2 * inPage + 1] && 2 * inPage + 2 == run.page
    requires q == run.base + done + run.page && q + run.page <= |run.flash|
    ensures run.Pos(done + run.page, 0)
    ensures WordDone(run.FlashAt(done, inPage), run.BufferAt(done, inPage), run.base + done, 2 * inPage, q,
                     true, true, lo, hi) == (run.FlashAt(done + run.page, 0), run.BufferAt(done + run.page, 0))
  {
    var part := run.data[done..done + run.page];
    RunFill(run, done, inPage, lo, hi);
    assert Over(part, run.Under(done)) == part;
    RunCommit(run, done, inPage);
  }

  /** and with the last word. */
  lemma RunWordLast(run: Run, done: nat, inPage: nat, q: nat, full: bool, lo: byte, hi: byte)
    requires run.Pos(done, inPage) && done + 2 * inPage + 2 == 2 * run.words == |run.data|
    requires lo == run.data[done + 2 * inPage] && hi == run.data[done + 2 * inPage + 1]
    requires q + run.page <= |run.flash|
    ensures run.Pos(done, inPage + 1)
    ensures WordDone(run.FlashAt(done, inPage), run.BufferAt(done, inPage), run.base + done, 2 * inPage, q,
                     full, false, lo, hi) == (run.FlashAt(done, inPage + 1), run.BufferAt(done, inPage + 1))
  {
    RunFill(run, done, inPage, lo, hi);
    assert run.data[done..done + 2 * inPage + 2] == run.data[done..];
    RunFinish(run, done, inPage);
  }

  /** The page after a page boundary below another one ends at or below that one. */
  lemma {:induction false} NextBoundary(a: nat, end: nat, page: nat)
    requires page > 0 && Aligned(a, page) && Aligned(end, page) && a < end
    ensures a + page <= end && Aligned(a + page, page)
  {
    if a > 0 { NextBoundary(a - page, end - page, page); }
  }

  /** Flash after the pages below `end` were erased one by one, each erasure followed by a
      commit of the page buffer: the buffer's contents land in the first page. */
  function Cleared(flash: seq<byte>, buffer: seq<byte>, end: nat): (r: seq<byte>)
    requires end <= |flash| && (end == 0 || |buffer| <= end)
    ensures |r| == |flash|
  {
    if end == 0 then flash else Splice(flash, 0, buffer + Blanks(end - |buffer|))
  }

  lemma ClearedStep(flash: seq<byte>, buffer: seq<byte>, a: nat, end: nat, now: seq<byte>, waiting: seq<byte>)
    requires |buffer| > 0 && Aligned(a, |buffer|) && Aligned(end, |buffer|) && a < end <= |flash|
    requires a == 0 || |buffer| <= a
    requires now == Cleared(flash, buffer, a) && waiting == if a == 0 then buffer else Blanks(|buffer|)
    ensures a + |buffer| <= end && Aligned(a + |buffer|, |buffer|)
    ensures Commit(Erase(now, a, |buffer|), a, waiting) == Cleared(flash, buffer, a + |buffer|)
  {
    NextBoundary(a, end, |buffer|);
    ClearedPage(flash, buffer, a, now, waiting);
  }

  lemma ClearedPage(flash: seq<byte>, buffer: seq<byte>, a: nat, now: seq<byte>, waiting: seq<byte>)
    requires a + |buffer| <= |flash| && (a == 0 || |buffer| <= a)
    requires now == Cleared(flash, buffer, a) && waiting == if a == 0 then buffer else Blanks(|buffer|)
    ensures Commit(Erase(now, a, |buffer|), a, waiting) == Cleared(flash, buffer, a + |buffer|)
  {
    assert Commit(Erase(now, a, |buffer|), a, waiting) == Splice(now, a, waiting);
    if a == 0 {
      assert buffer + Blanks(0) == buffer;
    } else {
      SpliceNext(flash, 0, buffer + Blanks(a - |buffer|), waiting);
      assert buffer + Blanks(a - |buffer|) + waiting == buffer + Blanks(a);
    }
  }

  /** Everything below `end` is blank afterwards exactly when the page buffer was empty. */
  lemma ClearedBlank(flash: seq<byte>, buffer: seq<byte>, end: nat)
    requires |buffer| <= end <= |flash| && end > 0
    ensures AllBlank(Cleared(flash, buffer, end)[..end]) <==> buffer == Blanks(|buffer|)
  {
    var r := Cleared(flash, buffer, end)[..end];
    assert r == buffer + Blanks(end - |buffer|);
    if AllBlank(r) {
      assert forall i :: 0 <= i < |buffer| ==> buffer[i] == r[i];
    }
  }

  /** Erasing the first page beforehand readies it and makes no difference to the outcome. */
  lemma EraseFirst(flash: seq<byte>, base: nat, data: seq<byte>, buffer: seq<byte>, erased: seq<byte>)
    requires |buffer| > 0 && base + Span(|data|, |buffer|) <= |flash| && erased == Erase(flash, base, |buffer|)
    ensures |erased| == |flash| && base + |buffer| <= |flash|
    ensures erased[base..base + |buffer|] == Blanks(|buffer|)
    ensures Written(erased, base, data, buffer) == Written(flash, base, data, buffer)
  {
    SpliceAgain(flash, base, Blanks(|buffer|), data + Rest(|data|, buffer));
  }
}
