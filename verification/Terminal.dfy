/** The terminal's circular line buffer, filled by the receive interrupt. */
module Terminal {

  import opened Bits

  const HEIGHT := 17
  const WIDTH := 22
  const NEWLINE: byte := 10

  // What was received, as lines.

  /** Completed lines, without their newlines. */
  function Lines(h: seq<byte>): seq<seq<byte>> {
    if h == [] then []
    else if h[|h| - 1] == NEWLINE then Lines(h[..|h| - 1]) + [Partial(h[..|h| - 1])]
    else Lines(h[..|h| - 1])
  }

  /** The line not completed yet. */
  function Partial(h: seq<byte>): seq<byte> {
    if h == [] || h[|h| - 1] == NEWLINE then [] else Partial(h[..|h| - 1]) + [h[|h| - 1]]
  }

  function Joined(lines: seq<seq<byte>>): seq<byte> {
    if lines == [] then [] else Joined(lines[..|lines| - 1]) + lines[|lines| - 1] + [10]
  }

  lemma LinesMore(h: seq<byte>, b: byte, h': seq<byte>)
    requires h' == h + [b]
    ensures Lines(h') == if b == NEWLINE then Lines(h) + [Partial(h)] else Lines(h)
    ensures Partial(h') == if b == NEWLINE then [] else Partial(h) + [b]
  {
    assert h'[..|h|] == h;
  }

  predicate NoNewline(line: seq<byte>) {
    forall i :: 0 <= i < |line| ==> line[i] != 10
  }

  /** Splitting into lines loses nothing and splits at every newline. */
  lemma {:induction false} LinesOfAll(h: seq<byte>)
    ensures Joined(Lines(h)) + Partial(h) == h && NoNewline(Partial(h))
    ensures forall i :: 0 <= i < |Lines(h)| ==> NoNewline(Lines(h)[i])
  {
    if h != [] {
      var n := |h| - 1;
      LinesOfAll(h[..n]);
      assert h == h[..n] + [h[n]];
      if h[n] == NEWLINE {
        assert Lines(h)[..|Lines(h)| - 1] == Lines(h[..n]);
      } else {
        assert Joined(Lines(h)) + Partial(h) == Joined(Lines(h[..n])) + Partial(h[..n]) + [h[n]];
      }
    }
  }

  // What a row of the buffer shows.

  /** The row starts with the line, cut at the row's width. */
  predicate Holds(row: seq<byte>, line: seq<byte>)
    requires |row| == WIDTH
  {
    forall i :: 0 <= i < Min(WIDTH, |line|) ==> row[i] == line[i]
  }

  /** The row shows the line: cut at the row's width, ended by a newline when shorter. */
  predicate Shows(row: seq<byte>, line: seq<byte>)
    requires |row| == WIDTH
  {
    Holds(row, line) && (|line| < WIDTH ==> row[|line|] == NEWLINE)
  }

  lemma LineShown(row: seq<byte>, line: seq<byte>)
    requires |row| == WIDTH && Holds(row, line + [NEWLINE])
    ensures Shows(row, line)
  {
    var full := line + [NEWLINE];
    assert forall i :: 0 <= i < |line| ==> full[i] == line[i];
    assert full[|line|] == NEWLINE;
  }

  /** Rows of the last 16 of n completed lines: line k is in row k mod HEIGHT. */
  predicate Kept(k: int, n: nat) {
    0 <= k < n && n - k < HEIGHT
  }

  lemma OtherRow(k: nat, n: nat)
    requires Kept(k, n)
    ensures k % HEIGHT != n % HEIGHT
  {}

  predicate IsScreen(rows: seq<seq<byte>>) {
    |rows| == HEIGHT && forall r :: 0 <= r < HEIGHT ==> |rows[r]| == WIDTH
  }

  /** The rows show the last completed lines. */
  ghost predicate Displayed(rows: seq<seq<byte>>, lines: seq<seq<byte>>)
    requires IsScreen(rows)
  {
    forall k :: Kept(k, |lines|) ==> Shows(rows[k % HEIGHT], lines[k])
  }

  /** Changes to the row behind the last line do no harm. */
  lemma DisplayedStill(rows: seq<seq<byte>>, rows': seq<seq<byte>>, lines: seq<seq<byte>>)
    requires IsScreen(rows) && IsScreen(rows') && Displayed(rows, lines)
    requires forall r :: 0 <= r < HEIGHT && r != |lines| % HEIGHT ==> rows'[r] == rows[r]
    ensures Displayed(rows', lines)
  {
    forall k | Kept(k, |lines|)
      ensures Shows(rows'[k % HEIGHT], lines[k])
    {
      OtherRow(k, |lines|);
    }
  }

  /** That row can become the last line. */
  lemma DisplayedMore(rows: seq<seq<byte>>, lines: seq<seq<byte>>, line: seq<byte>, at: nat, more: seq<seq<byte>>)
    requires IsScreen(rows) && Displayed(rows, lines) && at == |lines| % HEIGHT
    requires Holds(rows[at], line + [NEWLINE]) && more == lines + [line]
    ensures Displayed(rows, more)
  {
    LineShown(rows[at], line);
    forall k | Kept(k, |more|)
      ensures Shows(rows[k % HEIGHT], more[k])
    {
      if k < |lines| { assert Kept(k, |lines|) && more[k] == lines[k]; }
    }
  }

  class LineBuffer {
    const buffer: array2<byte>
    var head: nat
    var tail: nat
    var xpos: nat
    ghost var received: seq<byte>

    ghost function Row(r: nat): (row: seq<byte>)
      requires r < HEIGHT && buffer.Length0 == HEIGHT && buffer.Length1 == WIDTH
      reads buffer
      ensures |row| == WIDTH
    {
      seq(WIDTH, j requires 0 <= j < WIDTH reads buffer => buffer[r, j])
    }

    ghost function Rows(): (rows: seq<seq<byte>>)
      requires buffer.Length0 == HEIGHT && buffer.Length1 == WIDTH
      reads buffer
      ensures IsScreen(rows)
    {
      seq(HEIGHT,
          r requires 0 <= r < HEIGHT && buffer.Length0 == HEIGHT && buffer.Length1 == WIDTH reads buffer => Row(r))
    }

    ghost predicate Shape()
      reads this
    {
      && buffer.Length0 == HEIGHT && buffer.Length1 == WIDTH
      && var n := |Lines(received)|;
         && head == n % HEIGHT && tail == FirstRow(n)
         && xpos == Min(WIDTH, |Partial(received)|)
    }

    ghost predicate Valid()
      reads this, buffer
    {
      && Shape()
      && Holds(Row(head), Partial(received))
      && (0 < xpos < WIDTH ==> buffer[head, xpos] == NEWLINE)
      && Displayed(Rows(), Lines(received))
    }

    constructor ()
      ensures Valid() && received == [] && fresh(buffer)
    {
      buffer := new byte[HEIGHT, WIDTH];
      head, tail, xpos, received := 0, 0, 0, [];
    }

    /** The part of the interrupt that stores the byte. */
    method Store(b: byte)
      requires Valid()
      modifies `xpos, buffer
      ensures buffer.Length0 == HEIGHT && buffer.Length1 == WIDTH
      ensures xpos == Min(WIDTH, |Partial(received)| + 1)
      ensures Holds(Row(head), Partial(received) + [b])
      ensures xpos < WIDTH ==> buffer[head, xpos] == NEWLINE
      ensures forall r, j :: 0 <= r < HEIGHT && 0 <= j < WIDTH && r != head ==> buffer[r, j] == old(buffer[r, j])
    {
      if xpos < WIDTH - 1 {
        buffer[head, xpos + 1] := NEWLINE;
      }
      if xpos < WIDTH {
        buffer[head, xpos] := b;
        xpos := xpos + 1;
      }
    }

    /** The part of the interrupt that starts a new line. */
    method NextLine(ghost n: nat)
      requires head == n % HEIGHT && tail == FirstRow(n)
      modifies `head, `tail, `xpos
      ensures xpos == 0 && head == (n + 1) % HEIGHT && tail == FirstRow(n + 1)
    {
      RingNext(n, head, tail);
      head := head + 1;
      xpos := 0;
      if head >= HEIGHT { head := 0; }
      if head == tail {
        tail := tail + 1;
        if tail >= HEIGHT {
          tail := 0;
        }
      }
    }

    /** Storing a byte leaves the rows of the completed lines alone. */
    method StoreInRow(b: byte, ghost line: seq<byte>, ghost lines: seq<seq<byte>>)
      requires Valid() && line == Partial(received) && lines == Lines(received)
      modifies `xpos, buffer
      ensures buffer.Length0 == HEIGHT && buffer.Length1 == WIDTH
      ensures xpos == Min(WIDTH, |line| + 1) && Holds(Row(head), line + [b])
      ensures xpos < WIDTH ==> buffer[head, xpos] == NEWLINE
      ensures Displayed(Rows(), lines)
    {
      ghost var rows := Rows();
      Store(b);
      forall r | 0 <= r < HEIGHT && r != head
        ensures Rows()[r] == rows[r]
      {
        assert Row(r) == old(Row(r));
      }
      DisplayedStill(rows, Rows(), lines);
    }

    /** The receive interrupt. */
    method Receive(b: byte)
      requires Valid()
      modifies this, buffer
      ensures Valid() && received == old(received) + [b]
    {
      ghost var h, line, lines := received, Partial(received), Lines(received);
      StoreInRow(b, line, lines);
      received := received + [b];
      LinesMore(h, b, received);
      if b == NEWLINE {
        DisplayedMore(Rows(), lines, line, head, Lines(received));
        NextLine(|lines|);
      }
    }

    /** The rows from tail up to, not including, head show in ring order the last lines that
        were completed: 16 of them, or all when there are fewer. */
    lemma Displays(y: nat)
      requires Valid() && y < Min(16, |Lines(received)|)
      ensures var n := |Lines(received)|;
              var shown := Min(16, n);
              var row, line := Row((tail + y) % 17), Lines(received)[n - shown + y];
              && (tail + shown) % 17 == head && |row| == 22
              && (forall i :: 0 <= i < Min(22, |line|) ==> row[i] == line[i]) && (|line| < 22 ==> row[|line|] == 10)
    {
      var n := |Lines(received)|;
      RingRow(n, y);
      var k := n - Min(16, n) + y;
      assert Kept(k, n);
      assert Shows(Rows()[k % HEIGHT], Lines(received)[k]);
    }
  }

  /** Row of the first line shown when n lines are complete. */
  function FirstRow(n: nat): (r: nat)
    ensures r < HEIGHT
  {
    if n < HEIGHT then 0 else (n - HEIGHT + 1) % HEIGHT
  }

  /** Row of the first line when the row behind the last one is known. */
  lemma FirstRowIs(n: nat, last: nat)
    requires last == n % HEIGHT
    ensures FirstRow(n) == if n < HEIGHT || last + 1 == HEIGHT then 0 else last + 1
  {
    var q := n / HEIGHT;
    DivModEq(n, HEIGHT);
    if n >= HEIGHT {
      if last + 1 == HEIGHT {
        DivModUnique(n - HEIGHT + 1, HEIGHT, q, 0);
      } else {
        DivModUnique(n - HEIGHT + 1, HEIGHT, q - 1, last + 1);
      }
    }
  }

  lemma NextRow(n: nat, last: nat)
    requires last == n % HEIGHT
    ensures (n + 1) % HEIGHT == if last + 1 == HEIGHT then 0 else last + 1
  {
    var q := n / HEIGHT;
    DivModEq(n, HEIGHT);
    if last + 1 == HEIGHT {
      DivModUnique(n + 1, HEIGHT, q + 1, 0);
    } else {
      DivModUnique(n + 1, HEIGHT, q, last + 1);
    }
  }

  lemma SmallRow(n: nat)
    requires n < HEIGHT
    ensures n % HEIGHT == n
  {}

  /** One line more moves the last row on, and the first one too once the ring is full. */
  lemma RingNext(n: nat, last: nat, first: nat)
    requires last == n % HEIGHT && first == FirstRow(n)
    ensures var next := if last + 1 == HEIGHT then 0 else last + 1;
            && (n + 1) % HEIGHT == next
            && FirstRow(n + 1) == if next != first then first else if first + 1 == HEIGHT then 0 else first + 1
  {
    NextRow(n, last);
    FirstRowIs(n, last);
    FirstRowIs(n + 1, if last + 1 == HEIGHT then 0 else last + 1);
    if n < HEIGHT { SmallRow(n); }
  }

  lemma RingRow(n: nat, y: nat)
    ensures var shown := Min(HEIGHT - 1, n);
            && (FirstRow(n) + shown) % HEIGHT == n % HEIGHT
            && (FirstRow(n) + y) % HEIGHT == (n - shown + y) % HEIGHT
  {}

}
