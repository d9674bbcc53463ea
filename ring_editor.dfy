/**
 * The line editor of the debug console as values: the ring buffer
 * (`line_buf`, `start_idx`, `end_idx`), the effect of one keystroke, the
 * reading of keystrokes up to a carriage return, and the draining of the
 * buffer by `_read`.  The class in console.dfy runs these steps in place and
 * is proved equal to them.
 *
 * `buf_len` is the C expression `(end_idx - start_idx) % BUFLEN` on `int`
 * operands, so it is negative whenever the line has wrapped past the last
 * slot (end below start).  `Count` is the number of characters the ring
 * actually holds, counted modulo BUFLEN.
 */
module RingEditor {
  import opened CSemantics
  import opened SeqFacts

  /** Number of ring slots the indices range over. */
  const BUFLEN: int := 127
  /** Size of `line_buf`: one slot more than the ring uses. */
  const SLOTS: int := BUFLEN + 1

  const NUL: char := 0 as char
  const BEL: char := 7 as char
  const BS: char := 8 as char
  const CTRL_U: char := 0x15 as char
  const CTRL_W: char := 0x17 as char
  const DEL: char := 0x7f as char

  /** What `back_up` sends: cursor left, blank, cursor left. */
  const RUBOUT: seq<char> := [BS, ' ', BS]

  function Rubout(k: nat): (s: seq<char>)
    ensures |s| == 3 * k
  {
    if k == 0 then [] else RUBOUT + Rubout(k - 1)
  }

  lemma RuboutStep(m: nat)
    ensures Rubout(m + 1) == RUBOUT + Rubout(m)
  {
  }

  /** `next_idx`: the slot after `n`, wrapping from the last slot to 0. */
  function NextIdx(n: int): (r: int)
    requires 0 <= n < BUFLEN
    ensures 0 <= r < BUFLEN
    ensures r == if n == BUFLEN - 1 then 0 else n + 1
  {
    CRem(n + 1, BUFLEN)
  }

  /** `prev_idx`: the slot before `n`, wrapping from 0 to the last slot. */
  function PrevIdx(n: int): (r: int)
    requires 0 <= n < BUFLEN
    ensures 0 <= r < BUFLEN
    ensures r == if n == 0 then BUFLEN - 1 else n - 1
    ensures NextIdx(r) == n
  {
    CRem((n + BUFLEN) - 1, BUFLEN)
  }

  /** The ring: the line buffer and the two cursors. */
  datatype Ring = Ring(buf: seq<char>, start: int, end: int)
  {
    ghost predicate Valid()
    {
      |buf| == SLOTS && 0 <= start < BUFLEN && 0 <= end < BUFLEN
    }
  }

  /**
   * The `buf_len` macro.  With both cursors inside the ring the C remainder
   * never reduces its operand, so `buf_len` is the plain difference and is
   * negative exactly when the line has wrapped.
   */
  function BufLen(r: Ring): (n: int)
    requires r.Valid()
    ensures n == r.end - r.start
    ensures 0 <= n <= BUFLEN - 1 <==> r.end >= r.start
  {
    CRem(r.end - r.start, BUFLEN)
  }

  /** Number of characters held between the cursors, counted around the ring. */
  function Count(r: Ring): (n: int)
    requires r.Valid()
    ensures 0 <= n < BUFLEN
  {
    if r.end >= r.start then r.end - r.start else r.end - r.start + BUFLEN
  }

  /** The slot holding the `i`-th character of the ring. */
  function Slot(r: Ring, i: int): (k: int)
    requires r.Valid() && 0 <= i < BUFLEN
    ensures 0 <= k < BUFLEN
  {
    if r.start + i < BUFLEN then r.start + i else r.start + i - BUFLEN
  }

  /** The characters the ring holds, oldest first. */
  function Line(r: Ring): (s: seq<char>)
    requires r.Valid()
    ensures |s| == Count(r)
  {
    seq(Count(r), i requires 0 <= i < Count(r) => r.buf[Slot(r, i)])
  }

  /** `buf_len` and the ring's true length agree exactly when the line has not wrapped. */
  lemma BufLenAgainstCount(r: Ring)
    requires r.Valid()
    ensures r.end >= r.start ==> BufLen(r) == Count(r) && Line(r) == r.buf[r.start..r.end]
    ensures r.end < r.start ==> BufLen(r) == Count(r) - BUFLEN < 0
  {
  }

  /** The effect of a keystroke: the new ring and what is echoed. */
  datatype Step = Step(ring: Ring, echo: seq<char>)

  /** `back_up`: retract the cursor one slot and rub the character out. */
  function BackUp(r: Ring): (s: Step)
    requires r.Valid()
    ensures s.ring.Valid() && s.ring.buf == r.buf && s.ring.start == r.start
    ensures NextIdx(s.ring.end) == r.end && s.echo == Rubout(1)
  {
    Step(r.(end := PrevIdx(r.end)), RUBOUT)
  }

  /**
   * A non-editing character: stored at the cursor unless `buf_len` is
   * BUFLEN - 1, in which case only the bell is echoed.
   */
  function Insert(r: Ring, c: char): (s: Step)
    requires r.Valid()
    ensures s.ring.Valid() && s.ring.start == r.start
  {
    if BufLen(r) == BUFLEN - 1 then Step(r, [BEL])
    else Step(r.(buf := r.buf[r.end := c], end := NextIdx(r.end)), [c])
  }

  /** BS or DEL: the bell on an empty line, otherwise one `back_up`. */
  function Erase(r: Ring): (s: Step)
    requires r.Valid()
    ensures s.ring.Valid() && s.ring.start == r.start && s.ring.buf == r.buf
  {
    if BufLen(r) == 0 then Step(r, [BEL]) else BackUp(r)
  }

  /**
   * ^W: back up while `buf_len > 0` and the slot AT the cursor (not the one
   * before it) is not white space.
   */
  function EraseWord(r: Ring): (s: Step)
    requires r.Valid()
    ensures s.ring.Valid() && s.ring.buf == r.buf && s.ring.start == r.start
    decreases r.end - r.start
  {
    if BufLen(r) > 0 && !IsSpace(r.buf[r.end]) then
      var b := BackUp(r);
      var rest := EraseWord(b.ring);
      Step(rest.ring, b.echo + rest.echo)
    else
      Step(r, [])
  }

  /** ^U: back up while `buf_len > 0`. */
  function EraseLine(r: Ring): (s: Step)
    requires r.Valid()
    ensures s.ring.Valid() && s.ring.buf == r.buf && s.ring.start == r.start
    decreases r.end - r.start
  {
    if BufLen(r) > 0 then
      var b := BackUp(r);
      var rest := EraseLine(b.ring);
      Step(rest.ring, b.echo + rest.echo)
    else
      Step(r, [])
  }

  /**
   * Carriage return: store a newline at the cursor, advance, store a NUL
   * at the new cursor and echo CR LF.  There is no capacity check.
   */
  function Enter(r: Ring): (s: Step)
    requires r.Valid()
    ensures s.ring.Valid() && s.ring.start == r.start
  {
    var e := NextIdx(r.end);
    Step(r.(buf := r.buf[r.end := '\n'][e := NUL], end := e), ['\r', '\n'])
  }

  /** One pass of the `switch` in `get_buffered_line`: editing never moves `start_idx`. */
  function Edit(r: Ring, c: char): (s: Step)
    requires r.Valid()
    ensures s.ring.Valid() && s.ring.start == r.start
  {
    if c == '\r' then Enter(r)
    else if c == BS || c == DEL then Erase(r)
    else if c == CTRL_W then EraseWord(r)
    else if c == CTRL_U then EraseLine(r)
    else Insert(r, c)
  }

  // ----- what each keystroke does -----

  /**
   * A non-editing character is stored at the cursor and echoed, the cursor
   * advancing one slot, unless `buf_len` is BUFLEN - 1: then only the bell is
   * echoed and nothing changes.  While the ring has room the character is
   * appended to the line it holds.
   */
  lemma InsertRule(r: Ring, c: char)
    requires r.Valid()
    ensures var s := Insert(r, c);
            && (BufLen(r) == BUFLEN - 1 ==> s == Step(r, [BEL]))
            && (BufLen(r) != BUFLEN - 1 ==>
                  s.echo == [c] && s.ring.end == NextIdx(r.end) && s.ring.buf == r.buf[r.end := c])
            && (BufLen(r) != BUFLEN - 1 && Count(r) < BUFLEN - 1 ==> Line(s.ring) == Line(r) + [c])
  {
    var s := Insert(r, c);
    if BufLen(r) != BUFLEN - 1 && Count(r) < BUFLEN - 1 {
      assert Count(s.ring) == Count(r) + 1;
      forall i | 0 <= i < Count(r)
        ensures Line(s.ring)[i] == Line(r)[i]
      {
        assert Slot(s.ring, i) == Slot(r, i) != r.end;
      }
      assert Slot(s.ring, Count(r)) == r.end;
    }
  }

  /**
   * BS or DEL on an empty line (`buf_len == 0`) echoes only the bell and
   * changes nothing; otherwise the last character of the line is retracted
   * and rubbed out.
   */
  lemma EraseRule(r: Ring)
    requires r.Valid()
    ensures var s := Erase(r);
            && (BufLen(r) == 0 ==> s == Step(r, [BEL]))
            && (BufLen(r) != 0 ==>
                  s.echo == Rubout(1) && NextIdx(s.ring.end) == r.end
                  && Count(r) > 0 && Line(s.ring) == Line(r)[..Count(r) - 1])
  {
    var s := Erase(r);
    if BufLen(r) != 0 {
      assert Count(s.ring) == Count(r) - 1;
      forall i | 0 <= i < Count(r) - 1
        ensures Line(s.ring)[i] == Line(r)[i]
      {
        assert Slot(s.ring, i) == Slot(r, i);
      }
    }
  }

  /**
   * ^W leaves the cursor on the last white-space slot at or below the old
   * cursor, or at the start if there is none; every slot it retracts over
   * was not white space.  Because the loop tests the slot AT the cursor, the
   * blank it stops on is retracted as well.  A line with `buf_len <= 0`
   * (empty or wrapped) is left alone.  Each retraction echoes one rub-out.
   */
  lemma EraseWordRule(r: Ring)
    requires r.Valid()
    ensures var s := EraseWord(r);
            && (BufLen(r) <= 0 ==> s == Step(r, []))
            && (BufLen(r) > 0 ==>
                  && r.start <= s.ring.end <= r.end
                  && (forall j :: s.ring.end < j <= r.end ==> !IsSpace(r.buf[j]))
                  && (s.ring.end == r.start || IsSpace(r.buf[s.ring.end]))
                  && s.echo == Rubout(r.end - s.ring.end))
  {
    EraseWordStops(r);
    EraseWordEcho(r);
  }

  /** Where ^W leaves the cursor: past non-blank slots only, on a blank slot or at the start. */
  lemma {:induction false} EraseWordStops(r: Ring)
    requires r.Valid()
    ensures var s := EraseWord(r);
            && (BufLen(r) <= 0 ==> s == Step(r, []))
            && (BufLen(r) > 0 ==>
                  && r.start <= s.ring.end <= r.end
                  && (forall j :: s.ring.end < j <= r.end ==> !IsSpace(r.buf[j]))
                  && (s.ring.end == r.start || IsSpace(r.buf[s.ring.end])))
    decreases r.end - r.start
  {
    if BufLen(r) > 0 && !IsSpace(r.buf[r.end]) {
      var b := BackUp(r);
      EraseWordStops(b.ring);
      var t := EraseWord(b.ring);
      assert EraseWord(r).ring == t.ring;
      assert b.ring.end == r.end - 1 && b.ring.buf == r.buf && b.ring.start == r.start;
    }
  }

  /** ^W echoes one rub-out per slot it retracts. */
  lemma {:induction false} EraseWordEcho(r: Ring)
    requires r.Valid()
    ensures var s := EraseWord(r);
            s.ring.end <= r.end && s.echo == Rubout(r.end - s.ring.end)
    decreases r.end - r.start
  {
    if BufLen(r) > 0 && !IsSpace(r.buf[r.end]) {
      var b := BackUp(r);
      EraseWordEcho(b.ring);
      var t := EraseWord(b.ring);
      assert EraseWord(r) == Step(t.ring, RUBOUT + t.echo);
      assert b.ring.end == r.end - 1;
      RuboutStep(b.ring.end - t.ring.end);
    }
  }

  /**
   * ^U retracts to the start and echoes one rub-out per character when
   * `buf_len > 0`; an empty or wrapped line is left alone.
   */
  lemma {:induction false} EraseLineRule(r: Ring)
    requires r.Valid()
    ensures var s := EraseLine(r);
            && (BufLen(r) <= 0 ==> s == Step(r, []))
            && (BufLen(r) > 0 ==> s.ring.end == r.start && s.echo == Rubout(BufLen(r)) && Line(s.ring) == [])
    decreases r.end - r.start
  {
    if BufLen(r) > 0 {
      var b := BackUp(r);
      EraseLineRule(b.ring);
    }
  }

  /**
   * A carriage return stores a newline at the old cursor and a NUL at the
   * new one and echoes CR LF.  With room left the newline ends the line; in
   * a ring already holding BUFLEN - 1 characters the cursor lands on the
   * start and the whole line is lost.
   */
  lemma EnterRule(r: Ring)
    requires r.Valid()
    ensures var s := Enter(r);
            && s.echo == ['\r', '\n'] && s.ring.end == NextIdx(r.end)
            && s.ring.buf[r.end] == '\n' && s.ring.buf[s.ring.end] == NUL
            && (Count(r) < BUFLEN - 1 ==> Line(s.ring) == Line(r) + ['\n'])
            && (Count(r) == BUFLEN - 1 ==> s.ring.end == s.ring.start && Line(s.ring) == [])
  {
    var s := Enter(r);
    if Count(r) < BUFLEN - 1 {
      assert Count(s.ring) == Count(r) + 1;
      forall i | 0 <= i < Count(r)
        ensures Line(s.ring)[i] == Line(r)[i]
      {
        assert Slot(s.ring, i) == Slot(r, i);
        assert Slot(r, i) != r.end && Slot(r, i) != s.ring.end;
      }
      assert Slot(s.ring, Count(r)) == r.end;
    }
  }

  /** A character the editor stores rather than acts on. */
  predicate Plain(c: char)
  {
    c != '\r' && c != BS && c != DEL && c != CTRL_W && c != CTRL_U
  }

  /**
   * The outcome of reading keystrokes: the ring, the echo, the keystrokes
   * not consumed, and whether the read finished.  It finishes on a carriage
   * return; when the keystrokes run out first, the real code is still
   * waiting in `uart_getc`.
   */
  datatype LineRead = LineRead(ring: Ring, echo: seq<char>, rest: seq<char>, done: bool)

  /** The `do ... while (c != '\r')` loop of `get_buffered_line`. */
  function Collect(r: Ring, input: seq<char>): (lr: LineRead)
    requires r.Valid()
    ensures lr.ring.Valid() && lr.ring.start == r.start
    decreases |input|
  {
    if input == [] then LineRead(r, [], [], false)
    else
      var s := Edit(r, input[0]);
      if input[0] == '\r' then LineRead(s.ring, s.echo, input[1..], true)
      else
        var lr := Collect(s.ring, input[1..]);
        LineRead(lr.ring, s.echo + lr.echo, lr.rest, lr.done)
  }

  /**
   * Reading a line consumes keystrokes up to and including the first
   * carriage return and no further; it finishes exactly when there is one.
   * A finished line has a NUL under the cursor and a newline just before it.
   */
  lemma CollectRule(r: Ring, input: seq<char>)
    requires r.Valid()
    ensures var lr := Collect(r, input);
            var k := |input| - |lr.rest|;
            && 0 <= k && lr.rest == input[k..]
            && (forall i :: 0 <= i < k - 1 ==> input[i] != '\r')
            && (lr.done <==> '\r' in input)
            && (lr.done ==> k > 0 && input[k - 1] == '\r')
            && (lr.done ==> lr.ring.buf[lr.ring.end] == NUL && lr.ring.buf[PrevIdx(lr.ring.end)] == '\n')
            && (!lr.done ==> lr.rest == [])
  {
    CollectConsumes(r, input);
    CollectEnds(r, input);
  }

  lemma {:induction false} CollectConsumes(r: Ring, input: seq<char>)
    requires r.Valid()
    ensures var lr := Collect(r, input);
            var k := |input| - |lr.rest|;
            && 0 <= k && lr.rest == input[k..]
            && (forall i :: 0 <= i < k - 1 ==> input[i] != '\r')
            && (lr.done <==> '\r' in input)
            && (lr.done ==> k > 0 && input[k - 1] == '\r')
            && (!lr.done ==> lr.rest == [])
    decreases |input|
  {
    if input != [] && input[0] != '\r' {
      var tail := input[1..];
      var s := Edit(r, input[0]);
      CollectConsumes(s.ring, tail);
      var lr, lr1 := Collect(r, input), Collect(s.ring, tail);
      assert lr.rest == lr1.rest && lr.done == lr1.done;
      var k1 := |tail| - |lr1.rest|;
      assert lr.rest == input[k1 + 1..] by {
        assert tail[k1..] == input[k1 + 1..];
      }
      forall i | 0 <= i < k1
        ensures input[i] != '\r'
      {
        if i > 0 {
          assert input[i] == tail[i - 1];
        }
      }
      assert '\r' in input <==> '\r' in tail by {
        assert input == [input[0]] + tail;
      }
      if lr.done {
        assert input[k1] == tail[k1 - 1];
      }
    } else if input != [] {
      assert input[0] == '\r';
    }
  }

  lemma {:induction false} CollectEnds(r: Ring, input: seq<char>)
    requires r.Valid()
    ensures var lr := Collect(r, input);
            lr.done ==> lr.ring.buf[lr.ring.end] == NUL && lr.ring.buf[PrevIdx(lr.ring.end)] == '\n'
    decreases |input|
  {
    if input != [] {
      if input[0] == '\r' {
        EnterRule(r);
      } else {
        CollectEnds(Edit(r, input[0]).ring, input[1..]);
      }
    }
  }

  /** A read whose echo is preceded by characters already sent. */
  function AfterEcho(sent: seq<char>, lr: LineRead): LineRead
  {
    LineRead(lr.ring, sent + lr.echo, lr.rest, lr.done)
  }

  /** Collect takes one keystroke, edits with it and, unless it was a carriage return, goes on. */
  lemma CollectAdvance(r: Ring, input: seq<char>, sent: seq<char>)
    requires r.Valid() && input != []
    ensures var s := Edit(r, input[0]);
            AfterEcho(sent, Collect(r, input))
            == if input[0] == '\r' then LineRead(s.ring, sent + s.echo, input[1..], true)
               else AfterEcho(sent + s.echo, Collect(s.ring, input[1..]))
  {
    var s := Edit(r, input[0]);
    if input[0] != '\r' {
      var lr := Collect(s.ring, input[1..]);
      assert Collect(r, input) == LineRead(lr.ring, s.echo + lr.echo, lr.rest, lr.done);
      AppendAssoc(sent, s.echo, lr.echo);
    }
  }

  /**
   * `get_buffered_line`: a pending line (start != end) is returned at once,
   * without reading anything; otherwise keystrokes are edited in until a
   * carriage return.
   */
  function ReadLine(r: Ring, input: seq<char>): (lr: LineRead)
    requires r.Valid()
    ensures lr.ring.Valid() && lr.ring.start == r.start
  {
    if r.start != r.end then LineRead(r, [], input, true) else Collect(r, input)
  }

  /**
   * A line still pending when `get_buffered_line` is called (the cursors
   * differ, say because `_read` took only part of it) is left as it is: no
   * keystroke is read and nothing is echoed.
   */
  lemma PendingLineKept(r: Ring, input: seq<char>)
    requires r.Valid() && r.start != r.end
    ensures ReadLine(r, input) == LineRead(r, [], input, true)
  {
  }

  /** What the copy loop of `_read` leaves and returns. */
  datatype Drained = Drained(ring: Ring, bytes: seq<char>)

  /**
   * The copy loop of `_read`: while `buf_len > 0` and room is left, copy the
   * character at `start_idx` and advance it.  It copies nothing from a
   * wrapped line, whose `buf_len` is negative.
   */
  function Drain(r: Ring, len: int): (d: Drained)
    requires r.Valid()
    ensures d.ring.Valid() && d.ring.buf == r.buf && d.ring.end == r.end
    decreases if len > 0 then len else 0
  {
    if BufLen(r) > 0 && len > 0 then
      var rest := Drain(r.(start := NextIdx(r.start)), len - 1);
      Drained(rest.ring, [r.buf[r.start]] + rest.bytes)
    else
      Drained(r, [])
  }

  /**
   * The drain copies n characters, where n is the smaller of `buf_len` and
   * `len` when both are positive and 0 otherwise: the characters from
   * `start_idx` on, in order; `start_idx` advances by n and `end_idx` stays.
   * The copied characters are the first n of the line.
   */
  lemma DrainRule(r: Ring, len: int)
    requires r.Valid()
    ensures var d := Drain(r, len);
            var n := if BufLen(r) > 0 && len > 0 then Min(BufLen(r), len) else 0;
            && d.bytes == r.buf[r.start..r.start + n] && d.ring.start == r.start + n
            && d.bytes == Line(r)[..n]
  {
    var n := Copied(r, len);
    DrainCopies(r, len);
    BufLenAgainstCount(r);
    if n > 0 {
      assert Line(r)[..n] == r.buf[r.start..r.end][..n];
    }
  }

  /** How many characters the drain copies: `buf_len` and `len` when both are positive, at most. */
  function Copied(r: Ring, len: int): (n: nat)
    requires r.Valid()
  {
    if BufLen(r) > 0 && len > 0 then Min(BufLen(r), len) else 0
  }

  /** The drain copies the slots from `start_idx` on, one per pass, and moves `start_idx` past them. */
  lemma {:induction false} DrainCopies(r: Ring, len: int)
    requires r.Valid()
    ensures var d := Drain(r, len);
            d.bytes == r.buf[r.start..r.start + Copied(r, len)] && d.ring.start == r.start + Copied(r, len)
    decreases if len > 0 then len else 0
  {
    if BufLen(r) > 0 && len > 0 {
      var r1 := r.(start := NextIdx(r.start));
      var d1 := Drain(r1, len - 1);
      assert Drain(r, len) == Drained(d1.ring, [r.buf[r.start]] + d1.bytes);
      DrainCopies(r1, len - 1);
      CopiedStep(r, len);
      SliceCons(r.buf, r.start, r.start + Copied(r, len));
    } else {
      assert r.buf[r.start..r.start] == [];
    }
  }

  /** One pass of the drain: `start_idx` moves up one slot and one character fewer is left to copy. */
  lemma CopiedStep(r: Ring, len: int)
    requires r.Valid() && BufLen(r) > 0 && len > 0
    ensures var r1 := r.(start := NextIdx(r.start));
            r1.start == r.start + 1 && Copied(r1, len - 1) == Copied(r, len) - 1
  {
  }

  // ----- properties of whole lines -----

  /**
   * Typing plain characters into a ring with room for them stores exactly
   * those characters after the ones already held and echoes them, whether
   * or not the line wraps past the last slot.
   */
  lemma {:induction false} TypingFillsLine(r: Ring, typed: seq<char>)
    requires r.Valid()
    requires forall i :: 0 <= i < |typed| ==> Plain(typed[i])
    requires Count(r) + |typed| <= BUFLEN - 1
    ensures var lr := Collect(r, typed);
            !lr.done && lr.rest == [] && lr.echo == typed && Line(lr.ring) == Line(r) + typed
    decreases |typed|
  {
    if typed != [] {
      var c, tail := typed[0], typed[1..];
      var s := Edit(r, c);
      var lr, lr1 := Collect(r, typed), Collect(s.ring, tail);
      assert Line(s.ring) == Line(r) + [c] && s.echo == [c] && Count(s.ring) == Count(r) + 1 by {
        PlainStep(r, c);
      }
      assert lr == LineRead(lr1.ring, [c] + lr1.echo, lr1.rest, lr1.done) by {
        CollectPlain(r, typed);
      }
      assert !lr1.done && lr1.rest == [] && lr1.echo == tail && Line(lr1.ring) == Line(s.ring) + tail by {
        TypingFillsLine(s.ring, tail);
      }
      assert [c] + tail == typed;
      AppendAssoc(Line(r), [c], tail);
    }
  }

  /** A plain character with room left in the ring is appended and echoed. */
  lemma PlainStep(r: Ring, c: char)
    requires r.Valid() && Plain(c) && Count(r) < BUFLEN - 1
    ensures var s := Edit(r, c);
            s.echo == [c] && Line(s.ring) == Line(r) + [c] && Count(s.ring) == Count(r) + 1
  {
    assert Edit(r, c) == Insert(r, c);
    InsertRule(r, c);
  }

  /** Collect unfolded once on a keystroke other than carriage return. */
  lemma CollectPlain(r: Ring, input: seq<char>)
    requires r.Valid() && input != [] && input[0] != '\r'
    ensures var s := Edit(r, input[0]);
            var lr := Collect(s.ring, input[1..]);
            Collect(r, input) == LineRead(lr.ring, s.echo + lr.echo, lr.rest, lr.done)
  {
  }

  /**
   * A line typed into an empty ring and ended with a carriage return is what
   * `_read` then delivers, newline included, as long as it does not reach
   * past the last slot; the drain leaves the ring empty again.
   */
  lemma LineDelivered(r: Ring, typed: seq<char>, more: seq<char>, len: int)
    requires r.Valid() && r.start == r.end
    requires forall i :: 0 <= i < |typed| ==> Plain(typed[i])
    requires r.start + |typed| + 1 < BUFLEN
    requires len >= |typed| + 1
    ensures var lr := ReadLine(r, typed + ['\r'] + more);
            var d := Drain(lr.ring, len);
            && lr.done && lr.rest == more && lr.echo == typed + ['\r', '\n']
            && d.bytes == typed + ['\n'] && d.ring.start == d.ring.end
  {
    var lr := ReadLine(r, typed + ['\r'] + more);
    var t := Collect(r, typed).ring;
    var e := Enter(t);
    assert lr == LineRead(e.ring, typed + ['\r', '\n'], more, true) by {
      TypedThenEnter(r, typed, more);
      TypingFillsLine(r, typed);
    }
    assert Line(e.ring) == typed + ['\n'] by {
      TypingFillsLine(r, typed);
      assert Count(r) == 0 && Line(r) == [];
      assert Line(t) == typed;
      EnterRule(t);
    }
    assert e.ring.end >= e.ring.start;
    BufLenAgainstCount(e.ring);
    DrainRule(e.ring, len);
  }

  /** Collecting a typed line then a carriage return is typing, then Enter. */
  lemma {:induction false} TypedThenEnter(r: Ring, typed: seq<char>, more: seq<char>)
    requires r.Valid()
    requires forall i :: 0 <= i < |typed| ==> Plain(typed[i])
    ensures var t := Collect(r, typed);
            var e := Enter(t.ring);
            Collect(r, typed + ['\r'] + more) == LineRead(e.ring, t.echo + e.echo, more, true)
    decreases |typed|
  {
    var input := typed + ['\r'] + more;
    if typed == [] {
      assert input[0] == '\r' && input[1..] == more;
    } else {
      assert input[0] == typed[0];
      assert input[1..] == typed[1..] + ['\r'] + more;
      TypedThenEnter(Edit(r, typed[0]).ring, typed[1..], more);
    }
  }

  /**
   * A line that reaches past the last slot of the ring (possible whenever it
   * does not start at slot 0) leaves `end_idx` below `start_idx`.  Then
   * `buf_len` is negative, so `_read` copies nothing, and because the
   * cursors differ `get_buffered_line` never reads a keystroke again: the
   * line is never delivered and the console stops taking input.
   */
  lemma WrappedLineNeverDelivered(r: Ring, typed: seq<char>, more: seq<char>, len: int, later: seq<char>)
    requires r.Valid() && r.start == r.end
    requires forall i :: 0 <= i < |typed| ==> Plain(typed[i])
    requires |typed| < BUFLEN - 1
    requires r.start + |typed| + 1 >= BUFLEN
    ensures var lr := ReadLine(r, typed + ['\r'] + more);
            && lr.done && lr.ring.end < lr.ring.start
            && Drain(lr.ring, len) == Drained(lr.ring, [])
            && ReadLine(lr.ring, later) == LineRead(lr.ring, [], later, true)
  {
    var lr := ReadLine(r, typed + ['\r'] + more);
    TypedThenEnter(r, typed, more);
    TypingFillsLine(r, typed);
    var t := Collect(r, typed).ring;
    assert Count(t) == |typed|;
    assert lr.ring.end == NextIdx(t.end);
    assert Count(lr.ring) == |typed| + 1;
  }

  /**
   * ^W on "foo bar" with the cursor after the "r" and a non-blank character
   * in the slot under the cursor leaves "foo": the blank is retracted with
   * the word.
   */
  lemma EraseWordFooBar(r: Ring)
    requires r.Valid() && r.start == 0 && r.end == 7
    requires r.buf[..7] == "foo bar" && !IsSpace(r.buf[7])
    ensures Line(EraseWord(r).ring) == "foo"
    ensures EraseWord(r).echo == Rubout(4)
  {
    var s := EraseWord(r);
    EraseWordRule(r);
    assert r.buf[3] == ' ';
    assert forall j :: 3 < j < 7 ==> r.buf[j] == "foo bar"[j];
    assert s.ring.end == 3;
    BufLenAgainstCount(s.ring);
  }

  /** ^W does nothing when the slot under the cursor holds white space. */
  lemma EraseWordOnBlankSlot(r: Ring)
    requires r.Valid() && IsSpace(r.buf[r.end])
    ensures EraseWord(r) == Step(r, [])
  {
  }
}
