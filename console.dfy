/**
 * The console's line-editing globals and the functions that change them:
 * `back_up`, `get_buffered_line` and `_read`.  The UART is the pair of
 * character sequences `input` (what `uart_getc` will deliver) and `output`
 * (what `uart_putc` has sent).  Every method is proved to act exactly as
 * the value-level steps of RingEditor.
 */
module LineConsole {
  import opened CSemantics
  import opened SeqFacts
  import E = RingEditor

  class Console {
    /** `line_buf`, BUFLEN + 1 characters. */
    const lineBuf: array<char>
    /** `start_idx`: the first character not yet handed to `_read`. */
    var startIdx: int
    /** `end_idx`: the cursor, where the next character is stored. */
    var endIdx: int
    /** Keystrokes `uart_getc` has still to deliver. */
    var input: seq<char>
    /** Characters passed to `uart_putc`, oldest first. */
    var output: seq<char>

    ghost predicate Valid()
      reads this
    {
      lineBuf.Length == E.SLOTS && 0 <= startIdx < E.BUFLEN && 0 <= endIdx < E.BUFLEN
    }

    /** The globals as a ring value. */
    ghost function State(): (r: E.Ring)
      requires Valid()
      reads this, lineBuf
      ensures r.Valid()
    {
      E.Ring(lineBuf[..], startIdx, endIdx)
    }

    /** The globals as the C start-up code leaves them: all zero. */
    constructor (keys: seq<char>)
      ensures Valid() && fresh(lineBuf)
      ensures State() == E.Ring(seq(E.SLOTS, _ => E.NUL), 0, 0)
      ensures input == keys && output == []
    {
      lineBuf := new char[E.SLOTS](_ => E.NUL);
      startIdx, endIdx := 0, 0;
      input, output := keys, [];
    }

    /** The `buf_len` macro on the current cursors. */
    function BufLen(): (n: int)
      requires Valid()
      reads this
      ensures n == endIdx - startIdx
    {
      CRem(endIdx - startIdx, E.BUFLEN)
    }

    /** `back_up`: move the cursor back one slot and rub the character out. */
    method BackUp()
      requires Valid()
      modifies this
      ensures Valid() && input == old(input)
      ensures var s := E.BackUp(old(State()));
              State() == s.ring && output == old(output) + s.echo
    {
      endIdx := E.PrevIdx(endIdx);
      output := output + [E.BS, ' ', E.BS];
    }

    /** One pass through the `switch` of `get_buffered_line` for keystroke `c`. */
    method Key(c: char)
      requires Valid()
      modifies this, lineBuf
      ensures Valid() && input == old(input)
      ensures var s := E.Edit(old(State()), c);
              State() == s.ring && output == old(output) + s.echo
    {
      if c == '\r' {
        lineBuf[endIdx] := '\n';
        endIdx := E.NextIdx(endIdx);
        lineBuf[endIdx] := E.NUL;
        output := output + ['\r', '\n'];
      } else if c == E.BS || c == E.DEL {
        if BufLen() == 0 {
          output := output + [E.BEL];
        } else {
          BackUp();
        }
      } else if c == E.CTRL_W {
        EraseWord();
      } else if c == E.CTRL_U {
        EraseLine();
      } else {
        if BufLen() == E.BUFLEN - 1 {
          output := output + [E.BEL];
        } else {
          lineBuf[endIdx] := c;
          endIdx := E.NextIdx(endIdx);
          output := output + [c];
        }
      }
    }

    /** The ^W case: back up while `buf_len > 0` and the slot at the cursor is not blank. */
    method EraseWord()
      requires Valid()
      modifies this
      ensures Valid() && input == old(input)
      ensures var s := E.EraseWord(old(State()));
              State() == s.ring && output == old(output) + s.echo
    {
      ghost var s0, out0 := State(), output;
      ghost var said: seq<char> := [];
      while BufLen() > 0 && !IsSpace(lineBuf[endIdx])
        invariant Valid() && input == old(input)
        invariant lineBuf[..] == s0.buf && startIdx == s0.start
        invariant output == out0 + said
        invariant E.EraseWord(s0) == E.Step(E.EraseWord(State()).ring, said + E.EraseWord(State()).echo)
        decreases endIdx - startIdx
      {
        ghost var before := State();
        BackUp();
        ghost var rest := E.EraseWord(State());
        assert E.EraseWord(before) == E.Step(rest.ring, E.RUBOUT + rest.echo);
        AppendAssoc(said, E.RUBOUT, rest.echo);
        AppendAssoc(out0, said, E.RUBOUT);
        said := said + E.RUBOUT;
      }
      assert said + [] == said;
      assert E.EraseWord(State()) == E.Step(State(), []);
    }

    /** The ^U case: back up while `buf_len > 0`. */
    method EraseLine()
      requires Valid()
      modifies this
      ensures Valid() && input == old(input)
      ensures var s := E.EraseLine(old(State()));
              State() == s.ring && output == old(output) + s.echo
    {
      ghost var s0, out0 := State(), output;
      ghost var said: seq<char> := [];
      while BufLen() > 0
        invariant Valid() && input == old(input)
        invariant lineBuf[..] == s0.buf && startIdx == s0.start
        invariant output == out0 + said
        invariant E.EraseLine(s0) == E.Step(E.EraseLine(State()).ring, said + E.EraseLine(State()).echo)
        decreases endIdx - startIdx
      {
        ghost var before := State();
        BackUp();
        ghost var rest := E.EraseLine(State());
        assert E.EraseLine(before) == E.Step(rest.ring, E.RUBOUT + rest.echo);
        AppendAssoc(said, E.RUBOUT, rest.echo);
        AppendAssoc(out0, said, E.RUBOUT);
        said := said + E.RUBOUT;
      }
      assert said + [] == said;
      assert E.EraseLine(State()) == E.Step(State(), []);
    }

    /**
     * `get_buffered_line`.  Returns whether the C function would have
     * returned: false when the keystrokes ran out before a carriage return,
     * where the real code is still blocked in `uart_getc`.
     */
    method GetBufferedLine() returns (done: bool)
      requires Valid()
      modifies this, lineBuf
      ensures Valid()
      ensures var lr := E.ReadLine(old(State()), old(input));
              State() == lr.ring && output == old(output) + lr.echo && input == lr.rest && done == lr.done
    {
      if startIdx != endIdx {
        return true;
      }
      ghost var goal, out0 := E.Collect(State(), input), output;
      ghost var echoed: seq<char> := [];
      done := false;
      while !done && input != []
        invariant Valid()
        invariant output == out0 + echoed
        invariant !done ==> goal == E.AfterEcho(echoed, E.Collect(State(), input))
        invariant done ==> goal == E.LineRead(State(), echoed, input, true)
        decreases |input|
      {
        ghost var before, beforeIn := State(), input;
        var c := input[0];
        input := input[1..];
        Key(c);
        done := c == '\r';
        ghost var echo := E.Edit(before, c).echo;
        E.CollectAdvance(before, beforeIn, echoed);
        AppendAssoc(out0, echoed, echo);
        echoed := echoed + echo;
      }
      assert !done ==> E.Collect(State(), input) == E.LineRead(State(), [], [], false);
      assert echoed + [] == echoed;
    }

    /**
     * `_read(fd, ptr, len)`: -1 for a descriptor above 2; otherwise wait for
     * a line and copy up to `len` of its characters, returning how many.
     * `done` is false when the model's keystrokes ran out while the real
     * code would still be waiting for one; nothing is copied then.
     */
    method Read(fd: int, len: int) returns (done: bool, n: int, bytes: seq<char>)
      requires Valid()
      modifies this, lineBuf
      ensures Valid()
      ensures fd > 2 ==> done && n == -1 && bytes == [] && State() == old(State())
                         && input == old(input) && output == old(output)
      ensures fd <= 2 ==>
                var lr := E.ReadLine(old(State()), old(input));
                && output == old(output) + lr.echo && input == lr.rest && done == lr.done
                && (done ==> var d := E.Drain(lr.ring, len);
                             State() == d.ring && bytes == d.bytes && n == |bytes|)
                && (!done ==> State() == lr.ring && n == 0 && bytes == [])
    {
      if fd > 2 {
        return true, -1, [];
      }
      n, bytes := 0, [];
      done := GetBufferedLine();
      if !done {
        return;
      }
      ghost var r1, in1, out1 := State(), input, output;
      var left := len;
      while BufLen() > 0 && left > 0
        invariant Valid() && lineBuf[..] == r1.buf && endIdx == r1.end
        invariant input == in1 && output == out1
        invariant n == |bytes|
        invariant var d := E.Drain(State(), left);
                  E.Drain(r1, len) == E.Drained(d.ring, bytes + d.bytes)
        decreases left
      {
        ghost var before, copied := State(), bytes;
        var c := lineBuf[startIdx];
        bytes := bytes + [c];
        startIdx := E.NextIdx(startIdx);
        n := n + 1;
        left := left - 1;
        ghost var d := E.Drain(State(), left);
        assert E.Drain(before, left + 1) == E.Drained(d.ring, [c] + d.bytes);
        AppendAssoc(copied, [c], d.bytes);
      }
    }
  }
}
