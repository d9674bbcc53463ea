/**
 * What one pass of `main`'s loop does with a line: the prompt, then the
 * handler the first token names.  The flash driver is outside the model:
 * each call is recorded in a trace and returns the status the `Driver`
 * value prescribes for that position in the trace.  Console output is a
 * sequence of events standing for the `iprintf` texts.
 */
module DebugTool {
  import opened CSemantics
  import opened SeqFacts
  import opened HexDump
  import opened Commands
  import Tokenizer

  /** `sizeof(read_buf)`: the largest chunk the dump loop reads at once. */
  const READ_BUF: nat := 256

  /** Where `flash_read` is told to copy. */
  datatype Dest = ReadBuf | Ram(addr: nat)

  /** A call into the flash driver, with its arguments. */
  datatype DriverCall =
    | Init                                          // flash_init()
    | GetEraseSize                                  // flash_get_erasesize()
    | FlashRead(flAddr: nat, dest: Dest, len: nat)  // flash_read(fl_addr, dest, len)
    | FlashWrite(flAddr: nat, ramAddr: nat, len: nat)
    | FlashErase(flAddr: nat, len: nat)

  /**
   * The driver as the tool sees it: the status the k-th call of a command
   * returns (0 past the end of `results`), the value of
   * `flash_get_erasesize()`, and the bytes `flash_read` delivers.
   */
  datatype Driver = Driver(results: seq<int>, eraseSize: nat, flash: nat -> bv8)

  function Status(drv: Driver, k: nat): int
  {
    if k < |drv.results| then drv.results[k] else 0
  }

  /** The status of the i-th call counted from call `k`. */
  function StatusFrom(drv: Driver, k: nat, i: nat): int
  {
    Status(drv, k + i)
  }

  /** Console output, one event per message or `hexdump` call. */
  datatype Event =
    | Prompt                   // ">"
    | HelpText(eraseSize: nat) // show_help(), quoting the erase size
    | InitFailed               // "flash_init() failed"
    | Dumped(items: seq<DumpItem>)
    | Switching(rate: nat)     // "switching to <rate>", then uart_init(rate)

  datatype Outcome = Outcome(events: seq<Event>, calls: seq<DriverCall>)

  /** A chunk the dump loop read into `read_buf` and passed to `hexdump`, with its flash address. */
  datatype Piece = Piece(addr: nat, bytes: seq<bv8>)

  /** What the dump loop did: its `flash_read` calls and the chunks it dumped. */
  datatype Chunks = Chunks(calls: seq<DriverCall>, pieces: seq<Piece>)

  /** The bytes `flash_read(addr, read_buf, n)` leaves in `read_buf`. */
  function FlashBytes(flash: nat -> bv8, addr: nat, n: nat): (bs: seq<bv8>)
    ensures |bs| == n
  {
    seq(n, i requires 0 <= i < n => flash(addr + i))
  }

  /** The `len` bytes of memory from `addr` on, the pointer wrapping at 2^32. */
  function MemBytes(mem: nat -> bv8, addr: nat, len: nat): (bs: seq<bv8>)
    ensures |bs| == len
  {
    seq(len, i => mem(Wrap32(addr + i)))
  }

  /** The size of the next chunk: the smaller of `len` and the size of `read_buf`. */
  function Chunk(len: nat): (c: nat)
    ensures c <= len && c <= READ_BUF
    ensures c == len || c == READ_BUF
  {
    if len < READ_BUF then len else READ_BUF
  }

  /**
   * The dump loop of `handle_flash`, its first `flash_read` being driver
   * call `k`: read a chunk, stop on a nonzero status, otherwise dump it and
   * move on, the address wrapping at 2^32.
   */
  function DumpLoop(drv: Driver, k: nat, flAddr: nat, len: nat): (c: Chunks)
    ensures |c.pieces| <= |c.calls|
    decreases len
  {
    if len == 0 then Chunks([], [])
    else
      var n := Chunk(len);
      var call := FlashRead(flAddr, ReadBuf, n);
      if Status(drv, k) != 0 then Chunks([call], [])
      else
        var rest := DumpLoop(drv, k + 1, Wrap32(flAddr + n), len - n);
        Chunks([call] + rest.calls, [Piece(flAddr, FlashBytes(drv.flash, flAddr, n))] + rest.pieces)
  }

  /** What `hexdump` prints for each chunk, one `Dumped` event per call. */
  function Dumps(pieces: seq<Piece>): (es: seq<Event>)
    ensures |es| == |pieces|
  {
    if pieces == [] then []
    else
      var last := pieces[|pieces| - 1];
      Dumps(pieces[..|pieces| - 1]) + [Dumped(Render(last.addr, last.bytes))]
  }

  /**
   * What `handle_flash` does once the line is parsed: help for an unknown
   * verb, nothing for an incomplete line, otherwise `flash_init` and, if
   * it succeeds, the operation.  The status of a read, write or erase is
   * not reported.
   */
  function FlashRun(cmd: Command, drv: Driver): (o: Outcome)
    ensures cmd.Flash? ==> o.calls != [] && o.calls[0] == Init
    ensures cmd.Flash? && Status(drv, 0) != 0 ==> o.events == [InitFailed]
    ensures !cmd.Flash? && cmd != Help ==> o == Outcome([], [])
  {
    match cmd
    case Help => Outcome([HelpText(drv.eraseSize)], [GetEraseSize])
    case Flash(verb, flAddr, len, ramAddr) =>
      if Status(drv, 0) != 0 then Outcome([InitFailed], [Init])
      else (
        match verb
        case VerbRead => Outcome([], [Init, FlashRead(flAddr, Ram(ramAddr), len)])
        case VerbWrite => Outcome([], [Init, FlashWrite(flAddr, ramAddr, len)])
        case VerbErase => Outcome([], [Init, FlashErase(flAddr, len)])
        case VerbDump =>
          var run := DumpLoop(drv, 1, flAddr, len);
          Outcome(Dumps(run.pieces), [Init] + run.calls))
    case _ => Outcome([], [])
  }

  /** What a parsed line does, whichever handler it goes to. */
  function Effect(cmd: Command, drv: Driver, mem: nat -> bv8): (o: Outcome)
    ensures cmd.MemDump? || cmd.SetBaud? ==> o.calls == [] && |o.events| == 1
    ensures cmd == Ignored || cmd == Aborted ==> o == Outcome([], [])
  {
    match cmd
    case MemDump(addr, len) => Outcome([Dumped(Render(addr, MemBytes(mem, addr, len)))], [])
    case SetBaud(rate) => Outcome([Switching(rate)], [])
    case _ => FlashRun(cmd, drv)
  }

  /** One pass of `main`'s loop on the line `fgets` stored. */
  function Step(line: seq<char>, drv: Driver, mem: nat -> bv8): (o: Outcome)
    ensures o.events != [] && o.events[0] == Prompt
    ensures Tokenizer.LineTokens(line) == [] ==> o == Outcome([Prompt], [])
  {
    var o := Effect(ParseLine(Tokenizer.LineTokens(line)), drv, mem);
    Outcome([Prompt] + o.events, o.calls)
  }

  // ----- the C functions -----

  /** `show_help`. */
  method ShowHelp(drv: Driver) returns (events: seq<Event>, calls: seq<DriverCall>)
    ensures Outcome(events, calls) == FlashRun(Help, drv)
  {
    calls := [GetEraseSize];
    events := [HelpText(drv.eraseSize)];
  }

  /**
   * The `cmd_dump` case of `handle_flash`: the loop over chunks of at most
   * `sizeof(read_buf)` bytes, `read_buf` being the buffer `flash_read` fills.
   */
  method DumpFlash(drv: Driver, k: nat, flAddr: nat, len: nat, readBuf: array<bv8>)
    returns (calls: seq<DriverCall>, events: seq<Event>)
    requires readBuf.Length == READ_BUF
    modifies readBuf
    ensures var run := DumpLoop(drv, k, flAddr, len);
            calls == run.calls && events == Dumps(run.pieces)
  {
    calls, events := [], [];
    ghost var pieces: seq<Piece> := [];
    var fl: nat, left: nat := flAddr, len;
    while left > 0
      invariant Progress(drv, k, flAddr, len, calls, pieces, fl, left)
      invariant events == Dumps(pieces)
      decreases left
    {
      var chunk := Chunk(left);
      var result := Status(drv, k + |calls|);
      if result != 0 {
        ChunkFails(drv, k, flAddr, len, calls, pieces, fl, left);
        calls := calls + [FlashRead(fl, ReadBuf, chunk)];
        return;
      }
      ReadChunk(drv.flash, fl, chunk, readBuf);
      var items := Hexdump(fl, readBuf[..chunk]);
      ChunkDumped(drv, k, flAddr, len, calls, pieces, fl, left);
      DumpsSnoc(pieces, Piece(fl, readBuf[..chunk]));
      calls := calls + [FlashRead(fl, ReadBuf, chunk)];
      events := events + [Dumped(items)];
      pieces := pieces + [Piece(fl, readBuf[..chunk])];
      fl := Wrap32(fl + chunk);
      left := left - chunk;
    }
    assert calls + [] == calls && pieces + [] == pieces;
  }

  /** `flash_read(fl_addr, read_buf, n)` on success: the flash bytes land at the front of `read_buf`. */
  method ReadChunk(flash: nat -> bv8, addr: nat, n: nat, readBuf: array<bv8>)
    requires n <= readBuf.Length
    modifies readBuf
    ensures readBuf[..n] == FlashBytes(flash, addr, n)
  {
    forall i | 0 <= i < n {
      readBuf[i] := flash(addr + i);
    }
  }

  /** The calls and chunks done so far followed by what the rest of the loop does. */
  function Joined(calls: seq<DriverCall>, pieces: seq<Piece>, rest: Chunks): Chunks
  {
    Chunks(calls + rest.calls, pieces + rest.pieces)
  }

  /**
   * The dump loop's invariant: the calls made and chunks dumped so far,
   * followed by what the loop does on the `left` bytes from `fl`, are what
   * it does on the whole request.
   */
  ghost predicate Progress(drv: Driver, k: nat, flAddr: nat, len: nat,
                           calls: seq<DriverCall>, pieces: seq<Piece>, fl: nat, left: nat)
  {
    DumpLoop(drv, k, flAddr, len) == Joined(calls, pieces, DumpLoop(drv, k + |calls|, fl, left))
  }

  lemma DumpsSnoc(pieces: seq<Piece>, p: Piece)
    ensures Dumps(pieces + [p]) == Dumps(pieces) + [Dumped(Render(p.addr, p.bytes))]
  {
    assert (pieces + [p])[..|pieces|] == pieces;
  }

  /** A successful chunk moves from the rest of the loop to what is done. */
  lemma ChunkDumped(drv: Driver, k: nat, flAddr: nat, len: nat,
                    calls: seq<DriverCall>, pieces: seq<Piece>, fl: nat, left: nat)
    requires Progress(drv, k, flAddr, len, calls, pieces, fl, left)
    requires left > 0 && Status(drv, k + |calls|) == 0
    ensures var n := Chunk(left);
            Progress(drv, k, flAddr, len, calls + [FlashRead(fl, ReadBuf, n)],
                     pieces + [Piece(fl, FlashBytes(drv.flash, fl, n))], Wrap32(fl + n), left - n)
  {
    var n := Chunk(left);
    var call, piece := FlashRead(fl, ReadBuf, n), Piece(fl, FlashBytes(drv.flash, fl, n));
    DumpUnfold(drv, k + |calls|, fl, left);
    var rest := DumpLoop(drv, k + |calls| + 1, Wrap32(fl + n), left - n);
    assert |calls + [call]| == |calls| + 1;
    AppendAssoc(calls, [call], rest.calls);
    AppendAssoc(pieces, [piece], rest.pieces);
  }

  /** A failed chunk is the loop's last call, and nothing more is dumped. */
  lemma ChunkFails(drv: Driver, k: nat, flAddr: nat, len: nat,
                   calls: seq<DriverCall>, pieces: seq<Piece>, fl: nat, left: nat)
    requires Progress(drv, k, flAddr, len, calls, pieces, fl, left)
    requires left > 0 && Status(drv, k + |calls|) != 0
    ensures DumpLoop(drv, k, flAddr, len) == Chunks(calls + [FlashRead(fl, ReadBuf, Chunk(left))], pieces)
  {
    assert pieces + [] == pieces;
  }

  /** `handle_flash` on the tokens after "flash". */
  method HandleFlash(args: seq<string>, drv: Driver, readBuf: array<bv8>)
    returns (events: seq<Event>, calls: seq<DriverCall>)
    requires readBuf.Length == READ_BUF
    modifies readBuf
    ensures Outcome(events, calls) == FlashRun(ParseFlash(args), drv)
  {
    var cmd := ParseFlash(args);
    events, calls := RunFlash(cmd, drv, readBuf);
  }

  /** The part of `handle_flash` after the parsing: help, or `flash_init` and the operation. */
  method RunFlash(cmd: Command, drv: Driver, readBuf: array<bv8>)
    returns (events: seq<Event>, calls: seq<DriverCall>)
    requires readBuf.Length == READ_BUF
    modifies readBuf
    ensures Outcome(events, calls) == FlashRun(cmd, drv)
  {
    events, calls := [], [];
    if cmd == Help {
      events, calls := ShowHelp(drv);
      return;
    }
    if !cmd.Flash? {
      return;
    }
    var result := Status(drv, 0);
    calls := [Init];
    if result != 0 {
      events := [InitFailed];
      return;
    }
    match cmd.verb {
      case VerbRead =>
        calls := calls + [FlashRead(cmd.flAddr, Ram(cmd.ramAddr), cmd.len)];
      case VerbWrite =>
        calls := calls + [FlashWrite(cmd.flAddr, cmd.ramAddr, cmd.len)];
      case VerbErase =>
        calls := calls + [FlashErase(cmd.flAddr, cmd.len)];
      case VerbDump =>
        var chunkCalls, dumps := DumpFlash(drv, 1, cmd.flAddr, cmd.len, readBuf);
        calls := calls + chunkCalls;
        events := dumps;
    }
  }

  /** `handle_dump` on the tokens after "dump"; `mem` is the memory it reads. */
  method HandleDump(args: seq<string>, mem: nat -> bv8) returns (events: seq<Event>)
    ensures ParseDump(args).MemDump? ==>
              var c := ParseDump(args);
              events == [Dumped(Render(c.addr, MemBytes(mem, c.addr, c.len)))]
    ensures ParseDump(args) == Aborted ==> events == []
  {
    var cmd := ParseDump(args);
    events := [];
    if cmd.MemDump? {
      var items := Hexdump(cmd.addr, MemBytes(mem, cmd.addr, cmd.len));
      events := [Dumped(items)];
    }
  }

  /** `handle_uart` on the tokens after "uart". */
  method HandleUart(args: seq<string>) returns (events: seq<Event>)
    ensures ParseUart(args).SetBaud? ==> events == [Switching(ParseUart(args).rate)]
    ensures ParseUart(args) == Aborted ==> events == []
  {
    var cmd := ParseUart(args);
    events := [];
    if cmd.SetBaud? {
      events := [Switching(cmd.rate)];
    }
  }

  /** One pass of `main`'s `while(1)` loop, from the prompt on. */
  method MainStep(line: seq<char>, drv: Driver, mem: nat -> bv8, readBuf: array<bv8>)
    returns (events: seq<Event>, calls: seq<DriverCall>)
    requires readBuf.Length == READ_BUF
    modifies readBuf
    ensures Outcome(events, calls) == Step(line, drv, mem)
  {
    events, calls := [Prompt], [];
    var ts := Tokenizer.LineTokens(line);
    if ts == [] {
      return;
    }
    var more: seq<Event>;
    if ts[0] == "flash" {
      more, calls := HandleFlash(ts[1..], drv, readBuf);
    } else if ts[0] == "dump" {
      more := HandleDump(ts[1..], mem);
    } else if ts[0] == "uart" {
      more := HandleUart(ts[1..]);
    } else {
      more, calls := ShowHelp(drv);
    }
    events := events + more;
  }

  // ----- properties -----

  /** The dump loop unfolded once after a successful read. */
  lemma DumpUnfold(drv: Driver, k: nat, flAddr: nat, len: nat)
    requires len > 0 && Status(drv, k) == 0
    ensures var n := Chunk(len);
            var run, rest := DumpLoop(drv, k, flAddr, len), DumpLoop(drv, k + 1, Wrap32(flAddr + n), len - n);
            && run.calls == [FlashRead(flAddr, ReadBuf, n)] + rest.calls
            && run.pieces == [Piece(flAddr, FlashBytes(drv.flash, flAddr, n))] + rest.pieces
  {
  }

  /**
   * The dump loop's `flash_read` calls: there are some exactly when `len`
   * is not 0; all go into `read_buf` and read 1 to 256 bytes; every one but
   * the last reads exactly 256 bytes and succeeds.
   */
  lemma {:induction false} DumpChunkSizes(drv: Driver, k: nat, flAddr: nat, len: nat)
    ensures var calls := DumpLoop(drv, k, flAddr, len).calls;
            && (|calls| == 0 <==> len == 0)
            && (forall i :: 0 <= i < |calls| ==>
                  calls[i].FlashRead? && calls[i].dest == ReadBuf && 0 < calls[i].len <= READ_BUF)
            && (forall i :: 0 <= i < |calls| - 1 ==> calls[i].len == READ_BUF && StatusFrom(drv, k, i) == 0)
    decreases len
  {
    if len > 0 && Status(drv, k) == 0 {
      var n := Chunk(len);
      DumpChunkSizes(drv, k + 1, Wrap32(flAddr + n), len - n);
      DumpUnfold(drv, k, flAddr, len);
      var calls := DumpLoop(drv, k, flAddr, len).calls;
      var rest := DumpLoop(drv, k + 1, Wrap32(flAddr + n), len - n).calls;
      forall i | 1 <= i < |calls|
        ensures calls[i] == rest[i - 1]
      {
      }
      forall i | 1 <= i < |calls| - 1
        ensures StatusFrom(drv, k, i) == 0
      {
        assert StatusFrom(drv, k + 1, i - 1) == 0;
      }
      if |calls| > 1 {
        assert len - n > 0;
      }
    }
  }

  /** The i-th chunk starts at `fl_addr + 256 * i`, reduced mod 2^32. */
  lemma {:induction false} DumpAddresses(drv: Driver, k: nat, flAddr: nat, len: nat)
    requires flAddr < WORD
    ensures var calls := DumpLoop(drv, k, flAddr, len).calls;
            forall i :: 0 <= i < |calls| ==> calls[i].FlashRead? && calls[i].flAddr == Wrap32(flAddr + READ_BUF * i)
    decreases len
  {
    if len > 0 && Status(drv, k) == 0 {
      var n := Chunk(len);
      var next := Wrap32(flAddr + n);
      DumpAddresses(drv, k + 1, next, len - n);
      DumpUnfold(drv, k, flAddr, len);
      var rest := DumpLoop(drv, k + 1, next, len - n).calls;
      if rest != [] {
        assert len - n != 0;
      }
      ShiftedAddresses(flAddr, next, FlashRead(flAddr, ReadBuf, n), rest);
    } else if len > 0 {
      assert flAddr % WORD == flAddr;
    }
  }

  /** A read at `flAddr` in front of reads 256 bytes apart from `next`, one read further on. */
  lemma ShiftedAddresses(flAddr: nat, next: nat, first: DriverCall, rest: seq<DriverCall>)
    requires flAddr < WORD && first.FlashRead? && first.flAddr == flAddr
    requires rest != [] ==> next == Wrap32(flAddr + READ_BUF)
    requires forall i :: 0 <= i < |rest| ==> rest[i].FlashRead? && rest[i].flAddr == Wrap32(next + READ_BUF * i)
    ensures var calls := [first] + rest;
            forall i :: 0 <= i < |calls| ==> calls[i].FlashRead? && calls[i].flAddr == Wrap32(flAddr + READ_BUF * i)
  {
    var calls := [first] + rest;
    forall i | 0 <= i < |calls|
      ensures calls[i].FlashRead? && calls[i].flAddr == Wrap32(flAddr + READ_BUF * i)
    {
      if i == 0 {
        assert flAddr % WORD == flAddr;
      } else {
        var j := READ_BUF * (i - 1);
        assert calls[i] == rest[i - 1];
        assert READ_BUF * i == j + READ_BUF;
        Wrap32Add(flAddr + READ_BUF, j);
      }
    }
  }

  /** Each good chunk is dumped, in order, with the bytes read at its own address; a failed one is not. */
  lemma {:induction false} DumpedChunks(drv: Driver, k: nat, flAddr: nat, len: nat)
    ensures var run := DumpLoop(drv, k, flAddr, len);
            && (|run.pieces| == |run.calls| || |run.pieces| == |run.calls| - 1)
            && forall i :: 0 <= i < |run.pieces| ==>
                 run.calls[i].FlashRead? &&
                 run.pieces[i] == Piece(run.calls[i].flAddr, FlashBytes(drv.flash, run.calls[i].flAddr, run.calls[i].len))
    decreases len
  {
    if len > 0 && Status(drv, k) == 0 {
      var n := Chunk(len);
      DumpedChunks(drv, k + 1, Wrap32(flAddr + n), len - n);
      DumpUnfold(drv, k, flAddr, len);
      var run := DumpLoop(drv, k, flAddr, len);
      var rest := DumpLoop(drv, k + 1, Wrap32(flAddr + n), len - n);
      assert |run.pieces| == |rest.pieces| + 1 && |run.calls| == |rest.calls| + 1;
      assert run.calls[0] == FlashRead(flAddr, ReadBuf, n);
      assert run.pieces[0] == Piece(flAddr, FlashBytes(drv.flash, flAddr, n));
      forall i | 1 <= i < |run.pieces|
        ensures run.calls[i] == rest.calls[i - 1] && run.pieces[i] == rest.pieces[i - 1]
      {
      }
    }
  }

  /** The i-th `Dumped` event is `hexdump`'s output for the i-th chunk. */
  lemma {:induction false} DumpsInOrder(pieces: seq<Piece>)
    ensures forall i :: 0 <= i < |pieces| ==> Dumps(pieces)[i] == Dumped(Render(pieces[i].addr, pieces[i].bytes))
    decreases |pieces|
  {
    if pieces != [] {
      var init, last := pieces[..|pieces| - 1], pieces[|pieces| - 1];
      DumpsInOrder(init);
      var ds, front := Dumps(pieces), Dumps(init);
      assert ds == front + [Dumped(Render(last.addr, last.bytes))];
      forall i | 0 <= i < |pieces|
        ensures ds[i] == Dumped(Render(pieces[i].addr, pieces[i].bytes))
      {
        if i < |init| {
          assert ds[i] == front[i] && init[i] == pieces[i];
        }
      }
    }
  }

  /** The sum of the lengths of a list of `flash_read` calls. */
  function TotalLen(calls: seq<DriverCall>): nat
    requires forall i :: 0 <= i < |calls| ==> calls[i].FlashRead?
  {
    if calls == [] then 0 else calls[0].len + TotalLen(calls[1..])
  }

  /**
   * Every chunk is dumped exactly when every `flash_read` the loop makes
   * succeeds; then the chunks add up to `len`.  Otherwise the failed read
   * is the last call.
   */
  lemma {:induction false} DumpCompletes(drv: Driver, k: nat, flAddr: nat, len: nat)
    ensures var run := DumpLoop(drv, k, flAddr, len);
            && (forall i :: 0 <= i < |run.calls| ==> run.calls[i].FlashRead?)
            && (|run.pieces| == |run.calls| <==> forall i :: 0 <= i < |run.calls| ==> StatusFrom(drv, k, i) == 0)
            && (|run.pieces| == |run.calls| ==> TotalLen(run.calls) == len)
            && (|run.pieces| != |run.calls| ==> |run.calls| > 0 && StatusFrom(drv, k, |run.calls| - 1) != 0)
    decreases len
  {
    var run := DumpLoop(drv, k, flAddr, len);
    if len > 0 && Status(drv, k) == 0 {
      var n := Chunk(len);
      DumpCompletes(drv, k + 1, Wrap32(flAddr + n), len - n);
      DumpUnfold(drv, k, flAddr, len);
      var rest := DumpLoop(drv, k + 1, Wrap32(flAddr + n), len - n);
      assert run.calls[1..] == rest.calls;
      assert run.calls[0].len == n;
      assert |run.pieces| == |run.calls| <==> |rest.pieces| == |rest.calls|;
      StatusesShift(drv, k, k + 1, |rest.calls|);
    } else if len > 0 {
      assert StatusFrom(drv, k, 0) != 0;
    }
  }

  /** The first of `m + 1` statuses from call `k` is 0: all are 0 exactly when the `m` from call `next` = `k + 1` are. */
  lemma StatusesShift(drv: Driver, k: nat, next: nat, m: nat)
    requires next == k + 1 && StatusFrom(drv, k, 0) == 0
    ensures (forall i :: 0 <= i < m + 1 ==> StatusFrom(drv, k, i) == 0) <==>
            (forall j :: 0 <= j < m ==> StatusFrom(drv, next, j) == 0)
    ensures m > 0 ==> StatusFrom(drv, k, m) == StatusFrom(drv, next, m - 1)
  {
    if forall i :: 0 <= i < m + 1 ==> StatusFrom(drv, k, i) == 0 {
      forall j | 0 <= j < m
        ensures StatusFrom(drv, next, j) == 0
      {
        assert StatusFrom(drv, k, j + 1) == 0;
      }
    }
    if forall j :: 0 <= j < m ==> StatusFrom(drv, next, j) == 0 {
      forall i | 0 < i < m + 1
        ensures StatusFrom(drv, k, i) == 0
      {
        assert StatusFrom(drv, next, i - 1) == 0;
      }
    }
  }

  /** A failing `flash_init` ends the command: no other driver call and one message. */
  lemma InitFailureStops(cmd: Command, drv: Driver)
    requires cmd.Flash? && Status(drv, 0) != 0
    ensures FlashRun(cmd, drv) == Outcome([InitFailed], [Init])
  {
  }

  /**
   * Every driver call a flash command makes comes after `flash_init`, which
   * is made once; a line that names no operation (incomplete, out of range
   * or unknown) reaches no driver function but `flash_get_erasesize`.
   */
  lemma InitComesFirst(cmd: Command, drv: Driver)
    ensures var o := FlashRun(cmd, drv);
            && (cmd.Flash? ==> o.calls != [] && o.calls[0] == Init && Init !in o.calls[1..])
            && (!cmd.Flash? ==> o.calls == [] || o.calls == [GetEraseSize])
  {
    if cmd.Flash? && Status(drv, 0) == 0 && cmd.verb == VerbDump {
      var run := DumpLoop(drv, 1, cmd.flAddr, cmd.len);
      DumpChunkSizes(drv, 1, cmd.flAddr, cmd.len);
      var o := FlashRun(cmd, drv);
      assert o.calls[1..] == run.calls;
    }
  }

  /**
   * After a successful `flash_init`, read, write and erase print nothing
   * whatever the driver returns, and make exactly one driver call.
   */
  lemma StatusNotReported(cmd: Command, drv: Driver, drv': Driver)
    requires cmd.Flash? && cmd.verb != VerbDump
    requires Status(drv, 0) == 0 && Status(drv', 0) == 0
    ensures FlashRun(cmd, drv) == FlashRun(cmd, drv')
    ensures FlashRun(cmd, drv).events == [] && |FlashRun(cmd, drv).calls| == 2
  {
  }

  /**
   * A line whose first token is no command, a flash line with an unknown
   * verb, or a lone command word (which carries the newline) prints the
   * prompt, then the help text.
   */
  lemma UnknownLineShowsHelp(line: seq<char>, drv: Driver, mem: nat -> bv8)
    requires ParseLine(Tokenizer.LineTokens(line)) == Help
    ensures Step(line, drv, mem) == Outcome([Prompt, HelpText(drv.eraseSize)], [GetEraseSize])
  {
  }

  /** A line without a token only prints the prompt again. */
  lemma BlankLine(line: seq<char>, drv: Driver, mem: nat -> bv8)
    requires forall i :: 0 <= i < |line| ==> line[i] == ' '
    ensures Step(line, drv, mem) == Outcome([Prompt], [])
  {
    BlankTokens(line);
  }

  lemma {:induction false} BlankTokens(line: seq<char>)
    requires forall i :: 0 <= i < |line| ==> line[i] == ' '
    ensures Tokenizer.LineTokens(line) == []
    decreases |line|
  {
    if line != [] {
      BlankTokens(line[1..]);
      assert Tokenizer.CStr(line) == [line[0]] + Tokenizer.CStr(line[1..]);
    }
  }
}
