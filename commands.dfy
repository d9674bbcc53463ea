/**
 * The decisions `main`, `handle_flash`, `handle_dump` and `handle_uart` take
 * on the tokens of one input line, before any driver is called: which
 * operation the line asks for, with which numbers, or that it asks for
 * nothing (an empty line, or a missing or overflowing number) or for help.
 */
module Commands {
  import opened Wrappers
  import opened CSemantics
  import opened StrToUL
  import Tokenizer

  datatype FlashVerb = VerbRead | VerbWrite | VerbErase | VerbDump

  datatype Command =
    | Ignored                                                     // no token at all
    | Help                                                        // unknown command or flash verb
    | Aborted                                                     // a token missing or out of range
    | Flash(verb: FlashVerb, flAddr: nat, len: nat, ramAddr: nat) // `flash ...`, driver work to do
    | MemDump(addr: nat, len: nat)                                // `dump <addr> <len>`
    | SetBaud(rate: nat)                                          // `uart <speed>`

  /** The `strcmp` chain on the flash verb. */
  function VerbOf(t: string): (v: Option<FlashVerb>)
    ensures v == Some(VerbRead) <==> t == "read"
    ensures v == Some(VerbWrite) <==> t == "write"
    ensures v == Some(VerbErase) <==> t == "erase"
    ensures v == Some(VerbDump) <==> t == "dump"
  {
    if t == "read" then Some(VerbRead)
    else if t == "write" then Some(VerbWrite)
    else if t == "erase" then Some(VerbErase)
    else if t == "dump" then Some(VerbDump)
    else None
  }

  /** `read` and `write` take a RAM address after the length. */
  predicate NeedsRam(v: FlashVerb)
  {
    v == VerbRead || v == VerbWrite
  }

  /** How many numbers follow the verb. */
  function Arity(v: FlashVerb): nat
  {
    if NeedsRam(v) then 3 else 2
  }

  /**
   * The first `n` tokens of `ts` read as numbers, one `strtoul` after the
   * other: a token missing, or one `strtoul` flags with ERANGE, ends the
   * handler.
   */
  function ParseNumbers(ts: seq<string>, n: nat): (r: Option<seq<nat>>)
    ensures r.Some? <==> |ts| >= n && forall k :: 0 <= k < n ==> ParseUL(ts[k]).Some?
    ensures r.Some? ==> |r.value| == n && forall k :: 0 <= k < n ==> Some(r.value[k]) == ParseUL(ts[k])
    decreases n
  {
    if n == 0 then Some([])
    else if ts == [] then None
    else
      match ParseUL(ts[0])
      case None => None
      case Some(x) =>
        match ParseNumbers(ts[1..], n - 1)
        case None =>
          NumbersRejected(ParseUL, ts, n);
          None
        case Some(xs) =>
          NumbersParsed(ParseUL, ts, n, x, xs);
          Some([x] + xs)
  }

  /** When the first `n` tokens all parse, so do the `n - 1` after the first. */
  lemma NumbersRejected(parse: string -> Option<nat>, ts: seq<string>, n: nat)
    requires n > 0 && ts != []
    ensures (|ts| >= n && forall k :: 0 <= k < n ==> parse(ts[k]).Some?) ==>
            |ts[1..]| >= n - 1 && forall k :: 0 <= k < n - 1 ==> parse(ts[1..][k]).Some?
  {
    if |ts| >= n && forall k :: 0 <= k < n ==> parse(ts[k]).Some? {
      forall k | 0 <= k < n - 1
        ensures parse(ts[1..][k]).Some?
      {
        assert ts[1..][k] == ts[k + 1];
      }
    }
  }

  /** The first token's value `x` in front of the next `n - 1` values `xs` gives the first `n`. */
  lemma NumbersParsed(parse: string -> Option<nat>, ts: seq<string>, n: nat, x: nat, xs: seq<nat>)
    requires n > 0 && ts != [] && parse(ts[0]) == Some(x)
    requires |ts[1..]| >= n - 1 && |xs| == n - 1
    requires forall k :: 0 <= k < n - 1 ==> Some(xs[k]) == parse(ts[1..][k])
    ensures |ts| >= n && |[x] + xs| == n
    ensures forall k :: 0 <= k < n ==> Some(([x] + xs)[k]) == parse(ts[k])
  {
    forall k | 0 <= k < n
      ensures Some(([x] + xs)[k]) == parse(ts[k])
    {
      if k > 0 {
        assert ([x] + xs)[k] == xs[k - 1] && ts[1..][k - 1] == ts[k];
      }
    }
  }

  /**
   * `handle_flash` up to `flash_init`, on the tokens after "flash": the
   * verb, then the flash address, the length and, for read and write, the
   * RAM address.  Erase and dump use RAM address 0.  Tokens after the last
   * number are not looked at.
   */
  function ParseFlash(args: seq<string>): (c: Command)
    ensures c.Flash? || c == Help || c == Aborted
    ensures c == Help <==> args != [] && VerbOf(args[0]).None?
    ensures c.Flash? <==> && args != [] && VerbOf(args[0]).Some?
                          && |args| > Arity(VerbOf(args[0]).value)
                          && forall k :: 1 <= k <= Arity(VerbOf(args[0]).value) ==> ParseUL(args[k]).Some?
    ensures c.Flash? ==> && Some(c.verb) == VerbOf(args[0])
                         && Some(c.flAddr) == ParseUL(args[1])
                         && Some(c.len) == ParseUL(args[2])
                         && (NeedsRam(c.verb) ==> Some(c.ramAddr) == ParseUL(args[3]))
                         && (!NeedsRam(c.verb) ==> c.ramAddr == 0)
  {
    if args == [] then Aborted
    else match VerbOf(args[0])
      case None => Help
      case Some(verb) =>
        ArgsShift(ParseUL, args, Arity(verb));
        match ParseNumbers(args[1..], Arity(verb))
        case None => Aborted
        case Some(xs) =>
          ArgsValues(ParseUL, args, Arity(verb), xs);
          Flash(verb, xs[0], xs[1], if NeedsRam(verb) then xs[2] else 0)
  }

  /** The first `m` tokens after the first all parse exactly when tokens 1 to `m` do. */
  lemma ArgsShift(parse: string -> Option<nat>, args: seq<string>, m: nat)
    requires args != []
    ensures (|args[1..]| >= m && forall k :: 0 <= k < m ==> parse(args[1..][k]).Some?) <==>
            (|args| > m && forall k :: 1 <= k <= m ==> parse(args[k]).Some?)
  {
    if |args| > m {
      forall k | 1 <= k <= m
        ensures args[1..][k - 1] == args[k]
      {
      }
    }
  }

  /** Values of the tokens after the first, numbered from 1. */
  lemma ArgsValues(parse: string -> Option<nat>, args: seq<string>, m: nat, xs: seq<nat>)
    requires args != [] && |args[1..]| >= m && |xs| == m
    requires forall k :: 0 <= k < m ==> Some(xs[k]) == parse(args[1..][k])
    ensures forall k :: 1 <= k <= m ==> Some(xs[k - 1]) == parse(args[k])
  {
    forall k | 1 <= k <= m
      ensures Some(xs[k - 1]) == parse(args[k])
    {
      assert args[1..][k - 1] == args[k];
    }
  }

  /** `handle_dump` on the tokens after "dump": an address, then a length. */
  function ParseDump(args: seq<string>): (c: Command)
    ensures c.MemDump? || c == Aborted
    ensures c.MemDump? <==> |args| >= 2 && ParseUL(args[0]).Some? && ParseUL(args[1]).Some?
    ensures c.MemDump? ==> Some(c.addr) == ParseUL(args[0]) && Some(c.len) == ParseUL(args[1])
  {
    match ParseNumbers(args, 2)
    case None => Aborted
    case Some(xs) => MemDump(xs[0], xs[1])
  }

  /** `handle_uart` on the tokens after "uart": one speed. */
  function ParseUart(args: seq<string>): (c: Command)
    ensures c.SetBaud? || c == Aborted
    ensures c.SetBaud? <==> args != [] && ParseUL(args[0]).Some?
    ensures c.SetBaud? ==> Some(c.rate) == ParseUL(args[0]) && c.rate <= ULONG_MAX
  {
    match ParseNumbers(args, 1)
    case None => Aborted
    case Some(xs) => SetBaud(xs[0])
  }

  /**
   * The body of `main`'s loop after `fgets`: no token means nothing to do;
   * the first token picks the handler, anything unknown asks for help.
   */
  function ParseLine(ts: seq<string>): (c: Command)
    ensures c == Ignored <==> ts == []
    ensures ts != [] && ts[0] == "flash" ==> c == ParseFlash(ts[1..])
    ensures ts != [] && ts[0] == "dump" ==> c == ParseDump(ts[1..])
    ensures ts != [] && ts[0] == "uart" ==> c == ParseUart(ts[1..])
    ensures c.Flash? ==> ts[0] == "flash"
    ensures c.MemDump? ==> ts[0] == "dump"
    ensures c.SetBaud? ==> ts[0] == "uart"
    ensures ts != [] && ts[0] !in {"flash", "dump", "uart"} ==> c == Help
  {
    if ts == [] then Ignored
    else if ts[0] == "flash" then ParseFlash(ts[1..])
    else if ts[0] == "dump" then ParseDump(ts[1..])
    else if ts[0] == "uart" then ParseUart(ts[1..])
    else Help
  }

  // ----- whole lines as `fgets` leaves them, newline included -----

  /** A decimal numeral is a well-formed token. */
  lemma NumeralToken(n: nat)
    ensures Numeral(n, 10) != [] && ' ' !in Numeral(n, 10) && '\0' !in Numeral(n, 10)
  {
    var ds := Numeral(n, 10);
    forall k | 0 <= k < |ds|
      ensures ds[k] != ' ' && ds[k] != '\0'
    {
      assert IsDigit(ds[k], 10);
    }
  }

  /** A token that ends in the newline is no command word and no flash verb. */
  lemma NewlineBreaksWord(t: string)
    ensures var u := t + "\n";
            VerbOf(u).None? && u != "flash" && u != "dump" && u != "uart"
  {
    var u := t + "\n";
    assert u[|u| - 1] == '\n';
    assert "read"[3] != '\n' && "write"[4] != '\n' && "erase"[4] != '\n';
    assert "dump"[3] != '\n' && "flash"[4] != '\n' && "uart"[3] != '\n';
  }

  /**
   * A word with nothing after it on the line is the last token and carries
   * the newline, so it names no command: the line asks for help.  In
   * particular `flash`, `dump` or `uart` typed alone shows the help text.
   */
  lemma LoneWordAsksForHelp(word: string)
    requires word != [] && ' ' !in word && '\0' !in word
    ensures ParseLine(Tokenizer.LineTokens(word + "\n")) == Help
  {
    var ts := [word];
    assert Tokenizer.WellFormed(ts);
    Tokenizer.NewlineOnLastToken(ts);
    assert Tokenizer.LineTokens(word + "\n") == [word + "\n"];
    NewlineBreaksWord(word);
  }

  /**
   * A flash verb, or any other word, with nothing after it carries the
   * newline, so it matches no verb: the line asks for help instead of being
   * dropped as incomplete.
   */
  lemma LoneVerbAsksForHelp(verb: string)
    requires verb != [] && ' ' !in verb && '\0' !in verb
    ensures ParseLine(Tokenizer.LineTokens("flash " + verb + "\n")) == Help
  {
    var ts := ["flash", verb];
    assert Tokenizer.WellFormed(ts);
    assert Tokenizer.Join(ts) == "flash " + verb;
    Tokenizer.NewlineOnLastToken(ts);
    assert Tokenizer.LineTokens("flash " + verb + "\n") == ["flash", verb + "\n"];
    NewlineBreaksWord(verb);
  }

  /** `uart <speed>` typed as a decimal numeral: the newline after it is ignored by `strtoul`. */
  lemma UartLine(n: nat)
    requires n <= ULONG_MAX
    ensures ParseLine(Tokenizer.LineTokens("uart " + Numeral(n, 10) + "\n")) == SetBaud(n)
  {
    var a := Numeral(n, 10);
    var ts := ["uart", a + "\n"];
    UartTokens(a, n);
    DecimalToken(n);
    assert ts[0] == "uart" && ts[1..] == [a + "\n"];
  }

  /** The tokens of `uart <a>` typed as a line: the newline stays on `<a>`. */
  lemma UartTokens(a: string, n: nat)
    requires a == Numeral(n, 10)
    ensures Tokenizer.LineTokens("uart " + a + "\n") == ["uart", a + "\n"]
  {
    var words := ["uart", a];
    NumeralToken(n);
    assert Tokenizer.WellFormed(words) by {
      forall k | 0 <= k < 2
        ensures words[k] != [] && ' ' !in words[k] && '\0' !in words[k]
      {
        if k == 0 {
          assert words[k] == ['u', 'a', 'r', 't'];
        }
      }
    }
    assert Tokenizer.Join(words) == "uart " + a;
    Tokenizer.NewlineOnLastToken(words);
    assert words[..1] + [words[1] + "\n"] == ["uart", a + "\n"];
  }

  /**
   * `flash dump <addr> <len>` typed with decimal numerals and ended by the
   * newline: a dump of `len` bytes from `addr`.
   */
  lemma FlashDumpLine(addr: nat, len: nat)
    requires addr <= ULONG_MAX && len <= ULONG_MAX
    ensures var words := ["flash", "dump", Numeral(addr, 10), Numeral(len, 10)];
            ParseLine(Tokenizer.LineTokens(Tokenizer.Join(words) + "\n")) == Flash(VerbDump, addr, len, 0)
  {
    var a, l := Numeral(addr, 10), Numeral(len, 10);
    var ts := ["flash", "dump", a, l + "\n"];
    FlashDumpTokens(a, l, addr, len);
    DecimalToken(addr);
    DecimalToken(len);
    DumpArgs(a, l + "\n", addr, len);
    assert ts[0] == "flash" && ts[1..] == ["dump", a, l + "\n"];
  }

  /** The tokens of `flash dump <a> <l>` typed as a line: the newline stays on `<l>`. */
  lemma FlashDumpTokens(a: string, l: string, addr: nat, len: nat)
    requires a == Numeral(addr, 10) && l == Numeral(len, 10)
    ensures Tokenizer.LineTokens(Tokenizer.Join(["flash", "dump", a, l]) + "\n") == ["flash", "dump", a, l + "\n"]
  {
    var words := ["flash", "dump", a, l];
    NumeralToken(addr);
    NumeralToken(len);
    assert Tokenizer.WellFormed(words) by {
      forall k | 0 <= k < 4
        ensures words[k] != [] && ' ' !in words[k] && '\0' !in words[k]
      {
        if k == 0 {
          assert words[k] == ['f', 'l', 'a', 's', 'h'];
        } else if k == 1 {
          assert words[k] == ['d', 'u', 'm', 'p'];
        }
      }
    }
    Tokenizer.NewlineOnLastToken(words);
    assert words[..3] + [words[3] + "\n"] == ["flash", "dump", a, l + "\n"];
  }

  /** A decimal numeral converts to its value, with or without the newline after it. */
  lemma DecimalToken(n: nat)
    requires n <= ULONG_MAX
    ensures ParseUL(Numeral(n, 10)) == Some(n) && ParseUL(Numeral(n, 10) + "\n") == Some(n)
  {
    DecimalRoundTrip(n, []);
    assert Numeral(n, 10) + [] == Numeral(n, 10);
    DecimalRoundTrip(n, "\n");
  }

  lemma DumpArgs(a: string, l: string, addr: nat, len: nat)
    requires ParseUL(a) == Some(addr) && ParseUL(l) == Some(len)
    ensures ParseFlash(["dump", a, l]) == Flash(VerbDump, addr, len, 0)
  {
    var args := ["dump", a, l];
    assert args[1] == a && args[2] == l;
  }
}
