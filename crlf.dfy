/**
 * `_write`: the stdio output hook.  Every newline that is not already
 * preceded, within the same call, by a carriage return that went out is
 * sent as CR LF; all other characters pass through unchanged.
 */
module CrLf {
  import opened SeqFacts

  /**
   * What `_write`'s loop sends for the characters `s`, given whether the
   * last character it sent was a carriage return (`cr_sent`).
   */
  function Translate(s: seq<char>, crSent: bool): (out: seq<char>)
    ensures |out| >= |s|
    decreases |s|
  {
    if s == [] then []
    else if s[0] == '\n' && !crSent then ['\r', '\n'] + Translate(s[1..], false)
    else [s[0]] + Translate(s[1..], s[0] == '\r')
  }

  /**
   * `_write(fd, ptr, len)`: -1 for a descriptor above 2; otherwise the
   * original `len` is returned and `sent` is what went to `uart_putc`.  A
   * `len` of zero or below sends nothing.
   */
  method Write(fd: int, data: seq<char>, len: int) returns (result: int, sent: seq<char>)
    requires len <= |data|
    ensures fd > 2 ==> result == -1 && sent == []
    ensures fd <= 2 ==> result == len
    ensures fd <= 2 && len > 0 ==> sent == Translate(data[..len], false)
    ensures fd <= 2 && len <= 0 ==> sent == []
  {
    if fd > 2 {
      return -1, [];
    }
    result := len;
    sent := [];
    var crSent := false;
    var ptr := 0;
    var left := len;
    ghost var s := if len > 0 then data[..len] else [];
    while left > 0
      invariant 0 <= ptr <= |s| && ptr + left == len && (left > 0 ==> |s| == len)
      invariant sent + Translate(s[ptr..], crSent) == Translate(s, false)
      decreases left, if crSent then 0 else 1
    {
      assert data[ptr] == s[ptr];
      if data[ptr] == '\n' && !crSent {
        CrFirst(s, ptr, sent);
        sent := sent + ['\r'];
        crSent := true;
        continue;
      }
      CharSent(s, ptr, sent, crSent);
      crSent := data[ptr] == '\r';
      sent := sent + [data[ptr]];
      ptr := ptr + 1;
      left := left - 1;
    }
    assert s[ptr..] == [];
  }

  /** A bare newline at `ptr`: sending CR first keeps the loop invariant. */
  lemma CrFirst(s: seq<char>, ptr: nat, sent: seq<char>)
    requires ptr < |s| && s[ptr] == '\n'
    ensures sent + Translate(s[ptr..], false) == (sent + ['\r']) + Translate(s[ptr..], true)
  {
    TranslateStep(s[ptr..], false);
  }

  /** Any other character at `ptr`: sending it keeps the loop invariant. */
  lemma CharSent(s: seq<char>, ptr: nat, sent: seq<char>, crSent: bool)
    requires ptr < |s| && !(s[ptr] == '\n' && !crSent)
    ensures sent + Translate(s[ptr..], crSent) == (sent + [s[ptr]]) + Translate(s[ptr + 1..], s[ptr] == '\r')
  {
    TranslateStep(s[ptr..], crSent);
    assert s[ptr..][1..] == s[ptr + 1..];
  }

  /** One pass of `_write`'s loop: either a carriage return goes out first, or the character itself. */
  lemma TranslateStep(s: seq<char>, crSent: bool)
    requires s != []
    ensures s[0] == '\n' && !crSent ==> Translate(s, crSent) == ['\r'] + Translate(s, true)
    ensures !(s[0] == '\n' && !crSent) ==> Translate(s, crSent) == [s[0]] + Translate(s[1..], s[0] == '\r')
  {
  }

  /** `s` with every carriage return removed. */
  function DropCr(s: seq<char>): (t: seq<char>)
    ensures |t| <= |s| && '\r' !in t
  {
    if s == [] then [] else (if s[0] == '\r' then [] else [s[0]]) + DropCr(s[1..])
  }

  /** The number of newlines the translation has to guard with a carriage return. */
  function BareNewlines(s: seq<char>, crSent: bool): nat
    decreases |s|
  {
    if s == [] then 0
    else if s[0] == '\n' && !crSent then 1 + BareNewlines(s[1..], false)
    else BareNewlines(s[1..], s[0] == '\r')
  }

  /**
   * Every newline in `t` is guarded: preceded by a carriage return, or at
   * the front when one was the last character sent.
   */
  predicate Guarded(t: seq<char>, crSent: bool)
  {
    && (|t| > 0 && t[0] == '\n' ==> crSent)
    && (forall i :: 0 < i < |t| && t[i] == '\n' ==> t[i - 1] == '\r')
  }

  /** The only characters the translation adds are carriage returns. */
  lemma {:induction false} OnlyCrAdded(s: seq<char>, crSent: bool)
    ensures DropCr(Translate(s, crSent)) == DropCr(s)
    decreases |s|
  {
    if s != [] {
      OnlyCrAdded(s[1..], if s[0] == '\n' && !crSent then false else s[0] == '\r');
      var rest := Translate(s[1..], if s[0] == '\n' && !crSent then false else s[0] == '\r');
      DropCrAppend(if s[0] == '\n' && !crSent then ['\r', '\n'] else [s[0]], rest);
    }
  }

  lemma {:induction false} DropCrAppend(a: seq<char>, b: seq<char>)
    ensures DropCr(a + b) == DropCr(a) + DropCr(b)
    decreases |a|
  {
    if a != [] {
      assert (a + b)[0] == a[0] && (a + b)[1..] == a[1..] + b;
      DropCrAppend(a[1..], b);
      var x := if a[0] == '\r' then [] else [a[0]];
      assert DropCr(a + b) == x + DropCr(a[1..] + b);
      assert DropCr(a) == x + DropCr(a[1..]);
      assert x + (DropCr(a[1..]) + DropCr(b)) == (x + DropCr(a[1..])) + DropCr(b);
    } else {
      assert a + b == b;
    }
  }

  /** One carriage return is added per unguarded newline and nothing else. */
  lemma {:induction false} TranslatedLength(s: seq<char>, crSent: bool)
    ensures |Translate(s, crSent)| == |s| + BareNewlines(s, crSent)
    decreases |s|
  {
    if s != [] {
      TranslatedLength(s[1..], if s[0] == '\n' && !crSent then false else s[0] == '\r');
    }
  }

  /** After the translation every newline is guarded. */
  lemma {:induction false} TranslationGuards(s: seq<char>, crSent: bool)
    ensures Guarded(Translate(s, crSent), crSent)
    decreases |s|
  {
    if s != [] {
      var t := Translate(s, crSent);
      if s[0] == '\n' && !crSent {
        var rest := Translate(s[1..], false);
        TranslationGuards(s[1..], false);
        assert t == ['\r', '\n'] + rest;
        forall i | 0 < i < |t| && t[i] == '\n'
          ensures t[i - 1] == '\r'
        {
          if i > 2 {
            assert t[i] == rest[i - 2] && t[i - 1] == rest[i - 3];
          }
        }
      } else {
        var rest := Translate(s[1..], s[0] == '\r');
        TranslationGuards(s[1..], s[0] == '\r');
        assert t == [s[0]] + rest;
        forall i | 0 < i < |t| && t[i] == '\n'
          ensures t[i - 1] == '\r'
        {
          if i > 1 {
            assert t[i] == rest[i - 1] && t[i - 1] == rest[i - 2];
          }
        }
      }
    }
  }

  /** Text whose newlines are all guarded goes out unchanged. */
  lemma {:induction false} GuardedUnchanged(t: seq<char>, crSent: bool)
    requires Guarded(t, crSent)
    ensures Translate(t, crSent) == t
    decreases |t|
  {
    if t != [] {
      var rest := t[1..];
      assert Guarded(rest, t[0] == '\r') by {
        if |rest| > 0 && rest[0] == '\n' {
          assert t[1] == rest[0];
        }
        forall i | 0 < i < |rest| && rest[i] == '\n'
          ensures rest[i - 1] == '\r'
        {
          assert t[i + 1] == rest[i];
        }
      }
      GuardedUnchanged(rest, t[0] == '\r');
      assert Translate(t, crSent) == [t[0]] + Translate(rest, t[0] == '\r');
      assert [t[0]] + rest == t;
    }
  }

  /** Writing already translated text again changes nothing. */
  lemma Idempotent(s: seq<char>, crSent: bool)
    ensures Translate(Translate(s, crSent), crSent) == Translate(s, crSent)
  {
    TranslationGuards(s, crSent);
    GuardedUnchanged(Translate(s, crSent), crSent);
  }

  /** A CR LF pair written in one call is not doubled. */
  lemma CrLfPassesThrough(rest: seq<char>)
    ensures Translate(['\r', '\n'] + rest, false) == ['\r', '\n'] + Translate(rest, false)
  {
    assert (['\r', '\n'] + rest)[1..] == ['\n'] + rest;
    assert (['\n'] + rest)[1..] == rest;
  }

  /** What one input character becomes, given whether a carriage return went out just before it. */
  function Piece(c: char, crBefore: bool): seq<char>
  {
    if c == '\n' && !crBefore then ['\r', '\n'] else [c]
  }

  /**
   * The translation read off the input alone, from the back: a newline gets
   * a carriage return in front exactly when the input character before it
   * is not one (at the front, when none was sent before the call).
   */
  function Insertions(s: seq<char>, crSent: bool): seq<char>
    decreases |s|
  {
    if s == [] then []
    else
      var n := |s| - 1;
      Insertions(s[..n], crSent) + Piece(s[n], if n == 0 then crSent else s[n - 1] == '\r')
  }

  /** Each character goes out as its piece, and `cr_sent` then records whether it was CR. */
  lemma TranslateCons(s: seq<char>, crSent: bool)
    requires s != []
    ensures Translate(s, crSent) == Piece(s[0], crSent) + Translate(s[1..], s[0] == '\r')
  {
  }

  /** Sending one more character appends its piece; `cr_sent` then says whether the last input character was CR. */
  lemma {:induction false} TranslateSnoc(s: seq<char>, c: char, crSent: bool)
    ensures Translate(s + [c], crSent) == Translate(s, crSent) + Piece(c, if s == [] then crSent else s[|s| - 1] == '\r')
    decreases |s|
  {
    var s' := s + [c];
    TranslateCons(s', crSent);
    if s == [] {
      assert s'[1..] == [];
    } else {
      assert s'[0] == s[0] && s'[1..] == s[1..] + [c];
      TranslateSnoc(s[1..], c, s[0] == '\r');
      TranslateCons(s, crSent);
      var before := s[|s| - 1] == '\r';
      assert (if s[1..] == [] then s[0] == '\r' else s[1..][|s[1..]| - 1] == '\r') == before;
      AppendAssoc(Piece(s[0], crSent), Translate(s[1..], s[0] == '\r'), Piece(c, before));
    }
  }

  /** `_write`'s output is its input with a carriage return inserted before each newline that no CR precedes. */
  lemma {:induction false} TranslateInserts(s: seq<char>, crSent: bool)
    ensures Translate(s, crSent) == Insertions(s, crSent)
    decreases |s|
  {
    if s != [] {
      var n := |s| - 1;
      var p := s[..n];
      var before := if n == 0 then crSent else s[n - 1] == '\r';
      TranslateInserts(p, crSent);
      assert Insertions(s, crSent) == Insertions(p, crSent) + Piece(s[n], before);
      TranslateSnoc(p, s[n], crSent);
      assert (if p == [] then crSent else p[|p| - 1] == '\r') == before;
      assert p + [s[n]] == s;
    }
  }
}
