/**
 * `strtok(read_buf, " ")` followed by `strtok(NULL, " ")` until it returns
 * NULL, as in section 7.21.5.8 of ISO C99 with the single delimiter ' ':
 * the maximal runs of characters other than ' ' in the C string, in order.
 * Only ' ' separates; a tab or the newline `fgets` keeps belongs to a token.
 */
module Tokenizer {

  /** The characters of `s` before the first `d`: all of `s` when there is none. */
  function Before(s: seq<char>, d: char): (w: seq<char>)
    ensures |w| <= |s| && w == s[..|w|]
    ensures d !in w
    ensures |w| < |s| ==> s[|w|] == d
  {
    if s == [] || s[0] == d then [] else [s[0]] + Before(s[1..], d)
  }

  /** The C string held in a buffer: everything before the first NUL. */
  function CStr(buf: seq<char>): seq<char>
  {
    Before(buf, '\0')
  }

  /** The token `strtok` cuts from the front of `s`: the run of characters before the first ' '. */
  function Word(s: seq<char>): seq<char>
  {
    Before(s, ' ')
  }

  /** The tokens of `s`, in order. */
  function Tokens(s: seq<char>): (ts: seq<seq<char>>)
    ensures forall k :: 0 <= k < |ts| ==> ts[k] != [] && ' ' !in ts[k]
    ensures '\0' !in s ==> WellFormed(ts)
    decreases |s|
  {
    if s == [] then []
    else if s[0] == ' ' then Tokens(s[1..])
    else
      var w := Word(s);
      [w] + Tokens(s[|w|..])
  }

  /** The tokens `main`'s loop hands to the command handlers: non-empty, without ' ' or NUL. */
  function LineTokens(buf: seq<char>): (ts: seq<seq<char>>)
    ensures WellFormed(ts)
  {
    Tokens(CStr(buf))
  }

  /** `s` with every ' ' removed. */
  function NonSpace(s: seq<char>): seq<char>
  {
    if s == [] then [] else (if s[0] == ' ' then [] else [s[0]]) + NonSpace(s[1..])
  }

  /** The tokens one after another, with nothing in between. */
  function Concat(ts: seq<seq<char>>): seq<char>
  {
    if ts == [] then [] else ts[0] + Concat(ts[1..])
  }

  /** The tokens separated by one ' ' each. */
  function Join(ts: seq<seq<char>>): seq<char>
  {
    if ts == [] then []
    else if |ts| == 1 then ts[0]
    else ts[0] + " " + Join(ts[1..])
  }

  lemma {:induction false} NonSpaceAppend(a: seq<char>, b: seq<char>)
    ensures NonSpace(a + b) == NonSpace(a) + NonSpace(b)
    decreases |a|
  {
    if a == [] {
      assert a + b == b;
    } else {
      assert (a + b)[0] == a[0] && (a + b)[1..] == a[1..] + b;
      NonSpaceAppend(a[1..], b);
    }
  }

  lemma {:induction false} NonSpaceOfWord(w: seq<char>)
    requires ' ' !in w
    ensures NonSpace(w) == w
    decreases |w|
  {
    if w != [] {
      NonSpaceOfWord(w[1..]);
      assert [w[0]] + w[1..] == w;
    }
  }

  /** Nothing but the ' ' separators is dropped: the tokens spell out `s` without its spaces. */
  lemma {:induction false} TokensCover(s: seq<char>)
    ensures Concat(Tokens(s)) == NonSpace(s)
    decreases |s|
  {
    if s != [] {
      if s[0] == ' ' {
        TokensCover(s[1..]);
      } else {
        var w := Word(s);
        TokensCover(s[|w|..]);
        assert s == w + s[|w|..];
        NonSpaceAppend(w, s[|w|..]);
        NonSpaceOfWord(w);
        assert ([w] + Tokens(s[|w|..]))[1..] == Tokens(s[|w|..]);
      }
    }
  }

  /** The word at the front of a token followed by a space or by nothing is that token. */
  lemma {:induction false} WordOf(w: seq<char>, rest: seq<char>)
    requires ' ' !in w
    requires rest == [] || rest[0] == ' '
    ensures Word(w + rest) == w
    decreases |w|
  {
    if w == [] {
      assert w + rest == rest;
    } else {
      assert (w + rest)[0] == w[0] && (w + rest)[1..] == w[1..] + rest;
      WordOf(w[1..], rest);
      assert [w[0]] + w[1..] == w;
    }
  }

  /** Cutting a space-joined list of tokens gives the list back. */
  lemma {:induction false} JoinRoundTrip(ts: seq<seq<char>>)
    requires forall k :: 0 <= k < |ts| ==> ts[k] != [] && ' ' !in ts[k]
    ensures Tokens(Join(ts)) == ts
    decreases |ts|
  {
    if ts != [] {
      var w := ts[0];
      if |ts| == 1 {
        WordOf(w, []);
        assert w + [] == w;
        assert Join(ts)[|w|..] == [];
      } else {
        var rest := " " + Join(ts[1..]);
        assert Join(ts) == w + rest;
        WordOf(w, rest);
        assert (w + rest)[|w|..] == rest;
        assert Tokens(rest) == Tokens(Join(ts[1..])) by {
          assert rest[1..] == Join(ts[1..]);
        }
        JoinRoundTrip(ts[1..]);
      }
    }
  }

  /** A token list `strtok` can produce from a C string. */
  predicate WellFormed(ts: seq<seq<char>>)
  {
    forall k :: 0 <= k < |ts| ==> ts[k] != [] && ' ' !in ts[k] && '\0' !in ts[k]
  }

  lemma {:induction false} JoinNoNul(ts: seq<seq<char>>)
    requires WellFormed(ts)
    ensures '\0' !in Join(ts)
    decreases |ts|
  {
    if |ts| > 1 {
      JoinNoNul(ts[1..]);
      assert Join(ts) == ts[0] + " " + Join(ts[1..]);
    }
  }

  lemma {:induction false} JoinExtendLast(ts: seq<seq<char>>, suffix: seq<char>)
    requires ts != []
    ensures Join(ts[..|ts| - 1] + [ts[|ts| - 1] + suffix]) == Join(ts) + suffix
    decreases |ts|
  {
    var last := ts[|ts| - 1] + suffix;
    var us := ts[..|ts| - 1] + [last];
    if |ts| > 1 {
      var tail := ts[1..];
      assert tail[..|tail| - 1] == ts[1..|ts| - 1];
      assert us[1..] == ts[1..|ts| - 1] + [last];
      JoinExtendLast(tail, suffix);
      assert us[0] == ts[0];
    }
  }

  /** A string without NUL is its own C string. */
  lemma NoNulCStr(s: seq<char>)
    requires '\0' !in s
    ensures CStr(s) == s
  {
  }

  /**
   * `fgets` keeps the newline that ends the line, and only ' ' separates
   * tokens: the newline ends up as the last character of the last token.
   */
  lemma NewlineOnLastToken(ts: seq<seq<char>>)
    requires ts != [] && WellFormed(ts)
    ensures LineTokens(Join(ts) + "\n") == ts[..|ts| - 1] + [ts[|ts| - 1] + "\n"]
  {
    var last := ts[|ts| - 1] + "\n";
    var us := ts[..|ts| - 1] + [last];
    var line := Join(ts) + "\n";
    assert LineTokens(line) == Tokens(line) by {
      JoinNoNul(ts);
      assert '\0' !in line;
      NoNulCStr(line);
    }
    assert Join(us) == line by {
      JoinExtendLast(ts, "\n");
    }
    assert ' ' !in last;
    forall k | 0 <= k < |us|
      ensures us[k] != [] && ' ' !in us[k]
    {
      if k < |us| - 1 {
        assert us[k] == ts[k];
      }
    }
    JoinRoundTrip(us);
  }
}
