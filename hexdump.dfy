/**
 * `hexdump(base_addr, buf, len)`: rows of sixteen bytes, each row opened by
 * its 32-bit address and closed by the XOR of its bytes.  The formatted text
 * is abstracted to a sequence of items.
 */
module HexDump {
  import opened CSemantics

  const ROW: nat := 16

  datatype DumpItem =
    | Header(addr: nat)    // "%08lx:" of base_addr + printed, a 32-bit sum
    | Byte(b: bv8)         // " %02x"
    | Checksum(x: bv8)     // " : %02x\n"

  /** The XOR of the bytes of `s`; zero for no bytes. */
  function Xor(s: seq<bv8>): (x: bv8)
    ensures |s| == 1 ==> x == s[0]
  {
    if s == [] then 0 else Xor(s[..|s| - 1]) ^ s[|s| - 1]
  }

  /**
   * The items `hexdump` prints for the bytes `s`, grown one byte at a time
   * as its loop grows them: a header before every byte at an offset that is
   * a multiple of 16 and a checksum of the row after every byte that
   * completes one.
   */
  function Render(base: nat, s: seq<bv8>): (items: seq<DumpItem>)
    ensures items == [] <==> s == []
    decreases |s|
  {
    if s == [] then []
    else
      var n := |s| - 1;
      Render(base, s[..n]) + Opening(base, n) + [Byte(s[n])] + Closing(s, n)
  }

  /** A dump of any bytes opens with the header of `base_addr` and holds more than that header. */
  lemma {:induction false} RenderOpens(base: nat, s: seq<bv8>)
    requires s != []
    ensures |Render(base, s)| > 1 && Render(base, s)[0] == Header(Wrap32(base))
    decreases |s|
  {
    var n := |s| - 1;
    if n > 0 {
      RenderOpens(base, s[..n]);
    }
  }

  /** The header printed before byte `n`, if any. */
  function Opening(base: nat, n: nat): seq<DumpItem>
  {
    if n % ROW == 0 then [Header(Wrap32(base + n))] else []
  }

  /** The checksum printed after byte `n` of `s`, if any. */
  function Closing(s: seq<bv8>, n: nat): seq<DumpItem>
    requires n < |s|
  {
    if (n + 1) % ROW == 0 then [Checksum(Xor(s[n + 1 - ROW..n + 1]))] else []
  }

  /** `hexdump`: prints `Render(base, buf)`. */
  method Hexdump(base: nat, buf: seq<bv8>) returns (items: seq<DumpItem>)
    ensures items == Render(base, buf)
  {
    items := [];
    var printed := 0;
    var xor: bv8 := 0;
    while printed < |buf|
      invariant printed <= |buf|
      invariant Printed(base, buf, printed, items, xor)
    {
      ghost var k, before, x0 := printed, items, xor;
      if printed % ROW == 0 {
        items := items + [Header(Wrap32(base + printed))];
      }
      assert items == before + Opening(base, k);
      items := items + [Byte(buf[printed])];
      xor := xor ^ buf[printed];
      ghost var mid := items;
      printed := printed + 1;
      if printed % ROW == 0 {
        items := items + [Checksum(xor)];
        xor := 0;
      }
      assert items == mid + RowEnd(k + 1, x0 ^ buf[k]);
      assert xor == if (k + 1) % ROW == 0 then 0 else x0 ^ buf[k];
      ByteStep(base, buf, k, before, x0, items, xor);
    }
    assert buf[..printed] == buf;
  }

  /** What `hexdump` prints once `n` bytes are out and the row's XOR is `x`: the checksum at a row's end. */
  function RowEnd(n: nat, x: bv8): seq<DumpItem>
  {
    if n % ROW == 0 then [Checksum(x)] else []
  }

  /** `hexdump`'s loop invariant: the first `k` bytes printed, `xor` over the current row. */
  ghost predicate Printed(base: nat, buf: seq<bv8>, k: nat, items: seq<DumpItem>, xor: bv8)
    requires k <= |buf|
  {
    items == Render(base, buf[..k]) && xor == Xor(buf[k - k % ROW..k])
  }

  /** One pass of `hexdump`'s loop, for byte `k`, keeps the invariant. */
  lemma ByteStep(base: nat, buf: seq<bv8>, k: nat, items: seq<DumpItem>, xor: bv8, items': seq<DumpItem>, xor': bv8)
    requires k < |buf| && Printed(base, buf, k, items, xor)
    requires items' == items + Opening(base, k) + [Byte(buf[k])] + RowEnd(k + 1, xor ^ buf[k])
    requires xor' == if (k + 1) % ROW == 0 then 0 else xor ^ buf[k]
    ensures Printed(base, buf, k + 1, items', xor')
  {
    XorStep(buf, k, xor);
    RenderStep(base, buf, k, xor ^ buf[k]);
  }

  /** The row's XOR after byte `k`, and its reset when the byte ends a row. */
  lemma XorStep(buf: seq<bv8>, k: nat, xor: bv8)
    requires k < |buf| && xor == Xor(buf[k - k % ROW..k])
    ensures Xor(buf[k - k % ROW..k + 1]) == xor ^ buf[k]
    ensures (if (k + 1) % ROW == 0 then 0 else xor ^ buf[k]) == Xor(buf[(k + 1) - (k + 1) % ROW..k + 1])
  {
    RowStep(k);
    XorSnoc(buf, k - k % ROW, k);
    if (k + 1) % ROW == 0 {
      assert buf[k + 1..k + 1] == [];
    }
  }

  /** The items for one more byte, `x` being the XOR of its row so far. */
  lemma RenderStep(base: nat, buf: seq<bv8>, k: nat, x: bv8)
    requires k < |buf| && x == Xor(buf[k - k % ROW..k + 1])
    ensures Render(base, buf[..k + 1]) == Render(base, buf[..k]) + Opening(base, k) + [Byte(buf[k])] + RowEnd(k + 1, x)
  {
    assert Closing(buf[..k + 1], k) == RowEnd(k + 1, x) by {
      if (k + 1) % ROW == 0 {
        RowStep(k);
        assert k - k % ROW == k + 1 - ROW;
        assert buf[..k + 1][k + 1 - ROW..k + 1] == buf[k + 1 - ROW..k + 1];
      }
    }
    assert buf[..k + 1][..k] == buf[..k];
  }

  /** Arithmetic of moving on by one byte within rows of sixteen. */
  lemma RowStep(n: nat)
    ensures (n + 1) % ROW == 0 ==> (n + 1) / ROW == n / ROW + 1 && n % ROW == ROW - 1
    ensures (n + 1) % ROW != 0 ==> (n + 1) / ROW == n / ROW && (n + 1) % ROW == n % ROW + 1
  {
    var q, r := n / ROW, n % ROW;
    assert n == ROW * q + r && 0 <= r < ROW;
    if r == ROW - 1 {
      assert n + 1 == ROW * (q + 1) + 0;
    } else {
      assert n + 1 == ROW * q + (r + 1);
    }
  }

  /** The running XOR of a row absorbs one more byte. */
  lemma XorSnoc(buf: seq<bv8>, lo: nat, k: nat)
    requires lo <= k < |buf|
    ensures Xor(buf[lo..k + 1]) == Xor(buf[lo..k]) ^ buf[k]
  {
    assert buf[lo..k + 1][..k - lo] == buf[lo..k];
  }

  /** The byte values among `items`, in order. */
  function ByteValues(items: seq<DumpItem>): (bs: seq<bv8>)
    ensures |bs| <= |items|
  {
    if items == [] then []
    else (if items[0].Byte? then [items[0].b] else []) + ByteValues(items[1..])
  }

  lemma {:induction false} ByteValuesAppend(a: seq<DumpItem>, b: seq<DumpItem>)
    ensures ByteValues(a + b) == ByteValues(a) + ByteValues(b)
    decreases |a|
  {
    if a == [] {
      assert a + b == b;
    } else {
      assert (a + b)[0] == a[0] && (a + b)[1..] == a[1..] + b;
      ByteValuesAppend(a[1..], b);
    }
  }

  /** Every byte is printed exactly once, in order, and nothing else is a byte. */
  lemma {:induction false} EachByteOnce(base: nat, s: seq<bv8>)
    ensures ByteValues(Render(base, s)) == s
    decreases |s|
  {
    if s != [] {
      var n := |s| - 1;
      EachByteOnce(base, s[..n]);
      ByteValuesStep(base, s);
      assert s[..n] + [s[n]] == s;
    }
  }

  /** One more byte adds exactly that byte to the bytes printed. */
  lemma ByteValuesStep(base: nat, s: seq<bv8>)
    requires s != []
    ensures ByteValues(Render(base, s)) == ByteValues(Render(base, s[..|s| - 1])) + [s[|s| - 1]]
  {
    var n := |s| - 1;
    MarksHoldNoBytes(base, s, n);
    ByteAmongMarks(Render(base, s[..n]), Opening(base, n), s[n], Closing(s, n));
  }

  /** A byte item between two runs of items without bytes adds just that byte. */
  lemma ByteAmongMarks(a: seq<DumpItem>, o: seq<DumpItem>, x: bv8, c: seq<DumpItem>)
    requires ByteValues(o) == [] && ByteValues(c) == []
    ensures ByteValues(a + o + [Byte(x)] + c) == ByteValues(a) + [x]
  {
    var b := [Byte(x)];
    assert a + o + b + c == (a + o) + (b + c);
    ByteValuesAppend(a + o, b + c);
    ByteValuesAppend(a, o);
    ByteValuesAppend(b, c);
    assert b[1..] == [];
  }

  /** Headers and checksums carry no data bytes. */
  lemma MarksHoldNoBytes(base: nat, s: seq<bv8>, n: nat)
    requires n < |s|
    ensures ByteValues(Opening(base, n)) == [] && ByteValues(Closing(s, n)) == []
  {
  }

  /** Sixteen bytes make a row of eighteen items; a partial row has no checksum. */
  lemma {:induction false} RenderLength(base: nat, s: seq<bv8>)
    ensures |Render(base, s)| == |s| + 2 * (|s| / ROW) + (if |s| % ROW == 0 then 0 else 1)
    decreases |s|
  {
    if s != [] {
      var n := |s| - 1;
      RenderLength(base, s[..n]);
      RowStep(n);
      assert |Render(base, s)| == |Render(base, s[..n])| + |Opening(base, n)| + 1 + |Closing(s, n)|;
    }
  }

  /** Printing more bytes only appends to what was printed. */
  lemma {:induction false} RenderExtends(base: nat, s: seq<bv8>, k: nat)
    requires k <= |s|
    ensures |Render(base, s[..k])| <= |Render(base, s)|
    ensures Render(base, s)[..|Render(base, s[..k])|] == Render(base, s[..k])
    decreases |s| - k
  {
    if k < |s| {
      var n := |s| - 1;
      assert s[..n][..k] == s[..k];
      RenderExtends(base, s[..n], k);
    } else {
      assert s[..k] == s;
    }
  }

  /**
   * Where byte `i` lands: at item i + 2 * (i / 16) + 1.  A header with
   * address base + i (mod 2^32) is just before it exactly when i is a
   * multiple of 16 (otherwise byte i - 1 is); the XOR of its row is just
   * after it exactly when it completes a row; when it is the last byte and
   * completes no row, nothing follows it.
   */
  lemma ByteLayout(base: nat, s: seq<bv8>, i: nat)
    requires i < |s|
    ensures var items := Render(base, s);
            var p := i + 2 * (i / ROW) + 1;
            && p < |items| && items[p] == Byte(s[i])
            && (i % ROW == 0 ==> items[p - 1] == Header(Wrap32(base + i)))
            && (i % ROW != 0 ==> items[p - 1] == Byte(s[i - 1]))
            && ((i + 1) % ROW == 0 ==> p + 1 < |items| && items[p + 1] == Checksum(Xor(s[i + 1 - ROW..i + 1])))
            && ((i + 1) % ROW != 0 && i + 1 < |s| ==> p + 1 < |items| && items[p + 1] == Byte(s[i + 1]))
            && ((i + 1) % ROW != 0 && i + 1 == |s| ==> p + 1 == |items|)
  {
    ByteAt(base, s, i);
    if i % ROW != 0 {
      PreviousByte(base, s, i);
    }
    if (i + 1) % ROW == 0 {
      ChecksumAfter(base, s, i);
    } else if i + 1 < |s| {
      NextByte(base, s, i);
    } else {
      LastByte(base, s, i);
    }
  }

  /** Byte i is at item i + 2 * (i / 16) + 1, after its row's header when it opens the row. */
  lemma ByteAt(base: nat, s: seq<bv8>, i: nat)
    requires i < |s|
    ensures var p := i + 2 * (i / ROW) + 1;
            && p < |Render(base, s)| && Render(base, s)[p] == Byte(s[i])
            && (i % ROW == 0 ==> Render(base, s)[p - 1] == Header(Wrap32(base + i)))
  {
    var all, pre, cur := Render(base, s), Render(base, s[..i]), Render(base, s[..i + 1]);
    var p := i + 2 * (i / ROW) + 1;
    Landing(base, s, i);
    var front := pre + Opening(base, i);
    assert cur == front + [Byte(s[i])] + Closing(s[..i + 1], i);
    assert |front| == p;
    assert cur[p] == Byte(s[i]);
    assert all[p] == cur[p] by {
      assert all[..|cur|][p] == all[p];
    }
    if i % ROW == 0 {
      assert front[p - 1] == Header(Wrap32(base + i));
      assert cur[p - 1] == front[p - 1];
      assert all[..|cur|][p - 1] == all[p - 1];
    }
  }

  /** The byte completing a row is followed by the XOR of the row. */
  lemma ChecksumAfter(base: nat, s: seq<bv8>, i: nat)
    requires i < |s| && (i + 1) % ROW == 0
    ensures var p := i + 2 * (i / ROW) + 1;
            p + 1 < |Render(base, s)| && Render(base, s)[p + 1] == Checksum(Xor(s[i + 1 - ROW..i + 1]))
  {
    var cur := Render(base, s[..i + 1]);
    var x := Xor(s[i + 1 - ROW..i + 1]);
    assert Closing(s[..i + 1], i) == [Checksum(x)] by {
      assert s[..i + 1][i + 1 - ROW..i + 1] == s[i + 1 - ROW..i + 1];
    }
    Landing(base, s, i);
    var head := Render(base, s[..i]) + Opening(base, i) + [Byte(s[i])];
    assert cur == head + [Checksum(x)];
    assert |head| == i + 2 * (i / ROW) + 2;
  }

  /** A final byte that completes no row is the last item. */
  lemma LastByte(base: nat, s: seq<bv8>, i: nat)
    requires i + 1 == |s| && (i + 1) % ROW != 0
    ensures i + 2 * (i / ROW) + 2 == |Render(base, s)|
  {
    Landing(base, s, i);
    assert s[..i + 1] == s;
  }

  /**
   * Byte `i` as the loop prints it: after the items of the earlier bytes and
   * its row's header, inside the items of all the bytes.
   */
  lemma Landing(base: nat, s: seq<bv8>, i: nat)
    requires i < |s|
    ensures var pre, cur := Render(base, s[..i]), Render(base, s[..i + 1]);
            && cur == pre + Opening(base, i) + [Byte(s[i])] + Closing(s[..i + 1], i)
            && |pre| + |Opening(base, i)| == i + 2 * (i / ROW) + 1
            && |cur| <= |Render(base, s)| && Render(base, s)[..|cur|] == cur
  {
    assert s[..i + 1][..i] == s[..i];
    RenderLength(base, s[..i]);
    RenderExtends(base, s, i + 1);
  }

  /** Inside a row, byte i - 1 sits just before byte i. */
  lemma PreviousByte(base: nat, s: seq<bv8>, i: nat)
    requires 0 < i < |s| && i % ROW != 0
    ensures var p := i + 2 * (i / ROW) + 1;
            p < |Render(base, s)| && Render(base, s)[p - 1] == Byte(s[i - 1])
  {
    RowStep(i - 1);
    var q := (i - 1) / ROW;
    assert i / ROW == q;
    ByteAt(base, s, i - 1);
    ByteAt(base, s, i);
    assert (i - 1) + 2 * q + 1 == i + 2 * q;
  }

  /** Inside a row, byte i + 1 sits just after byte i. */
  lemma NextByte(base: nat, s: seq<bv8>, i: nat)
    requires i + 1 < |s| && (i + 1) % ROW != 0
    ensures var p := i + 2 * (i / ROW) + 1;
            p + 1 < |Render(base, s)| && Render(base, s)[p + 1] == Byte(s[i + 1])
  {
    ByteAt(base, s, i + 1);
    RowStep(i);
    assert (i + 1) + 2 * ((i + 1) / ROW) + 1 == i + 2 * (i / ROW) + 2;
  }
}
