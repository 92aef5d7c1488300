/**
 * The hex dump used for bogus fragments and unrecognized messages
 * (print_buf): rows of at most 16 bytes, each row headed by its offset.
 */
module HexDump {
  import opened Bytes

  /** One printed row: the offset it is labelled with and the bytes it lists, in order. */
  datatype Row = Row(offset: nat, bytes: seq<byte>)

  const RowWidth: nat := 16

  function Min(a: int, b: int): int
  {
    if a < b then a else b
  }

  /** ceil(n / 16): the number of rows a dump of n bytes has. */
  function RowCount(n: nat): nat
  {
    (n + RowWidth - 1) / RowWidth
  }

  /** Row k of a dump of buf labelled from start: offset start + 16k, bytes 16k up to 16k + 16 or the end. */
  function RowAt(buf: seq<byte>, start: nat, k: nat): Row
    requires k < RowCount(|buf|)
  {
    Row(start + RowWidth * k, buf[RowWidth * k .. Min(RowWidth * k + RowWidth, |buf|)])
  }

  /** Reference definition of the dump: one row of the first 16 bytes, then the dump of the rest 16 further on. */
  function DumpRows(buf: seq<byte>, start: nat): (rows: seq<Row>)
    ensures |rows| == RowCount(|buf|)
    ensures forall k :: 0 <= k < |rows| ==> 0 < |rows[k].bytes| <= RowWidth
    decreases |buf|
  {
    if buf == [] then []
    else if |buf| <= RowWidth then [Row(start, buf)]
    else [Row(start, buf[..RowWidth])] + DumpRows(buf[RowWidth..], start + RowWidth)
  }

  /** The bytes of the rows, one row after the other. */
  function Flatten(rows: seq<Row>): seq<byte>
  {
    if rows == [] then [] else rows[0].bytes + Flatten(rows[1..])
  }

  /** The dump has ceil(|buf| / 16) rows, and row k is RowAt(buf, start, k). */
  lemma {:induction false} DumpRowsShape(buf: seq<byte>, start: nat)
    ensures |DumpRows(buf, start)| == RowCount(|buf|)
    ensures forall k :: 0 <= k < RowCount(|buf|) ==> DumpRows(buf, start)[k] == RowAt(buf, start, k)
    decreases |buf|
  {
    if |buf| > RowWidth {
      var rest := buf[RowWidth..];
      DumpRowsShape(rest, start + RowWidth);
      assert RowCount(|buf|) == RowCount(|rest|) + 1;
      forall k | 0 <= k < RowCount(|buf|)
        ensures DumpRows(buf, start)[k] == RowAt(buf, start, k)
      {
        if k > 0 {
          assert DumpRows(buf, start)[k] == DumpRows(rest, start + RowWidth)[k - 1];
          var lo := RowWidth * (k - 1);
          var hi := Min(lo + RowWidth, |rest|);
          assert lo + RowWidth == RowWidth * k;
          assert hi + RowWidth == Min(RowWidth * k + RowWidth, |buf|);
          DropSlice(buf, RowWidth, lo, hi);
        }
      }
    }
  }

  /** A slice of what follows the first d elements. */
  lemma DropSlice(s: seq<byte>, d: nat, lo: nat, hi: nat)
    requires d <= |s| && lo <= hi <= |s| - d
    ensures s[d..][lo..hi] == s[d + lo .. d + hi]
  {
    assert forall i :: 0 <= i < hi - lo ==> s[d..][lo..hi][i] == s[d + lo + i];
  }

  /** Every byte of buf appears exactly once in the dump, in order. */
  lemma {:induction false} FlattenDumpRows(buf: seq<byte>, start: nat)
    ensures Flatten(DumpRows(buf, start)) == buf
    decreases |buf|
  {
    if |buf| > RowWidth {
      var rest := buf[RowWidth..];
      FlattenDumpRows(rest, start + RowWidth);
      var rows := DumpRows(buf, start);
      assert rows[1..] == DumpRows(rest, start + RowWidth);
      assert buf == buf[..RowWidth] + rest;
    } else if buf != [] {
      assert DumpRows(buf, start)[1..] == [];
    }
  }

  /** print_buf: the rows for size bytes of buf, the offsets counted from start. */
  method PrintBuf(buf: seq<byte>, start: nat) returns (rows: seq<Row>)
    ensures |rows| == RowCount(|buf|)
    ensures forall k :: 0 <= k < |rows| ==> rows[k] == RowAt(buf, start, k)
    ensures rows == DumpRows(buf, start)
  {
    rows := [];
    var i := 0;
    while i < |buf|
      invariant i == RowWidth * |rows|
      invariant |rows| <= RowCount(|buf|)
      invariant forall k :: 0 <= k < |rows| ==> rows[k] == RowAt(buf, start, k)
    {
      var line: seq<byte> := [];
      var j := i;
      while j < i + RowWidth && j < |buf|
        invariant i <= j <= Min(i + RowWidth, |buf|)
        invariant line == buf[i..j]
      {
        line := line + [buf[j]];
        j := j + 1;
      }
      rows := rows + [Row(i + start, line)];
      i := i + RowWidth;
    }
    DumpRowsShape(buf, start);
  }

  // ---- the text of a row: "%.4lx:" then " %.2x" per byte, then a newline ----

  /** A lower-case hexadecimal digit, as %x prints them. */
  predicate IsHexDigit(c: char)
  {
    '0' <= c <= '9' || 'a' <= c <= 'f'
  }

  /** A string made only of hexadecimal digits, read from its last character back as ParseHex reads it. */
  predicate HexText(s: string)
    decreases |s|
  {
    s == [] || (HexText(s[..|s| - 1]) && IsHexDigit(s[|s| - 1]))
  }

  /** HexText says that every character is a hexadecimal digit. */
  lemma {:induction false} HexTextIff(s: string)
    ensures HexText(s) <==> forall i :: 0 <= i < |s| ==> IsHexDigit(s[i])
    decreases |s|
  {
    if s != [] {
      var init := s[..|s| - 1];
      HexTextIff(init);
      assert forall i :: 0 <= i < |init| ==> init[i] == s[i];
    }
  }

  /** The digit for d. */
  function HexDigit(d: nat): (c: char)
    requires d < 16
    ensures IsHexDigit(c)
    ensures d == 0 <==> c == '0'
  {
    if d < 10 then ('0' as int + d) as char else ('a' as int + d - 10) as char
  }

  /** The value of a hexadecimal digit: the inverse of HexDigit. */
  function DigitValue(c: char): (d: nat)
    requires IsHexDigit(c)
    ensures d < 16 && HexDigit(d) == c
  {
    if '0' <= c <= '9' then (c as int - '0' as int) else (c as int - 'a' as int + 10)
  }

  /** n in hexadecimal: digits only, with no leading zero (a single "0" for zero). */
  function Hex(n: nat): (s: string)
    ensures |s| >= 1 && HexText(s)
    ensures n < 16 ==> |s| == 1
    ensures n < 256 ==> |s| <= 2
    ensures n > 0 ==> s[0] != '0'
    decreases n
  {
    if n < 16 then [HexDigit(n)]
    else
      var s := Hex(n / 16) + [HexDigit(n % 16)];
      assert s[..|s| - 1] == Hex(n / 16);
      s
  }

  /** n in hexadecimal with at least width digits, as printf's precision gives it. */
  function PadHex(n: nat, width: nat): (s: string)
    ensures HexText(s)
    ensures |s| >= width && |s| >= |Hex(n)|
    ensures |s| == width || |s| == |Hex(n)|
    ensures n < 256 && width == 2 ==> |s| == 2
  {
    ParseHexZeros(PadCount(n, width), Hex(n));
    seq(PadCount(n, width), _ => '0') + Hex(n)
  }

  /** How many zeros PadHex puts in front of the digits of n. */
  function PadCount(n: nat, width: nat): nat
  {
    if width > |Hex(n)| then width - |Hex(n)| else 0
  }

  /** The value of a string of hexadecimal digits, most significant first. */
  function ParseHex(s: string): nat
    requires HexText(s)
  {
    if s == [] then 0 else ParseHex(s[..|s| - 1]) * 16 + DigitValue(s[|s| - 1])
  }

  lemma {:induction false} ParseHexOfHex(n: nat)
    ensures ParseHex(Hex(n)) == n
    decreases n
  {
    if n >= 16 {
      ParseHexOfHex(n / 16);
      var s := Hex(n);
      assert s[..|s| - 1] == Hex(n / 16);
      assert DigitValue(HexDigit(n % 16)) == n % 16;
    } else {
      assert DigitValue(HexDigit(n)) == n;
    }
  }

  /** Leading zeros do not change the value read. */
  lemma {:induction false} ParseHexZeros(z: nat, s: string)
    requires HexText(s)
    ensures HexText(seq(z, _ => '0') + s)
    ensures ParseHex(seq(z, _ => '0') + s) == ParseHex(s)
    decreases |s|
  {
    var zs := seq(z, _ => '0');
    if s == [] {
      assert zs + s == zs;
      ZerosParseToZero(z);
    } else {
      var t := zs + s;
      assert t[..|t| - 1] == zs + s[..|s| - 1];
      ParseHexZeros(z, s[..|s| - 1]);
    }
  }

  lemma {:induction false} ZerosParseToZero(z: nat)
    ensures HexText(seq(z, _ => '0'))
    ensures ParseHex(seq(z, _ => '0')) == 0
  {
    if z > 0 {
      var zs := seq(z, _ => '0');
      assert zs[..z - 1] == seq(z - 1, _ => '0');
      ZerosParseToZero(z - 1);
    }
  }

  /**
   * The padded text is hexadecimal digits reading back as n, at least width
   * of them, and it is padded with zeros only up to width: a text longer
   * than width (width at least 1) starts with a nonzero digit.
   */
  lemma PadHexParses(n: nat, width: nat)
    ensures |PadHex(n, width)| >= width && HexText(PadHex(n, width))
    ensures ParseHex(PadHex(n, width)) == n
    ensures width >= 1 && |PadHex(n, width)| > width ==> PadHex(n, width)[0] != '0'
  {
    ParseHexZeros(PadCount(n, width), Hex(n));
    ParseHexOfHex(n);
  }

  /** " %.2x" for each byte in turn. */
  function BytesText(bs: seq<byte>): (t: string)
    ensures |t| == 3 * |bs|
  {
    if bs == [] then "" else " " + PadHex(bs[0] as nat, 2) + BytesText(bs[1..])
  }

  /** The text printed for one row. */
  function RowText(r: Row): (t: string)
    ensures |t| == |PadHex(r.offset, 4)| + 3 * |r.bytes| + 2
  {
    PadHex(r.offset, 4) + ":" + BytesText(r.bytes) + "\n"
  }

  /** Byte k takes the three characters at 3k: a space and its two digits. */
  lemma {:induction false} BytesTextLayout(bs: seq<byte>)
    ensures |BytesText(bs)| == 3 * |bs|
    ensures forall k :: 0 <= k < |bs| ==>
      && BytesText(bs)[3 * k] == ' '
      && HexText(BytesText(bs)[3 * k + 1 .. 3 * k + 3])
      && ParseHex(BytesText(bs)[3 * k + 1 .. 3 * k + 3]) == bs[k] as nat
  {
    if bs != [] {
      BytesTextLayout(bs[1..]);
      PadHexParses(bs[0] as nat, 2);
      assert [bs[0]] + bs[1..] == bs;
      ConsLayout(BytesText(bs), PadHex(bs[0] as nat, 2), BytesText(bs[1..]), bs[0], bs[1..]);
    }
  }

  /** The layout of " " + pair + tail, for pair the digits of x and tail the text of rest. */
  lemma ConsLayout(t: string, pair: string, tail: string, x: byte, rest: seq<byte>)
    requires t == " " + pair + tail
    requires |pair| == 2 && HexText(pair) && ParseHex(pair) == x as nat
    requires |tail| == 3 * |rest|
    requires forall k :: 0 <= k < |rest| ==>
      && tail[3 * k] == ' '
      && HexText(tail[3 * k + 1 .. 3 * k + 3])
      && ParseHex(tail[3 * k + 1 .. 3 * k + 3]) == rest[k] as nat
    ensures forall k :: 0 <= k < |rest| + 1 ==>
      && t[3 * k] == ' '
      && HexText(t[3 * k + 1 .. 3 * k + 3])
      && ParseHex(t[3 * k + 1 .. 3 * k + 3]) == ([x] + rest)[k] as nat
  {
    assert t[3..] == tail;
    forall k | 0 <= k < |rest| + 1
      ensures && t[3 * k] == ' '
              && HexText(t[3 * k + 1 .. 3 * k + 3])
              && ParseHex(t[3 * k + 1 .. 3 * k + 3]) == ([x] + rest)[k] as nat
    {
      if k == 0 {
        assert t[1..3] == pair;
      } else {
        var j := 3 * (k - 1);
        assert tail[j] == ' ' && HexText(tail[j + 1 .. j + 3]) && ParseHex(tail[j + 1 .. j + 3]) == rest[k - 1] as nat;
        ShiftDigits(t, tail, k, rest[k - 1] as nat);
      }
    }
  }

  /** The digits of entry k - 1 of tail are those of entry k of t, when t is three characters and then tail. */
  lemma ShiftDigits(t: string, tail: string, k: nat, v: nat)
    requires |t| == |tail| + 3 && t[3..] == tail
    requires 1 <= k && 3 * k + 3 <= |t|
    requires var j := 3 * (k - 1);
      tail[j] == ' ' && HexText(tail[j + 1 .. j + 3]) && ParseHex(tail[j + 1 .. j + 3]) == v
    ensures t[3 * k] == ' ' && HexText(t[3 * k + 1 .. 3 * k + 3]) && ParseHex(t[3 * k + 1 .. 3 * k + 3]) == v
  {
    var j := 3 * (k - 1);
    assert t[3 * k .. 3 * k + 3] == tail[j .. j + 3];
    DigitsAt(t, 3 * k, tail, j, v);
  }

  /**
   * A row's text starts with its offset label: hexadecimal digits reading
   * back as the offset, at least four of them and zero-padded only up to
   * four. Then comes a colon, and the text ends with the newline.
   */
  lemma RowTextFrame(r: Row)
    ensures |PadHex(r.offset, 4)| >= 4
    ensures HexText(RowText(r)[..|PadHex(r.offset, 4)|])
    ensures ParseHex(RowText(r)[..|PadHex(r.offset, 4)|]) == r.offset
    ensures |PadHex(r.offset, 4)| > 4 ==> RowText(r)[0] != '0'
    ensures RowText(r)[|PadHex(r.offset, 4)|] == ':'
    ensures RowText(r)[|RowText(r)| - 1] == '\n'
  {
    var p := PadHex(r.offset, 4);
    assert |p| >= 4 && ParseHex(p) == r.offset && (|p| > 4 ==> p[0] != '0') by {
      PadHexParses(r.offset, 4);
    }
    assert RowText(r)[..|p|] == p;
  }

  /**
   * After the colon, byte k of a row takes the three characters at 3k: a
   * space and two hexadecimal digits that read back as the byte.
   */
  lemma RowTextBytes(r: Row, w: nat)
    requires w == |PadHex(r.offset, 4)|
    ensures forall k :: 0 <= k < |r.bytes| ==>
      && RowText(r)[w + 1 + 3 * k] == ' '
      && HexText(RowText(r)[w + 2 + 3 * k .. w + 4 + 3 * k])
      && ParseHex(RowText(r)[w + 2 + 3 * k .. w + 4 + 3 * k]) == r.bytes[k] as nat
  {
    BytesTextLayout(r.bytes);
    TextLayout(RowText(r), PadHex(r.offset, 4), BytesText(r.bytes), r.bytes, w);
  }

  /** Where the pieces of t = p + ":" + b + "\n" sit, for b the text of bs. */
  lemma TextLayout(t: string, p: string, b: string, bs: seq<byte>, w: nat)
    requires t == p + [':'] + b + ['\n'] && w == |p|
    requires |b| == 3 * |bs|
    requires forall k :: 0 <= k < |bs| ==>
      && b[3 * k] == ' '
      && HexText(b[3 * k + 1 .. 3 * k + 3])
      && ParseHex(b[3 * k + 1 .. 3 * k + 3]) == bs[k] as nat
    ensures forall k :: 0 <= k < |bs| ==>
      && t[w + 1 + 3 * k] == ' '
      && HexText(t[w + 2 + 3 * k .. w + 4 + 3 * k])
      && ParseHex(t[w + 2 + 3 * k .. w + 4 + 3 * k]) == bs[k] as nat
  {
    forall k | 0 <= k < |bs|
      ensures && t[w + 1 + 3 * k] == ' '
              && HexText(t[w + 2 + 3 * k .. w + 4 + 3 * k])
              && ParseHex(t[w + 2 + 3 * k .. w + 4 + 3 * k]) == bs[k] as nat
    {
      assert t[w + 1 + 3 * k .. w + 4 + 3 * k] == b[3 * k .. 3 * k + 3];
      DigitsAt(t, w + 1 + 3 * k, b, 3 * k, bs[k] as nat);
    }
  }

  /** A space and two digits reading v, found at j in u, are found at i in t when the three characters agree. */
  lemma DigitsAt(t: string, i: nat, u: string, j: nat, v: nat)
    requires i + 3 <= |t| && j + 3 <= |u| && t[i .. i + 3] == u[j .. j + 3]
    requires u[j] == ' ' && HexText(u[j + 1 .. j + 3]) && ParseHex(u[j + 1 .. j + 3]) == v
    ensures t[i] == ' ' && HexText(t[i + 1 .. i + 3]) && ParseHex(t[i + 1 .. i + 3]) == v
  {
    assert t[i] == t[i .. i + 3][0];
    assert t[i + 1 .. i + 3] == u[j + 1 .. j + 3];
  }
}
