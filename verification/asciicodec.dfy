/** The `ascii` scaling function (battery_smart_lifepo4.py:126-127).

  `ascii(_, n)` turns an integer into text by way of its hexadecimal spelling:
  `hex(n)`, drop the `0x`, `binascii.unhexlify` the digits back into bytes,
  decode the bytes and drop NUL characters. There is no padding step, so an
  integer whose minimal hex spelling has an odd number of digits (0 among
  them) makes `unhexlify` raise.

  The module models each step and relates the whole to an independent
  reference: the minimal big-endian bytes of `n` (`BigEndianBytes`).
 */
module AsciiCodec {
  import opened Base
  import opened Text
  import opened Words

  type Byte = b: int | 0 <= b < 0x100

  // ---------------------------------------------------------------------
  // hex()

  /** The hexadecimal digits of `n`, most significant first, as `hex(n)`
      spells them after its `0x`: minimal, so only 0 itself starts with 0. */
  function HexDigits(n: nat): (ds: seq<nat>)
    ensures 1 <= |ds|
    ensures forall i :: 0 <= i < |ds| ==> ds[i] < 16
    ensures n > 0 ==> ds[0] > 0
    decreases n
  {
    if n < 16 then [n] else HexDigits(n / 16) + [n % 16]
  }

  function HexChar(d: nat): (c: char)
    requires d < 16
    ensures c != 'x' && c != '-'
  {
    if d < 10 then ('0' as int + d) as char else ('a' as int + d - 10) as char
  }

  function HexString(ds: seq<nat>): (s: string)
    requires forall i :: 0 <= i < |ds| ==> ds[i] < 16
    ensures |s| == |ds|
    ensures forall i :: 0 <= i < |ds| ==> s[i] == HexChar(ds[i])
  {
    seq(|ds|, i requires 0 <= i < |ds| => HexChar(ds[i]))
  }

  /** Python's `hex(i)`. */
  function Hex(i: int): string
  {
    if i < 0 then "-0x" + HexString(HexDigits(-i)) else "0x" + HexString(HexDigits(i))
  }

  // ---------------------------------------------------------------------
  // binascii.unhexlify()

  /** The value of one hex digit as `unhexlify` reads it (either case). */
  function HexValue(c: char): (r: Option<nat>)
    ensures r.Some? ==> r.value < 16
  {
    if '0' <= c <= '9' then Some(c as int - '0' as int)
    else if 'a' <= c <= 'f' then Some(c as int - 'a' as int + 10)
    else if 'A' <= c <= 'F' then Some(c as int - 'A' as int + 10)
    else None
  }

  /** `binascii.unhexlify(s)`: an odd length is refused before any digit is
      read; otherwise each pair of digits becomes one byte. */
  function Unhexlify(s: string): (r: Result<seq<Byte>>)
    ensures |s| % 2 == 1 ==> r == Raised(OddLengthString)
    ensures r.Ok? ==> 2 * |r.value| == |s|
    ensures r.Raised? ==> r.error == OddLengthString || r.error == NonHexadecimalDigit
    decreases |s|
  {
    if |s| % 2 == 1 then Raised(OddLengthString)
    else if |s| == 0 then Ok([])
    else match (HexValue(s[0]), HexValue(s[1]))
      case (Some(hi), Some(lo)) =>
        (match Unhexlify(s[2..])
         case Ok(rest) => Ok([hi * 16 + lo] + rest)
         case Raised(e) => Raised(e))
      case _ => Raised(NonHexadecimalDigit)
  }

  // ---------------------------------------------------------------------
  // bytes.decode() and the NUL removal

  function Chars(bs: seq<Byte>): (s: string)
    ensures |s| == |bs|
    ensures forall i :: 0 <= i < |bs| ==> s[i] as int == bs[i]
  {
    seq(|bs|, i requires 0 <= i < |bs| => bs[i] as char)
  }

  predicate SevenBit(bs: seq<Byte>)
  {
    forall i :: 0 <= i < |bs| ==> bs[i] < 0x80
  }

  /** `bytes.decode()` on 7-bit bytes, where UTF-8 is ASCII. Bytes from 0x80
      on are outside the model. */
  function Decode(bs: seq<Byte>): (r: Result<string>)
    ensures r.Ok? <==> SevenBit(bs)
    ensures r.Ok? ==> |r.value| == |bs| && forall i :: 0 <= i < |bs| ==> r.value[i] as int == bs[i]
  {
    if SevenBit(bs) then Ok(Chars(bs)) else Raised(UndecodedByte)
  }

  /** `ascii(_nothing, input)`. The `.encode()` between `replace` and
      `unhexlify` maps ASCII characters to the same byte values and is left
      implicit. */
  function Ascii(input: int): (r: Result<string>)
    ensures r.Raised? ==> r.error in {OddLengthString, NonHexadecimalDigit, UndecodedByte}
  {
    match Unhexlify(Remove(Hex(input), "0x"))
    case Raised(e) => Raised(e)
    case Ok(bytes) =>
      match Decode(bytes)
      case Raised(e) => Raised(e)
      case Ok(text) => Ok(Remove(text, "\0"))
  }

  // ---------------------------------------------------------------------
  // Reference: minimal big-endian bytes

  /** The bytes of `n`, most significant first, with no leading zero byte
      (except for `n == 0`, which is the single byte 0). */
  function BigEndianBytes(n: nat): (bs: seq<Byte>)
    ensures 1 <= |bs|
    decreases n
  {
    if n < 0x100 then [n] else BigEndianBytes(n / 0x100) + [n % 0x100]
  }

  /** The number whose big-endian bytes are `bs`. */
  function BytesValue(bs: seq<Byte>): nat
  {
    if |bs| == 0 then 0 else BytesValue(bs[..|bs| - 1]) * 0x100 + bs[|bs| - 1]
  }

  /** Each byte as its two hex digits, high digit first. */
  function Nibbles(bs: seq<Byte>): (ds: seq<nat>)
    ensures |ds| == 2 * |bs|
    ensures forall i :: 0 <= i < |ds| ==> ds[i] < 16
  {
    if |bs| == 0 then [] else [bs[0] / 16, bs[0] % 16] + Nibbles(bs[1..])
  }

  /** `bs` without its zero bytes. */
  function NonZero(bs: seq<Byte>): (r: seq<Byte>)
    ensures |r| <= |bs|
    ensures forall i :: 0 <= i < |r| ==> r[i] != 0
  {
    if |bs| == 0 then []
    else if bs[0] == 0 then NonZero(bs[1..])
    else [bs[0]] + NonZero(bs[1..])
  }

  lemma {:induction false} NibblesSnoc(bs: seq<Byte>, b: Byte)
    ensures Nibbles(bs + [b]) == Nibbles(bs) + [b / 16, b % 16]
    decreases |bs|
  {
    if |bs| == 0 {
      assert Nibbles([b]) == [b / 16, b % 16] + Nibbles([]);
    } else {
      assert (bs + [b])[1..] == bs[1..] + [b];
      NibblesSnoc(bs[1..], b);
    }
  }

  /** Two hex digits at a time: the digits of `m * 256 + b` are those of `m`
      followed by the two digits of byte `b`, once `m` is not zero. */
  lemma HexDigitsShiftByte(m: nat, b: Byte)
    requires m >= 1
    ensures HexDigits(m * 0x100 + b) == HexDigits(m) + [b / 16, b % 16]
  {
    var n := m * 0x100 + b;
    assert n / 16 == m * 16 + b / 16 && n % 16 == b % 16;
    assert (m * 16 + b / 16) / 16 == m && (m * 16 + b / 16) % 16 == b / 16;
  }

  /** The hex spelling of `n` is the nibbles of its big-endian bytes, except
      that a first byte below 0x10 contributes one digit, not two. */
  lemma {:induction false} HexDigitsAreNibbles(n: nat)
    ensures var bs := BigEndianBytes(n);
      HexDigits(n) == if bs[0] >= 0x10 then Nibbles(bs) else [bs[0]] + Nibbles(bs[1..])
    decreases n
  {
    var bs := BigEndianBytes(n);
    if n < 0x100 {
      assert bs == [n];
      if n >= 0x10 {
        assert HexDigits(n) == HexDigits(n / 16) + [n % 16];
        assert Nibbles(bs) == [n / 16, n % 16] + Nibbles([]);
      }
    } else {
      var m, b := n / 0x100, n % 0x100;
      var front := BigEndianBytes(m);
      assert bs == front + [b];
      assert bs[0] == front[0];
      HexDigitsAreNibbles(m);
      HexDigitsShiftByte(m, b);
      assert n == m * 0x100 + b;
      NibblesSnoc(front, b);
      if front[0] < 0x10 {
        assert bs[1..] == front[1..] + [b];
        NibblesSnoc(front[1..], b);
      }
    }
  }

  /** So the hex digit count of `n` is even exactly when its first byte is at
      least 0x10. */
  lemma HexDigitsEven(n: nat)
    ensures |HexDigits(n)| % 2 == 0 <==> BigEndianBytes(n)[0] >= 0x10
  {
    HexDigitsAreNibbles(n);
  }

  lemma HexValueOfHexChar(d: nat)
    requires d < 16
    ensures HexValue(HexChar(d)) == Some(d)
  {
  }

  /** `unhexlify` undoes the spelling of bytes as hex digit pairs. */
  lemma {:induction false} UnhexlifyNibbles(bs: seq<Byte>)
    ensures Unhexlify(HexString(Nibbles(bs))) == Ok(bs)
    decreases |bs|
  {
    if |bs| > 0 {
      var ds := Nibbles(bs);
      var s := HexString(ds);
      var hi, lo := bs[0] / 16, bs[0] % 16;
      assert ds[0] == hi && ds[1] == lo && ds[2..] == Nibbles(bs[1..]);
      HexValueOfHexChar(hi);
      HexValueOfHexChar(lo);
      HexStringTail(ds);
      assert s[0] == HexChar(hi) && s[1] == HexChar(lo);
      assert s[2..] == HexString(Nibbles(bs[1..]));
      UnhexlifyNibbles(bs[1..]);
      assert |s| % 2 == 0;
      UnhexlifyStep(s, hi, lo);
      ByteNibbles(bs[0]);
      assert [hi * 16 + lo] + bs[1..] == bs;
    }
  }

  lemma ByteNibbles(b: Byte)
    ensures (b / 16) * 16 + b % 16 == b
  {
  }

  lemma HexStringTail(ds: seq<nat>)
    requires |ds| >= 2
    requires forall i :: 0 <= i < |ds| ==> ds[i] < 16
    ensures HexString(ds)[2..] == HexString(ds[2..])
  {
  }

  /** `unhexlify` reads the first two digits as one byte and goes on. */
  lemma UnhexlifyStep(s: string, hi: nat, lo: nat)
    requires |s| >= 2 && |s| % 2 == 0
    requires HexValue(s[0]) == Some(hi) && HexValue(s[1]) == Some(lo)
    requires Unhexlify(s[2..]).Ok?
    ensures Unhexlify(s) == Ok([hi * 16 + lo] + Unhexlify(s[2..]).value)
  {
  }

  /** `hex(n).replace("0x", "")` is exactly the digits for `n >= 0`... */
  lemma HexWithoutPrefix(n: nat)
    ensures Remove(Hex(n), "0x") == HexString(HexDigits(n))
  {
    var h := HexString(HexDigits(n));
    assert ("0x" + h)[..2] == "0x" && ("0x" + h)[2..] == h;
    RemoveAbsent(h, "0x", 1);
  }

  /** ...and the digits after a minus sign for `n < 0`. */
  lemma HexWithoutPrefixNegative(i: int)
    requires i < 0
    ensures Remove(Hex(i), "0x") == "-" + HexString(HexDigits(-i))
  {
    var h := HexString(HexDigits(-i));
    var s := "-0x" + h;
    assert s[..2] != "0x" by { assert s[..2][0] == '-'; }
    assert s[1..] == "0x" + h;
    assert ("0x" + h)[..2] == "0x" && ("0x" + h)[2..] == h;
    RemoveAbsent(h, "0x", 1);
  }

  /** Dropping NUL characters from decoded text drops the zero bytes. */
  lemma {:induction false} RemoveNulIsNonZero(bs: seq<Byte>)
    ensures Remove(Chars(bs), "\0") == Chars(NonZero(bs))
    decreases |bs|
  {
    if |bs| > 0 {
      var s := Chars(bs);
      assert s[1..] == Chars(bs[1..]);
      assert s[..1] == "\0" <==> bs[0] == 0 by {
        assert s[..1] == [s[0]];
      }
      RemoveNulIsNonZero(bs[1..]);
      if bs[0] != 0 {
        assert Chars([bs[0]] + NonZero(bs[1..])) == [s[0]] + Chars(NonZero(bs[1..]));
      }
    }
  }

  lemma DecodeSevenBit(bs: seq<Byte>)
    ensures SevenBit(bs) ==> Decode(bs) == Ok(Chars(bs))
  {
    if SevenBit(bs) {
      assert Decode(bs).value == Chars(bs);
    }
  }

  /** `ascii` on a non-negative integer, in terms of its big-endian bytes: it
      raises on an odd digit count (a first byte below 0x10, which includes
      n = 0), fails on a byte outside 7-bit ASCII, and otherwise yields the
      bytes as text with the NULs removed. */
  lemma AsciiOfNatural(n: nat)
    ensures var bs := BigEndianBytes(n);
      Ascii(n) ==
        if bs[0] < 0x10 then Raised(OddLengthString)
        else if !SevenBit(bs) then Raised(UndecodedByte)
        else Ok(Chars(NonZero(bs)))
  {
    var bs := BigEndianBytes(n);
    var digits := Remove(Hex(n), "0x");
    HexWithoutPrefix(n);
    HexDigitsEven(n);
    assert |digits| == |HexDigits(n)|;
    if bs[0] >= 0x10 {
      HexDigitsAreNibbles(n);
      UnhexlifyNibbles(bs);
      assert Unhexlify(digits) == Ok(bs);
      DecodeSevenBit(bs);
      RemoveNulIsNonZero(bs);
    }
  }

  /** A negative input always raises: the minus sign survives the `replace`
      and `unhexlify` refuses it, or refuses the odd length first. */
  lemma AsciiOfNegative(i: int)
    requires i < 0
    ensures Ascii(i).Raised?
  {
    HexWithoutPrefixNegative(i);
    var s := "-" + HexString(HexDigits(-i));
    if |s| % 2 == 0 {
      assert HexValue(s[0]) == None;
    }
  }

  /** What a successful `ascii` promises: a positive input with an even number
      of hex digits, and text without NUL. Input 0 always raises. */
  lemma AsciiSucceeds(i: int)
    ensures Ascii(i).Ok? ==> i > 0 && |HexDigits(i)| % 2 == 0
    ensures Ascii(i).Ok? ==> forall k :: 0 <= k < |Ascii(i).value| ==> Ascii(i).value[k] != '\0'
    ensures Ascii(0) == Raised(OddLengthString)
  {
    AsciiOfNatural(0);
    if i < 0 {
      AsciiOfNegative(i);
    } else {
      AsciiOfNatural(i);
      HexDigitsEven(i);
      if Ascii(i).Ok? {
        var bs := BigEndianBytes(i);
        RemoveNulIsNonZero(bs);
        RemoveCharLeavesNone(Chars(bs), '\0');
        assert i != 0;
      }
    }
  }

  /** The number a string of hex digits spells, most significant digit
      first (a character that is not a hex digit counts as 0). */
  function ParseHex(s: string): nat
  {
    if |s| == 0 then 0
    else ParseHex(s[..|s| - 1]) * 16 + (match HexValue(s[|s| - 1]) case Some(d) => d case None => 0)
  }

  /** Reading back the hex digits of `n` gives `n`. */
  lemma {:induction false} ParseHexDigits(n: nat)
    ensures ParseHex(HexString(HexDigits(n))) == n
    decreases n
  {
    var ds := HexDigits(n);
    var s := HexString(ds);
    HexValueOfHexChar(ds[|ds| - 1]);
    if n >= 16 {
      ParseHexDigits(n / 16);
      assert s[..|s| - 1] == HexString(HexDigits(n / 16));
    } else {
      assert s[..|s| - 1] == [];
    }
  }

  // ---------------------------------------------------------------------
  // Round trip through 16-bit words

  lemma {:induction false} BytesValuePositive(bs: seq<Byte>)
    requires 1 <= |bs| && bs[0] >= 1
    ensures BytesValue(bs) >= bs[0]
    decreases |bs|
  {
    if |bs| > 1 {
      var p := bs[..|bs| - 1];
      assert p[0] == bs[0];
      BytesValuePositive(p);
    }
  }

  lemma {:induction false} BigEndianBytesValue(bs: seq<Byte>)
    requires 1 <= |bs| && bs[0] >= 1
    ensures BigEndianBytes(BytesValue(bs)) == bs
    decreases |bs|
  {
    if |bs| == 1 {
      assert BytesValue(bs) == bs[0];
    } else {
      var p := bs[..|bs| - 1];
      assert p[0] == bs[0];
      BytesValuePositive(p);
      BigEndianBytesValue(p);
      var n := BytesValue(bs);
      assert n / 0x100 == BytesValue(p) && n % 0x100 == bs[|bs| - 1];
      assert bs == p + [bs[|bs| - 1]];
    }
  }

  /** Pairs of bytes as 16-bit words, high byte first. */
  function Pack(bs: seq<Byte>): (ws: seq<Word>)
    requires |bs| % 2 == 0
    ensures 2 * |ws| == |bs|
    decreases |bs|
  {
    if |bs| == 0 then []
    else Pack(bs[..|bs| - 2]) + [bs[|bs| - 2] as int * 0x100 + bs[|bs| - 1]]
  }

  /** Packing bytes into words does not change the number they spell. */
  lemma {:induction false} PackedValue(bs: seq<Byte>)
    requires |bs| % 2 == 0
    ensures WordsValue(Pack(bs)) == BytesValue(bs)
    decreases |bs|
  {
    if |bs| > 0 {
      var n := |bs|;
      var p := bs[..n - 2];
      var w: Word := bs[n - 2] as int * 0x100 + bs[n - 1];
      PackedValue(p);
      assert Pack(bs) == Pack(p) + [w];
      WordsValueSnoc(Pack(p), w);
      assert bs[..n - 1][..n - 2] == p;
      assert BytesValue(bs[..n - 1]) == BytesValue(p) * 0x100 + bs[n - 2];
      assert BytesValue(bs) == BytesValue(bs[..n - 1]) * 0x100 + bs[n - 1];
      TwoBytes(BytesValue(p), bs[n - 2], bs[n - 1]);
    }
  }

  lemma TwoBytes(x: nat, a: Byte, b: Byte)
    ensures (x * 0x100 + a) * 0x100 + b == x * 0x1_0000 + (a * 0x100 + b)
  {
  }

  /** Bytes whose first byte is 0x10..0x7F and whose others are 7-bit come
      back from `ascii` as text, NULs removed. */
  lemma AsciiOfBytes(bs: seq<Byte>)
    requires 1 <= |bs| && 0x10 <= bs[0]
    requires SevenBit(bs)
    ensures Ascii(BytesValue(bs)) == Ok(Chars(NonZero(bs)))
  {
    BigEndianBytesValue(bs);
    AsciiOfNatural(BytesValue(bs));
  }

  /** The bytes of a string of characters below 0x100. */
  function Encode(s: string): (bs: seq<Byte>)
    requires forall i :: 0 <= i < |s| ==> s[i] as int < 0x100
    ensures |bs| == |s|
    ensures Chars(bs) == s
  {
    seq(|s|, i requires 0 <= i < |s| => s[i] as int)
  }

  /** `decode` and `encode` are inverse on 7-bit text: 7-bit text encodes
      and decodes back to itself, and decoded bytes encode back to the
      same bytes. */
  lemma DecodeEncode(s: string, bs: seq<Byte>)
    ensures (forall i :: 0 <= i < |s| ==> s[i] as int < 0x80) ==> Decode(Encode(s)) == Ok(s)
    ensures Decode(bs).Ok? ==> Encode(Decode(bs).value) == bs
  {
    if Decode(bs).Ok? {
      var e := Encode(Decode(bs).value);
      assert forall i :: 0 <= i < |bs| ==> e[i] == bs[i];
    }
  }

  function Zeros(k: nat): (bs: seq<Byte>)
    ensures |bs| == k
    ensures forall i :: 0 <= i < k ==> bs[i] == 0
  {
    seq(k, _ => 0)
  }

  lemma {:induction false} NonZeroPadded(bs: seq<Byte>, k: nat)
    requires forall i :: 0 <= i < |bs| ==> bs[i] != 0
    ensures NonZero(bs + Zeros(k)) == bs
    decreases |bs| + k
  {
    if |bs| > 0 {
      assert (bs + Zeros(k))[1..] == bs[1..] + Zeros(k);
      NonZeroPadded(bs[1..], k);
    } else if k > 0 {
      assert Zeros(k)[1..] == Zeros(k - 1);
      NonZeroPadded(bs, k - 1);
      assert bs + Zeros(k) == Zeros(k) && bs + Zeros(k - 1) == Zeros(k - 1);
      assert NonZero(Zeros(k)) == NonZero(Zeros(k - 1));
    }
  }

  /** A text of 7-bit, non-NUL characters starting at 0x10 or above, NUL-padded
      to whole words, packed two bytes per word and assembled, is returned by
      `ascii` unchanged. */
  lemma AsciiRoundTrip(s: string, pad: nat)
    requires 1 <= |s| && 0x10 <= s[0] as int
    requires forall i :: 0 <= i < |s| ==> 0x01 <= s[i] as int < 0x80
    requires (|s| + pad) % 2 == 0
    ensures Ascii(WordsValue(Pack(Encode(s) + Zeros(pad)))) == Ok(s)
  {
    var bs := Encode(s) + Zeros(pad);
    PackedValue(bs);
    assert SevenBit(bs);
    AsciiOfBytes(bs);
    NonZeroPadded(Encode(s), pad);
  }
}
