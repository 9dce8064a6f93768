/** Multi-word integer assembly (`read_register`, the `uint` and `sint` branches).

  The source builds a register's raw value from its 16-bit words with Python's
  unbounded `|` and `<<`: the first word is the most significant. This module
  gives those operators on non-negative integers, the loop exactly as written
  (`OrFold`), and an independent positional reference (`WordsValue`, the sum of
  `words[i] * 2^(16 * (length - i - 1))`), and proves the two agree.
 */
module Words {

  /** One 16-bit holding register as delivered by the transport. */
  type Word = w: int | 0 <= w < 0x1_0000

  /** 2^k. */
  function Pow2(k: nat): (r: nat)
    ensures r >= 1
  {
    if k == 0 then 1 else 2 * Pow2(k - 1)
  }

  lemma {:induction false} Pow2Add(a: nat, b: nat)
    ensures Pow2(a + b) == Pow2(a) * Pow2(b)
    decreases a
  {
    if a > 0 {
      Pow2Add(a - 1, b);
      assert Pow2(a + b) == 2 * Pow2(a - 1 + b);
    }
  }

  lemma Pow2Sixteen()
    ensures Pow2(16) == 0x1_0000
  {
    assert Pow2(2) == 4;
    Pow2Add(2, 2);
    Pow2Add(4, 4);
    Pow2Add(8, 8);
  }

  /** Python's `x << k` on a non-negative integer. */
  function Shl(x: nat, k: nat): nat
  {
    x * Pow2(k)
  }

  /** Python's `a | b` on non-negative integers, one bit at a time from the
      least significant end. */
  function Or(a: nat, b: nat): (r: nat)
    ensures a <= r && b <= r
    ensures r <= a + b
    decreases a + b
  {
    if a == 0 then b
    else if b == 0 then a
    else 2 * Or(a / 2, b / 2) + (if a % 2 == 1 || b % 2 == 1 then 1 else 0)
  }

  /** OR of a multiple of 2^k with a value below 2^k adds them: the bits do
      not meet. */
  lemma {:induction false} OrDisjoint(a: nat, b: nat, k: nat)
    requires b < Pow2(k)
    ensures Or(a * Pow2(k), b) == a * Pow2(k) + b
    decreases k
  {
    var x := a * Pow2(k);
    if k == 0 {
      assert b == 0;
    } else if x == 0 || b == 0 {
    } else {
      var h := a * Pow2(k - 1);
      assert x == 2 * h;
      assert x / 2 == h && x % 2 == 0;
      assert b / 2 < Pow2(k - 1);
      OrDisjoint(a, b / 2, k - 1);
      assert Or(x, b) == 2 * Or(h, b / 2) + b % 2;
    }
  }

  /** The positional reference: words[0] * 2^(16(n-1)) + ... + words[n-1]. */
  function WordsValue(ws: seq<Word>): nat
  {
    if |ws| == 0 then 0 else ws[0] * Pow2(16 * (|ws| - 1)) + WordsValue(ws[1..])
  }

  lemma {:induction false} WordsValueBound(ws: seq<Word>)
    ensures WordsValue(ws) < Pow2(16 * |ws|)
    decreases |ws|
  {
    if |ws| > 0 {
      var n := |ws|;
      var p := Pow2(16 * (n - 1));
      WordsValueBound(ws[1..]);
      Pow2Sixteen();
      assert 16 * n == 16 * (n - 1) + 16;
      Pow2Add(16 * (n - 1), 16);
      MulLeq(ws[0] as int + 1, 0x1_0000, p);
      assert WordsValue(ws) < ws[0] * p + p == (ws[0] as int + 1) * p;
    }
  }

  lemma MulLeq(a: nat, b: nat, p: nat)
    requires a <= b
    ensures a * p <= b * p
  {
  }

  /** Appending one word shifts everything before it up by 16 bits. */
  lemma {:induction false} WordsValueSnoc(ws: seq<Word>, w: Word)
    ensures WordsValue(ws + [w]) == WordsValue(ws) * 0x1_0000 + w
    decreases |ws|
  {
    if |ws| == 0 {
      assert WordsValue([w]) == w * Pow2(0) + WordsValue([]);
    } else {
      var n := |ws|;
      assert (ws + [w])[1..] == ws[1..] + [w];
      WordsValueSnoc(ws[1..], w);
      Pow2Sixteen();
      Pow2Add(16 * (n - 1), 16);
      assert Pow2(16 * n) == Pow2(16 * (n - 1)) * 0x1_0000;
      calc {
        WordsValue(ws + [w]);
        ws[0] * Pow2(16 * n) + WordsValue(ws[1..] + [w]);
        ws[0] * (Pow2(16 * (n - 1)) * 0x1_0000) + WordsValue(ws[1..]) * 0x1_0000 + w;
        (ws[0] * Pow2(16 * (n - 1)) + WordsValue(ws[1..])) * 0x1_0000 + w;
      }
    }
  }

  /** A non-empty word sequence is worth at least its first word. */
  lemma WordsValueAtLeastFirst(ws: seq<Word>)
    ensures |ws| >= 1 ==> WordsValue(ws) >= ws[0]
  {
    if |ws| >= 1 {
      var p := Pow2(16 * (|ws| - 1));
      assert ws[0] * p >= ws[0] * 1;
    }
  }

  /** The accumulator of the assembly loop after `i` of its `length`
      iterations; iteration `i` ORs in word `i - 1` shifted left by
      16 * (length - i) bits. */
  function OrFold(raw: seq<Word>, length: nat, i: nat): nat
    requires i <= length <= |raw|
  {
    if i == 0 then 0 else Or(OrFold(raw, length, i - 1), Shl(raw[i - 1], (length - i) * 16))
  }

  /** One loop step: OR-ing the next word in below an accumulator that is
      already shifted past it. */
  lemma OrStep(acc: nat, w: Word, j: nat)
    ensures Or(acc * Pow2(16 * j + 16), Shl(w, 16 * j)) == (acc * 0x1_0000 + w) * Pow2(16 * j)
  {
    var p := Pow2(16 * j);
    var q := Pow2(16 * j + 16);
    Pow2Sixteen();
    Pow2Add(16 * j, 16);
    assert q == p * 0x1_0000;
    WordBelowShift(w, p);
    OrDisjoint(acc, w * p, 16 * j + 16);
    ShiftedSum(acc, w, p);
  }

  lemma WordBelowShift(w: Word, p: nat)
    requires p >= 1
    ensures w * p < p * 0x1_0000
  {
    MulLeq(w as int + 1, 0x1_0000, p);
    assert (w as int + 1) * p == w * p + p;
  }

  lemma ShiftedSum(acc: nat, w: nat, p: nat)
    ensures acc * (p * 0x1_0000) + w * p == (acc * 0x1_0000 + w) * p
  {
    calc {
      acc * (p * 0x1_0000) + w * p;
      (acc * 0x1_0000) * p + w * p;
      (acc * 0x1_0000 + w) * p;
    }
  }

  /** After `i` iterations the loop holds the first `i` words, shifted into
      their final position. */
  lemma {:induction false} OrFoldPrefix(raw: seq<Word>, length: nat, i: nat)
    requires i <= length <= |raw|
    ensures OrFold(raw, length, i) == WordsValue(raw[..i]) * Pow2(16 * (length - i))
    decreases i
  {
    if i > 0 {
      var j := length - i;
      OrFoldPrefix(raw, length, i - 1);
      assert 16 * (length - (i - 1)) == 16 * j + 16;
      OrStep(WordsValue(raw[..i - 1]), raw[i - 1], j);
      assert raw[..i] == raw[..i - 1] + [raw[i - 1]];
      WordsValueSnoc(raw[..i - 1], raw[i - 1]);
    }
  }

  /** The unsigned assembly (source lines 150-153): the OR-loop run to the end
      equals the positional sum, so the OR accumulates like addition, and the
      result fits in `length` words. */
  function Assemble(raw: seq<Word>, length: nat): (value: nat)
    requires length <= |raw|
    ensures value == WordsValue(raw[..length])
    ensures value < Pow2(16 * length)
  {
    OrFoldPrefix(raw, length, length);
    WordsValueBound(raw[..length]);
    OrFold(raw, length, length)
  }

  /** The signed assembly (source lines 134-147): the sign test looks at the
      first word only and is a strict `> 32768`; a "negative" value is the
      unsigned assembly minus 32768. This is not two's complement, and the
      result is never negative when at least one word is assembled. */
  function AssembleSigned(raw: seq<Word>, length: nat): (value: int)
    requires 1 <= |raw| && length <= |raw|
    ensures raw[0] > 0x8000 ==> value == WordsValue(raw[..length]) - 0x8000
    ensures raw[0] <= 0x8000 ==> value == WordsValue(raw[..length])
    ensures length >= 1 ==> value >= 0
  {
    var negative := raw[0] > 0x8000;
    var value := Assemble(raw, length);
    WordsValueAtLeastFirst(raw[..length]);
    if negative then value - 0x8000 else value
  }

  /** Two words [0x0001, 0x0002] assemble to 0x00010002. */
  lemma TwoWordOrder()
    ensures Assemble([1, 2], 2) == 65538
  {
    var ws: seq<Word> := [1, 2];
    Pow2Sixteen();
    assert ws[..2] == ws;
    assert ws[1..] == [2];
    assert WordsValue(ws[1..]) == 2;
  }

  /** One signed word 40000 (> 32768) yields 7232; exactly 32768 is not
      treated as negative; 0xFFFF, which is -1 in 16-bit two's complement,
      yields 32767. */
  lemma SignedExamples()
    ensures AssembleSigned([40000], 1) == 7232
    ensures AssembleSigned([0x8000], 1) == 0x8000
    ensures AssembleSigned([0xFFFF], 1) == 0x7FFF
  {
    var a: seq<Word>, b: seq<Word>, c: seq<Word> := [40000], [0x8000], [0xFFFF];
    assert a[..1] == a && b[..1] == b && c[..1] == c;
    assert WordsValue(a) == 40000 && WordsValue(b) == 0x8000 && WordsValue(c) == 0xFFFF;
  }
}
