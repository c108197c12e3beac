/** count_bit: counting one bits eight bytes at a time, with sums in ever wider fields of one 64-bit word. */
module BitCount {
  import opened Common

  /** The number of one bits. */
  function Pop(v: nat): nat {
    if v == 0 then 0 else v % 2 + Pop(v / 2)
  }

  function Ones(b: seq<Octet>): nat {
    if b == [] then 0 else Pop(b[0]) + Ones(b[1..])
  }

  /** Bitwise and. */
  function And(a: nat, b: nat): nat {
    if a == 0 || b == 0 then 0 else (if a % 2 == 1 && b % 2 == 1 then 1 else 0) + 2 * And(a / 2, b / 2)
  }

  /** The masks of 2, 4 and 8-bit fields: 0x55.., 0x33.. and 0x0F.. with `n` fields. */
  function Mask2(n: nat): nat {
    if n == 0 then 0 else 1 + 4 * Mask2(n - 1)
  }

  function Mask4(n: nat): nat {
    if n == 0 then 0 else 3 + 16 * Mask4(n - 1)
  }

  function Mask8(n: nat): nat {
    if n == 0 then 0 else 15 + 256 * Mask8(n - 1)
  }

  /** `x` has `n` digits to the base 4, 16 or 256, none above `max`. */
  predicate Within4(x: nat, n: nat, max: nat) {
    if n == 0 then x == 0 else x % 4 <= max && Within4(x / 4, n - 1, max)
  }

  predicate Within16(x: nat, n: nat, max: nat) {
    if n == 0 then x == 0 else x % 16 <= max && Within16(x / 16, n - 1, max)
  }

  predicate Within256(x: nat, n: nat, max: nat) {
    if n == 0 then x == 0 else x % 256 <= max && Within256(x / 256, n - 1, max)
  }

  function Sum4(x: nat, n: nat): nat {
    if n == 0 then 0 else x % 4 + Sum4(x / 4, n - 1)
  }

  function Sum16(x: nat, n: nat): nat {
    if n == 0 then 0 else x % 16 + Sum16(x / 16, n - 1)
  }

  function Sum256(x: nat, n: nat): nat {
    if n == 0 then 0 else x % 256 + Sum256(x / 256, n - 1)
  }

  // ---- bitwise and, field by field ----

  lemma AndBit(a: nat, b: nat)
    ensures And(a, b) == (if a % 2 == 1 && b % 2 == 1 then 1 else 0) + 2 * And(a / 2, b / 2)
  {
  }

  lemma And2(a: nat, m: nat)
    ensures And(a, 1 + 4 * m) == a % 2 + 4 * And(a / 4, m)
  {
    hide And;
    AndBit(a, 1 + 4 * m);
    AndBit(a / 2, 2 * m);
    assert a / 2 / 2 == a / 4;
  }

  lemma And3(a: nat, m: nat)
    ensures And(a, 3 + 4 * m) == a % 4 + 4 * And(a / 4, m)
  {
    hide And;
    AndBit(a, 3 + 4 * m);
    AndBit(a / 2, 1 + 2 * m);
    assert a / 2 / 2 == a / 4;
  }

  lemma And0(a: nat, m: nat)
    ensures And(a, 4 * m) == 4 * And(a / 4, m)
  {
    hide And;
    assert 4 * m / 2 == 2 * m && 4 * m % 2 == 0 && 2 * m / 2 == m && 2 * m % 2 == 0;
    AndBit(a, 4 * m);
    AndBit(a / 2, 2 * m);
    assert a / 2 / 2 == a / 4;
  }

  lemma And4(a: nat, m: nat)
    ensures And(a, 3 + 16 * m) == a % 4 + 16 * And(a / 16, m)
  {
    hide And;
    And3(a, 4 * m);
    And0(a / 4, m);
    assert a / 4 / 4 == a / 16;
  }

  lemma And8(a: nat, m: nat)
    ensures And(a, 15 + 256 * m) == a % 16 + 256 * And(a / 256, m)
  {
    hide And;
    And3(a, 3 + 64 * m);
    And3(a / 4, 16 * m);
    And0(a / 4 / 4, 4 * m);
    And0(a / 4 / 4 / 4, m);
    assert a / 4 / 4 == a / 16 && a / 4 / 4 / 4 / 4 == a / 256;
  }

  // ---- the stages ----

  /** v - ((v >> 1) & 0x55..) */
  function Stage1(v: nat, n: nat): int {
    v - And(v / 2, Mask2(n))
  }

  /** (v & 0x33..) + ((v >> 2) & 0x33..) */
  function Stage2(v: nat, n: nat): nat {
    And(v, Mask4(n)) + And(v / 4, Mask4(n))
  }

  /** (v + (v >> 4)) & 0x0F.. */
  function Stage3(v: nat, n: nat): nat {
    And(v + v / 16, Mask8(n))
  }

  function Pow4(n: nat): nat {
    if n == 0 then 1 else 4 * Pow4(n - 1)
  }

  /** Each 2-bit field holds the number of its ones. */
  lemma {:induction false} Stage1Sums(v: nat, n: nat)
    requires v < Pow4(n)
    ensures Stage1(v, n) >= 0 && Within4(Stage1(v, n), n, 2) && Sum4(Stage1(v, n), n) == Pop(v)
  {
    hide And, Stage1, Pop;
    Stage1Step(v, n);
    if n > 0 {
      Stage1Sums(v / 4, n - 1);
      Step4(Stage1(v, n), v % 4 - v % 4 / 2, Stage1(v / 4, n - 1));
      PopDigit(v);
    } else {
      PopZero();
    }
  }

  lemma PopZero()
    ensures Pop(0) == 0
  {
  }

  lemma Stage1Step(v: nat, n: nat)
    ensures Stage1(v, n) == if n == 0 then v else v % 4 - v % 4 / 2 + 4 * Stage1(v / 4, n - 1)
  {
    hide And;
    if n > 0 {
      And2(v / 2, Mask2(n - 1));
      Halves(v);
    } else {
      AndNone(v / 2);
    }
  }

  lemma Halves(v: nat)
    ensures v / 2 % 2 == v % 4 / 2 && v / 2 / 4 == v / 4 / 2
  {
  }

  lemma AndNone(a: nat)
    ensures And(a, 0) == 0
  {
  }

  lemma Step4(x: nat, d: nat, y: nat)
    requires x == d + 4 * y && d < 4
    ensures x % 4 == d && x / 4 == y
  {
  }

  lemma PopDigit(v: nat)
    ensures Pop(v) == v % 4 - v % 4 / 2 + Pop(v / 4)
  {
    PopBit(v);
    PopBit(v / 2);
    assert v / 2 / 2 == v / 4;
  }

  lemma PopBit(v: nat)
    ensures Pop(v) == v % 2 + Pop(v / 2)
  {
  }

  /** Each 4-bit field holds the sum of its two halves. */
  lemma {:induction false} Stage2Sums(v: nat, n: nat)
    requires Within4(v, 2 * n, 2)
    ensures Within16(Stage2(v, n), n, 4) && Sum16(Stage2(v, n), n) == Sum4(v, 2 * n)
  {
    hide And, Within4, Sum4, Stage2;
    Stage2Step(v, n);
    if n > 0 {
      TwoDigits4(v, 2 * n);
      Stage2Sums(v / 16, n - 1);
      Step16(Stage2(v, n), v % 4 + v / 4 % 4, Stage2(v / 16, n - 1));
    } else {
      NoDigits4(v);
    }
  }

  lemma Stage2Step(v: nat, n: nat)
    ensures Stage2(v, n) == if n == 0 then 0 else v % 4 + v / 4 % 4 + 16 * Stage2(v / 16, n - 1)
  {
    hide And;
    if n > 0 {
      And4(v, Mask4(n - 1));
      And4(v / 4, Mask4(n - 1));
      assert v / 4 / 16 == v / 16 / 4;
    } else {
      AndNone(v);
      AndNone(v / 4);
    }
  }

  lemma OneDigit4(v: nat, n: nat)
    requires n >= 1 && Within4(v, n, 2)
    ensures v % 4 <= 2 && Within4(v / 4, n - 1, 2) && Sum4(v, n) == v % 4 + Sum4(v / 4, n - 1)
  {
  }

  lemma TwoDigits4(v: nat, n: nat)
    requires n >= 2 && Within4(v, n, 2)
    ensures v % 4 <= 2 && v / 4 % 4 <= 2 && Within4(v / 16, n - 2, 2)
    ensures Sum4(v, n) == v % 4 + v / 4 % 4 + Sum4(v / 16, n - 2)
  {
    hide Within4, Sum4;
    assert v / 4 / 4 == v / 16;
    OneDigit4(v, n);
    OneDigit4(v / 4, n - 1);
  }

  lemma NoDigits4(v: nat)
    ensures Sum4(v, 0) == 0 && (Within4(v, 0, 2) ==> v == 0)
  {
  }

  lemma Step16(x: nat, d: nat, y: nat)
    requires x == d + 16 * y && d < 16
    ensures x % 16 == d && x / 16 == y
  {
  }

  /** Each byte holds the sum of its two halves. */
  lemma {:induction false} Stage3Sums(v: nat, n: nat)
    requires Within16(v, 2 * n, 4)
    ensures Within256(Stage3(v, n), n, 8) && Sum256(Stage3(v, n), n) == Sum16(v, 2 * n)
  {
    hide And, Within16, Sum16, Stage3;
    if n > 0 {
      TwoDigits16(v, 2 * n);
      Stage3Step(v, n);
      Stage3Sums(v / 256, n - 1);
      Step256(Stage3(v, n), v % 16 + v / 16 % 16, Stage3(v / 256, n - 1));
    } else {
      NoDigits16(v);
      Stage3None(v);
    }
  }

  lemma Stage3None(v: nat)
    ensures Stage3(v, 0) == 0
  {
  }

  lemma Stage3Step(v: nat, n: nat)
    requires n > 0 && v % 16 <= 4 && v / 16 % 16 <= 4 && v / 256 % 16 <= 4
    ensures Stage3(v, n) == v % 16 + v / 16 % 16 + 256 * Stage3(v / 256, n - 1)
  {
    hide And;
    And8(v + v / 16, Mask8(n - 1));
    Nibbles(v);
    NibbleSum(v, v / 256, v % 16, v / 16 % 16);
  }

  lemma Nibbles(v: nat)
    ensures v == v % 16 + 16 * (v / 16 % 16) + 256 * (v / 256)
  {
    assert v / 16 / 16 == v / 256;
  }

  lemma OneDigit16(v: nat, n: nat)
    requires n >= 1 && Within16(v, n, 4)
    ensures v % 16 <= 4 && Within16(v / 16, n - 1, 4) && Sum16(v, n) == v % 16 + Sum16(v / 16, n - 1)
  {
  }

  lemma TwoDigits16(v: nat, n: nat)
    requires n >= 2 && Within16(v, n, 4)
    ensures v % 16 <= 4 && v / 16 % 16 <= 4 && v / 256 % 16 <= 4 && Within16(v / 256, n - 2, 4)
    ensures Sum16(v, n) == v % 16 + v / 16 % 16 + Sum16(v / 256, n - 2)
  {
    hide Within16, Sum16;
    var q := v / 16 / 16;
    assert q == v / 256;
    OneDigit16(v, n);
    OneDigit16(v / 16, n - 1);
    if n > 2 {
      OneDigit16(q, n - 2);
    } else {
      NoDigits16(q);
    }
  }

  lemma NoDigits16(v: nat)
    ensures Sum16(v, 0) == 0 && (Within16(v, 0, 4) ==> v == 0)
  {
  }

  /** No carry leaves the byte. */
  lemma NibbleSum(v: nat, q: nat, d0: nat, d1: nat)
    requires v == d0 + 16 * d1 + 256 * q && d0 <= 4 && d1 <= 4 && q % 16 <= 4
    ensures (v + v / 16) % 16 == d0 + d1 && (v + v / 16) / 256 == q + q / 16
  {
    assert v / 16 == d1 + 16 * q;
    assert v + v / 16 == (d0 + d1) + 16 * (d1 + q % 16) + 256 * (q + q / 16);
  }

  lemma Step256(x: nat, d: nat, y: nat)
    requires x == d + 256 * y && d < 256
    ensures x % 256 == d && x / 256 == y
  {
  }

  /** The multiplication adds up the eight bytes in the highest one. */
  lemma MultiplySums(w: nat)
    requires Within256(w, 8, 8)
    ensures w * 0x0101_0101_0101_0101 % TWO64 / 0x100_0000_0000_0000 == Sum256(w, 8)
  {
    hide Within256, Sum256;
    var b0, w1 := Digit256(w, 8);
    var b1, w2 := Digit256(w1, 7);
    var b2, w3 := Digit256(w2, 6);
    var b3, w4 := Digit256(w3, 5);
    var b4, w5 := Digit256(w4, 4);
    var b5, w6 := Digit256(w5, 3);
    var b6, w7 := Digit256(w6, 2);
    var b7, w8 := Digit256(w7, 1);
    Columns(w, w1, w2, w3, w4, w5, w6, w7, b0, b1, b2, b3, b4, b5, b6);
  }

  lemma Digit256(x: nat, n: nat) returns (d: nat, y: nat)
    requires n > 0 && Within256(x, n, 8)
    ensures x == d + 256 * y && d <= 8 && Within256(y, n - 1, 8) && Sum256(x, n) == d + Sum256(y, n - 1)
    ensures n == 1 ==> y == 0 && Sum256(y, 0) == 0
  {
    d, y := x % 256, x / 256;
  }

  lemma Columns(w: nat, w1: nat, w2: nat, w3: nat, w4: nat, w5: nat, w6: nat, b7: nat,
      b0: nat, b1: nat, b2: nat, b3: nat, b4: nat, b5: nat, b6: nat)
    requires w == b0 + 256 * w1 && w1 == b1 + 256 * w2 && w2 == b2 + 256 * w3 && w3 == b3 + 256 * w4
    requires w4 == b4 + 256 * w5 && w5 == b5 + 256 * w6 && w6 == b6 + 256 * b7
    requires b0 <= 8 && b1 <= 8 && b2 <= 8 && b3 <= 8 && b4 <= 8 && b5 <= 8 && b6 <= 8 && b7 <= 8
    ensures w * 0x0101_0101_0101_0101 % TWO64 / 0x100_0000_0000_0000 == b0 + b1 + b2 + b3 + b4 + b5 + b6 + b7
  {
    var c1 := b0 + b1;
    var c2 := c1 + b2;
    var c3 := c2 + b3;
    var c4 := c3 + b4;
    var c5 := c4 + b5;
    var c6 := c5 + b6;
    var c7 := c6 + b7;
    var low := b0 + 0x100 * c1 + 0x1_0000 * c2 + 0x100_0000 * c3 + 0x1_0000_0000 * c4
      + 0x100_0000_0000 * c5 + 0x1_0000_0000_0000 * c6;
    var high := (c7 - b0) + 0x100 * (c7 - c1) + 0x1_0000 * (c7 - c2) + 0x100_0000 * (c7 - c3)
      + 0x1_0000_0000 * (c7 - c4) + 0x100_0000_0000 * (c7 - c5) + 0x1_0000_0000_0000 * (c7 - c6);
    TopByte(w * 0x0101_0101_0101_0101, low, c7, high);
  }

  lemma TopByte(x: int, low: nat, c: nat, high: int)
    requires x == low + 0x100_0000_0000_0000 * c + TWO64 * high && low < 0x100_0000_0000_0000 && c < 256
    ensures x % TWO64 / 0x100_0000_0000_0000 == c
  {
    assert x % TWO64 == low + 0x100_0000_0000_0000 * c;
  }

  // ---- a word of eight bytes ----

  /** The bytes in little-endian order. */
  function Word(b: seq<Octet>): nat {
    if b == [] then 0 else b[0] + 256 * Word(b[1..])
  }

  lemma {:induction false} WordOnes(b: seq<Octet>)
    ensures Pop(Word(b)) == Ones(b)
  {
    hide Pop, Pow2, Shifted;
    if b == [] {
      PopZero();
    } else {
      WordOnes(b[1..]);
      Shifted8(Word(b[1..]));
      PopShifted(b[0], Word(b[1..]), 8);
    }
  }

  function Shifted(q: nat, k: nat): nat {
    if k == 0 then q else 2 * Shifted(q, k - 1)
  }

  lemma Doubled(q: nat, k: nat)
    ensures Shifted(q, 0) == q && Shifted(q, k + 1) == 2 * Shifted(q, k)
    ensures Pow2(0) == 1 && Pow2(k + 1) == 2 * Pow2(k)
  {
  }

  lemma Shifted8(q: nat)
    ensures Shifted(q, 8) == 256 * q && Pow2(8) == 256
  {
    hide Shifted, Pow2;
    Doubled(q, 0);
    Doubled(q, 1);
    Doubled(q, 2);
    Doubled(q, 3);
    Doubled(q, 4);
    Doubled(q, 5);
    Doubled(q, 6);
    Doubled(q, 7);
  }

  lemma {:induction false} PopShifted(d: nat, q: nat, k: nat)
    requires d < Pow2(k)
    ensures Pop(d + Shifted(q, k)) == Pop(d) + Pop(q)
  {
    hide Pop;
    if k > 0 {
      PopShifted(d / 2, q, k - 1);
      PopBit(d + Shifted(q, k));
      PopBit(d);
    } else {
      PopZero();
    }
  }

  lemma {:induction false} WordBound(b: seq<Octet>)
    ensures Word(b) < Pow4(4 * |b|)
  {
    if b != [] {
      WordBound(b[1..]);
      var n := 4 * |b|;
      assert Pow4(n) == 4 * Pow4(n - 1) && Pow4(n - 1) == 4 * Pow4(n - 2) && Pow4(n - 2) == 4 * Pow4(n - 3)
        && Pow4(n - 3) == 4 * Pow4(n - 4);
    }
  }

  /** The four lines of the loop body, on a word of eight bytes. */
  lemma WordCount(b: seq<Octet>)
    requires |b| == 8
    ensures Mask2(32) == 0x5555_5555_5555_5555 && Mask4(16) == 0x3333_3333_3333_3333
    ensures Mask8(8) == 0x0F0F_0F0F_0F0F_0F0F
    ensures Word(b) < TWO64 && 0 <= Stage1(Word(b), 32) < TWO64
    ensures var y := Stage2(Stage1(Word(b), 32), 16); y + y / 16 < TWO64
    ensures var w := Stage3(Stage2(Stage1(Word(b), 32), 16), 8);
      w * 0x0101_0101_0101_0101 % TWO64 / 0x100_0000_0000_0000 == Ones(b)
  {
    hide Word, Ones, Pop, Stage1, Stage2, Stage3, Pow4, Within4, Within16, Within256;
    hide Sum4, Sum16, Sum256, Mask2, Mask4, Mask8;
    Constants();
    WordBound(b);
    WordOnes(b);
    Stage1Sums(Word(b), 32);
    Stage1Small(Word(b), 32);
    var x := Stage1(Word(b), 32);
    Stage2Sums(x, 16);
    Stage3Sums(Stage2(x, 16), 8);
    Bound16(Stage2(x, 16), 16);
    MultiplySums(Stage3(Stage2(x, 16), 8));
  }

  function Pow16(n: nat): nat {
    if n == 0 then 1 else 16 * Pow16(n - 1)
  }

  lemma {:induction false} Bound16(x: nat, n: nat)
    requires Within16(x, n, 4)
    ensures 15 * x <= 4 * (Pow16(n) - 1)
  {
    if n > 0 { Bound16(x / 16, n - 1); }
  }

  lemma Stage1Small(v: nat, n: nat)
    ensures Stage1(v, n) <= v
  {
  }

  lemma Constants()
    ensures Mask2(32) == 0x5555_5555_5555_5555 && Mask4(16) == 0x3333_3333_3333_3333
    ensures Mask8(8) == 0x0F0F_0F0F_0F0F_0F0F
    ensures Pow4(32) == TWO64 && Pow16(16) == TWO64
  {
    assert Pow16(4) == 0x1_0000 && Pow16(8) == 0x1_0000_0000 && Pow16(12) == 0x1_0000_0000_0000;
    assert Mask2(8) == 0x5555 && Mask2(16) == 0x5555_5555 && Mask2(24) == 0x5555_5555_5555;
    assert Mask4(4) == 0x3333 && Mask4(8) == 0x3333_3333 && Mask4(12) == 0x3333_3333_3333;
    assert Pow4(8) == 0x1_0000 && Pow4(16) == 0x1_0000_0000 && Pow4(24) == 0x1_0000_0000_0000;
  }

  // ---- the loop ----

  /** Conversion to uint64_t. */
  function U64(x: int): (r: nat)
    ensures r < TWO64
  {
    x % TWO64
  }

  lemma SmallU64(x: int)
    requires 0 <= x < TWO64
    ensures U64(x) == x
  {
  }

  /** How many words the loop takes: at least one, and the last one in full. */
  function Words(length: nat): nat {
    if length == 0 then 1 else (length + 7) / 8
  }

  lemma {:induction false} OnesJoin(a: seq<Octet>, b: seq<Octet>)
    ensures Ones(a + b) == Ones(a) + Ones(b)
  {
    if a == [] {
      assert a + b == b;
    } else {
      OnesJoin(a[1..], b);
      assert (a + b)[1..] == a[1..] + b;
    }
  }

  lemma NoOnes(b: seq<Octet>)
    requires b == []
    ensures Ones(b) == 0
  {
  }

  lemma {:induction false} PopSmall(v: nat, k: nat)
    requires v < Pow2(k)
    ensures Pop(v) <= k
  {
    if k > 0 { PopSmall(v / 2, k - 1); }
  }

  lemma {:induction false} OnesSmall(b: seq<Octet>)
    ensures Ones(b) <= 8 * |b|
  {
    if b != [] {
      Shifted8(0);
      PopSmall(b[0], 8);
      OnesSmall(b[1..]);
    }
  }

  /** The memory read of a uint64_t. */
  method ReadWord(msg: array<Octet>, ptr: nat) returns (v: nat)
    requires ptr + 8 <= msg.Length
    ensures v == Word(msg[ptr..ptr + 8])
  {
    v := 0;
    var i := 8;
    assert msg[ptr + 8..ptr + 8] == [];
    while i > 0
      invariant 0 <= i <= 8 && v == Word(msg[ptr + i..ptr + 8])
    {
      i := i - 1;
      assert msg[ptr + i..ptr + 8][1..] == msg[ptr + i + 1..ptr + 8];
      v := msg[ptr + i] + 256 * v;
    }
  }

  /** count_bit */
  method CountBit(msg: array<Octet>, length: nat) returns (r: nat)
    requires length < TWO32 && 8 * Words(length) <= msg.Length
    ensures r == Ones(msg[..8 * Words(length)]) % TWO32
    ensures length > 0 && length % 8 == 0 ==> r == Ones(msg[..length]) % TWO32
  {
    hide Ones, Word, CountWord, U64, Words;
    WordsBound(length);
    var ptr, setBits, more := 0, 0, true;
    NoOnes(msg[..0]);
    while more
      invariant ptr % 8 == 0 && ptr <= 8 * Words(length) && (more <==> ptr == 0 || length > ptr)
      invariant setBits == Ones(msg[..ptr]) <= 8 * ptr
      decreases 8 * Words(length) - ptr, more
    {
      var v := ReadWord(msg, ptr);
      NextWord(msg[..], ptr);
      SmallU64(setBits + Ones(msg[ptr..ptr + 8]));
      ptr := ptr + 8;
      setBits := U64(setBits + CountWord(v));
      more := length > ptr;
    }
    r := setBits % TWO32;
  }

  lemma WordsBound(length: nat)
    ensures 8 * Words(length) >= 8 && length <= 8 * Words(length) < length + 8 + (if length == 0 then 1 else 0)
    ensures length > 0 && length % 8 == 0 ==> 8 * Words(length) == length
  {
  }

  lemma NextWord(m: seq<Octet>, ptr: nat)
    requires ptr + 8 <= |m|
    ensures CountWord(Word(m[ptr..ptr + 8])) == Ones(m[ptr..ptr + 8]) <= 64
    ensures Ones(m[..ptr + 8]) == Ones(m[..ptr]) + Ones(m[ptr..ptr + 8])
  {
    hide Ones, CountWord, Word;
    var b := m[ptr..ptr + 8];
    CountsWord(b);
    OnesJoin(m[..ptr], b);
    OnesSmall(b);
    assert m[..ptr + 8] == m[..ptr] + b;
  }

  /** The four lines of the loop body. */
  function CountWord(v: nat): nat {
    var a := U64(v - And(v / 2, 0x5555_5555_5555_5555));
    var b := U64(And(a, 0x3333_3333_3333_3333) + And(a / 4, 0x3333_3333_3333_3333));
    var c := And(U64(b + b / 16), 0x0F0F_0F0F_0F0F_0F0F);
    c * 0x0101_0101_0101_0101 % TWO64 / 0x100_0000_0000_0000
  }

  lemma CountsWord(b: seq<Octet>)
    requires |b| == 8
    ensures CountWord(Word(b)) == Ones(b)
  {
    hide And, U64, Ones, Word, Mask2, Mask4, Mask8;
    WordCount(b);
    var x := Stage1(Word(b), 32);
    var y := Stage2(x, 16);
    SmallU64(x);
    SmallU64(y);
    SmallU64(y + y / 16);
  }
}
