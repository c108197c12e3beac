/** The Internet checksum of icmp.c (sections 1 and 2 of RFC 1071), on a little-endian host. */
module Checksum {
  import opened Common
  const MAX16 := 0xFFFF

  /** The sum of the 16-bit words; an odd last byte counts as it is. */
  function WordSum(b: seq<Octet>): nat {
    if |b| == 0 then 0
    else if |b| == 1 then b[0]
    else b[0] + 256 * (b[1] as int) + WordSum(b[2..])
  }

  /** A carry that goes round weighs as much as before. */
  lemma CarryResidue(high: nat, low: nat)
    ensures (low + high) % MAX16 == (0x1_0000 * high + low) % MAX16
  {
    assert 0x1_0000 * high + low == MAX16 * high + (low + high);
  }

  /** The carries go round until there are none left. */
  function Fold(sum: nat): (r: nat)
    ensures r <= MAX16 && (r == 0 <==> sum == 0) && r % MAX16 == sum % MAX16
  {
    if sum / 0x1_0000 == 0 then sum
    else
      CarryResidue(sum / 0x1_0000, sum % 0x1_0000);
      Fold(sum % 0x1_0000 + sum / 0x1_0000)
  }

  function Checksum(b: seq<Octet>): nat {
    MAX16 - Fold(WordSum(b))
  }

  /** The same without a loop: one's complement of the sum modulo 65535, with 0 for an empty sum only. */
  lemma {:induction false} FoldIs(sum: nat)
    ensures Fold(sum) == if sum == 0 then 0 else (sum - 1) % MAX16 + 1
  {
    hide Fold;
    if sum > 0 { Residue(Fold(sum), sum); }
  }

  lemma Residue(r: nat, sum: nat)
    requires 0 < r <= MAX16 && r % MAX16 == sum % MAX16 && sum > 0
    ensures r == (sum - 1) % MAX16 + 1
  {
    if r < MAX16 { assert (sum - 1) % MAX16 == r - 1; }
  }

  lemma {:induction false} WordSumFrom(b: seq<Octet>, k: nat)
    requires k <= |b| && k % 2 == 0
    ensures WordSum(b) == WordSum(b[..k]) + WordSum(b[k..])
    decreases |b|
  {
    if k == 0 {
      assert b[..0] == [] && b[0..] == b;
    } else {
      WordSumFrom(b[2..], k - 2);
      assert b[..k][2..] == b[2..][..k - 2] && b[2..][k - 2..] == b[k..];
    }
  }

  /** ng_checksum */
  method NgChecksum(addr: array<Octet>, from: nat, count: int) returns (r: nat)
    requires from + count <= addr.Length && from <= addr.Length
    ensures r == if count <= 0 then MAX16 else Checksum(addr[from..from + count])
  {
    ghost var b := if count <= 0 then [] else addr[from..from + count];
    var sum: nat, left, i := 0, count, from;
    while left > 1
      invariant from <= i <= addr.Length && (count > 0 ==> left >= 0 && i + left == from + count)
      invariant count <= 0 ==> left == count && sum == 0
      invariant count > 0 ==> sum + WordSum(addr[i..i + left]) == WordSum(b)
      decreases left
    {
      assert addr[i..i + left][2..] == addr[i + 2..i + left];
      sum := sum + addr[i] + 256 * (addr[i + 1] as int);
      i := i + 2;
      left := left - 2;
    }
    if left > 0 {
      sum := sum + addr[i];
    }
    assert sum == WordSum(b);
    while sum / 0x1_0000 != 0
      invariant Fold(sum) == Fold(WordSum(b))
      decreases sum
    {
      sum := sum % 0x1_0000 + sum / 0x1_0000;
    }
    r := MAX16 - sum;
  }

  /** The bytes of a 16-bit field. */
  function Field(v: nat): seq<Octet>
    requires v <= MAX16
  {
    [v % 256, v / 256]
  }

  function WithField(b: seq<Octet>, k: nat, v: nat): (r: seq<Octet>)
    requires k + 2 <= |b| && v <= MAX16
    ensures |r| == |b|
  {
    b[..k] + Field(v) + b[k + 2..]
  }

  /** A field at an even position adds its value to the sum. */
  lemma FieldAdds(b: seq<Octet>, k: nat, v: nat)
    requires k + 2 <= |b| && k % 2 == 0 && v <= MAX16 && b[k] == 0 && b[k + 1] == 0
    ensures WordSum(WithField(b, k, v)) == WordSum(b) + v
  {
    hide WordSum;
    var c := WithField(b, k, v);
    WordSumFrom(b, k);
    WordSumFrom(c, k);
    assert c[..k] == b[..k] && c[k..] == Field(v) + b[k + 2..] && b[k..] == Field(0) + b[k + 2..];
    FieldFirst(v, b[k + 2..]);
    FieldFirst(0, b[k + 2..]);
  }

  lemma FieldFirst(v: nat, rest: seq<Octet>)
    requires v <= MAX16
    ensures WordSum(Field(v) + rest) == v + WordSum(rest)
  {
    assert (Field(v) + rest)[2..] == rest;
  }

  /** With its checksum written into a zeroed, aligned field, the buffer checks out as 0. */
  lemma RecheckIsZero(b: seq<Octet>, k: nat)
    requires k + 2 <= |b| && k % 2 == 0 && b[k] == 0 && b[k + 1] == 0
    ensures Checksum(WithField(b, k, Checksum(b))) == 0
  {
    RecheckIff(b, k, Checksum(b));
  }

  /** Exactly which other values check out: none, but that 0 and 65535 stand for each other if the rest
      is not all zero. */
  lemma RecheckIff(b: seq<Octet>, k: nat, v: nat)
    requires k + 2 <= |b| && k % 2 == 0 && v <= MAX16 && b[k] == 0 && b[k + 1] == 0
    ensures Checksum(WithField(b, k, v)) == 0
      <==> v == Checksum(b) || (WordSum(b) > 0 && Checksum(b) == 0 && v == MAX16)
  {
    hide WordSum, Fold, WithField;
    FieldAdds(b, k, v);
    FullFold(WordSum(b), v);
  }

  lemma FullFold(s: nat, v: nat)
    requires v <= MAX16
    ensures Fold(s + v) == MAX16 <==> v == MAX16 - Fold(s) || (s > 0 && Fold(s) == MAX16 && v == MAX16)
  {
    hide Fold;
    FoldIs(s);
    FoldIs(s + v);
  }

  /** What a field at an odd position adds to the sum: its bytes change places. */
  function Swap(v: nat): (r: nat)
    requires v <= MAX16
    ensures r <= MAX16 && (r == v <==> v % 256 == v / 256)
  {
    256 * (v % 256) + v / 256
  }

  lemma OddFieldAdds(b: seq<Octet>, k: nat, v: nat)
    requires k + 2 <= |b| && k % 2 == 1 && v <= MAX16 && b[k] == 0 && b[k + 1] == 0
    ensures WordSum(WithField(b, k, v)) == WordSum(b) + Swap(v)
  {
    hide WordSum, WithField;
    OddPart(b, k, v);
    OddPart(b, k, 0);
    NoField(b, k);
  }

  lemma NoField(b: seq<Octet>, k: nat)
    requires k + 2 <= |b| && b[k] == 0 && b[k + 1] == 0
    ensures WithField(b, k, 0) == b
  {
  }

  lemma OddPart(b: seq<Octet>, k: nat, v: nat)
    requires k + 2 <= |b| && k % 2 == 1 && v <= MAX16
    ensures WordSum(WithField(b, k, v)) == WordSum(b[..k - 1]) + b[k - 1] + Swap(v) + WordSum([0] + b[k + 2..])
  {
    hide WordSum;
    var c := WithField(b, k, v);
    WordSumFrom(c, k - 1);
    assert c[..k - 1] == b[..k - 1];
    assert c[k - 1..] == [b[k - 1], v % 256] + ([v / 256] + b[k + 2..]);
    WordFirst(b[k - 1], v % 256, [v / 256] + b[k + 2..]);
    LowByte(v / 256, b[k + 2..]);
  }

  lemma WordFirst(x: Octet, y: Octet, rest: seq<Octet>)
    ensures WordSum([x, y] + rest) == x + 256 * (y as int) + WordSum(rest)
  {
    assert ([x, y] + rest)[2..] == rest;
  }

  lemma LowByte(x: Octet, rest: seq<Octet>)
    ensures WordSum([x] + rest) == x + WordSum([0] + rest)
  {
    if rest != [] {
      assert [x] + rest == [x, rest[0]] + rest[1..] && [0] + rest == [0, rest[0]] + rest[1..];
      WordFirst(x, rest[0], rest[1..]);
      WordFirst(0, rest[0], rest[1..]);
    }
  }

  /** Which values check out at an odd position. */
  lemma OddRecheckIff(b: seq<Octet>, k: nat, v: nat)
    requires k + 2 <= |b| && k % 2 == 1 && v <= MAX16 && b[k] == 0 && b[k + 1] == 0
    ensures Checksum(WithField(b, k, v)) == 0
      <==> Swap(v) == Checksum(b) || (WordSum(b) > 0 && Checksum(b) == 0 && Swap(v) == MAX16)
  {
    hide WordSum, Fold, WithField, Swap;
    OddFieldAdds(b, k, v);
    FullFold(WordSum(b), Swap(v));
  }

  /** There a message passes its own check if and only if the two bytes of its checksum are equal. */
  lemma OddFieldIff(b: seq<Octet>, k: nat)
    requires k + 2 <= |b| && k % 2 == 1 && b[k] == 0 && b[k + 1] == 0
    ensures Checksum(WithField(b, k, Checksum(b))) == 0 <==> Checksum(b) % 256 == Checksum(b) / 256
  {
    hide WordSum, Fold, WithField;
    OddRecheckIff(b, k, Checksum(b));
  }

  /** So an odd position is not good enough. */
  lemma OddFieldFails()
    ensures Checksum(WithField([1, 0, 0, 0], 1, Checksum([1, 0, 0, 0]))) != 0
  {
    var b: seq<Octet> := [1, 0, 0, 0];
    assert b[2..] == [0, 0] && b[2..][2..] == [];
    assert WordSum(b) == 1 && Checksum(b) == 65534;
    var c := WithField(b, 1, 65534);
    assert c == [1, 254, 255, 0] && c[2..] == [255, 0] && c[2..][2..] == [];
    assert WordSum(c) == 1 + 256 * 254 + 255;
  }

  /** The ICMP part of ng_encode_icmp_pkt: an echo reply of 8 bytes at `from`, which then checks out. */
  method EncodeIcmp(msg: array<Octet>, from: nat, id: nat, seqnb: nat)
    requires from + 8 <= msg.Length && id <= MAX16 && seqnb <= MAX16
    modifies msg
    ensures msg[..from] == old(msg[..from]) && msg[from + 8..] == old(msg[from + 8..])
    ensures msg[from] == 0 && msg[from + 1] == 0 && msg[from + 4] == id % 256 && msg[from + 5] == id / 256
    ensures msg[from + 6] == seqnb % 256 && msg[from + 7] == seqnb / 256
    ensures Checksum(msg[from..from + 8]) == 0
  {
    msg[from], msg[from + 1] := 0, 0;
    msg[from + 4], msg[from + 5] := id % 256, id / 256;
    msg[from + 6], msg[from + 7] := seqnb % 256, seqnb / 256;
    msg[from + 2], msg[from + 3] := 0, 0;
    ghost var b := msg[from..from + 8];
    var sum := NgChecksum(msg, from, 8);
    RecheckIsZero(b, 2);
    msg[from + 2], msg[from + 3] := sum % 256, sum / 256;
    assert msg[from..from + 8] == WithField(b, 2, sum);
  }
}
