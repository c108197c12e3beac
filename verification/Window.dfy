/** The sliding window of ddos_detect: two arrays of 256 slots, overwritten in turn. */
module Window {
  import opened Common
  import BitCount

  const CAPTURE_WINDOWS := 256

  function Sum(s: seq<nat>): nat {
    if s == [] then 0 else s[0] + Sum(s[1..])
  }

  lemma {:induction false} SumJoin(a: seq<nat>, b: seq<nat>)
    ensures Sum(a + b) == Sum(a) + Sum(b)
  {
    if a == [] {
      assert a + b == b;
    } else {
      SumJoin(a[1..], b);
      assert (a + b)[1..] == a[1..] + b;
    }
  }

  /** The last 256 values, or all of them if there are not that many. */
  function Latest(h: seq<nat>): (r: seq<nat>)
    ensures |h| >= CAPTURE_WINDOWS ==> |r| == CAPTURE_WINDOWS
  {
    if |h| < CAPTURE_WINDOWS then h else h[|h| - CAPTURE_WINDOWS..]
  }

  /** Slot `k % 256` holds value `k`, for the latest values. */
  ghost predicate Slotted(slots: seq<nat>, h: seq<nat>) {
    && |slots| == CAPTURE_WINDOWS
    && forall k :: 0 <= k < |h| && |h| - CAPTURE_WINDOWS <= k ==> slots[k % CAPTURE_WINDOWS] == h[k]
  }

  lemma SlotNext(slots: seq<nat>, h: seq<nat>, x: nat)
    requires Slotted(slots, h)
    ensures Slotted(slots[|h| % CAPTURE_WINDOWS := x], h + [x])
  {
    var n := |h|;
    forall k | 0 <= k < n + 1 && n + 1 - CAPTURE_WINDOWS <= k
      ensures slots[n % CAPTURE_WINDOWS := x][k % CAPTURE_WINDOWS] == (h + [x])[k]
    {
      if k < n { assert k % CAPTURE_WINDOWS != n % CAPTURE_WINDOWS; }
    }
  }

  /** A full window holds the latest values, turned round by the position of the next slot. */
  lemma Turned(slots: seq<nat>, h: seq<nat>)
    requires Slotted(slots, h) && |h| >= CAPTURE_WINDOWS
    ensures var l, r := Latest(h), |h| % CAPTURE_WINDOWS; slots == l[CAPTURE_WINDOWS - r..] + l[..CAPTURE_WINDOWS - r]
  {
    var n, l, r := |h|, Latest(h), |h| % CAPTURE_WINDOWS;
    var w := l[CAPTURE_WINDOWS - r..] + l[..CAPTURE_WINDOWS - r];
    forall i | 0 <= i < CAPTURE_WINDOWS
      ensures slots[i] == w[i]
    {
      var k := if i < r then n - r + i else n - CAPTURE_WINDOWS - r + i;
      assert k % CAPTURE_WINDOWS == i;
      assert slots[k % CAPTURE_WINDOWS] == h[k];
    }
  }

  /** So its sum is the sum of the latest values. */
  lemma WindowSum(slots: seq<nat>, h: seq<nat>)
    requires Slotted(slots, h) && |h| >= CAPTURE_WINDOWS
    ensures Sum(slots) == Sum(Latest(h))
  {
    var l, r := Latest(h), |h| % CAPTURE_WINDOWS;
    Turned(slots, h);
    SumJoin(l[CAPTURE_WINDOWS - r..], l[..CAPTURE_WINDOWS - r]);
    SumJoin(l[..CAPTURE_WINDOWS - r], l[CAPTURE_WINDOWS - r..]);
    assert l == l[..CAPTURE_WINDOWS - r] + l[CAPTURE_WINDOWS - r..];
  }

  /** The index counts up to the first full window and then goes round in the second one. */
  predicate InStep(idx: nat, n: nat) {
    && idx < 2 * CAPTURE_WINDOWS && idx % CAPTURE_WINDOWS == n % CAPTURE_WINDOWS
    && (idx < CAPTURE_WINDOWS <==> n < CAPTURE_WINDOWS)
  }

  function NextIdx(idx: nat): nat {
    if idx >= CAPTURE_WINDOWS then (idx + 1) % CAPTURE_WINDOWS + CAPTURE_WINDOWS else idx + 1
  }

  lemma StaysInStep(idx: nat, n: nat)
    requires InStep(idx, n)
    ensures InStep(NextIdx(idx), n + 1) && idx % CAPTURE_WINDOWS == n % CAPTURE_WINDOWS
    ensures idx >= CAPTURE_WINDOWS <==> n >= CAPTURE_WINDOWS
  {
    hide InStep;
    NextMod(idx);
    NextMod(n);
    InStepIs(idx, n);
    InStepIs(NextIdx(idx), n + 1);
  }

  lemma InStepIs(idx: nat, n: nat)
    ensures InStep(idx, n) <==>
      && idx < 2 * CAPTURE_WINDOWS && idx % CAPTURE_WINDOWS == n % CAPTURE_WINDOWS
      && (idx < CAPTURE_WINDOWS <==> n < CAPTURE_WINDOWS)
  {
  }

  lemma NextMod(x: nat)
    ensures (x + 1) % CAPTURE_WINDOWS ==
      if x % CAPTURE_WINDOWS == CAPTURE_WINDOWS - 1 then 0 else x % CAPTURE_WINDOWS + 1
  {
  }

  class Detector {
    const setBits: array<nat>
    const totBits: array<nat>
    var pktIdx: nat
    /** The counts of all packets so far. */
    ghost var sets: seq<nat>
    ghost var tots: seq<nat>

    ghost predicate Valid()
      reads this, setBits, totBits
    {
      && setBits != totBits && setBits.Length == totBits.Length == CAPTURE_WINDOWS && |sets| == |tots|
      && Slotted(setBits[..], sets) && Slotted(totBits[..], tots)
      && InStep(pktIdx, |sets|)
    }

    constructor ()
      ensures Valid() && sets == [] && tots == [] && pktIdx == 0 && fresh(setBits) && fresh(totBits)
    {
      setBits := new nat[CAPTURE_WINDOWS](i => 0);
      totBits := new nat[CAPTURE_WINDOWS](i => 0);
      pktIdx, sets, tots := 0, [], [];
    }

    /** ddos_detect up to the decision: the one bits of the words that the packet reaches into, and its length in bits,
        go into the window. */
    method DdosDetect(msg: array<Octet>, bufLen: nat) returns (full: bool, totalSet: nat, totalBit: nat)
      requires Valid() && bufLen < TWO32 && 8 * BitCount.Words(bufLen) <= msg.Length
      modifies this, setBits, totBits
      ensures Valid() && sets == old(sets) + [BitCount.Ones(old(msg[..8 * BitCount.Words(bufLen)])) % TWO32]
      ensures bufLen > 0 && bufLen % 8 == 0 ==> 8 * BitCount.Words(bufLen) == bufLen
      ensures tots == old(tots) + [bufLen * 8 % TWO32]
      ensures full <==> |sets| > CAPTURE_WINDOWS
      ensures full ==> totalSet == Sum(Latest(sets)) % TWO32 && totalBit == Sum(Latest(tots)) % TWO32
    {
      hide Slotted, Sum, Latest;
      BitCount.WordsBound(bufLen);
      var bits := BitCount.CountBit(msg, bufLen);
      full, totalSet, totalBit := Detect(bits, bufLen * 8 % TWO32);
    }

    /** From packet 257 on there are totals. */
    method Detect(set_: nat, tot: nat) returns (full: bool, totalSet: nat, totalBit: nat)
      requires Valid()
      modifies this, setBits, totBits
      ensures Valid() && sets == old(sets) + [set_] && tots == old(tots) + [tot]
      ensures full <==> |sets| > CAPTURE_WINDOWS
      ensures full ==> totalSet == Sum(Latest(sets)) % TWO32 && totalBit == Sum(Latest(tots)) % TWO32
    {
      hide Slotted, Sum, Latest, InStep;
      StaysInStep(pktIdx, |sets|);
      SlotNext(setBits[..], sets, set_);
      SlotNext(totBits[..], tots, tot);
      ghost var s, t := setBits[..], totBits[..];
      setBits[pktIdx % CAPTURE_WINDOWS] := set_;
      totBits[pktIdx % CAPTURE_WINDOWS] := tot;
      assert setBits[..] == s[|sets| % CAPTURE_WINDOWS := set_] && totBits[..] == t[|sets| % CAPTURE_WINDOWS := tot];
      sets, tots := sets + [set_], tots + [tot];
      full, totalSet, totalBit := false, 0, 0;
      if pktIdx >= CAPTURE_WINDOWS {
        totalSet, totalBit := Totals();
        WindowSum(setBits[..], sets);
        WindowSum(totBits[..], tots);
        pktIdx := (pktIdx + 1) % CAPTURE_WINDOWS + CAPTURE_WINDOWS;
        full := true;
      } else {
        pktIdx := pktIdx + 1;
      }
    }

    /** The summing loop, in 32 bits */
    method Totals() returns (totalSet: nat, totalBit: nat)
      requires setBits.Length == totBits.Length == CAPTURE_WINDOWS
      ensures totalSet == Sum(setBits[..]) % TWO32 && totalBit == Sum(totBits[..]) % TWO32
    {
      totalSet, totalBit := 0, 0;
      for i := 0 to CAPTURE_WINDOWS
        invariant totalSet == Sum(setBits[..i]) % TWO32 && totalBit == Sum(totBits[..i]) % TWO32
      {
        SumNext(setBits[..], i);
        SumNext(totBits[..], i);
        totalSet := (totalSet + setBits[i]) % TWO32;
        totalBit := (totalBit + totBits[i]) % TWO32;
      }
      assert setBits[..CAPTURE_WINDOWS] == setBits[..] && totBits[..CAPTURE_WINDOWS] == totBits[..];
    }

    lemma SumNext(s: seq<nat>, i: nat)
      requires i < |s|
      ensures Sum(s[..i + 1]) == Sum(s[..i]) + s[i]
    {
      SumJoin(s[..i], [s[i]]);
      assert s[..i + 1] == s[..i] + [s[i]] && [s[i]][1..] == [];
    }
  }
}
