/** Ring buffers and free lists, as both virtqueue implementations use them. */
module Rings {
  import opened Common

  // ---- positions in a ring ----

  /** The `i`-th slot behind the index `from`, in a ring of `n` slots. */
  function Slot(from: int, i: int, n: int): (k: int)
    requires n > 0
    ensures 0 <= k < n
  {
    (from + i) % n
  }

  lemma ModUnique(x: int, n: int, q: int, r: int)
    requires 0 <= r < n && x == q * n + r
    ensures x % n == r
  {
    var d := q - x / n;
    assert d * n == q * n - (x / n) * n;
    assert -n < d * n < n;
    if d >= 1 {
      MulGe(d, n);
    } else if d <= -1 {
      MulGe(-d, n);
    }
  }

  lemma MulGe(d: int, n: int)
    requires d >= 1 && n > 0
    ensures d * n >= n && (-d) * n <= -n
  {
  }

  /** Only the residue of an index decides where it points. */
  lemma SlotShift(x: int, y: int, n: int)
    requires n > 0
    ensures Slot(x % n, y, n) == Slot(x, y, n)
  {
    var q, r := (x % n + y) / n, (x % n + y) % n;
    assert x + y == (x / n) * n + (q * n + r);
    assert (x / n) * n + q * n == (x / n + q) * n;
    ModUnique(x + y, n, x / n + q, r);
  }

  lemma SlotNext(x: int, i: int, j: int, n: int)
    requires n > 0
    ensures Slot(Slot(x, i, n), j, n) == Slot(x, i + j, n)
  {
    SlotShift(x + i, j, n);
  }

  lemma SlotStart(x: int, k: int, n: int)
    requires n > 0
    ensures Slot(x + k, 0, n) == Slot(x, k, n)
  {
  }

  /** Fewer than `n` steps never come back. */
  lemma SlotApart(x: int, i: int, j: int, n: int)
    requires 0 <= i < n && 0 <= j < n && Slot(x, i, n) == Slot(x, j, n)
    ensures i == j
  {
    var p, q := (x + i) / n, (x + j) / n;
    assert i - j == p * n - q * n == (p - q) * n;
    if p - q >= 1 {
      MulGe(p - q, n);
    } else if p - q <= -1 {
      MulGe(q - p, n);
    }
  }

  /** The distance between two indices, if it is less than a full turn. */
  lemma SlotDistance(x: int, k: int, n: int)
    requires 0 <= x < n && 0 <= k <= n
    ensures Slot(Slot(x, k, n), -x, n) == if k == n then 0 else k
  {
    SlotNext(x, k, -x, n);
    if k == n { ModUnique(n, n, 1, 0); } else { ModUnique(k, n, 0, k); }
  }

  /** An index that came back has gone no step or a full turn. */
  lemma SlotSame(x: int, k: int, n: int)
    requires 0 <= x < n && 0 <= k <= n
    ensures Slot(x, k, n) == x <==> k == 0 || k == n
  {
    ModUnique(x, n, 0, x);
    ModUnique(x + n, n, 1, x);
    if k < n && Slot(x, k, n) == x { SlotApart(x, 0, k, n); }
  }

  /** The ring holds `s`, starting at the index `from`. */
  ghost predicate Holds<T(!new)>(ring: seq<T>, from: int, s: seq<T>) {
    |s| <= |ring| && forall i :: 0 <= i < |s| ==> ring[Slot(from, i, |ring|)] == s[i]
  }

  lemma RingPush<T(!new)>(ring: seq<T>, from: int, s: seq<T>, x: T)
    requires |s| < |ring| && Holds(ring, from, s)
    ensures Holds(ring[Slot(from, |s|, |ring|) := x], from, s + [x])
  {
    forall i | 0 <= i < |s|
      ensures Slot(from, i, |ring|) != Slot(from, |s|, |ring|)
    {
      if Slot(from, i, |ring|) == Slot(from, |s|, |ring|) { SlotApart(from, i, |s|, |ring|); }
    }
  }

  lemma RingDrop<T(!new)>(ring: seq<T>, from: int, s: seq<T>, k: nat)
    requires k <= |s| && Holds(ring, from, s)
    ensures Holds(ring, from + k, s[k..])
  {
    forall i | 0 <= i < |s| - k
      ensures ring[Slot(from + k, i, |ring|)] == s[k..][i]
    {
      assert Slot(from + k, i, |ring|) == Slot(from, k + i, |ring|);
    }
  }

  lemma HoldsAt<T(!new)>(ring: seq<T>, from: int, s: seq<T>, i: nat)
    requires i < |s| && Holds(ring, from, s)
    ensures ring[Slot(from, i, |ring|)] == s[i]
  {
  }

  lemma HoldsNone<T(!new)>(ring: seq<T>, from: int)
    ensures Holds(ring, from, [])
  {
  }

  // ---- lists threaded through an array ----

  /** From `head`, the links `next` lead through exactly the entries `list` and then to `tail`. */
  ghost predicate Chain(next: seq<nat>, head: nat, list: seq<nat>, tail: nat)
    decreases |list|
  {
    if list == [] then head == tail
    else head == list[0] && head < |next| && Chain(next, next[head], list[1..], tail)
  }

  /** Links outside the list do not matter. */
  lemma {:induction false} ChainFrame(next: seq<nat>, next': seq<nat>, head: nat, list: seq<nat>, tail: nat)
    requires |next'| == |next| && Chain(next, head, list, tail)
    requires forall d :: d in list && d < |next| ==> next'[d] == next[d]
    ensures Chain(next', head, list, tail)
    decreases |list|
  {
    if list != [] {
      ChainFrame(next, next', next[head], list[1..], tail);
    }
  }

  lemma {:induction false} ChainPush(next: seq<nat>, head: nat, list: seq<nat>, tail: nat, d: nat)
    requires Chain(next, head, list, tail) && d < |next| && d !in list
    ensures Chain(next[d := head], d, [d] + list, tail)
  {
    ChainFrame(next, next[d := head], head, list, tail);
    assert ([d] + list)[1..] == list;
  }

  lemma {:induction false} ChainPop(next: seq<nat>, head: nat, list: seq<nat>, tail: nat)
    requires Chain(next, head, list, tail) && list != []
    ensures head == list[0] < |next| && Chain(next, next[head], list[1..], tail)
  {
  }

  // ---- who owns which descriptor ----

  /** Every index below `n`, once. */
  ghost function All(n: nat): multiset<nat> {
    if n == 0 then multiset{} else All(n - 1) + multiset{n - 1}
  }

  lemma {:induction false} AllOnce(n: nat)
    ensures |All(n)| == n
    ensures forall d: nat :: All(n)[d] == if d < n then 1 else 0
  {
    if n > 0 { AllOnce(n - 1); }
  }

  /** The three lists together hold every index below `n` exactly once. */
  ghost predicate Partition(n: nat, a: seq<nat>, b: seq<nat>, c: seq<nat>) {
    multiset(a) + multiset(b) + multiset(c) == All(n)
  }

  lemma PartitionCount(n: nat, a: seq<nat>, b: seq<nat>, c: seq<nat>)
    requires Partition(n, a, b, c)
    ensures |a| + |b| + |c| == n
  {
    AllOnce(n);
    assert |multiset(a) + multiset(b) + multiset(c)| == |a| + |b| + |c|;
  }

  /** Each index is in exactly one of the lists, and there only once. */
  lemma PartitionOnce(n: nat, a: seq<nat>, b: seq<nat>, c: seq<nat>, d: nat)
    requires Partition(n, a, b, c)
    ensures multiset(a)[d] + multiset(b)[d] + multiset(c)[d] == if d < n then 1 else 0
    ensures d in a ==> d !in b && d !in c && d < n
    ensures d in b ==> d !in a && d !in c && d < n
    ensures d in c ==> d !in a && d !in b && d < n
  {
    AllOnce(n);
    assert (multiset(a) + multiset(b) + multiset(c))[d] == multiset(a)[d] + multiset(b)[d] + multiset(c)[d];
    assert d in a ==> d in multiset(a);
    assert d in b ==> d in multiset(b);
    assert d in c ==> d in multiset(c);
  }

  /** Lists that together hold nothing twice. */
  lemma DifferentOnes(n: nat, a: seq<nat>, b: seq<nat>, d: nat)
    requires multiset(a) + multiset(b) <= All(n)
    ensures multiset(a)[d] + multiset(b)[d] <= if d < n then 1 else 0
    ensures (d in a ==> d !in b && d < n) && (d in b ==> d !in a && d < n)
  {
    AllOnce(n);
    assert (multiset(a) + multiset(b))[d] <= All(n)[d];
    assert d in a ==> d in multiset(a);
    assert d in b ==> d in multiset(b);
  }

  lemma {:induction false} CountDistinct(s: seq<nat>, i: nat, j: nat)
    requires i < j < |s| && multiset(s)[s[i]] <= 1
    ensures s[i] != s[j]
  {
    assert s == s[..j] + [s[j]] + s[j + 1..];
    assert s[i] in s[..j];
    assert multiset(s) == multiset(s[..j]) + multiset{s[j]} + multiset(s[j + 1..]);
  }

  /** The first entry of one list moves to the end of another. */
  lemma MoveFirst(a: seq<nat>, b: seq<nat>)
    requires a != []
    ensures multiset(a[1..]) + multiset(b + [a[0]]) == multiset(a) + multiset(b)
  {
    assert a == [a[0]] + a[1..];
  }

  /** The first entry of one list moves to the front of another. */
  lemma MoveFront(a: seq<nat>, b: seq<nat>)
    requires a != []
    ensures multiset(a[1..]) + multiset([a[0]] + b) == multiset(a) + multiset(b)
  {
    assert a == [a[0]] + a[1..];
  }

  /** Taking out the first entry of a list without repetitions takes it out altogether. */
  lemma TailWithout(s: seq<nat>, d: nat)
    requires s != [] && multiset(s)[s[0]] <= 1
    ensures d in s[1..] <==> d in s && d != s[0]
  {
    assert s == [s[0]] + s[1..];
  }

  // ---- the list of all descriptors ----

  ghost function Upto(i: nat, n: nat): seq<nat>
    requires i <= n
  {
    seq(n - i, k requires 0 <= k => i + k)
  }

  /** Descriptors linked in order form one list of all of them. */
  lemma {:induction false} UptoChain(next: seq<nat>, i: nat, n: nat, tail: nat)
    requires i < n <= |next| && forall k :: 0 <= k < n ==> next[k] == if k == n - 1 then tail else k + 1
    ensures Chain(next, i, Upto(i, n), tail)
    decreases n - i
  {
    assert Upto(i, n)[1..] == Upto(i + 1, n);
    if i < n - 1 {
      UptoChain(next, i + 1, n, tail);
    } else {
      assert Upto(i + 1, n) == [];
    }
  }

  lemma {:induction false} UptoAll(n: nat)
    ensures multiset(Upto(0, n)) == All(n)
  {
    if n > 0 {
      UptoAll(n - 1);
      assert Upto(0, n) == Upto(0, n - 1) + [n - 1];
    }
  }

  lemma {:induction false} ReversedNext(d: seq<nat>, i: nat, free: seq<nat>, free0: seq<nat>)
    requires i < |d| && free == Reversed(d[..i]) + free0
    ensures [d[i]] + free == Reversed(d[..i + 1]) + free0
  {
    ReversedAdd(d[..i], d[i]);
    assert d[..i + 1] == d[..i] + [d[i]];
    assert [d[i]] + (Reversed(d[..i]) + free0) == ([d[i]] + Reversed(d[..i])) + free0;
  }

  lemma {:induction false} ReversedSame(s: seq<nat>)
    ensures multiset(Reversed(s)) == multiset(s)
  {
    if s != [] {
      ReversedSame(s[1..]);
      assert s == [s[0]] + s[1..];
    }
  }

  lemma {:induction false} ReversedAdd(s: seq<nat>, x: nat)
    ensures Reversed(s + [x]) == [x] + Reversed(s)
  {
    if s != [] {
      ReversedAdd(s[1..], x);
      assert (s + [x])[1..] == s[1..] + [x];
    }
  }
}
