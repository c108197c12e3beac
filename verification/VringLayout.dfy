/** new_vring: where the ring structures and the packet buffers are in the shared memory. */
module VringLayout {
  import opened Common
  import opened Rings
  import opened VringModel

  const BUFFER_ALIGNMENT := 8
  const ONEMEG := 1024 * 1024
  const PAGE := 4096

  /** Offsets in struct vhost_vring: two descriptors of files, then the descriptor table of 16 bytes an
      entry, the avail ring of 2 bytes an entry, and the used ring of 8 bytes an entry on its own page. */
  const DESC_AT := 8
  const AVAIL_AT := DESC_AT + 16 * VHOST_VRING_SIZE
  const USED_AT := Align(AVAIL_AT + 4 + 2 * VHOST_VRING_SIZE, PAGE)
  const SIZEOF_VHOST_VRING := Align(USED_AT + 4 + 8 * VHOST_VRING_SIZE, PAGE)
  const VHOST_CLIENT_PAGE_SIZE := Align(SIZEOF_VHOST_VRING + BUFFER_SIZE * VHOST_VRING_SIZE, ONEMEG)

  /** The region leaves room for the ring structures and for all buffers, wherever the first one is aligned to, and
      for one buffer more. */
  lemma Room()
    ensures USED_AT + 4 + 8 * VHOST_VRING_SIZE <= SIZEOF_VHOST_VRING
    ensures SIZEOF_VHOST_VRING + BUFFER_ALIGNMENT + BUFFER_SIZE * (VHOST_VRING_SIZE + 1) <= VHOST_CLIENT_PAGE_SIZE
    ensures BUFFER_SIZE % BUFFER_ALIGNMENT == 0
  {
    assert USED_AT == 593920;
    assert SIZEOF_VHOST_VRING == 860160;
    assert VHOST_CLIENT_PAGE_SIZE == 51380224;
  }

  /** The buffers are one behind the other, aligned, and lie between the ring structures and the end of the region, with
      room behind the last one. */
  ghost predicate LaidOut(base: nat, desc: seq<Desc>, n: nat) {
    && n <= |desc|
    && (forall i :: 0 <= i < n ==>
      && desc[i].addr % BUFFER_ALIGNMENT == 0 && desc[i].len == BUFFER_SIZE && desc[i].write && !desc[i].chained
      && base + SIZEOF_VHOST_VRING <= desc[i].addr && desc[i].addr + 2 * BUFFER_SIZE <= base + VHOST_CLIENT_PAGE_SIZE)
    && forall i :: 0 <= i < n ==> desc[i].addr == desc[0].addr + BUFFER_SIZE * i
  }

  /** So they do not overlap. */
  lemma Apart(base: nat, desc: seq<Desc>, n: nat, i: nat, j: nat)
    requires LaidOut(base, desc, n) && i < j < n
    ensures desc[i].addr + BUFFER_SIZE <= desc[j].addr
  {
  }

  /** What put_vring writes for the descriptor `k` stays inside its own buffer if and only if the packet is refused or
      fits there with its header. */
  lemma WritesInsideIff(base: nat, desc: seq<Desc>, n: nat, k: nat, data: seq<Byte>)
    requires LaidOut(base, desc, n) && k < n
    ensures (|data| <= BUFFER_SIZE ==> desc[k].addr + |Zeros() + data| <= desc[k].addr + desc[k].len)
      <==> |data| > BUFFER_SIZE || HDR_LEN + |data| <= BUFFER_SIZE
  {
  }

  /** If it does not, then the rest falls on the header of the next buffer, or into the room behind the last one, and
      on no other byte of the region. */
  lemma WritesHeaderOnly(base: nat, desc: seq<Desc>, n: nat, k: nat, data: seq<Byte>)
    requires LaidOut(base, desc, n) && k < n && BUFFER_SIZE - HDR_LEN < |data| <= BUFFER_SIZE
    ensures var from := desc[k].addr; var to := from + |Zeros() + data|;
      && from + BUFFER_SIZE < to <= from + BUFFER_SIZE + HDR_LEN && to <= base + VHOST_CLIENT_PAGE_SIZE
      && (k + 1 < n ==> desc[k + 1].addr < to <= desc[k + 1].addr + HDR_LEN)
      && forall j :: 0 <= j < n && j != k ==>
        to <= desc[j].addr + HDR_LEN || desc[j].addr + BUFFER_SIZE <= from
  {
    forall j | 0 <= j < n && j != k
      ensures desc[k].addr + |Zeros() + data| <= desc[j].addr + HDR_LEN || desc[j].addr + BUFFER_SIZE <= desc[k].addr
    {
      if j < k { Apart(base, desc, n, j, k); } else { Apart(base, desc, n, k, j); }
    }
  }

  // ---- the same on the bytes of the region ----

  /** The bytes of the buffers, from the address of the first one on. */
  ghost function Flat(bufs: seq<seq<Byte>>): seq<Byte> {
    if bufs == [] then [] else bufs[0] + Flat(bufs[1..])
  }

  ghost predicate Sized(bufs: seq<seq<Byte>>) {
    forall d :: 0 <= d < |bufs| ==> |bufs[d]| == BUFFER_SIZE
  }

  /** Writes to memory, wherever a buffer may end. */
  ghost function WriteAt(mem: seq<Byte>, at: nat, bytes: seq<Byte>): seq<Byte>
    requires at + |bytes| <= |mem|
  {
    mem[..at] + bytes + mem[at + |bytes|..]
  }

  lemma {:induction false} FlatSize(bufs: seq<seq<Byte>>)
    requires Sized(bufs)
    ensures |Flat(bufs)| == BUFFER_SIZE * |bufs|
  {
    if bufs != [] { FlatSize(bufs[1..]); }
  }

  lemma {:induction false} FlatSplit(bufs: seq<seq<Byte>>, d: nat)
    requires d <= |bufs|
    ensures Flat(bufs) == Flat(bufs[..d]) + Flat(bufs[d..])
    decreases d
  {
    if d == 0 {
      assert bufs[..0] == [] && bufs[0..] == bufs;
    } else {
      FlatSplit(bufs[1..], d - 1);
      assert bufs[..d][1..] == bufs[1..][..d - 1] && bufs[1..][d - 1..] == bufs[d..];
      Assoc(bufs[0], Flat(bufs[1..][..d - 1]), Flat(bufs[d..]));
    }
  }

  lemma FlatStep(t: seq<seq<Byte>>)
    requires |t| >= 2
    ensures Flat(t) == t[0] + t[1] + Flat(t[2..])
  {
    assert t[1..][1..] == t[2..];
    Assoc(t[0], t[1], Flat(t[2..]));
  }

  /** Two neighbours in the memory. */
  lemma FlatTwo(bufs: seq<seq<Byte>>, d: nat)
    requires d + 1 < |bufs|
    ensures Flat(bufs) == Flat(bufs[..d]) + (bufs[d] + bufs[d + 1]) + Flat(bufs[d + 2..])
  {
    hide Flat;
    FlatSplit(bufs, d);
    FlatStep(bufs[d..]);
    assert bufs[d..][2..] == bufs[d + 2..];
    Assoc(Flat(bufs[..d]), bufs[d] + bufs[d + 1], Flat(bufs[d + 2..]));
  }

  /** A put changes two neighbours at most. */
  lemma PutTwo(bufs: seq<seq<Byte>>, d: nat, data: seq<Byte>)
    requires d + 1 < |bufs| && |bufs[d]| == |bufs[d + 1]| == BUFFER_SIZE && |data| <= BUFFER_SIZE
    ensures var b, all := PutInto(bufs, d, data), Zeros() + data;
      && |b| == |bufs| && b[..d] == bufs[..d] && b[d + 2..] == bufs[d + 2..] && |all| <= 2 * BUFFER_SIZE
      && b[d] + b[d + 1] == all + (bufs[d] + bufs[d + 1])[|all|..]
  {
    var b, all := PutInto(bufs, d, data), Zeros() + data;
    if |all| <= BUFFER_SIZE {
      PutShort(all, bufs[d], bufs[d + 1]);
    } else {
      PutLong(all, bufs[d], bufs[d + 1]);
    }
  }

  lemma PutShort(all: seq<Byte>, p: seq<Byte>, q: seq<Byte>)
    requires |all| <= |p|
    ensures all + p[|all|..] + q == all + (p + q)[|all|..]
  {
  }

  lemma PutLong(all: seq<Byte>, p: seq<Byte>, q: seq<Byte>)
    requires |p| <= |all| <= |p| + |q|
    ensures all[..|p|] + (all[|p|..] + q[|all| - |p|..]) == all + (p + q)[|all|..]
  {
  }

  /** The buffers after a put are the memory after the header and the packet were written to the address of the
      descriptor, 1528 bytes further for each. */
  lemma PutIsWrite(bufs: seq<seq<Byte>>, d: nat, data: seq<Byte>)
    requires Sized(bufs) && d + 1 < |bufs| && |data| <= BUFFER_SIZE
    ensures |bufs[d]| == |bufs[d + 1]| == BUFFER_SIZE
    ensures |Flat(bufs)| == BUFFER_SIZE * |bufs| && BUFFER_SIZE * d + |Zeros() + data| <= |Flat(bufs)|
    ensures Flat(PutInto(bufs, d, data)) == WriteAt(Flat(bufs), BUFFER_SIZE * d, Zeros() + data)
  {
    hide Flat, PutInto, Sized, WriteAt;
    FlatSize(bufs);
    BuffersSized(bufs, d);
    FlatSize(bufs[..d]);
    PutTwo(bufs, d, data);
    FlatTwo(bufs, d);
    FlatTwo(PutInto(bufs, d, data), d);
    WriteMiddle(Flat(bufs[..d]), bufs[d] + bufs[d + 1], Flat(bufs[d + 2..]), Zeros() + data);
  }

  lemma BuffersSized(bufs: seq<seq<Byte>>, d: nat)
    requires Sized(bufs) && d + 1 < |bufs|
    ensures Sized(bufs[..d]) && |bufs[d]| == |bufs[d + 1]| == BUFFER_SIZE
  {
  }

  lemma WriteMiddle(a: seq<Byte>, p: seq<Byte>, c: seq<Byte>, all: seq<Byte>)
    requires |all| <= |p|
    ensures WriteAt(a + p + c, |a|, all) == a + (all + p[|all|..]) + c
  {
  }

  /** The descriptor that the loop writes in turn `k`. */
  ghost function Entry(first: nat, k: nat): Desc {
    Desc(first + BUFFER_SIZE * k, BUFFER_SIZE, false, true, k + 1)
  }

  method NewVring(base: nat, desc: array<Desc>)
    requires desc.Length == VHOST_VRING_SIZE
    modifies desc
    ensures LaidOut(base, desc[..], VHOST_VRING_SIZE)
    ensures Chain(Nexts(desc[..]), 0, Upto(0, VHOST_VRING_SIZE), VRING_IDX_NONE)
    ensures multiset(Upto(0, VHOST_VRING_SIZE)) == All(VHOST_VRING_SIZE)
  {
    hide Chain, Upto, All, Align, LaidOut, Nexts, Entry;
    var ptr: nat := base + SIZEOF_VHOST_VRING;
    ghost var first := Align(ptr, BUFFER_ALIGNMENT);
    for i := 0 to VHOST_VRING_SIZE
      invariant Align(ptr, BUFFER_ALIGNMENT) == first + BUFFER_SIZE * i
      invariant forall k :: 0 <= k < i ==> desc[k] == Entry(first, k)
    {
      ptr := Align(ptr, BUFFER_ALIGNMENT);
      desc[i] := Desc(ptr, BUFFER_SIZE, false, true, i + 1);
      EntryIs(first, i);
      ptr := ptr + desc[i].len;
      Aligned8(ptr);
    }
    ghost var d := desc[..];
    desc[VHOST_VRING_SIZE - 1] := desc[VHOST_VRING_SIZE - 1].(next := VRING_IDX_NONE);
    FillsRegion(base, first, d, desc[..]);
  }

  lemma EntryIs(first: nat, k: nat)
    ensures Entry(first, k) == Desc(first + BUFFER_SIZE * k, BUFFER_SIZE, false, true, k + 1)
  {
  }

  lemma FillsRegion(base: nat, first: nat, d: seq<Desc>, desc: seq<Desc>)
    requires first == Align(base + SIZEOF_VHOST_VRING, BUFFER_ALIGNMENT) && |d| == VHOST_VRING_SIZE
    requires forall k :: 0 <= k < |d| ==> d[k] == Entry(first, k)
    requires desc == d[|d| - 1 := d[|d| - 1].(next := VRING_IDX_NONE)]
    ensures LaidOut(base, desc, |desc|)
    ensures Chain(Nexts(desc), 0, Upto(0, |desc|), VRING_IDX_NONE) && multiset(Upto(0, |desc|)) == All(|desc|)
  {
    hide Align, Chain, Upto, All, Nexts;
    Room();
    forall i | 0 <= i < |d|
      ensures desc[i].addr == first + BUFFER_SIZE * i && desc[i].addr % BUFFER_ALIGNMENT == 0
      ensures base + SIZEOF_VHOST_VRING <= desc[i].addr
      ensures desc[i].addr + 2 * BUFFER_SIZE <= base + VHOST_CLIENT_PAGE_SIZE
    {
      Inside(base + SIZEOF_VHOST_VRING, base + VHOST_CLIENT_PAGE_SIZE, first, i);
    }
    LinksAll(desc);
  }

  /** Buffer `i`, in a region from `start` with room up to `end`. */
  lemma Inside(start: nat, end: nat, first: nat, i: nat)
    requires start <= first < start + BUFFER_ALIGNMENT && first % BUFFER_ALIGNMENT == 0 && i < VHOST_VRING_SIZE
    requires start + BUFFER_ALIGNMENT + BUFFER_SIZE * (VHOST_VRING_SIZE + 1) <= end
    ensures (first + BUFFER_SIZE * i) % BUFFER_ALIGNMENT == 0 && first + BUFFER_SIZE * i + 2 * BUFFER_SIZE <= end
  {
  }

  lemma LinksAll(desc: seq<Desc>)
    requires desc != []
    requires forall k :: 0 <= k < |desc| ==> desc[k].next == if k == |desc| - 1 then VRING_IDX_NONE else k + 1
    ensures Chain(Nexts(desc), 0, Upto(0, |desc|), VRING_IDX_NONE) && multiset(Upto(0, |desc|)) == All(|desc|)
  {
    UptoChain(Nexts(desc), 0, |desc|, VRING_IDX_NONE);
    UptoAll(|desc|);
  }

  lemma Aligned8(v: nat)
    requires v % BUFFER_ALIGNMENT == 0
    ensures Align(v, BUFFER_ALIGNMENT) == v
  {
    Aligned(v, BUFFER_ALIGNMENT);
  }

  lemma Aligned(v: nat, b: nat)
    requires b > 0 && v % b == 0
    ensures Align(v, b) == v
  {
    var q := v / b;
    assert v + b - 1 == q * b + (b - 1);
    ModUnique(v + b - 1, b, q, b - 1);
  }
}
