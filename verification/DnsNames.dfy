/** Domain names as text and on the wire (section 3.1 of RFC 1035), the way dns.c converts them. */
module DnsNames {
  import opened Common
  const DOT: Octet := 46

  // ---- text to wire ----

  /** How far it is to the next dot, or to the end. */
  function LabelLen(s: seq<Octet>): (k: nat)
    ensures k <= |s|
  {
    if s == [] || s[0] == DOT then 0 else 1 + LabelLen(s[1..])
  }

  lemma {:induction false} LabelEnds(s: seq<Octet>)
    ensures var k := LabelLen(s); (k < |s| ==> s[k] == DOT) && forall i :: 0 <= i < k ==> s[i] != DOT
  {
    if s != [] && s[0] != DOT {
      LabelEnds(s[1..]);
      assert forall i :: 0 < i < |s| ==> s[i] == s[1..][i - 1];
    }
  }

  /** The length of the label that starts at `j`. */
  function LabelAt(s: seq<Octet>, j: nat): nat
    requires j <= |s|
  {
    LabelLen(s[j..])
  }

  /** encode_domain_name: every label behind its length, and a zero. */
  function EncodeName(s: seq<Octet>): (w: seq<Octet>)
    ensures |w| == |s| + 2
  {
    var k := LabelLen(s);
    if k == |s| then [k % 256] + s + [0] else [k % 256] + s[..k] + EncodeName(s[k + 1..])
  }

  /** Every byte of the text is where it was, one further on; the dots have become the lengths. */
  lemma {:induction false} EncodedAt(s: seq<Octet>, i: nat)
    requires i < |s|
    ensures EncodeName(s)[i + 1] == if s[i] == DOT then LabelAt(s, i + 1) % 256 else s[i]
    decreases |s|
  {
    var k, w := LabelLen(s), EncodeName(s);
    LabelEnds(s);
    if k == |s| {
      assert w[i + 1] == s[i];
    } else {
      var v := EncodeName(s[k + 1..]);
      if i < k {
        assert w[i + 1] == s[..k][i];
      } else if i == k {
        assert w[i + 1] == v[0];
      } else {
        EncodedAt(s[k + 1..], i - k - 1);
        assert w[i + 1] == v[i - k];
        assert s[k + 1..][i - k..] == s[i + 1..];
      }
    }
  }

  lemma {:induction false} EncodedEnd(s: seq<Octet>)
    ensures EncodeName(s)[|s| + 1] == 0
    decreases |s|
  {
    var k := LabelLen(s);
    if k < |s| { EncodedEnd(s[k + 1..]); }
  }

  // ---- wire to text ----

  /** A byte of at most 63 is taken for the length of a label. */
  function CharOf(c: Octet): Octet {
    if c <= 63 then DOT else c
  }

  function Chars(w: seq<Octet>): (s: seq<Octet>)
    ensures |s| == |w| && forall i :: 0 <= i < |s| ==> s[i] == CharOf(w[i])
  {
    if w == [] then [] else Chars(w[..|w| - 1]) + [CharOf(w[|w| - 1])]
  }

  /** What reading comes to: a value and the position behind it, a failure that the code notices,
      or a read past the end of the buffer. */
  datatype Parse<T> = Got(value: T, next: nat) | Failed | Wild

  /** Where the decoding loop stops: the length is compared as a size_t, so a negative one is no limit. */
  function Limit(len: int): (r: nat)
    ensures r <= 256
  {
    if 0 <= len < 256 then len else 256
  }

  /** The loop of decode_domain_name from turn `i` on, at most up to turn `lim`. */
  function Scan(w: seq<Octet>, pos: nat, i: nat, lim: int): Parse<seq<Octet>>
    requires i >= 1
    decreases lim - i
  {
    if i >= lim then Failed
    else if pos + i >= |w| then Wild
    else if w[pos + i] == 0 then Got(Chars(w[pos + 1..pos + i]), pos + i + 1)
    else Scan(w, pos, i + 1, lim)
  }

  /** decode_domain_name at `pos`, for the length `len`. */
  function DecodeName(w: seq<Octet>, pos: nat, len: int): Parse<seq<Octet>> {
    Scan(w, pos, 1, Limit(len))
  }

  /** The scan ends at the first zero. */
  lemma {:induction false} ScanEnds(w: seq<Octet>, pos: nat, i: nat, lim: int, z: nat)
    requires 1 <= i <= z && pos + z < |w| && w[pos + z] == 0
    requires forall k :: pos + i <= k < pos + z ==> w[k] != 0
    ensures Scan(w, pos, i, lim) == if z < lim then Got(Chars(w[pos + 1..pos + z]), pos + z + 1) else Failed
    decreases z - i
  {
    if i < z { ScanEnds(w, pos, i + 1, lim, z); }
  }

  /** The name at `pos` ends `z` bytes further on, before the limit. */
  ghost predicate EndsAt(w: seq<Octet>, pos: nat, lim: nat, z: nat) {
    && 1 <= z < lim && pos + z < |w| && w[pos + z] == 0
    && forall k :: pos + 1 <= k < pos + z ==> w[k] != 0
  }

  /** The name at `pos` has no end before the limit, which lies in the buffer. */
  ghost predicate Endless(w: seq<Octet>, pos: nat, lim: nat) {
    && (lim <= 1 || pos + lim <= |w|)
    && forall k :: pos + 1 <= k < pos + lim ==> w[k] != 0
  }

  /** What decides about a name is where its bytes have the first zero. */
  lemma {:induction false} ScanIff(w: seq<Octet>, pos: nat, i: nat, lim: nat)
    requires i >= 1 && (pos + i <= |w| || i == 1) && forall k :: pos + 1 <= k < pos + i && k < |w| ==> w[k] != 0
    ensures var r := Scan(w, pos, i, lim);
      && (r.Got? ==> r.next >= pos + 2 && EndsAt(w, pos, lim, r.next - pos - 1))
      && (r.Failed? && i <= lim ==> Endless(w, pos, lim))
    decreases lim - i
  {
    if i < lim && pos + i < |w| && w[pos + i] != 0 { ScanIff(w, pos, i + 1, lim); }
  }

  /** A name ends in one place, or nowhere. */
  lemma EndsOnce(w: seq<Octet>, pos: nat, lim: nat, z: nat)
    requires EndsAt(w, pos, lim, z)
    ensures !Endless(w, pos, lim) && forall y :: EndsAt(w, pos, lim, y) ==> y == z
  {
    assert w[pos + z] == 0;
    forall y | EndsAt(w, pos, lim, y)
      ensures y == z
    {
      assert w[pos + y] == 0;
    }
  }

  // ---- round trips ----

  /** C strings: there is no zero inside. */
  predicate IsText(s: seq<Octet>) {
    forall i :: 0 <= i < |s| ==> s[i] != 0
  }

  /** The texts that survive: at most 254 bytes, no byte up to 63 but the dot, and every label behind a dot has
      1 to 63 bytes. (The length of the first label is never looked at.) */
  ghost predicate Survives(s: seq<Octet>) {
    |s| <= 254 && forall i :: 0 <= i < |s| ==> SurvivesAt(s, i)
  }

  predicate SurvivesAt(s: seq<Octet>, i: nat)
    requires i < |s|
  {
    if s[i] == DOT then 1 <= LabelAt(s, i + 1) <= 63 else s[i] > 63
  }

  /** The first zero behind the first byte of an encoded name: its end, or an empty label. */
  lemma {:induction false} FirstZero(s: seq<Octet>) returns (z: nat)
    requires IsText(s)
    ensures 1 <= z <= |s| + 1 && EncodeName(s)[z] == 0 && forall k :: 1 <= k < z ==> EncodeName(s)[k] != 0
  {
    hide EncodeName, IsText;
    EncodedEnd(s);
    var e := EncodeName(s);
    z := 1;
    while e[z] != 0
      invariant 1 <= z <= |s| + 1 && forall k :: 1 <= k < z ==> e[k] != 0
      decreases |s| + 1 - z
    {
      z := z + 1;
    }
  }

  /** A byte comes back if and only if its position survives. */
  lemma BackAt(s: seq<Octet>, i: nat)
    requires i < |s|
    ensures |s| <= 254 ==> (CharOf(EncodeName(s)[i + 1]) == s[i] && EncodeName(s)[i + 1] != 0 <==> SurvivesAt(s, i))
  {
    hide EncodeName, LabelLen;
    EncodedAt(s, i);
  }

  /** The characters between the first byte and the first zero `z`. */
  lemma CharsBack(s: seq<Octet>, z: nat)
    requires 1 <= z <= |s| + 1 && EncodeName(s)[z] == 0 && forall k :: 1 <= k < z ==> EncodeName(s)[k] != 0
    ensures z == |s| + 1 && z <= 255 && Chars(EncodeName(s)[1..z]) == s <==> Survives(s)
  {
    hide EncodeName, LabelLen, SurvivesAt, CharOf, Chars;
    if |s| <= 254 {
      if z == |s| + 1 {
        AllBack(s);
      } else {
        BackAt(s, z - 1);
      }
    }
  }

  lemma AllBack(s: seq<Octet>)
    requires |s| <= 254 && forall k :: 1 <= k <= |s| ==> EncodeName(s)[k] != 0
    ensures Chars(EncodeName(s)[1..|s| + 1]) == s <==> Survives(s)
  {
    hide EncodeName, LabelLen, SurvivesAt, CharOf, Chars;
    var w := EncodeName(s)[1..|s| + 1];
    forall i | 0 <= i < |s|
      ensures CharOf(w[i]) == s[i] <==> SurvivesAt(s, i)
    {
      BackAt(s, i);
      assert w[i] == EncodeName(s)[i + 1];
    }
    CharsAre(w, s);
  }

  lemma CharsAre(w: seq<Octet>, s: seq<Octet>)
    requires |w| == |s|
    ensures Chars(w) == s <==> forall i :: 0 <= i < |s| ==> CharOf(w[i]) == s[i]
  {
  }

  /** Encoding and decoding gives back the name, and the position right behind it, if and only if the name survives. */
  lemma {:induction false} RoundTripIff(s: seq<Octet>, before: seq<Octet>, after: seq<Octet>, len: int)
    requires IsText(s) && |s| + 2 <= len
    ensures DecodeName(before + EncodeName(s) + after, |before|, len) == Got(s, |before| + |s| + 2) <==> Survives(s)
  {
    hide EncodeName, Chars, Scan, Survives;
    var e, p := EncodeName(s), |before|;
    var z := FirstZero(s);
    CharsBack(s, z);
    ScanInside(before, e, after, Limit(len), z);
  }

  lemma ScanInside(before: seq<Octet>, e: seq<Octet>, after: seq<Octet>, lim: int, z: nat)
    requires 1 <= z < |e| && e[z] == 0 && forall k :: 1 <= k < z ==> e[k] != 0
    ensures Scan(before + e + after, |before|, 1, lim) ==
      if z < lim then Got(Chars(e[1..z]), |before| + z + 1) else Failed
  {
    hide Chars, Scan;
    var w, p := before + e + after, |before|;
    assert forall k :: 0 <= k < |e| ==> w[p + k] == e[k];
    forall k | p + 1 <= k < p + z
      ensures w[k] != 0
    {
      assert w[k] == e[k - p];
    }
    ScanEnds(w, p, 1, lim, z);
    assert w[p + 1..p + z] == e[1..z];
  }

  // ---- labels ----

  /** A name as a list of labels, on the wire and as text. */
  function Wire(labels: seq<seq<Octet>>): seq<Octet> {
    if labels == [] then [0] else [|labels[0]| % 256] + labels[0] + Wire(labels[1..])
  }

  function Text(labels: seq<seq<Octet>>): seq<Octet> {
    if labels == [] then [] else if |labels| == 1 then labels[0] else labels[0] + [DOT] + Text(labels[1..])
  }

  /** Labels of RFC 1035: 1 to 63 bytes, here without dots and zeros inside. */
  predicate IsLabel(l: seq<Octet>) {
    1 <= |l| <= 63 && forall i :: 0 <= i < |l| ==> l[i] != DOT && l[i] != 0
  }

  /** Labels as a decoder of C strings can meet them: 1 to 63 bytes without a zero. */
  predicate IsStringLabel(l: seq<Octet>) {
    1 <= |l| <= 63 && forall i :: 0 <= i < |l| ==> l[i] != 0
  }

  /** Labels whose bytes are all above 63. */
  predicate IsHighLabel(l: seq<Octet>) {
    1 <= |l| <= 63 && forall i :: 0 <= i < |l| ==> l[i] > 63
  }

  predicate AreLabels(labels: seq<seq<Octet>>) {
    labels != [] && forall l :: l in labels ==> IsLabel(l)
  }

  predicate AreStringLabels(labels: seq<seq<Octet>>) {
    labels != [] && forall l :: l in labels ==> IsStringLabel(l)
  }

  predicate AreHighLabels(labels: seq<seq<Octet>>) {
    labels != [] && forall l :: l in labels ==> IsHighLabel(l)
  }

  lemma {:induction false} LabelAhead(l: seq<Octet>, rest: seq<Octet>)
    requires IsLabel(l) && (rest == [] || rest[0] == DOT)
    ensures LabelLen(l + rest) == |l|
  {
    var k, w := LabelLen(l + rest), l + rest;
    LabelEnds(w);
    assert k < |w| ==> w[k] == DOT;
    assert forall i :: 0 <= i < |l| ==> w[i] == l[i];
    assert rest != [] ==> w[|l|] == rest[0];
  }

  /** The encoder writes the wire form of the labels. */
  lemma {:induction false} EncodesLabels(labels: seq<seq<Octet>>)
    requires AreLabels(labels)
    ensures EncodeName(Text(labels)) == Wire(labels)
    decreases |labels|
  {
    var l := labels[0];
    if |labels| == 1 {
      LabelAhead(l, []);
      assert l + [] == l && labels[1..] == [];
    } else {
      var rest := labels[1..];
      assert AreLabels(rest) by {
        assert forall x :: x in rest ==> x in labels;
      }
      EncodesLabels(rest);
      LabelAhead(l, [DOT] + Text(rest));
      var s := l + ([DOT] + Text(rest));
      assert s == Text(labels);
      assert s[|l| + 1..] == Text(rest) && s[..|l|] == l;
    }
  }

  /** Names of high labels, up to 254 bytes, survive. */
  lemma {:induction false} HighSurvives(labels: seq<seq<Octet>>)
    requires AreHighLabels(labels) && |Text(labels)| <= 254
    ensures AreLabels(labels) && Survives(Text(labels)) && IsText(Text(labels))
  {
    assert forall l :: l in labels ==> IsHighLabel(l) && IsLabel(l);
    HighText(labels);
    var s := Text(labels);
    forall i | 0 <= i < |s|
      ensures s[i] != 0
    {
      assert SurvivesAt(s, i);
    }
  }

  lemma {:induction false} HighText(labels: seq<seq<Octet>>)
    requires AreHighLabels(labels)
    ensures LabelLen(Text(labels)) == |labels[0]|
    ensures forall i :: 0 <= i < |Text(labels)| ==> SurvivesAt(Text(labels), i)
    decreases |labels|
  {
    hide LabelLen;
    var l := labels[0];
    assert IsHighLabel(l) && IsLabel(l);
    if |labels| == 1 {
      LabelAhead(l, []);
      assert l + [] == l;
    } else {
      var rest := labels[1..];
      assert forall x :: x in rest ==> x in labels;
      HighText(rest);
      assert IsHighLabel(rest[0]);
      LabelAhead(l, [DOT] + Text(rest));
      assert Text(labels) == l + ([DOT] + Text(rest));
      HighJoin(l, Text(rest));
    }
  }

  lemma HighJoin(l: seq<Octet>, rest: seq<Octet>)
    requires IsHighLabel(l) && 1 <= LabelLen(rest) <= 63 && forall i :: 0 <= i < |rest| ==> SurvivesAt(rest, i)
    ensures forall i :: 0 <= i < |l + ([DOT] + rest)| ==> SurvivesAt(l + ([DOT] + rest), i)
  {
    hide LabelLen;
    var t := l + ([DOT] + rest);
    forall i | 0 <= i < |t|
      ensures SurvivesAt(t, i)
    {
      if i < |l| {
        assert t[i] == l[i];
      } else if i == |l| {
        assert t[i + 1..] == rest;
      } else {
        var j := i - |l| - 1;
        assert t[i] == rest[j] && t[i + 1..] == rest[j + 1..];
        assert SurvivesAt(rest, j);
      }
    }
  }

  // ---- what the decoder makes of any name ----

  /** `w` is the text `t` with a first length, a zero behind it, and lengths for the dots between labels. */
  ghost predicate Mirrors(w: seq<Octet>, t: seq<Octet>) {
    && |w| == |t| + 2 && 1 <= w[0] <= 63 && w[|t| + 1] == 0
    && forall i :: 0 <= i < |t| ==> MirrorsAt(w, t, i)
  }

  predicate MirrorsAt(w: seq<Octet>, t: seq<Octet>, i: nat)
    requires i < |t| && i + 1 < |w|
  {
    w[i + 1] != 0 && CharOf(w[i + 1]) == CharOf(t[i])
  }

  lemma {:induction false} WireMirrors(labels: seq<seq<Octet>>)
    requires AreStringLabels(labels)
    ensures Mirrors(Wire(labels), Text(labels))
    decreases |labels|
  {
    hide Mirrors;
    var l, rest := labels[0], labels[1..];
    assert IsStringLabel(l);
    if rest == [] {
      LastMirrors(l);
      assert Wire(rest) == [0];
    } else {
      assert AreStringLabels(rest) by {
        assert forall x :: x in rest ==> x in labels;
      }
      WireMirrors(rest);
      WireJoin(l, Wire(rest), Text(rest));
    }
  }

  lemma LastMirrors(l: seq<Octet>)
    requires IsStringLabel(l)
    ensures Mirrors([|l|] + l + [0], l)
  {
  }

  lemma WireJoin(l: seq<Octet>, w: seq<Octet>, t: seq<Octet>)
    requires Mirrors(w, t) && IsStringLabel(l)
    ensures Mirrors([|l|] + l + w, l + [DOT] + t)
  {
    var v, s := [|l|] + l + w, l + [DOT] + t;
    forall i | 0 <= i < |s|
      ensures MirrorsAt(v, s, i)
    {
      if i < |l| {
        assert v[i + 1] == l[i] == s[i];
      } else if i == |l| {
        assert v[i + 1] == w[0] && s[i] == DOT;
      } else {
        assert v[i + 1] == w[i - |l|] && s[i] == t[i - |l| - 1] && MirrorsAt(w, t, i - |l| - 1);
      }
    }
  }

  /** Every name of up to 254 bytes is decoded, up to its end: with a dot for every byte up to 63. */
  lemma DecodesSeen(labels: seq<seq<Octet>>, before: seq<Octet>, after: seq<Octet>, len: int)
    requires AreStringLabels(labels) && |Text(labels)| <= 254 && |Text(labels)| + 2 <= len
    ensures DecodeName(before + Wire(labels) + after, |before|, len) ==
      Got(Chars(Text(labels)), |before| + |Wire(labels)|)
  {
    hide Chars, Scan, Wire, Text, CharOf, IsStringLabel;
    var e, s := Wire(labels), Text(labels);
    WireMirrors(labels);
    forall k | 1 <= k < |s| + 1
      ensures e[k] != 0
    {
      assert MirrorsAt(e, s, k - 1);
    }
    ScanInside(before, e, after, Limit(len), |s| + 1);
    var c := e[1..|s| + 1];
    forall i | 0 <= i < |s|
      ensures CharOf(c[i]) == CharOf(s[i])
    {
      assert MirrorsAt(e, s, i);
    }
    assert Chars(c) == Chars(s);
  }

  /** A value that is read ends one byte behind its text. */
  lemma {:induction false} ScanNext(w: seq<Octet>, pos: nat, i: nat, lim: int)
    requires i >= 1
    ensures var r := Scan(w, pos, i, lim); r.Got? ==> r.next == pos + |r.value| + 2 && r.next <= |w|
    decreases lim - i
  {
    if i < lim && pos + i < |w| && w[pos + i] != 0 { ScanNext(w, pos, i + 1, lim); }
  }

  /** A zero on the way ends the scan at the latest. */
  lemma {:induction false} ScanStops(w: seq<Octet>, pos: nat, i: nat, lim: int, k: nat)
    requires 1 <= i <= k && pos + k < |w| && w[pos + k] == 0
    ensures var r := Scan(w, pos, i, lim); r.Got? ==> r.next <= pos + k + 1
    decreases k - i
  {
    if i < k { ScanStops(w, pos, i + 1, lim, k); }
  }

  /** A zero inside a label is a zero inside the wire form. */
  lemma {:induction false} ZeroInside(labels: seq<seq<Octet>>, l: seq<Octet>, i: nat) returns (k: nat)
    requires l in labels && i < |l| && l[i] == 0
    ensures 1 <= k < |Wire(labels)| - 1 && Wire(labels)[k] == 0
    decreases |labels|
  {
    WireIs(labels);
    WireSome(labels[1..]);
    if l == labels[0] {
      k := i + 1;
      assert Wire(labels)[k] == l[i];
    } else {
      k := ZeroInside(labels[1..], l, i);
      k := k + 1 + |labels[0]|;
    }
  }

  lemma WireSome(labels: seq<seq<Octet>>)
    ensures |Wire(labels)| >= 1
  {
  }

  /** The decoder finds the end of a name of up to 256 bytes on the wire if and only if the name has a label and
      no zero inside: the root alone and names with zeros are left too late or too early. */
  lemma NameEndsIff(labels: seq<seq<Octet>>, before: seq<Octet>, after: seq<Octet>, len: int)
    requires (forall l :: l in labels ==> 1 <= |l| <= 63) && |Wire(labels)| <= 256 && |Wire(labels)| <= len
    ensures var r := DecodeName(before + Wire(labels) + after, |before|, len);
      r.Got? && r.next == |before| + |Wire(labels)| <==> AreStringLabels(labels)
  {
    hide Scan, Wire, Text, Mirrors;
    var w, p := before + Wire(labels) + after, |before|;
    if AreStringLabels(labels) {
      WireMirrors(labels);
      MirrorSize(Wire(labels), Text(labels));
      DecodesSeen(labels, before, after, len);
    } else if labels == [] {
      ScanNext(w, p, 1, Limit(len));
      WireNone();
    } else {
      var l :| l in labels && !IsStringLabel(l);
      var i :| 0 <= i < |l| && l[i] == 0;
      var k := ZeroInside(labels, l, i);
      assert w[p + k] == Wire(labels)[k];
      ScanStops(w, p, 1, Limit(len), k);
    }
  }

  lemma MirrorSize(w: seq<Octet>, t: seq<Octet>)
    requires Mirrors(w, t)
    ensures |w| == |t| + 2
  {
  }

  lemma WireNone()
    ensures Wire([]) == [0]
  {
  }

  lemma CharsJoin(a: seq<Octet>, b: seq<Octet>)
    ensures Chars(a + b) == Chars(a) + Chars(b)
  {
    hide Chars;
  }

  /** Up to the first byte that the decoder takes for a length, a label stays what it is. */
  lemma {:induction false} SeenLen(l: seq<Octet>, rest: seq<Octet>)
    requires rest == [] || rest[0] == DOT
    ensures LabelLen(Chars(l) + rest) <= |l|
    ensures LabelLen(Chars(l) + rest) == |l| <==> forall i :: 0 <= i < |l| ==> l[i] > 63
    ensures (forall i :: 0 <= i < |l| ==> l[i] > 63) ==> Chars(l) == l
  {
    hide Chars;
    var s := Chars(l) + rest;
    LabelEnds(s);
    var k := LabelLen(s);
    assert forall i :: 0 <= i < |l| ==> s[i] == CharOf(l[i]);
    assert rest != [] ==> s[|l|] == DOT;
    if i :| 0 <= i < |l| && l[i] <= 63 {
      assert s[i] == DOT;
    }
  }

  /** Encoding what was decoded gives the wire form again if and only if all bytes are above 63: otherwise the
      length in front of the first other byte comes out too small. */
  lemma {:induction false} EncodesSeenIff(labels: seq<seq<Octet>>)
    requires AreStringLabels(labels)
    ensures EncodeName(Chars(Text(labels))) == Wire(labels) <==> AreHighLabels(labels)
    decreases |labels|
  {
    hide Chars, LabelLen, IsStringLabel, IsHighLabel, CharOf, EncodeName, Wire, Text;
    var l, rest := labels[0], labels[1..];
    var t := if rest == [] then [] else [DOT] + Chars(Text(rest));
    SeenText(labels);
    SeenLen(l, t);
    HighFirst(labels);
    EncodesFirst(Chars(Text(labels)), l, t, labels);
    if IsHighLabel(l) && rest != [] { EncodesSeenIff(rest); }
  }

  lemma HighFirst(labels: seq<seq<Octet>>)
    requires AreStringLabels(labels)
    ensures IsStringLabel(labels[0]) && (labels[1..] != [] ==> AreStringLabels(labels[1..]))
    ensures IsHighLabel(labels[0]) <==> forall i :: 0 <= i < |labels[0]| ==> labels[0][i] > 63
    ensures AreHighLabels(labels) <==> IsHighLabel(labels[0]) && (labels[1..] != [] ==> AreHighLabels(labels[1..]))
  {
    assert labels == [labels[0]] + labels[1..];
  }

  /** The first label of `s`, against the first one of the wire form. */
  lemma EncodesFirst(s: seq<Octet>, l: seq<Octet>, t: seq<Octet>, labels: seq<seq<Octet>>)
    requires labels != [] && l == labels[0] && IsStringLabel(l) && s == Chars(l) + t && LabelLen(s) <= |l|
    requires LabelLen(s) == |l| ==> Chars(l) == l
    requires (t == [] <==> labels[1..] == []) && (t != [] ==> t[0] == DOT)
    ensures EncodeName(s) == Wire(labels) <==>
      LabelLen(s) == |l| && (t != [] ==> EncodeName(t[1..]) == Wire(labels[1..]))
  {
    hide Chars, LabelLen, EncodeName, Wire, Text, IsStringLabel;
    var k, rest := LabelLen(s), labels[1..];
    LabelFits(l);
    EncodeIs(s);
    WireIs(labels);
    if k < |l| {
      assert EncodeName(s)[0] == k != |l| == Wire(labels)[0];
    } else if t != [] {
      assert s[..k] == l && s[k + 1..] == t[1..];
      SameTail([k % 256] + l, EncodeName(t[1..]), Wire(rest));
    }
  }

  lemma LabelFits(l: seq<Octet>)
    requires IsStringLabel(l)
    ensures 1 <= |l| <= 63
  {
  }

  lemma EncodeIs(s: seq<Octet>)
    ensures var k := LabelLen(s);
      EncodeName(s) == [k % 256] + s[..k] + if k == |s| then [0] else EncodeName(s[k + 1..])
  {
    hide LabelLen;
    assert s[..|s|] == s;
  }

  lemma WireIs(labels: seq<seq<Octet>>)
    requires labels != []
    ensures Wire(labels) == [|labels[0]| % 256] + labels[0] + Wire(labels[1..]) && Wire([]) == [0]
  {
  }

  lemma SameTail(a: seq<Octet>, b: seq<Octet>, c: seq<Octet>)
    ensures a + b == a + c <==> b == c
  {
    assert (a + b)[|a|..] == b && (a + c)[|a|..] == c;
  }

  lemma SeenText(labels: seq<seq<Octet>>)
    requires labels != []
    ensures Chars(Text(labels)) ==
      Chars(labels[0]) + if labels[1..] == [] then [] else [DOT] + Chars(Text(labels[1..]))
  {
    hide Chars;
    if |labels| > 1 {
      assert Text(labels) == labels[0] + ([DOT] + Text(labels[1..]));
      assert Chars([DOT]) == [DOT];
      CharsJoin(labels[0], [DOT] + Text(labels[1..]));
      CharsJoin([DOT], Text(labels[1..]));
    }
  }

  /** For names of labels with bytes above 63: decoding undoes encoding, and encoding undoes decoding. */
  lemma {:induction false} NameRoundTrips(labels: seq<seq<Octet>>, before: seq<Octet>, after: seq<Octet>, len: int)
    requires AreHighLabels(labels) && |Text(labels)| <= 254 && |Text(labels)| + 2 <= len
    ensures AreLabels(labels) && EncodeName(Text(labels)) == Wire(labels)
    ensures DecodeName(before + Wire(labels) + after, |before|, len) == Got(Text(labels), |before| + |Wire(labels)|)
  {
    HighSurvives(labels);
    EncodesLabels(labels);
    RoundTripIff(Text(labels), before, after, len);
  }
}
