/** dns.c as functions on bytes: decode a query, resolve it, encode the response. */
module DnsSpec {
  import opened Common
  import opened DnsNames

  const A_TYPE := 1
  const TXT_TYPE := 16
  const AAAA_TYPE := 28
  const NOT_IMPLEMENTED := 4
  const TTL := 3600

  type Word = x: int | 0 <= x < 0x1_0000
  type Long = x: int | 0 <= x < 0x1_0000_0000

  datatype Question = Question(qName: seq<Octet>, qType: Word, qClass: Word)

  datatype RData = NoData | Address(addr: seq<Octet>) | Txt(len: Octet, text: seq<Octet>)

  datatype Record = Record(name: seq<Octet>, rtype: Word, class_: Word, ttl: Long, rdLength: Word, data: RData)

  datatype Message = Message(id: Word, qr: nat, rcode: nat, qdCount: Word, anCount: Word, nsCount: Word, arCount: Word,
    questions: seq<Question>, answers: seq<Record>)

  // ---- numbers on the wire ----

  function Put16(v: Word): (w: seq<Octet>)
    ensures |w| == 2
  {
    [v / 256, v % 256]
  }

  function Put32(v: Long): (w: seq<Octet>)
    ensures |w| == 4
  {
    Put16(v / 0x1_0000) + Put16(v % 0x1_0000)
  }

  function Get16(w: seq<Octet>, pos: nat): Word
    requires pos + 2 <= |w|
  {
    (w[pos] as int) * 256 + w[pos + 1]
  }

  function Get32(w: seq<Octet>, pos: nat): Long
    requires pos + 4 <= |w|
  {
    (Get16(w, pos) as int) * 0x1_0000 + Get16(w, pos + 2)
  }

  /** `part` stands in `w` at `pos`. */
  ghost predicate Holds(w: seq<Octet>, pos: nat, part: seq<Octet>) {
    pos + |part| <= |w| && w[pos..pos + |part|] == part
  }

  lemma HoldsBoth(w: seq<Octet>, pos: nat, a: seq<Octet>, b: seq<Octet>)
    requires Holds(w, pos, a + b)
    ensures Holds(w, pos, a) && Holds(w, pos + |a|, b)
  {
    var c := a + b;
    assert c[..|a|] == a && c[|a|..] == b;
    assert w[pos..pos + |c|][..|a|] == w[pos..pos + |a|];
    assert w[pos..pos + |c|][|a|..] == w[pos + |a|..pos + |c|];
  }

  lemma HoldsAt(w: seq<Octet>, pos: nat, part: seq<Octet>, i: nat)
    requires Holds(w, pos, part) && i < |part|
    ensures w[pos + i] == part[i]
  {
    assert w[pos..pos + |part|][i] == part[i];
  }

  lemma Get16Holds(w: seq<Octet>, pos: nat, v: Word)
    requires Holds(w, pos, Put16(v))
    ensures Get16(w, pos) == v
  {
    HoldsAt(w, pos, Put16(v), 0);
    HoldsAt(w, pos, Put16(v), 1);
  }

  lemma Get32Holds(w: seq<Octet>, pos: nat, v: Long)
    requires Holds(w, pos, Put32(v))
    ensures Get32(w, pos) == v
  {
    HoldsBoth(w, pos, Put16(v / 0x1_0000), Put16(v % 0x1_0000));
    Get16Holds(w, pos, v / 0x1_0000);
    Get16Holds(w, pos + 2, v % 0x1_0000);
  }

  // ---- decoding a query ----

  /** The questions from `pos` on; each goes to the front of the list. */
  function ReadQuestions(w: seq<Octet>, pos: nat, n: nat, size: int, list: seq<Question>): Parse<seq<Question>>
    decreases n
  {
    if n == 0 then Got(list, pos)
    else
      var name := DecodeName(w, pos, size);
      if name.Wild? then Wild
      else
        var p := if name.Got? then name.next else pos;
        if p + 4 > |w| then Wild
        else if name.Failed? then Failed
        else ReadQuestions(w, p + 4, n - 1, size, [Question(name.value, Get16(w, p), Get16(w, p + 2))] + list)
  }

  /** decode_msg, into an empty message. */
  function DecodeMsg(w: seq<Octet>, size: int): Parse<Message> {
    if |w| < 12 then Wild
    else
      var m := Message(Get16(w, 0), Get16(w, 2) / 0x8000, Get16(w, 2) % 16,
        Get16(w, 4), Get16(w, 6), Get16(w, 8), Get16(w, 10), [], []);
      if m.anCount != 0 || m.nsCount != 0 then Failed
      else
        match ReadQuestions(w, 12, m.qdCount, size, [])
        case Got(list, next) => Got(m.(questions := list), next)
        case Failed => Failed
        case Wild => Wild
  }

  // ---- resolving ----

  /** "arno.0voice.com" */
  const KNOWN: seq<Octet> := [97, 114, 110, 111, 46, 48, 118, 111, 105, 99, 101, 46, 99, 111, 109]

  const A_DATA: seq<Octet> := [192, 168, 232, 133]
  const AAAA_DATA: seq<Octet> := [0xfe, 0x80, 0, 0, 0, 0, 0, 0, 0, 0, 0, 0, 0, 0, 0, 1]
  /** "abcdefg" */
  const TXT_DATA: seq<Octet> := [97, 98, 99, 100, 101, 102, 103]

  predicate Implemented(t: Word) {
    t == A_TYPE || t == AAAA_TYPE || t == TXT_TYPE
  }

  function Answer(q: Question): Option<Record> {
    if q.qName != KNOWN then None
    else if q.qType == A_TYPE then Some(Record(q.qName, q.qType, q.qClass, TTL, 4, Address(A_DATA)))
    else if q.qType == AAAA_TYPE then Some(Record(q.qName, q.qType, q.qClass, TTL, 16, Address(AAAA_DATA)))
    else if q.qType == TXT_TYPE then
      Some(Record(q.qName, q.qType, q.qClass, TTL, |TXT_DATA| + 1, Txt(|TXT_DATA|, TXT_DATA)))
    else None
  }

  /** The answers to the questions, in the order of the questions. */
  function Answers(qs: seq<Question>): (r: seq<Record>)
    ensures |r| <= |qs|
  {
    if qs == [] then []
    else (if Answer(qs[0]).Some? then [Answer(qs[0]).value] else []) + Answers(qs[1..])
  }

  /** The loop of resolve_query: each answer goes to the front of the list. */
  function ResolveAll(qs: seq<Question>, m: Message): Message
    requires m.anCount + |qs| < 0x1_0000
  {
    if qs == [] then m
    else
      ResolveAll(qs[1..], ResolveOne(qs[0], m))
  }

  function Resolve(m: Message): Message
    requires |m.questions| < 0x1_0000
  {
    ResolveAll(m.questions, m.(qr := 1, rcode := 0, anCount := 0, nsCount := 0, arCount := 0))
  }

  /** Some question is of a type that the server does not implement. */
  predicate AnyOther(qs: seq<Question>) {
    exists q :: q in qs && !Implemented(q.qType)
  }

  function ResolveOne(q: Question, m: Message): Message
    requires m.anCount + 1 < 0x1_0000
  {
    if !Implemented(q.qType) then m.(rcode := NOT_IMPLEMENTED)
    else if Answer(q).Some? then m.(anCount := m.anCount + 1, answers := [Answer(q).value] + m.answers)
    else m
  }

  /** The answers come out in the reverse of the list, and only questions of other types change the response code. */
  lemma {:induction false} ResolvedAll(qs: seq<Question>, m: Message)
    requires m.anCount + |qs| < 0x1_0000
    ensures var r := ResolveAll(qs, m);
      && r.answers == Answers(Reversed(qs)) + m.answers && r.anCount == m.anCount + |Answers(Reversed(qs))|
      && r.rcode == (if AnyOther(qs) then NOT_IMPLEMENTED else m.rcode)
      && r == m.(answers := r.answers, anCount := r.anCount, rcode := r.rcode)
    decreases |qs|
  {
    hide Answer, Answers, Implemented;
    NoAnswers();
    if qs != [] {
      var m' := ResolveOne(qs[0], m);
      ResolvedAll(qs[1..], m');
      AnswersAdd(Reversed(qs[1..]), qs[0]);
      OtherType(qs[0]);
      assert AnyOther(qs) <==> !Implemented(qs[0].qType) || AnyOther(qs[1..]);
      var one, rest := if Answer(qs[0]).Some? then [Answer(qs[0]).value] else [], Answers(Reversed(qs[1..]));
      Assoc(rest, one, m.answers);
      assert [] + m.answers == m.answers;
    }
  }

  lemma OtherType(q: Question)
    ensures !Implemented(q.qType) ==> Answer(q).None?
  {
  }

  lemma NoAnswers()
    ensures Answers([]) == []
  {
  }

  lemma {:induction false} AnswersAdd(qs: seq<Question>, q: Question)
    ensures Answers(qs + [q]) == Answers(qs) + if Answer(q).Some? then [Answer(q).value] else []
  {
    var one := if Answer(q).Some? then [Answer(q).value] else [];
    if qs == [] {
      assert [q][1..] == [] && one + [] == one && [] + one == one;
    } else {
      AnswersAdd(qs[1..], q);
      var f := if Answer(qs[0]).Some? then [Answer(qs[0]).value] else [];
      assert (qs + [q])[1..] == qs[1..] + [q];
      assert f + (Answers(qs[1..]) + one) == (f + Answers(qs[1..])) + one;
    }
  }

  // ---- encoding ----

  function EncodeHeader(m: Message): (w: seq<Octet>)
    ensures |w| == 12
  {
    Put16(m.id) + Put16((m.qr % 2) * 0x8000 + m.rcode % 16)
      + Put16(m.qdCount) + Put16(m.anCount) + Put16(m.nsCount) + Put16(m.arCount)
  }

  function EncodeQuestion(q: Question): seq<Octet> {
    EncodeName(q.qName) + Put16(q.qType) + Put16(q.qClass)
  }

  function EncodeQuestions(qs: seq<Question>): seq<Octet> {
    if qs == [] then [] else EncodeQuestion(qs[0]) + EncodeQuestions(qs[1..])
  }

  function DataBytes(r: Record): seq<Octet> {
    match r.data
    case NoData => []
    case Address(addr) => addr
    case Txt(len, text) => [len] + text
  }

  /** The record's type and data fit together, as the union in the code needs it. */
  predicate Matched(r: Record) {
    if r.rtype == A_TYPE then r.data.Address? && |r.data.addr| == 4
    else if r.rtype == AAAA_TYPE then r.data.Address? && |r.data.addr| == 16
    else r.rtype == TXT_TYPE && r.data.Txt? && |r.data.text| == r.data.len
  }

  function RecordHead(r: Record): seq<Octet> {
    EncodeName(r.name) + Put16(r.rtype) + Put16(r.class_) + Put32(r.ttl) + Put16(r.rdLength)
  }

  function EncodeRecords(rs: seq<Record>): seq<Octet> {
    if rs == [] then [] else RecordHead(rs[0]) + DataBytes(rs[0]) + EncodeRecords(rs[1..])
  }

  function EncodeMsg(m: Message): seq<Octet> {
    EncodeHeader(m) + EncodeQuestions(m.questions) + EncodeRecords(m.answers)
  }

  /** Every answer has one of the three types with data to match, and announces as many bytes as it has. */
  lemma {:induction false} AnswersMatched(qs: seq<Question>)
    ensures forall r :: r in Answers(qs) ==>
      Matched(r) && |DataBytes(r)| == r.rdLength && r.name == KNOWN && r.ttl == TTL
  {
    if qs != [] { AnswersMatched(qs[1..]); }
  }

  // ---- an independent reader for responses (sections 4.1.1 to 4.1.3 of RFC 1035) ----

  /** A name: labels behind their lengths, up to a zero. */
  function ReadLabels(w: seq<Octet>, pos: nat): Parse<seq<seq<Octet>>>
    decreases |w| - pos
  {
    if pos >= |w| then Wild
    else if w[pos] == 0 then Got([], pos + 1)
    else if w[pos] > 63 then Failed
    else if pos + 1 + w[pos] > |w| then Wild
    else
      match ReadLabels(w, pos + 1 + w[pos])
      case Got(rest, next) => Got([w[pos + 1..pos + 1 + w[pos]]] + rest, next)
      case Failed => Failed
      case Wild => Wild
  }

  datatype Entry = Entry(labels: seq<seq<Octet>>, etype: Word, eclass: Word)
  datatype Resource = Resource(labels: seq<seq<Octet>>, rtype: Word, rclass: Word, ttl: Long, data: seq<Octet>)

  function ReadEntry(w: seq<Octet>, pos: nat): Parse<Entry> {
    match ReadLabels(w, pos)
    case Got(l, p) => if p + 4 > |w| then Wild else Got(Entry(l, Get16(w, p), Get16(w, p + 2)), p + 4)
    case Failed => Failed
    case Wild => Wild
  }

  function ReadEntries(w: seq<Octet>, pos: nat, n: nat): Parse<seq<Entry>>
    decreases n
  {
    if n == 0 then Got([], pos)
    else
      match ReadEntry(w, pos)
      case Failed => Failed
      case Wild => Wild
      case Got(e, p) =>
        match ReadEntries(w, p, n - 1)
        case Got(es, next) => Got([e] + es, next)
        case Failed => Failed
        case Wild => Wild
  }

  /** A resource record takes as many bytes of data as RDLENGTH says. */
  function ReadResource(w: seq<Octet>, pos: nat): Parse<Resource> {
    match ReadEntry(w, pos)
    case Failed => Failed
    case Wild => Wild
    case Got(e, p) =>
      if p + 6 > |w| || p + 6 + Get16(w, p + 4) > |w| then Wild
      else
        var next := p + 6 + Get16(w, p + 4);
        Got(Resource(e.labels, e.etype, e.eclass, Get32(w, p), w[p + 6..next]), next)
  }

  function ReadResources(w: seq<Octet>, pos: nat, n: nat): Parse<seq<Resource>>
    decreases n
  {
    if n == 0 then Got([], pos)
    else
      match ReadResource(w, pos)
      case Failed => Failed
      case Wild => Wild
      case Got(e, p) =>
        match ReadResources(w, p, n - 1)
        case Got(es, next) => Got([e] + es, next)
        case Failed => Failed
        case Wild => Wild
  }

  datatype Response = Response(id: Word, qr: nat, rcode: nat, nsCount: Word, arCount: Word,
    questions: seq<Entry>, answers: seq<Resource>)

  /** Reads as many questions and answers as the header announces. */
  function ReadResponse(w: seq<Octet>): Parse<Response> {
    if |w| < 12 then Wild
    else
      match ReadEntries(w, 12, Get16(w, 4))
      case Failed => Failed
      case Wild => Wild
      case Got(es, p) =>
        match ReadResources(w, p, Get16(w, 6))
        case Failed => Failed
        case Wild => Wild
        case Got(rs, next) =>
          Got(Response(Get16(w, 0), Get16(w, 2) / 0x8000, Get16(w, 2) % 16, Get16(w, 8), Get16(w, 10), es, rs), next)
  }

  predicate AllLabels(labels: seq<seq<Octet>>) {
    forall l :: l in labels ==> IsLabel(l)
  }

  lemma FirstLabel(w: seq<Octet>, pos: nat, labels: seq<seq<Octet>>)
    requires AllLabels(labels) && labels != [] && Holds(w, pos, Wire(labels))
    ensures AllLabels(labels[1..]) && Holds(w, pos + 1 + |labels[0]|, Wire(labels[1..]))
    ensures pos + 1 + |labels[0]| <= |w| && w[pos] == |labels[0]| && 1 <= w[pos] <= 63
    ensures w[pos + 1..pos + 1 + |labels[0]|] == labels[0]
  {
    hide Holds;
    var l, rest := labels[0], labels[1..];
    assert IsLabel(l) && forall x :: x in rest ==> x in labels;
    HoldsBoth(w, pos, [|l|] + l, Wire(rest));
    HoldsBoth(w, pos, [|l|], l);
    HoldsIs(w, pos, [|l|]);
    HoldsIs(w, pos + 1, l);
    HoldsAt(w, pos, [|l|], 0);
  }

  lemma {:induction false} ReadsWire(w: seq<Octet>, pos: nat, labels: seq<seq<Octet>>)
    requires AllLabels(labels) && Holds(w, pos, Wire(labels))
    ensures ReadLabels(w, pos) == Got(labels, pos + |Wire(labels)|)
    decreases |labels|
  {
    hide AllLabels;
    if labels == [] {
      HoldsAt(w, pos, Wire(labels), 0);
    } else {
      FirstLabel(w, pos, labels);
      hide Holds;
      ReadsWire(w, pos + 1 + |labels[0]|, labels[1..]);
      assert [labels[0]] + labels[1..] == labels;
    }
  }

  // ---- names as labels ----

  /** The labels between the dots. */
  function Split(s: seq<Octet>): (r: seq<seq<Octet>>)
    ensures r != []
    decreases |s|
  {
    var k := LabelLen(s);
    if k == |s| then [s] else [s[..k]] + Split(s[k + 1..])
  }

  /** A name of one or more labels of 1 to 63 bytes. */
  predicate IsName(s: seq<Octet>) {
    AreLabels(Split(s))
  }

  /** The encoder writes the labels between the dots, whatever their lengths. */
  lemma {:induction false} NameWire(s: seq<Octet>)
    ensures EncodeName(s) == Wire(Split(s))
    decreases |s|
  {
    hide LabelLen, Wire;
    var k := LabelLen(s);
    WireIs(Split(s));
    if k < |s| {
      NameWire(s[k + 1..]);
      assert Split(s)[1..] == Split(s[k + 1..]);
    } else {
      assert [s][1..] == [];
    }
  }

  lemma {:induction false} WireSize(labels: seq<seq<Octet>>)
    requires labels != []
    ensures |Wire(labels)| == |Text(labels)| + 2
    decreases |labels|
  {
    WireIs(labels);
    if |labels| > 1 { WireSize(labels[1..]); }
  }

  lemma {:induction false} SplitPure(s: seq<Octet>)
    requires IsText(s)
    ensures forall l :: l in Split(s) ==> forall i :: 0 <= i < |l| ==> l[i] != DOT && l[i] != 0
    decreases |s|
  {
    hide LabelLen;
    var k := LabelLen(s);
    LabelEnds(s);
    if k < |s| { SplitPure(s[k + 1..]); }
  }

  /** The length of a label fits into the six bits that a reader looks at. */
  predicate AllSized(labels: seq<seq<Octet>>) {
    forall l :: l in labels ==> 1 <= |l| <= 63
  }

  lemma NameSized(s: seq<Octet>)
    requires IsText(s)
    ensures IsName(s) <==> AllSized(Split(s))
  {
    hide Split;
    SplitPure(s);
    assert IsName(s) ==> forall l :: l in Split(s) ==> IsLabel(l);
  }

  function EntryOf(q: Question): Entry {
    Entry(Split(q.qName), q.qType, q.qClass)
  }

  function ResourceOf(r: Record): Resource {
    Resource(Split(r.name), r.rtype, r.class_, r.ttl, DataBytes(r))
  }

  function Entries(qs: seq<Question>): seq<Entry> {
    if qs == [] then [] else [EntryOf(qs[0])] + Entries(qs[1..])
  }

  function Resources(rs: seq<Record>): seq<Resource> {
    if rs == [] then [] else [ResourceOf(rs[0])] + Resources(rs[1..])
  }

  lemma ReadsQuestion(w: seq<Octet>, pos: nat, name: seq<Octet>, t: Word, c: Word)
    requires IsName(name) && Holds(w, pos, EncodeName(name) + Put16(t) + Put16(c))
    ensures ReadEntry(w, pos) == Got(Entry(Split(name), t, c), pos + |EncodeName(name)| + 4)
  {
    hide Put16, EncodeName, ReadLabels, Split;
    var e := EncodeName(name);
    NameWire(name);
    HoldsBoth(w, pos, e + Put16(t), Put16(c));
    HoldsBoth(w, pos, e, Put16(t));
    ReadsWire(w, pos, Split(name));
    Get16Holds(w, pos + |e|, t);
    Get16Holds(w, pos + |e| + 2, c);
  }

  lemma {:induction false} ReadsQuestions(w: seq<Octet>, pos: nat, qs: seq<Question>)
    requires (forall q :: q in qs ==> IsName(q.qName)) && Holds(w, pos, EncodeQuestions(qs))
    ensures ReadEntries(w, pos, |qs|) == Got(Entries(qs), pos + |EncodeQuestions(qs)|)
    decreases |qs|
  {
    hide EncodeName, IsName, ReadEntry, Split;
    if qs != [] {
      var q := qs[0];
      HoldsBoth(w, pos, EncodeQuestion(q), EncodeQuestions(qs[1..]));
      ReadsQuestion(w, pos, q.qName, q.qType, q.qClass);
      ReadsQuestions(w, pos + |EncodeQuestion(q)|, qs[1..]);
    }
  }

  lemma ReadsRecord(w: seq<Octet>, pos: nat, r: Record)
    requires IsName(r.name) && |DataBytes(r)| == r.rdLength && Holds(w, pos, RecordHead(r) + DataBytes(r))
    ensures ReadResource(w, pos) == Got(ResourceOf(r), pos + |RecordHead(r) + DataBytes(r)|)
  {
    hide Put16, Put32, EncodeName, ReadEntry, Split, IsName, DataBytes, Holds, Get16, Get32;
    var e := EncodeName(r.name) + Put16(r.rtype) + Put16(r.class_);
    var p := pos + |e|;
    HoldsBoth(w, pos, RecordHead(r), DataBytes(r));
    HoldsBoth(w, pos, e + Put32(r.ttl), Put16(r.rdLength));
    HoldsBoth(w, pos, e, Put32(r.ttl));
    ReadsQuestion(w, pos, r.name, r.rtype, r.class_);
    Get32Holds(w, p, r.ttl);
    Get16Holds(w, p + 4, r.rdLength);
    HoldsIs(w, p + 6, DataBytes(r));
  }

  lemma HoldsIs(w: seq<Octet>, pos: nat, part: seq<Octet>)
    requires Holds(w, pos, part)
    ensures pos + |part| <= |w| && w[pos..pos + |part|] == part
  {
  }

  lemma {:induction false} ReadsRecords(w: seq<Octet>, pos: nat, rs: seq<Record>)
    requires (forall r :: r in rs ==> IsName(r.name) && |DataBytes(r)| == r.rdLength)
    requires Holds(w, pos, EncodeRecords(rs))
    ensures ReadResources(w, pos, |rs|) == Got(Resources(rs), pos + |EncodeRecords(rs)|)
    decreases |rs|
  {
    hide RecordHead, DataBytes, IsName, ReadResource, Split;
    if rs != [] {
      var r := rs[0];
      HoldsBoth(w, pos, RecordHead(r) + DataBytes(r), EncodeRecords(rs[1..]));
      ReadsRecord(w, pos, r);
      ReadsRecords(w, pos + |RecordHead(r) + DataBytes(r)|, rs[1..]);
    }
  }

  /** What is read as a name stands there in wire form. */
  lemma {:induction false} ReadLabelsWire(w: seq<Octet>, pos: nat)
    ensures var r := ReadLabels(w, pos);
      r.Got? ==> r.next == pos + |Wire(r.value)| && Holds(w, pos, Wire(r.value)) && AllSized(r.value)
    decreases |w| - pos
  {
    hide Wire, Holds;
    if pos < |w| && w[pos] == 0 {
      WireNone();
      HoldsHere(w, pos, pos + 1);
      assert w[pos..pos + 1] == [0];
    } else if pos < |w| && w[pos] <= 63 && pos + 1 + w[pos] <= |w| {
      var n := pos + 1 + w[pos];
      ReadLabelsWire(w, n);
      var r := ReadLabels(w, n);
      if r.Got? { LabelWire(w, pos, r.value); }
    }
  }

  /** One label more, in front. */
  lemma LabelWire(w: seq<Octet>, pos: nat, rest: seq<seq<Octet>>)
    requires pos < |w| && 0 < w[pos] <= 63 && pos + 1 + w[pos] <= |w| && AllSized(rest)
    requires Holds(w, pos + 1 + w[pos], Wire(rest))
    ensures var l := [w[pos + 1..pos + 1 + w[pos]]] + rest;
      |Wire(l)| == 1 + w[pos] + |Wire(rest)| && Holds(w, pos, Wire(l)) && AllSized(l)
  {
    hide Wire, Holds;
    var n := pos + 1 + w[pos];
    var l := w[pos + 1..n];
    WireIs([l] + rest);
    assert ([l] + rest)[1..] == rest;
    HoldsHere(w, pos, n);
    assert w[pos..n] == [w[pos]] + l;
    HoldsTwo(w, pos, w[pos..n], Wire(rest));
  }

  lemma HoldsHere(w: seq<Octet>, from: nat, to: nat)
    requires from <= to <= |w|
    ensures Holds(w, from, w[from..to])
  {
  }

  lemma HoldsTwo(w: seq<Octet>, pos: nat, a: seq<Octet>, b: seq<Octet>)
    requires Holds(w, pos, a) && Holds(w, pos + |a|, b)
    ensures Holds(w, pos, a + b)
  {
    var m, n := pos + |a|, pos + |a| + |b|;
    assert w[pos..n] == w[pos..m] + w[m..n];
  }

  /** Entries that are read where questions with names of the same length were written are those questions. */
  ghost predicate Aligned(qs: seq<Question>, fs: seq<Entry>) {
    |qs| == |fs| && forall i :: 0 <= i < |qs| ==> |Wire(fs[i].labels)| == |qs[i].qName| + 2
  }

  lemma {:induction false} ReadsBack(w: seq<Octet>, pos: nat, qs: seq<Question>, fs: seq<Entry>)
    requires Aligned(qs, fs) && Holds(w, pos, EncodeQuestions(qs))
    requires ReadEntries(w, pos, |qs|).Got? && ReadEntries(w, pos, |qs|).value == fs
    ensures forall i :: 0 <= i < |qs| ==>
      EncodeName(qs[i].qName) == Wire(fs[i].labels) && AllSized(fs[i].labels)
    decreases |qs|
  {
    hide EncodeName, Wire, Holds, ReadLabels, Get16, AllSized;
    if qs != [] {
      var q, e, n := qs[0], EncodeQuestion(qs[0]), EncodeName(qs[0].qName);
      ReadsFirst(w, pos, |qs|, fs);
      HoldsBoth(w, pos, e, EncodeQuestions(qs[1..]));
      HoldsBoth(w, pos, n + Put16(q.qType), Put16(q.qClass));
      HoldsBoth(w, pos, n, Put16(q.qType));
      HoldsIs(w, pos, n);
      HoldsIs(w, pos, Wire(fs[0].labels));
      ReadsBack(w, pos + |e|, qs[1..], fs[1..]);
      assert forall i :: 0 < i < |qs| ==> qs[i] == qs[1..][i - 1] && fs[i] == fs[1..][i - 1];
    }
  }

  lemma ReadsFirst(w: seq<Octet>, pos: nat, n: nat, fs: seq<Entry>)
    requires n > 0 && ReadEntries(w, pos, n).Got? && ReadEntries(w, pos, n).value == fs && |fs| == n
    ensures var wire := Wire(fs[0].labels);
      && Holds(w, pos, wire) && AllSized(fs[0].labels)
      && ReadEntries(w, pos + |wire| + 4, n - 1).Got? && ReadEntries(w, pos + |wire| + 4, n - 1).value == fs[1..]
  {
    hide Wire, Holds, ReadLabels, Get16, AllSized;
    ReadLabelsWire(w, pos);
    var r := ReadEntry(w, pos);
    assert fs == [r.value] + ReadEntries(w, r.next, n - 1).value;
  }

  /** A response that announces what it has is read back in full: every question, every answer, and nothing else. */
  lemma {:induction false} ResponseReads(m: Message)
    requires m.qdCount == |m.questions| && m.anCount == |m.answers|
    requires forall q :: q in m.questions ==> IsName(q.qName)
    requires forall r :: r in m.answers ==> IsName(r.name) && |DataBytes(r)| == r.rdLength
    ensures ReadResponse(EncodeMsg(m)) == Got(
      Response(m.id, m.qr % 2, m.rcode % 16, m.nsCount, m.arCount, Entries(m.questions), Resources(m.answers)),
      |EncodeMsg(m)|)
  {
    hide Put16, EncodeQuestions, EncodeRecords, IsName, DataBytes, Split, ReadEntries, ReadResources, Holds, Get16;
    var h, q, r := EncodeHeader(m), EncodeQuestions(m.questions), EncodeRecords(m.answers);
    var w := EncodeMsg(m);
    Whole(w);
    HoldsBoth(w, 0, h + q, r);
    HoldsBoth(w, 0, h, q);
    ReadsHeader(w, m);
    ReadsQuestions(w, 12, m.questions);
    ReadsRecords(w, 12 + |q|, m.answers);
  }

  lemma Whole(w: seq<Octet>)
    ensures Holds(w, 0, w)
  {
    assert w[0..|w|] == w;
  }

  lemma ReadsHeader(w: seq<Octet>, m: Message)
    requires Holds(w, 0, EncodeHeader(m))
    ensures |w| >= 12 && Get16(w, 0) == m.id && Get16(w, 4) == m.qdCount && Get16(w, 6) == m.anCount
    ensures Get16(w, 8) == m.nsCount && Get16(w, 10) == m.arCount
    ensures Get16(w, 2) / 0x8000 == m.qr % 2 && Get16(w, 2) % 16 == m.rcode % 16
  {
    hide Put16, Holds, Get16;
    var f: Word := (m.qr % 2) * 0x8000 + m.rcode % 16;
    var a := Put16(m.id);
    var b := a + Put16(f);
    var c := b + Put16(m.qdCount);
    var d := c + Put16(m.anCount);
    var e := d + Put16(m.nsCount);
    HoldsBoth(w, 0, e, Put16(m.arCount));
    HoldsBoth(w, 0, d, Put16(m.nsCount));
    HoldsBoth(w, 0, c, Put16(m.anCount));
    HoldsBoth(w, 0, b, Put16(m.qdCount));
    HoldsBoth(w, 0, a, Put16(f));
    HoldsIs(w, 10, Put16(m.arCount));
    Get16Holds(w, 0, m.id);
    Get16Holds(w, 2, f);
    Get16Holds(w, 4, m.qdCount);
    Get16Holds(w, 6, m.anCount);
    Get16Holds(w, 8, m.nsCount);
    Get16Holds(w, 10, m.arCount);
  }

  // ---- queries ----

  function QuestionOf(e: Entry): Question {
    Question(Text(e.labels), e.etype, e.eclass)
  }

  function EntryBytes(e: Entry): seq<Octet> {
    Wire(e.labels) + Put16(e.etype) + Put16(e.eclass)
  }

  function EntriesBytes(es: seq<Entry>): seq<Octet> {
    if es == [] then [] else EntryBytes(es[0]) + EntriesBytes(es[1..])
  }

  /** Questions with a name of labels of 1 to 63 bytes without a zero, 254 bytes in all. */
  predicate Proper(e: Entry) {
    AreStringLabels(e.labels) && |Text(e.labels)| <= 254
  }

  predicate AllProper(es: seq<Entry>) {
    forall e :: e in es ==> Proper(e)
  }

  /** The names that survive the decoder: besides, all their bytes are above 63. */
  predicate Readable(e: Entry) {
    AreHighLabels(e.labels) && |Text(e.labels)| <= 254
  }

  predicate AllReadable(es: seq<Entry>) {
    forall e :: e in es ==> Readable(e)
  }

  /** What the decoder makes of a question. */
  function SeenOf(e: Entry): Question {
    Question(Chars(Text(e.labels)), e.etype, e.eclass)
  }

  function Seen(es: seq<Entry>): (r: seq<Question>)
    ensures |r| == |es|
  {
    if es == [] then [] else [SeenOf(es[0])] + Seen(es[1..])
  }

  lemma DecodesName(w: seq<Octet>, pos: nat, labels: seq<seq<Octet>>, size: int)
    requires AreStringLabels(labels) && |Text(labels)| <= 254 && Holds(w, pos, Wire(labels)) && |Wire(labels)| <= size
    ensures DecodeName(w, pos, size) == Got(Chars(Text(labels)), pos + |Wire(labels)|)
  {
    hide Wire, Text, AreStringLabels, DecodeName, Chars, Mirrors;
    var e := Wire(labels);
    var before, after := w[..pos], w[pos + |e|..];
    assert before + e + after == w;
    WireMirrors(labels);
    MirrorSize(e, Text(labels));
    DecodesSeen(labels, before, after, size);
  }

  lemma DecodesEntry(w: seq<Octet>, pos: nat, e: Entry, size: int)
    requires Proper(e) && Holds(w, pos, EntryBytes(e)) && |EntryBytes(e)| <= size
    ensures var p := pos + |Wire(e.labels)|;
      && DecodeName(w, pos, size) == Got(SeenOf(e).qName, p) && p + 4 <= |w| && p + 4 == pos + |EntryBytes(e)|
      && Get16(w, p) == e.etype && Get16(w, p + 2) == e.eclass
  {
    hide Wire, Text, AreStringLabels, DecodeName, Put16, Holds, Get16, Chars;
    var n := Wire(e.labels);
    HoldsBoth(w, pos, n + Put16(e.etype), Put16(e.eclass));
    HoldsBoth(w, pos, n, Put16(e.etype));
    HoldsIs(w, pos + |n| + 2, Put16(e.eclass));
    DecodesName(w, pos, e.labels, size);
    Get16Holds(w, pos + |n|, e.etype);
    Get16Holds(w, pos + |n| + 2, e.eclass);
  }

  /** The questions come out in the reverse of the wire order. */
  lemma {:induction false} DecodesQuestions(w: seq<Octet>, pos: nat, es: seq<Entry>, size: int, list: seq<Question>)
    requires AllProper(es) && Holds(w, pos, EntriesBytes(es)) && |EntriesBytes(es)| <= size
    ensures ReadQuestions(w, pos, |es|, size, list) == Got(Reversed(Seen(es)) + list, pos + |EntriesBytes(es)|)
    decreases |es|
  {
    hide Holds, Proper, EntryBytes, DecodeName, Get16, Text, Wire, ReadQuestions, Reversed, Chars;
    if es == [] {
      NoQuestions(w, pos, size, list);
    } else {
      var e, rest := es[0], es[1..];
      HoldsBoth(w, pos, EntryBytes(e), EntriesBytes(rest));
      assert forall x :: x in rest ==> x in es;
      DecodesEntry(w, pos, e, size);
      OneQuestion(w, pos, |es|, size, list);
      DecodesQuestions(w, pos + |EntryBytes(e)|, rest, size, [SeenOf(e)] + list);
      ReverseStep(SeenOf(e), Seen(rest), list);
    }
  }

  lemma NoQuestions(w: seq<Octet>, pos: nat, size: int, list: seq<Question>)
    ensures ReadQuestions(w, pos, 0, size, list) == Got(Reversed([]) + list, pos)
  {
    assert [] + list == list;
  }

  lemma OneQuestion(w: seq<Octet>, pos: nat, n: nat, size: int, list: seq<Question>)
    requires n > 0 && DecodeName(w, pos, size).Got? && DecodeName(w, pos, size).next + 4 <= |w|
    ensures var p := DecodeName(w, pos, size).next;
      var q := Question(DecodeName(w, pos, size).value, Get16(w, p), Get16(w, p + 2));
      ReadQuestions(w, pos, n, size, list) == ReadQuestions(w, p + 4, n - 1, size, [q] + list)
  {
  }

  lemma ReverseStep<T>(q: T, rest: seq<T>, list: seq<T>)
    ensures Reversed([q] + rest) + list == Reversed(rest) + ([q] + list)
  {
    assert ([q] + rest)[1..] == rest;
  }

  function QueryHeader(id: Word, fields: Word, qd: Word, ar: Word): (w: seq<Octet>)
    ensures |w| == 12
  {
    Put16(id) + Put16(fields) + Put16(qd) + Put16(0) + Put16(0) + Put16(ar)
  }

  lemma ReadsQueryHeader(w: seq<Octet>, id: Word, fields: Word, qd: Word, ar: Word)
    requires Holds(w, 0, QueryHeader(id, fields, qd, ar))
    ensures |w| >= 12 && Get16(w, 0) == id && Get16(w, 2) == fields && Get16(w, 4) == qd
    ensures Get16(w, 6) == 0 && Get16(w, 8) == 0 && Get16(w, 10) == ar
  {
    hide Put16, Holds, Get16;
    var a := Put16(id);
    var b := a + Put16(fields);
    var c := b + Put16(qd);
    var d := c + Put16(0);
    var e := d + Put16(0);
    HoldsBoth(w, 0, e, Put16(ar));
    HoldsBoth(w, 0, d, Put16(0));
    HoldsBoth(w, 0, c, Put16(0));
    HoldsBoth(w, 0, b, Put16(qd));
    HoldsBoth(w, 0, a, Put16(fields));
    HoldsIs(w, 10, Put16(ar));
    Get16Holds(w, 0, id);
    Get16Holds(w, 2, fields);
    Get16Holds(w, 4, qd);
    Get16Holds(w, 6, 0);
    Get16Holds(w, 8, 0);
    Get16Holds(w, 10, ar);
  }

  /** A query of `size` bytes, in a buffer that may be longer, is decoded into its questions, in reverse order,
      with a dot for every byte up to 63 in their names. */
  lemma QueryDecodes(id: Word, fields: Word, ar: Word, es: seq<Entry>, tail: seq<Octet>, size: int)
    requires AllProper(es) && |es| < 0x1_0000 && |EntriesBytes(es)| <= size
    ensures DecodeMsg(QueryHeader(id, fields, |es|, ar) + EntriesBytes(es) + tail, size) == Got(
      Message(id, fields / 0x8000, fields % 16, |es|, 0, 0, ar, Reversed(Seen(es)), []), 12 + |EntriesBytes(es)|)
  {
    hide QueryHeader, EntriesBytes, Proper, Holds, ReadQuestions, Get16;
    var h, e := QueryHeader(id, fields, |es|, ar), EntriesBytes(es);
    var w := h + e + tail;
    Whole(w);
    HoldsBoth(w, 0, h + e, tail);
    HoldsBoth(w, 0, h, e);
    ReadsQueryHeader(w, id, fields, |es|, ar);
    DecodesQuestions(w, 12, es, size, []);
    assert Reversed(Seen(es)) + [] == Reversed(Seen(es));
  }

  // ---- responses ----

  lemma SplitHead(l: seq<Octet>, rest: seq<Octet>)
    requires IsLabel(l)
    ensures Split(l) == [l] && Split(l + ([DOT] + rest)) == [l] + Split(rest)
  {
    hide LabelLen, Split, IsLabel;
    LabelAhead(l, []);
    LabelAhead(l, [DOT] + rest);
    var s := l + ([DOT] + rest);
    assert l + [] == l && s[|l| + 1..] == rest && s[..|l|] == l;
    SplitAt(l, |l|);
    SplitAt(s, |l|);
  }

  lemma SplitAt(s: seq<Octet>, k: nat)
    requires k == LabelLen(s)
    ensures Split(s) == if k == |s| then [s] else [s[..k]] + Split(s[k + 1..])
  {
    hide LabelLen;
  }

  lemma {:induction false} SplitOfText(labels: seq<seq<Octet>>)
    requires AreLabels(labels)
    ensures Split(Text(labels)) == labels
    decreases |labels|
  {
    hide LabelLen, Split;
    var l, rest := labels[0], labels[1..];
    assert IsLabel(l);
    SplitHead(l, Text(rest));
    if rest != [] {
      assert forall x :: x in rest ==> x in labels;
      SplitOfText(rest);
      assert Text(labels) == l + ([DOT] + Text(rest));
    }
  }

  lemma KnownIsName()
    ensures IsName(KNOWN)
  {
    var a, b, c: seq<Octet> := [97, 114, 110, 111], [48, 118, 111, 105, 99, 101], [99, 111, 109];
    assert IsLabel(a) && IsLabel(b) && IsLabel(c);
    var l := [a, b, c];
    assert AreLabels(l);
    assert l[1..] == [b, c] && [b, c][1..] == [c];
    assert Text([b, c]) == b + [DOT] + Text([c]) && Text([c]) == c;
    assert Text(l) == a + [DOT] + Text([b, c]);
    assert Text(l) == KNOWN;
    SplitOfText(l);
  }

  lemma EntriesAligned(qs: seq<Question>)
    ensures Aligned(qs, Entries(qs)) && |Entries(qs)| == |qs|
    ensures forall i :: 0 <= i < |qs| ==> Entries(qs)[i] == EntryOf(qs[i])
  {
    hide Split, EncodeName, Wire;
    if qs != [] {
      EntriesAligned(qs[1..]);
      NameWire(qs[0].qName);
    }
  }

  /** The questions behind a header, if that is how many the header announces. */
  lemma ReadsFront(m: Message)
    requires m.qdCount == |m.questions| && ReadResponse(EncodeMsg(m)).Got?
    ensures var w, n := EncodeMsg(m), |m.questions|;
      && Holds(w, 12, EncodeQuestions(m.questions)) && ReadEntries(w, 12, n).Got?
      && ReadEntries(w, 12, n).value == ReadResponse(w).value.questions
  {
    hide Put16, EncodeQuestions, EncodeRecords, ReadEntries, ReadResources, Holds, Get16;
    var h, q, r := EncodeHeader(m), EncodeQuestions(m.questions), EncodeRecords(m.answers);
    var w := EncodeMsg(m);
    Whole(w);
    HoldsBoth(w, 0, h + q, r);
    HoldsBoth(w, 0, h, q);
    ReadsHeader(w, m);
  }

  lemma NamesFromEntries(m: Message)
    requires m.qdCount == |m.questions| && forall q :: q in m.questions ==> IsText(q.qName)
    requires ReadResponse(EncodeMsg(m)).Got? && ReadResponse(EncodeMsg(m)).value.questions == Entries(m.questions)
    ensures forall q :: q in m.questions ==> IsName(q.qName)
  {
    hide EncodeMsg, ReadResponse, ReadEntries, Holds, IsName, IsText, AllSized, EncodeName, Wire, Split, Aligned;
    ReadsFront(m);
    EntriesAligned(m.questions);
    ReadsBack(EncodeMsg(m), 12, m.questions, Entries(m.questions));
    forall q | q in m.questions
      ensures IsName(q.qName)
    {
      var i :| 0 <= i < |m.questions| && m.questions[i] == q;
      assert Entries(m.questions)[i] == EntryOf(q);
      NameSized(q.qName);
    }
  }

  /** What a reader of the standard's format should find in the response to a message. */
  function Expected(m: Message): Response {
    Response(m.id, 1, if AnyOther(m.questions) then NOT_IMPLEMENTED else 0, 0, 0,
      Entries(m.questions), Resources(Answers(Reversed(m.questions))))
  }

  /** The response to a message with as many questions as it announces: the reader finds the same identifier, the
      questions in list order, the answers in the reverse order, and nothing else, up to the last byte, if and
      only if every name is one of labels of 1 to 63 bytes. */
  lemma ResponseParses(m: Message)
    requires m.answers == [] && m.qdCount == |m.questions| && forall q :: q in m.questions ==> IsText(q.qName)
    ensures var w := EncodeMsg(Resolve(m));
      ReadResponse(w) == Got(Expected(m), |w|) <==> forall q :: q in m.questions ==> IsName(q.qName)
  {
    hide IsName, IsText, EncodeMsg, ReadResponse, ResolveAll, Answers, Entries, Resources;
    hide AnyOther, Reversed, DataBytes;
    ResolvedAll(m.questions, m.(qr := 1, rcode := 0, anCount := 0, nsCount := 0, arCount := 0));
    var r, a := Resolve(m), Answers(Reversed(m.questions));
    if forall q :: q in m.questions ==> IsName(q.qName) {
      AnswersMatched(Reversed(m.questions));
      KnownIsName();
      assert a + [] == a;
      ResponseReads(r);
    } else if ReadResponse(EncodeMsg(r)) == Got(Expected(m), |EncodeMsg(r)|) {
      NamesFromEntries(r);
    }
  }

  // ---- buffers that are long enough ----

  lemma {:induction false} ScanInBounds(w: seq<Octet>, pos: nat, i: nat, lim: nat)
    requires 1 <= i && pos + lim <= |w|
    ensures var r := Scan(w, pos, i, lim); !r.Wild? && (r.Got? ==> r.next <= pos + lim)
    decreases lim - i
  {
    if i < lim && w[pos + i] != 0 { ScanInBounds(w, pos, i + 1, lim); }
  }

  lemma {:induction false} QuestionsInBounds(w: seq<Octet>, pos: nat, n: nat, size: int, list: seq<Question>)
    requires pos + n * (Limit(size) + 4) <= |w|
    ensures !ReadQuestions(w, pos, n, size, list).Wild?
    decreases n
  {
    hide Scan, Get16, Limit;
    if n > 0 {
      var k := Limit(size) + 4;
      assert n * k == k + (n - 1) * k;
      NotNegative(n - 1, k);
      ScanInBounds(w, pos, 1, Limit(size));
      var name := DecodeName(w, pos, size);
      if name.Got? {
        var q := Question(name.value, Get16(w, name.next), Get16(w, name.next + 2));
        QuestionsInBounds(w, name.next + 4, n - 1, size, [q] + list);
      }
    }
  }

  lemma NotNegative(a: nat, b: nat)
    ensures a * b >= 0
  {
  }

  /** A buffer is never left if it holds the header and, for each question that it announces, the longest name and
      4 bytes more. A caller can tell before decoding. */
  lemma NeverWild(w: seq<Octet>, size: int)
    requires |w| >= 12 && 12 + Get16(w, 4) * (Limit(size) + 4) <= |w|
    ensures !DecodeMsg(w, size).Wild?
  {
    hide ReadQuestions, Get16;
    QuestionsInBounds(w, 12, Get16(w, 4), size, []);
  }

  // ---- what is refused ----

  /** `k` questions with a name that ends, from `from` on, lead to `p`. */
  ghost predicate Leads(w: seq<Octet>, from: nat, lim: nat, k: nat, p: nat)
    decreases k
  {
    if k == 0 then p == from else exists z :: EndsAt(w, from, lim, z) && Leads(w, from + z + 5, lim, k - 1, p)
  }

  /** One of the first `n` questions has a name that does not end. */
  ghost predicate Stuck(w: seq<Octet>, from: nat, lim: nat, n: nat) {
    exists k: nat, p: nat :: k < n && Leads(w, from, lim, k, p) && Endless(w, p, lim)
  }

  lemma StuckNext(w: seq<Octet>, from: nat, lim: nat, n: nat, z: nat)
    requires n > 0 && EndsAt(w, from, lim, z)
    ensures Stuck(w, from, lim, n) <==> Stuck(w, from + z + 5, lim, n - 1)
  {
    hide EndsAt, Endless;
    EndsOnce(w, from, lim, z);
    var next := from + z + 5;
    if Stuck(w, from, lim, n) {
      var k: nat, p: nat :| k < n && Leads(w, from, lim, k, p) && Endless(w, p, lim);
      if k > 0 {
        var y :| EndsAt(w, from, lim, y) && Leads(w, from + y + 5, lim, k - 1, p);
        assert Leads(w, next, lim, k - 1, p);
      }
    }
    if Stuck(w, next, lim, n - 1) {
      var k: nat, p: nat :| k < n - 1 && Leads(w, next, lim, k, p) && Endless(w, p, lim);
      assert Leads(w, from, lim, k + 1, p);
    }
  }

  lemma StuckHere(w: seq<Octet>, from: nat, lim: nat, n: nat)
    requires n > 0 && Endless(w, from, lim)
    ensures Stuck(w, from, lim, n)
  {
    assert Leads(w, from, lim, 0, from);
  }

  /** The list is refused at the first question whose name does not end. */
  lemma {:induction false} QuestionsRefusedIff(w: seq<Octet>, pos: nat, n: nat, size: int, list: seq<Question>)
    requires !ReadQuestions(w, pos, n, size, list).Wild?
    ensures ReadQuestions(w, pos, n, size, list).Failed? <==> Stuck(w, pos, Limit(size), n)
    decreases n
  {
    hide Scan, Get16, Limit, EndsAt, Endless, Leads;
    if n > 0 {
      var lim := Limit(size);
      var name := DecodeName(w, pos, size);
      NameIff(w, pos, size);
      if name.Failed? {
        StuckHere(w, pos, lim, n);
      } else {
        StuckNext(w, pos, lim, n, name.next - pos - 1);
        var q := Question(name.value, Get16(w, name.next), Get16(w, name.next + 2));
        QuestionsRefusedIff(w, name.next + 4, n - 1, size, [q] + list);
      }
    }
  }

  lemma NameIff(w: seq<Octet>, pos: nat, size: int)
    ensures var r, lim := DecodeName(w, pos, size), Limit(size);
      && (r.Got? ==> r.next >= pos + 2 && EndsAt(w, pos, lim, r.next - pos - 1))
      && (r.Failed? ==> Endless(w, pos, lim))
  {
    hide Scan;
    var lim := Limit(size);
    ScanIff(w, pos, 1, lim);
    if lim == 0 { ScanNone(w, pos); }
  }

  lemma ScanNone(w: seq<Octet>, pos: nat)
    ensures Scan(w, pos, 1, 0) == Failed && Endless(w, pos, 0)
  {
  }

  /** A packet that announces answers or authorities is refused, and nothing is sent. */
  lemma CountsRefused(w: seq<Octet>, size: int)
    requires |w| >= 12 && (w[6] != 0 || w[7] != 0 || w[8] != 0 || w[9] != 0)
    ensures DecodeMsg(w, size) == Failed && ResponseTo(w, size) == None
  {
  }

  lemma Answered(w: seq<Octet>, size: int)
    ensures DecodeMsg(w, size) != Wild ==> |w| >= 12
    ensures DecodeMsg(w, size).Got? ==>
      var m := DecodeMsg(w, size).value;
      |m.questions| < 0x1_0000 && ResponseTo(w, size) == Some(EncodeMsg(Resolve(m))) && |EncodeMsg(Resolve(m))| <= |w|
    ensures !DecodeMsg(w, size).Got? ==> ResponseTo(w, size) == None
  {
    if DecodeMsg(w, size).Got? { ResponseFits(w, size); }
  }

  /** And so is a packet with a question whose name has no zero byte within its first 256, or within the size if that is
      less; nothing else is refused. */
  lemma RefusedIff(w: seq<Octet>, size: int)
    requires |w| >= 12 && !DecodeMsg(w, size).Wild?
    ensures var lim := if 0 <= size < 256 then size else 256;
      DecodeMsg(w, size).Failed? <==>
        || w[6] != 0 || w[7] != 0 || w[8] != 0 || w[9] != 0
        || Stuck(w, 12, lim, 256 * (w[4] as int) + w[5])
    ensures DecodeMsg(w, size).Failed? <==> ResponseTo(w, size) == None
  {
    hide ReadQuestions, Stuck, ResolveAll;
    if w[6] == 0 && w[7] == 0 && w[8] == 0 && w[9] == 0 {
      QuestionsRefusedIff(w, 12, Get16(w, 4), size, []);
    }
  }

  /** The header of every response, byte by byte: the identifier and the number of questions of the query, the response
      bit, the response code, and no other records. */
  lemma ResponseHeader(w: seq<Octet>, size: int)
    requires ResponseTo(w, size).Some?
    ensures var r := ResponseTo(w, size).value;
      && |w| >= 12 && |r| >= 12 && r[0] == w[0] && r[1] == w[1] && r[2] == 128 && (r[3] == 0 || r[3] == 4)
      && r[4] == w[4] && r[5] == w[5] && forall k :: 6 <= k < 12 ==> r[k] == 0
    ensures var r := ResponseTo(w, size).value;
      var qs := DecodeMsg(w, size).value.questions;
      r[3] == 4 <==> exists q :: q in qs && q.qType != 1 && q.qType != 28 && q.qType != 16
  {
    hide ReadQuestions, ResolveAll, EncodeQuestions, EncodeRecords, Answers;
    var m := DecodeMsg(w, size).value;
    NeverAnswers(w, size);
    ResolvedAll(m.questions, m.(qr := 1, rcode := 0, anCount := 0, nsCount := 0, arCount := 0));
    HeaderBytes(Resolve(m));
    assert AnyOther(m.questions) <==> exists q :: q in m.questions && !Implemented(q.qType);
    Bytes16(w[0], w[1]);
    Bytes16(w[4], w[5]);
  }

  lemma HeaderBytes(m: Message)
    ensures var h := EncodeHeader(m);
      && h[..12] == EncodeMsg(m)[..12]
      && h[0] == m.id / 256 && h[1] == m.id % 256 && h[4] == m.qdCount / 256 && h[5] == m.qdCount % 256
    ensures var h := EncodeHeader(m);
      && h[6] == m.anCount / 256 && h[7] == m.anCount % 256 && h[8] == m.nsCount / 256 && h[9] == m.nsCount % 256
      && h[10] == m.arCount / 256 && h[11] == m.arCount % 256
    ensures var h := EncodeHeader(m);
      m.qr == 1 && m.rcode < 16 ==> h[2] == 128 && h[3] == m.rcode
  {
    hide EncodeQuestions, EncodeRecords;
  }

  lemma Bytes16(a: Octet, b: Octet)
    ensures ((a as int) * 256 + b) / 256 == a && ((a as int) * 256 + b) % 256 == b
  {
  }

  /** What the server would answer, if a question with the known name reached it. */
  lemma AnswerIs(q: Question)
    ensures var known := [97, 114, 110, 111, 46, 48, 118, 111, 105, 99, 101, 46, 99, 111, 109];
      && (q.qName != known || q.qType !in {1, 16, 28} ==> Answer(q) == None)
      && (q.qName == known && q.qType == 1 ==>
        Answer(q) == Some(Record(known, 1, q.qClass, 3600, 4, Address([192, 168, 232, 133]))))
      && (q.qName == known && q.qType == 28 ==>
        Answer(q) == Some(Record(known, 28, q.qClass, 3600, 16,
          Address([0xfe, 0x80, 0, 0, 0, 0, 0, 0, 0, 0, 0, 0, 0, 0, 0, 1]))))
      && (q.qName == known && q.qType == 16 ==>
        Answer(q) == Some(Record(known, 16, q.qClass, 3600, 8, Txt(7, [97, 98, 99, 100, 101, 102, 103]))))
  {
  }

  // ---- what the decoder can deliver ----

  ghost predicate Deliverable(s: seq<Octet>) {
    forall i :: 0 <= i < |s| ==> s[i] == DOT || s[i] > 63
  }

  lemma {:induction false} ScanDelivers(w: seq<Octet>, pos: nat, i: nat, lim: int)
    requires i >= 1
    ensures Scan(w, pos, i, lim).Got? ==> Deliverable(Scan(w, pos, i, lim).value)
    decreases lim - i
  {
    if i < lim && pos + i < |w| && w[pos + i] != 0 { ScanDelivers(w, pos, i + 1, lim); }
  }

  lemma {:induction false} QuestionsDelivered(w: seq<Octet>, pos: nat, n: nat, size: int, list: seq<Question>)
    requires forall q :: q in list ==> Deliverable(q.qName)
    ensures ReadQuestions(w, pos, n, size, list).Got? ==>
      |ReadQuestions(w, pos, n, size, list).value| == n + |list| &&
      forall q :: q in ReadQuestions(w, pos, n, size, list).value ==> Deliverable(q.qName)
    decreases n
  {
    hide Deliverable, Scan, Get16;
    if n > 0 {
      ScanDelivers(w, pos, 1, Limit(size));
      var name := DecodeName(w, pos, size);
      if name.Got? && name.next + 4 <= |w| {
        var q := Question(name.value, Get16(w, name.next), Get16(w, name.next + 2));
        QuestionsDelivered(w, name.next + 4, n - 1, size, [q] + list);
      }
    }
  }

  lemma {:induction false} NoneKnown(qs: seq<Question>)
    requires forall q :: q in qs ==> Deliverable(q.qName)
    ensures Answers(qs) == []
  {
    if qs != [] {
      if qs[0].qName == KNOWN { NotDeliverable(qs[0].qName); }
      NoneKnown(qs[1..]);
    }
  }

  /** The one name that the server knows has a digit, which the decoder takes for the length of a label. */
  lemma NotDeliverable(s: seq<Octet>)
    requires s == KNOWN
    ensures !Deliverable(s)
  {
    assert s[5] == 48;
  }

  lemma {:induction false} ReversedIn<T>(s: seq<T>, x: T)
    ensures x in Reversed(s) <==> x in s
  {
    if s != [] { ReversedIn(s[1..], x); }
  }

  /** No query that comes over the wire is ever answered: the known name does not survive decoding. */
  lemma NeverAnswers(w: seq<Octet>, size: int)
    requires DecodeMsg(w, size).Got?
    ensures var m := DecodeMsg(w, size).value;
      |m.questions| == m.qdCount && Resolve(m).answers == [] && Resolve(m).anCount == 0
  {
    hide ReadQuestions, Deliverable, Answers, ResolveAll;
    var m := DecodeMsg(w, size).value;
    QuestionsDelivered(w, 12, m.qdCount, size, []);
    ResolvedAll(m.questions, m.(qr := 1, rcode := 0, anCount := 0, nsCount := 0, arCount := 0));
    forall q | q in Reversed(m.questions)
      ensures Deliverable(q.qName)
    {
      ReversedIn(m.questions, q);
    }
    NoneKnown(Reversed(m.questions));
  }

  lemma {:induction false} EntriesAdd(qs: seq<Question>, q: Question)
    ensures Entries(qs + [q]) == Entries(qs) + [EntryOf(q)]
  {
    hide EntryOf;
    if qs == [] {
      assert [q][1..] == [] && [EntryOf(q)] + [] == [] + [EntryOf(q)];
    } else {
      EntriesAdd(qs[1..], q);
      assert (qs + [q])[1..] == qs[1..] + [q];
      assert [EntryOf(qs[0])] + (Entries(qs[1..]) + [EntryOf(q)]) ==
        ([EntryOf(qs[0])] + Entries(qs[1..])) + [EntryOf(q)];
    }
  }

  lemma SeenSame(e: Entry)
    requires Readable(e)
    ensures SeenOf(e) == QuestionOf(e) && EntryOf(QuestionOf(e)) == e && IsName(QuestionOf(e).qName) && Proper(e)
  {
    hide Chars;
    var s := Text(e.labels);
    HighSurvives(e.labels);
    SplitOfText(e.labels);
    assert forall l :: l in e.labels ==> IsHighLabel(l) && IsStringLabel(l);
    forall i | 0 <= i < |s|
      ensures CharOf(s[i]) == s[i]
    {
      assert SurvivesAt(s, i);
    }
    CharsAre(s, s);
  }

  lemma {:induction false} SameEntries(es: seq<Entry>)
    requires AllReadable(es)
    ensures Entries(Reversed(Seen(es))) == Reversed(es) && forall q :: q in Seen(es) ==> IsName(q.qName)
  {
    hide Readable, IsName, EntryOf, SeenOf, QuestionOf;
    if es != [] {
      assert forall x :: x in es[1..] ==> x in es;
      SeenSame(es[0]);
      SameEntries(es[1..]);
      EntriesAdd(Reversed(Seen(es[1..])), SeenOf(es[0]));
      assert Seen(es)[1..] == Seen(es[1..]);
    }
  }

  lemma {:induction false} SeenAdd(es: seq<Entry>, e: Entry)
    ensures Seen(es + [e]) == Seen(es) + [SeenOf(e)]
  {
    hide SeenOf;
    if es == [] {
      assert [e][1..] == [];
    } else {
      SeenAdd(es[1..], e);
      assert (es + [e])[1..] == es[1..] + [e];
    }
  }

  lemma {:induction false} SeenReversed(es: seq<Entry>)
    ensures Reversed(Seen(es)) == Seen(Reversed(es))
  {
    hide SeenOf;
    if es != [] {
      SeenReversed(es[1..]);
      SeenAdd(Reversed(es[1..]), es[0]);
      assert Seen(es)[1..] == Seen(es[1..]);
    }
  }

  lemma {:induction false} SeenAligned(fs: seq<Entry>)
    requires AllProper(fs)
    ensures Aligned(Seen(fs), fs) && forall i :: 0 <= i < |fs| ==> Seen(fs)[i] == SeenOf(fs[i])
  {
    hide Wire, Text, AreStringLabels, Chars;
    if fs != [] {
      assert Proper(fs[0]) && forall x :: x in fs[1..] ==> x in fs;
      StringsSome(fs[0].labels);
      WireSize(fs[0].labels);
      SeenAligned(fs[1..]);
    }
  }

  lemma StringsSome(labels: seq<seq<Octet>>)
    requires AreStringLabels(labels)
    ensures labels != []
  {
  }

  /** If the questions come back, then no byte of a name was taken for a length. */
  lemma ReadableFromEntries(m: Message, fs: seq<Entry>)
    requires AllProper(fs) && m.questions == Seen(fs) && m.qdCount == |fs|
    requires ReadResponse(EncodeMsg(m)).Got? && ReadResponse(EncodeMsg(m)).value.questions == fs
    ensures AllReadable(fs)
  {
    hide EncodeMsg, ReadResponse, ReadEntries, Holds, AllSized, EncodeName, Wire, Text, Chars, Aligned;
    hide AreStringLabels, AreHighLabels;
    ReadsFront(m);
    SeenAligned(fs);
    ReadsBack(EncodeMsg(m), 12, m.questions, fs);
    forall e | e in fs
      ensures Readable(e)
    {
      var i :| 0 <= i < |fs| && fs[i] == e;
      assert Proper(e) && Seen(fs)[i] == SeenOf(e);
      EncodesSeenIff(e.labels);
    }
  }

  /** The questions take as many bytes to encode as they took to decode. */
  lemma {:induction false} QuestionsNext(w: seq<Octet>, pos: nat, n: nat, size: int, list: seq<Question>)
    requires pos <= |w|
    ensures var r := ReadQuestions(w, pos, n, size, list);
      r.Got? ==> pos + |EncodeQuestions(r.value)| == r.next + |EncodeQuestions(list)| && r.next <= |w|
    decreases n
  {
    hide Scan, Get16;
    if n > 0 {
      ScanNext(w, pos, 1, Limit(size));
      var name := DecodeName(w, pos, size);
      if name.Got? && name.next + 4 <= |w| {
        var q := Question(name.value, Get16(w, name.next), Get16(w, name.next + 2));
        assert ([q] + list)[1..] == list;
        QuestionsNext(w, name.next + 4, n - 1, size, [q] + list);
      }
    }
  }

  /** A response is exactly as long as the part of the query that was decoded, so it always fits over the query. */
  lemma ResponseFits(w: seq<Octet>, size: int)
    requires DecodeMsg(w, size).Got?
    ensures var m := DecodeMsg(w, size).value;
      |m.questions| == m.qdCount && |EncodeMsg(Resolve(m))| == DecodeMsg(w, size).next <= |w|
  {
    hide ReadQuestions, EncodeQuestions, ResolveAll;
    var m := DecodeMsg(w, size).value;
    NeverAnswers(w, size);
    QuestionsNext(w, 12, m.qdCount, size, []);
    ResolvedAll(m.questions, m.(qr := 1, rcode := 0, anCount := 0, nsCount := 0, arCount := 0));
    NoBytes();
  }

  lemma NoBytes()
    ensures EncodeQuestions([]) == [] && EncodeRecords([]) == []
  {
  }

  /** What comes back for the buffer `w` with a packet of `size` bytes, if anything. */
  function ResponseTo(w: seq<Octet>, size: int): Option<seq<Octet>> {
    if DecodeMsg(w, size).Got? then
      ResponseFits(w, size);
      Some(EncodeMsg(Resolve(DecodeMsg(w, size).value)))
    else None
  }

  /** Decoded names are C strings. */
  lemma {:induction false} SeenStrings(es: seq<Entry>)
    ensures forall q :: q in Seen(es) ==> IsText(q.qName)
  {
    if es != [] { SeenStrings(es[1..]); }
  }

  lemma {:induction false} SameTypes(es: seq<Entry>)
    ensures AnyOther(Seen(es)) <==> exists e :: e in es && !Implemented(e.etype)
  {
    hide Implemented;
    if es != [] {
      SameTypes(es[1..]);
      assert AnyOther(Seen(es)) <==> !Implemented(SeenOf(es[0]).qType) || AnyOther(Seen(es[1..]));
      assert es == [es[0]] + es[1..];
    }
  }

  /** The response code that a query should get. */
  function Code(es: seq<Entry>): Word {
    if exists e :: e in es && !Implemented(e.etype) then NOT_IMPLEMENTED else 0
  }

  /** The message that the query becomes, and the response that it gets. */
  lemma QueryResolved(id: Word, fields: Word, ar: Word, es: seq<Entry>, tail: seq<Octet>, size: int)
    returns (m: Message)
    requires AllProper(es) && |es| < 0x1_0000 && |EntriesBytes(es)| <= size
    ensures m.answers == [] && m.id == id
    ensures m.questions == Seen(Reversed(es)) && m.qdCount == |es| == |m.questions|
    ensures Answers(Reversed(m.questions)) == [] && Expected(m).rcode == Code(es)
    ensures Resolve(m).questions == m.questions && Resolve(m).qdCount == m.qdCount
    ensures ResponseTo(QueryHeader(id, fields, |es|, ar) + EntriesBytes(es) + tail, size) ==
      Some(EncodeMsg(Resolve(m)))
    ensures |EncodeMsg(Resolve(m))| == 12 + |EntriesBytes(es)|
  {
    hide QueryHeader, EntriesBytes, Proper, DecodeMsg, EncodeMsg, Answers, ResolveAll, AnyOther, Implemented, SeenOf;
    var w := QueryHeader(id, fields, |es|, ar) + EntriesBytes(es) + tail;
    QueryDecodes(id, fields, ar, es, tail, size);
    m := DecodeMsg(w, size).value;
    SeenReversed(es);
    SameTypes(Reversed(es));
    forall e
      ensures e in Reversed(es) <==> e in es
    {
      ReversedIn(es, e);
    }
    NeverAnswers(w, size);
    ResponseFits(w, size);
    ResolvedAll(m.questions, m.(qr := 1, rcode := 0, anCount := 0, nsCount := 0, arCount := 0));
    assert Answers(Reversed(m.questions)) + [] == Answers(Reversed(m.questions));
  }

  /** From query to response, over the wire: a response as long as the query, in which a reader of the standard's
      format finds the same identifier, the questions in reverse order, no answers, and the response code that says
      whether every question was of a known type, if and only if all bytes of all names are above 63. In any
      other case it does not even find the questions. */
  lemma QueryToResponse(id: Word, fields: Word, ar: Word, es: seq<Entry>, tail: seq<Octet>, size: int)
    requires AllProper(es) && |es| < 0x1_0000 && |EntriesBytes(es)| <= size
    ensures var r := ResponseTo(QueryHeader(id, fields, |es|, ar) + EntriesBytes(es) + tail, size);
      && r.Some? && |r.value| == 12 + |EntriesBytes(es)|
      && (ReadResponse(r.value) == Got(Response(id, 1, Code(es), 0, 0, Reversed(es), []), |r.value|)
          <==> AllReadable(es))
      && (ReadResponse(r.value).Got? && ReadResponse(r.value).value.questions == Reversed(es) <==> AllReadable(es))
  {
    hide QueryHeader, EntriesBytes, Readable, IsName, IsText, DecodeMsg, ReadResponse, EncodeMsg, Answers, Entries;
    hide Seen, ResolveAll, AnyOther, Resolve, Proper, ResponseTo, Code;
    var m := QueryResolved(id, fields, ar, es, tail, size);
    var r := EncodeMsg(Resolve(m));
    SeenReversed(es);
    SeenStrings(Reversed(es));
    forall e
      ensures e in Reversed(es) <==> e in es
    {
      ReversedIn(es, e);
    }
    if AllReadable(es) {
      SameEntries(es);
      forall q | q in m.questions
        ensures IsName(q.qName)
      {
        ReversedIn(Seen(es), q);
      }
      NoResources();
      ResponseParses(m);
    } else if ReadResponse(r).Got? && ReadResponse(r).value.questions == Reversed(es) {
      ReadableFromEntries(Resolve(m), Reversed(es));
    }
  }

  lemma NoResources()
    ensures Resources([]) == []
  {
  }

  // ---- the query for the known name ----

  const ARNO: seq<Octet> := [97, 114, 110, 111]
  const VOICE: seq<Octet> := [118, 111, 105, 99, 101]
  const ZERO_VOICE: seq<Octet> := [48, 118, 111, 105, 99, 101]
  const COM: seq<Octet> := [99, 111, 109]

  /** arno.0voice.com, as a resolver asks for its address: type A, class IN. */
  const KNOWN_ENTRY := Entry([ARNO, ZERO_VOICE, COM], A_TYPE, 1)

  lemma KnownText()
    ensures Text(KNOWN_ENTRY.labels) == KNOWN && Proper(KNOWN_ENTRY) && !Readable(KNOWN_ENTRY)
  {
    var l := KNOWN_ENTRY.labels;
    assert l[1..] == [ZERO_VOICE, COM] && [ZERO_VOICE, COM][1..] == [COM];
    assert Text([ZERO_VOICE, COM]) == ZERO_VOICE + [DOT] + Text([COM]) && Text([COM]) == COM;
    assert Text(l) == ARNO + [DOT] + Text([ZERO_VOICE, COM]);
    assert IsStringLabel(ARNO) && IsStringLabel(ZERO_VOICE) && IsStringLabel(COM);
    assert ZERO_VOICE[0] == 48 && !IsHighLabel(ZERO_VOICE);
    assert ZERO_VOICE == l[1];
  }

  /** The digit has become a dot, so that the second label is empty. */
  lemma KnownSeen()
    ensures Chars(KNOWN) == ARNO + ([DOT] + ([DOT] + (VOICE + ([DOT] + COM))))
  {
    hide Chars;
    var s := ARNO + ([DOT] + ([DOT] + (VOICE + ([DOT] + COM))));
    forall i | 0 <= i < 15
      ensures CharOf(KNOWN[i]) == s[i]
    {
    }
    CharsAre(KNOWN, s);
  }

  lemma EncodesLabel(l: seq<Octet>, rest: seq<Octet>)
    requires l == [] || IsLabel(l)
    ensures EncodeName(l + ([DOT] + rest)) == [|l|] + l + EncodeName(rest)
  {
    hide LabelLen, EncodeName, IsLabel;
    var s := l + ([DOT] + rest);
    if l == [] { NoLabel(s); } else { LabelAhead(l, [DOT] + rest); }
    LabelShort(l);
    EncodeIs(s);
    Around(l, rest);
  }

  lemma Around(l: seq<Octet>, rest: seq<Octet>)
    ensures var s := l + ([DOT] + rest); |s| == |l| + 1 + |rest| && s[..|l|] == l && s[|l| + 1..] == rest
  {
  }

  lemma LabelShort(l: seq<Octet>)
    requires l == [] || IsLabel(l)
    ensures |l| <= 63
  {
  }

  lemma NoLabel(s: seq<Octet>)
    requires s != [] && s[0] == DOT
    ensures LabelLen(s) == 0
  {
  }

  lemma KnownEncoded() returns (rest: seq<Octet>)
    ensures EncodeName(Chars(KNOWN)) == [4] + ARNO + [0] + [5] + VOICE + rest && |rest| == 5
  {
    hide EncodeName, Chars;
    KnownSeen();
    var v := VOICE + ([DOT] + COM);
    assert IsLabel(ARNO) && IsLabel(VOICE);
    EncodesLabel(ARNO, [DOT] + v);
    EncodesLabel([], v);
    EncodesLabel(VOICE, COM);
    assert [] + ([DOT] + v) == [DOT] + v;
    rest := EncodeName(COM);
    var e := [4] + ARNO + ([0] + [] + ([5] + VOICE + rest));
    assert e == [4] + ARNO + [0] + [5] + VOICE + rest;
  }

  /** The server does answer the query for the one name that it knows, but with a malformed message: a reader finds
      the label "arno" alone, a type and a class made of the bytes behind it, and stops at byte 22 of 33. */
  lemma KnownQueryGarbled(id: Word, fields: Word, ar: Word, tail: seq<Octet>, size: int)
    requires size >= 21
    ensures !AllReadable([KNOWN_ENTRY]) && |EntriesBytes([KNOWN_ENTRY])| == 21
    ensures var r := ResponseTo(QueryHeader(id, fields, 1, ar) + EntriesBytes([KNOWN_ENTRY]) + tail, size);
      && r.Some? && |r.value| == 33
      && ReadResponse(r.value) == Got(Response(id, 1, 0, 0, 0, [Entry([ARNO], 0x0576, 0x6F69)], []), 22)
  {
    hide QueryHeader, EncodeName, ResponseTo, Chars, Text, Wire, ReadResponse, Proper, Readable, Resolve;
    hide EncodeMsg, Answers, ResolveAll;
    var es := [KNOWN_ENTRY];
    KnownText();
    KnownSize();
    assert KNOWN_ENTRY in es;
    assert Reversed(es) == es && Seen(es) == [SeenOf(KNOWN_ENTRY)];
    var m := QueryResolved(id, fields, ar, es, tail, size);
    ResolvedOne(m);
    GarbledReads(Resolve(m));
  }

  lemma KnownSize()
    ensures |EntriesBytes([KNOWN_ENTRY])| == 21
  {
    hide Wire, Text;
    KnownText();
    WireSize(KNOWN_ENTRY.labels);
    assert [KNOWN_ENTRY][1..] == [];
  }

  lemma ResolvedOne(m: Message)
    requires m.answers == [] && |m.questions| == 1 && Answers(Reversed(m.questions)) == []
    ensures var r := Resolve(m);
      r == m.(qr := 1, rcode := Expected(m).rcode, anCount := 0, nsCount := 0, arCount := 0)
  {
    hide Answers, AnyOther;
    ResolvedAll(m.questions, m.(qr := 1, rcode := 0, anCount := 0, nsCount := 0, arCount := 0));
    assert Answers(Reversed(m.questions)) + [] == Answers(Reversed(m.questions));
  }

  lemma GarbledReads(m: Message)
    requires m.questions == [Question(Chars(KNOWN), A_TYPE, 1)] && m.answers == []
    requires m.qdCount == 1 && m.anCount == 0 && m.nsCount == 0 && m.arCount == 0 && m.qr == 1 && m.rcode == 0
    ensures ReadResponse(EncodeMsg(m)) ==
      Got(Response(m.id, 1, 0, 0, 0, [Entry([ARNO], 0x0576, 0x6F69)], []), 22)
  {
    hide EncodeName, Chars, Get16, Put16, Holds, ReadEntries, ReadResources, EncodeQuestions, EncodeRecords;
    var h, q, r := EncodeHeader(m), EncodeQuestions(m.questions), EncodeRecords(m.answers);
    var w := EncodeMsg(m);
    Whole(w);
    HoldsBoth(w, 0, h + q, r);
    HoldsBoth(w, 0, h, q);
    ReadsHeader(w, m);
    GarbledEntry(w, m.questions);
    NoneRead(w, 22);
  }

  lemma NoneRead(w: seq<Octet>, pos: nat)
    ensures ReadEntries(w, pos, 0) == Got([], pos) && ReadResources(w, pos, 0) == Got([], pos)
  {
  }

  lemma GarbledEntry(w: seq<Octet>, qs: seq<Question>)
    requires qs == [Question(Chars(KNOWN), A_TYPE, 1)] && Holds(w, 12, EncodeQuestions(qs))
    ensures ReadEntries(w, 12, 1) == Got([Entry([ARNO], 0x0576, 0x6F69)], 22)
  {
    hide EncodeName, Chars, Get16, Put16, Holds, ReadLabels, ReadEntries;
    var rest := KnownEncoded();
    var n := EncodeName(Chars(KNOWN));
    assert qs[1..] == [] && EncodeQuestions(qs[1..]) == [];
    var e := EncodeQuestion(qs[0]);
    assert e + [] == e && EncodeQuestions(qs) == e;
    HoldsBoth(w, 12, n + Put16(A_TYPE), Put16(1));
    HoldsBoth(w, 12, n, Put16(A_TYPE));
    var a, b := [4] + ARNO + [0], [5] + VOICE + rest;
    assert n == a + b;
    HoldsBoth(w, 12, a, b);
    OneLabel(w);
    HoldsAt(w, 18, b, 0);
    HoldsAt(w, 18, b, 1);
    HoldsAt(w, 18, b, 2);
    HoldsAt(w, 18, b, 3);
    OneEntry(w);
  }

  lemma OneLabel(w: seq<Octet>)
    requires Holds(w, 12, [4] + ARNO + [0])
    ensures ReadLabels(w, 12) == Got([ARNO], 18)
  {
    var l := [ARNO];
    assert l[1..] == [] && Wire([]) == [0];
    assert Wire(l) == [4] + ARNO + [0];
    assert IsLabel(ARNO);
    ReadsWire(w, 12, l);
  }

  lemma OneEntry(w: seq<Octet>)
    requires ReadLabels(w, 12) == Got([ARNO], 18) && |w| >= 22
    requires w[18] == 5 && w[19] == 118 && w[20] == 111 && w[21] == 105
    ensures ReadEntries(w, 12, 1) == Got([Entry([ARNO], 0x0576, 0x6F69)], 22)
  {
    hide ReadLabels;
    var e := Entry([ARNO], 0x0576, 0x6F69);
    assert ReadEntry(w, 12) == Got(e, 22);
    NoneRead(w, 22);
    assert [e] + [] == [e];
  }
}
