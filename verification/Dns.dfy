/** dns.c in place: a cursor that moves through the packet buffer, and a message that is filled step by step. */
module Dns {
  import opened Common
  import opened DnsNames
  import opened DnsSpec

  /** `s` with `b` written over it at `p`. */
  ghost function Write(s: seq<Octet>, p: nat, b: seq<Octet>): (r: seq<Octet>)
    requires p + |b| <= |s|
    ensures |r| == |s|
  {
    s[..p] + b + s[p + |b|..]
  }

  lemma WriteTwice(s: seq<Octet>, p: nat, a: seq<Octet>, b: seq<Octet>)
    requires p + |a| + |b| <= |s|
    ensures Write(Write(s, p, a), p + |a|, b) == Write(s, p, a + b)
  {
  }

  lemma WriteNothing(s: seq<Octet>, p: nat)
    requires p <= |s|
    ensures Write(s, p, []) == s
  {
  }

  /** The buffer pointer of the get and put functions. */
  class Cursor {
    const buf: array<Octet>
    var pos: nat

    constructor (b: array<Octet>)
      ensures buf == b && pos == 0
    {
      buf, pos := b, 0;
    }

    method Get16bits() returns (v: Word)
      requires pos + 2 <= buf.Length
      modifies this`pos
      ensures v == Get16(buf[..], old(pos)) && pos == old(pos) + 2
    {
      v := (buf[pos] as int) * 256 + buf[pos + 1];
      pos := pos + 2;
    }

    method Put8bits(v: Octet)
      requires pos + 1 <= buf.Length
      modifies this`pos, buf
      ensures buf[..] == Write(old(buf[..]), old(pos), [v]) && pos == old(pos) + 1
    {
      buf[pos] := v;
      pos := pos + 1;
    }

    method Put16bits(v: Word)
      requires pos + 2 <= buf.Length
      modifies this`pos, buf
      ensures buf[..] == Write(old(buf[..]), old(pos), Put16(v)) && pos == old(pos) + 2
    {
      buf[pos], buf[pos + 1] := v / 256, v % 256;
      pos := pos + 2;
    }

    method Put32bits(v: Long)
      requires pos + 4 <= buf.Length
      modifies this`pos, buf
      ensures buf[..] == Write(old(buf[..]), old(pos), Put32(v)) && pos == old(pos) + 4
    {
      hide Write;
      WriteTwice(buf[..], pos, Put16(v / 0x1_0000), Put16(v % 0x1_0000));
      Put16bits(v / 0x1_0000);
      Put16bits(v % 0x1_0000);
    }

    /** memcpy to the buffer */
    method PutBytes(b: seq<Octet>)
      requires pos + |b| <= buf.Length
      modifies this`pos, buf
      ensures buf[..] == Write(old(buf[..]), old(pos), b) && pos == old(pos) + |b|
    {
      forall k | 0 <= k < |b| {
        buf[pos + k] := b[k];
      }
      pos := pos + |b|;
    }

    method DecodeDomainName(len: int) returns (r: Option<seq<Octet>>)
      requires DecodeName(buf[..], pos, len) != Wild
      modifies this`pos
      ensures DecodeName(buf[..], old(pos), len).Got? ==>
        r == Some(DecodeName(buf[..], old(pos), len).value) && pos == DecodeName(buf[..], old(pos), len).next
      ensures DecodeName(buf[..], old(pos), len).Failed? ==> r == None && pos == old(pos)
    {
      hide Chars, Scan;
      ghost var w := buf[..];
      var domain: seq<Octet> := [];
      var lim: int, i := Limit(len), 1;
      while i < lim
        invariant i >= 1 && pos == old(pos) && Scan(w, pos, i, lim) == DecodeName(w, pos, len)
        invariant (i > 1 ==> pos + i <= |w|)
        invariant if i == 1 then domain == [] else domain == Chars(w[pos + 1..pos + i])
        decreases lim - i
      {
        ScanTurn(w, pos, i, lim);
        var c := buf[pos + i];
        if c == 0 {
          pos := pos + i + 1;
          return Some(domain);
        } else if c <= 63 {
          domain := domain + [DOT];
        } else {
          domain := domain + [c];
        }
        CharsNext(w, pos, i);
        i := i + 1;
      }
      ScanOver(w, pos, i, lim);
      r := None;
    }

    method EncodeDomainName(domain: seq<Octet>)
      requires pos + |domain| + 2 <= buf.Length
      modifies this`pos, buf
      ensures buf[..] == Write(old(buf[..]), old(pos), EncodeName(domain)) && pos == old(pos) + |domain| + 2
    {
      hide Write, EncodeName, LabelLen;
      ghost var s0, p0 := buf[..], pos;
      ghost var out: seq<Octet> := [];
      var beg := 0;
      WriteNothing(s0, p0);
      var k := NextDot(domain, beg);
      while k < |domain|
        invariant beg <= k <= |domain| && k == beg + LabelLen(domain[beg..])
        invariant pos == p0 + |out| && |out| == beg && |s0| == buf.Length && buf[..] == Write(s0, p0, out)
        invariant out + EncodeName(domain[beg..]) == EncodeName(domain)
        decreases |domain| - beg
      {
        PutLabel(domain[beg..k], s0, p0, out);
        LabelStep(domain, beg, k, out);
        out := out + ([(k - beg) % 256] + domain[beg..k]);
        beg := k + 1;
        k := NextDot(domain, beg);
      }
      LastLabel(domain, beg, out);
      PutLabel(domain[beg..], s0, p0, out);
      out := out + ([|domain[beg..]| % 256] + domain[beg..]);
      WriteTwice(s0, p0, out, [0]);
      Put8bits(0);
    }

    /** One length with its label. */
    method PutLabel(text: seq<Octet>, ghost s0: seq<Octet>, ghost p0: nat, ghost out: seq<Octet>)
      requires pos == p0 + |out| && pos + 1 + |text| <= buf.Length == |s0| && buf[..] == Write(s0, p0, out)
      modifies this`pos, buf
      ensures buf[..] == Write(s0, p0, out + ([|text| % 256] + text)) && pos == old(pos) + 1 + |text|
    {
      hide Write;
      WriteTwice(buf[..], pos, [|text| % 256], text);
      WriteTwice(s0, p0, out, [|text| % 256] + text);
      Put8bits(|text| % 256);
      PutBytes(text);
    }
  }

  /** strchr for a dot, from `beg` on; the end of the text if there is none */
  method NextDot(domain: seq<Octet>, beg: nat) returns (k: nat)
    requires beg <= |domain|
    ensures beg <= k <= |domain| && k == beg + LabelLen(domain[beg..])
  {
    k := beg;
    while k < |domain| && domain[k] != DOT
      invariant beg <= k <= |domain| && beg + LabelLen(domain[beg..]) == k + LabelLen(domain[k..])
    {
      assert domain[k..][1..] == domain[k + 1..];
      k := k + 1;
    }
  }

  lemma ScanTurn(w: seq<Octet>, pos: nat, i: nat, lim: int)
    requires 1 <= i < lim && Scan(w, pos, i, lim) != Wild
    ensures pos + i < |w| && Scan(w, pos, i, lim) ==
      if w[pos + i] == 0 then Got(Chars(w[pos + 1..pos + i]), pos + i + 1) else Scan(w, pos, i + 1, lim)
    ensures i == 1 ==> Chars(w[pos + 1..pos + i]) == []
  {
    assert w[pos + 1..pos + 1] == [];
  }

  lemma ScanOver(w: seq<Octet>, pos: nat, i: nat, lim: int)
    requires 1 <= i && lim <= i
    ensures Scan(w, pos, i, lim) == Failed
  {
  }

  lemma CharsNext(w: seq<Octet>, pos: nat, i: nat)
    requires 1 <= i && pos + i < |w|
    ensures Chars(w[pos + 1..pos + i + 1]) == Chars(w[pos + 1..pos + i]) + [CharOf(w[pos + i])]
    ensures i == 1 ==> Chars(w[pos + 1..pos + i]) == []
  {
    assert i == 1 ==> w[pos + 1..pos + i] == [];
    var v := w[pos + 1..pos + i + 1];
    assert v[..|v| - 1] == w[pos + 1..pos + i];
  }

  lemma LabelStep(domain: seq<Octet>, beg: nat, k: nat, out: seq<Octet>)
    requires beg <= k < |domain| && k == beg + LabelLen(domain[beg..])
    ensures out + EncodeName(domain[beg..]) == out + ([(k - beg) % 256] + domain[beg..k]) + EncodeName(domain[k + 1..])
  {
    hide LabelLen;
    var s := domain[beg..];
    assert s[..k - beg] == domain[beg..k] && s[k - beg + 1..] == domain[k + 1..];
  }

  lemma LastLabel(domain: seq<Octet>, beg: nat, out: seq<Octet>)
    requires beg <= |domain| == beg + LabelLen(domain[beg..])
    ensures out + EncodeName(domain[beg..]) == out + ([|domain[beg..]| % 256] + domain[beg..]) + [0]
  {
  }

  /** The record's data is what its type makes the code read from the union. */
  predicate Typed(r: Record) {
    Implemented(r.rtype) ==> Matched(r)
  }

  /** struct Message; lists grow at the front. */
  class Msg {
    var id: Word
    var qr: nat
    var rcode: nat
    var qdCount: Word
    var anCount: Word
    var nsCount: Word
    var arCount: Word
    var questions: seq<Question>
    var answers: seq<Record>

    function Value(): Message
      reads this
    {
      Message(id, qr, rcode, qdCount, anCount, nsCount, arCount, questions, answers)
    }

    /** A message filled with zeros. */
    constructor ()
      ensures questions == [] && answers == []
    {
      id, qr, rcode, qdCount, anCount, nsCount, arCount, questions, answers := 0, 0, 0, 0, 0, 0, 0, [], [];
    }

    method DecodeHeader(c: Cursor)
      requires c.pos == 0 && 12 <= c.buf.Length
      modifies this, c`pos
      ensures var w := c.buf[..]; Value() == Message(Get16(w, 0), Get16(w, 2) / 0x8000, Get16(w, 2) % 16,
        Get16(w, 4), Get16(w, 6), Get16(w, 8), Get16(w, 10), old(questions), old(answers))
      ensures c.pos == 12
    {
      hide Get16;
      id := c.Get16bits();
      var fields := c.Get16bits();
      qr, rcode := fields / 0x8000, fields % 16;
      DecodeCounts(c);
    }

    method DecodeCounts(c: Cursor)
      requires c.pos == 4 && 12 <= c.buf.Length
      modifies this`qdCount, this`anCount, this`nsCount, this`arCount, c`pos
      ensures var w := c.buf[..];
        qdCount == Get16(w, 4) && anCount == Get16(w, 6) && nsCount == Get16(w, 8) && arCount == Get16(w, 10)
      ensures c.pos == 12
    {
      hide Get16;
      qdCount := c.Get16bits();
      anCount := c.Get16bits();
      nsCount := c.Get16bits();
      arCount := c.Get16bits();
    }

    /** decode_msg, for a buffer in which it does not read past the end */
    method Decode(c: Cursor, size: int) returns (r: int)
      requires questions == [] && answers == [] && c.pos == 0 && DecodeMsg(c.buf[..], size) != Wild
      modifies this, c`pos
      ensures DecodeMsg(c.buf[..], size).Got? ==> r == 0 && DecodeMsg(c.buf[..], size) == Got(Value(), c.pos)
      ensures DecodeMsg(c.buf[..], size).Failed? ==> r == -1
      ensures c.buf[6] != 0 || c.buf[7] != 0 || c.buf[8] != 0 || c.buf[9] != 0 ==> r == -1
    {
      hide DecodeName, Get16;
      ghost var w := c.buf[..];
      if w[6] != 0 || w[7] != 0 || w[8] != 0 || w[9] != 0 { CountsRefused(w, size); }
      DecodeHeader(c);
      if anCount != 0 || nsCount != 0 {
        return -1;
      }
      ghost var m := Value();
      var qcount: nat := qdCount;
      for i := 0 to qcount
        invariant ReadQuestions(w, 12, qcount, size, []) == ReadQuestions(w, c.pos, qcount - i, size, questions)
        invariant Value() == m.(questions := questions)
      {
        var name := c.DecodeDomainName(size);
        var qType := c.Get16bits();
        var qClass := c.Get16bits();
        if name.None? {
          return -1;
        }
        questions := [Question(name.value, qType, qClass)] + questions;
      }
      r := 0;
    }

    /** get_A_Record, get_AAAA_Record and get_TXT_Record: None for any name but one */
    method Lookup(t: Word, name: seq<Octet>) returns (r: Option<(RData, Word)>)
      requires Implemented(t)
      ensures r == if name != KNOWN then None
        else if t == A_TYPE then Some((Address(A_DATA), 4))
        else if t == AAAA_TYPE then Some((Address(AAAA_DATA), 16))
        else Some((Txt(|TXT_DATA|, TXT_DATA), |TXT_DATA| + 1))
    {
      if name != KNOWN {
        return None;
      }
      if t == A_TYPE {
        r := Some((Address(A_DATA), 4));
      } else if t == AAAA_TYPE {
        r := Some((Address(AAAA_DATA), 16));
      } else {
        r := Some((Txt(|TXT_DATA|, TXT_DATA), |TXT_DATA| + 1));
      }
    }

    /** resolve_query */
    method ResolveQuery()
      requires |questions| < 0x1_0000
      modifies this
      ensures Value() == Resolve(old(Value()))
    {
      hide ResolveAll;
      ghost var m0 := Value();
      qr, rcode, anCount, nsCount, arCount := 1, 0, 0, 0, 0;
      ghost var m := Value();
      var i := 0;
      while i < |questions|
        invariant i <= |questions| && questions == m.questions && anCount <= i
        invariant ResolveAll(questions[i..], Value()) == ResolveAll(questions, m)
      {
        var q := questions[i];
        ResolveTurn(questions, i, Value());
        if Implemented(q.qType) {
          var d := Lookup(q.qType, q.qName);
          if d.Some? {
            anCount := anCount + 1;
            answers := [Record(q.qName, q.qType, q.qClass, TTL, d.value.1, d.value.0)] + answers;
          }
        } else {
          rcode := NOT_IMPLEMENTED;
        }
        i := i + 1;
      }
      ResolveEnd(questions[i..], Value());
    }

    lemma ResolveTurn(qs: seq<Question>, i: nat, m: Message)
      requires i < |qs| && m.anCount + |qs| - i < 0x1_0000
      ensures ResolveAll(qs[i..], m) == ResolveAll(qs[i + 1..], ResolveOne(qs[i], m))
    {
      assert qs[i..][1..] == qs[i + 1..];
    }

    lemma ResolveEnd(qs: seq<Question>, m: Message)
      requires qs == []
      ensures ResolveAll(qs, m) == m
    {
    }

    /** The part of a record before its data. */
    method PutHead(c: Cursor, r: Record)
      requires c.pos + |RecordHead(r)| <= c.buf.Length
      modifies c`pos, c.buf
      ensures c.buf[..] == Write(old(c.buf[..]), old(c.pos), RecordHead(r)) && c.pos == old(c.pos) + |RecordHead(r)|
    {
      hide Write, EncodeName, Put16, Put32;
      ghost var s0, p0 := c.buf[..], c.pos;
      ghost var a := EncodeName(r.name);
      ghost var b := a + Put16(r.rtype);
      ghost var d := b + Put16(r.class_);
      ghost var e := d + Put32(r.ttl);
      WriteTwice(s0, p0, a, Put16(r.rtype));
      WriteTwice(s0, p0, b, Put16(r.class_));
      WriteTwice(s0, p0, d, Put32(r.ttl));
      WriteTwice(s0, p0, e, Put16(r.rdLength));
      c.EncodeDomainName(r.name);
      c.Put16bits(r.rtype);
      c.Put16bits(r.class_);
      c.Put32bits(r.ttl);
      c.Put16bits(r.rdLength);
    }

    /** A loop of put8bits over a text or an address */
    method PutEach(c: Cursor, b: seq<Octet>)
      requires c.pos + |b| <= c.buf.Length
      modifies c`pos, c.buf
      ensures c.buf[..] == Write(old(c.buf[..]), old(c.pos), b) && c.pos == old(c.pos) + |b|
    {
      hide Write;
      ghost var s0, p0 := c.buf[..], c.pos;
      WriteNothing(s0, p0);
      assert b[..0] == [];
      for i := 0 to |b|
        invariant c.pos == p0 + i && c.buf.Length == |s0| && c.buf[..] == Write(s0, p0, b[..i])
      {
        WriteTwice(s0, p0, b[..i], [b[i]]);
        assert b[..i + 1] == b[..i] + [b[i]];
        c.Put8bits(b[i]);
      }
      assert b[..|b|] == b;
    }

    /** The data of a record, by its type; 1 for a type that the code does not know */
    method PutData(c: Cursor, r: Record) returns (rc: int)
      requires Typed(r) && c.pos + |DataBytes(r)| <= c.buf.Length
      modifies c`pos, c.buf
      ensures rc == if Implemented(r.rtype) then 0 else 1
      ensures rc == 0 ==>
        c.buf[..] == Write(old(c.buf[..]), old(c.pos), DataBytes(r)) && c.pos == old(c.pos) + |DataBytes(r)|
    {
      hide Write;
      if r.rtype == A_TYPE || r.rtype == AAAA_TYPE {
        PutEach(c, r.data.addr);
      } else if r.rtype == TXT_TYPE {
        WriteTwice(c.buf[..], c.pos, [r.data.len], r.data.text);
        c.Put8bits(r.data.len);
        PutEach(c, r.data.text);
      } else {
        return 1;
      }
      rc := 0;
    }

    /** encode_resource_records: 1 if it comes across a type that it does not know */
    method EncodeResourceRecords(c: Cursor, rs: seq<Record>) returns (rc: int)
      requires c.pos + |EncodeRecords(rs)| <= c.buf.Length && forall r :: r in rs ==> Typed(r)
      modifies c`pos, c.buf
      ensures rc == if forall r :: r in rs ==> Implemented(r.rtype) then 0 else 1
      ensures rc == 0 ==>
        c.buf[..] == Write(old(c.buf[..]), old(c.pos), EncodeRecords(rs)) && c.pos == old(c.pos) + |EncodeRecords(rs)|
    {
      hide Write, RecordHead, DataBytes, Typed, Implemented, EncodeRecords;
      ghost var s0, p0 := c.buf[..], c.pos;
      ghost var out: seq<Octet> := [];
      WriteNothing(s0, p0);
      var i := 0;
      while i < |rs|
        invariant 0 <= i <= |rs| && c.buf.Length == |s0| && c.pos == p0 + |out|
        invariant out + EncodeRecords(rs[i..]) == EncodeRecords(rs)
        invariant c.buf[..] == Write(s0, p0, out) && forall k :: 0 <= k < i ==> Implemented(rs[k].rtype)
      {
        var r := rs[i];
        RecordTurn(rs, i, out);
        WriteTwice(s0, p0, out, RecordHead(r));
        PutHead(c, r);
        WriteTwice(s0, p0, out + RecordHead(r), DataBytes(r));
        rc := PutData(c, r);
        if rc != 0 {
          return 1;
        }
        out := out + RecordHead(r) + DataBytes(r);
        i := i + 1;
      }
      RecordsEnd(rs[i..], out);
      rc := 0;
    }

    lemma RecordTurn(rs: seq<Record>, i: nat, out: seq<Octet>)
      requires i < |rs|
      ensures out + EncodeRecords(rs[i..]) == out + RecordHead(rs[i]) + DataBytes(rs[i]) + EncodeRecords(rs[i + 1..])
    {
      hide RecordHead, DataBytes;
      assert rs[i..][1..] == rs[i + 1..];
    }

    lemma RecordsEnd(rs: seq<Record>, out: seq<Octet>)
      requires rs == []
      ensures out + EncodeRecords(rs) == out
    {
    }

    method PutQuestions(c: Cursor)
      requires c.pos + |EncodeQuestions(questions)| <= c.buf.Length
      modifies c`pos, c.buf
      ensures c.buf[..] == Write(old(c.buf[..]), old(c.pos), EncodeQuestions(questions))
      ensures c.pos == old(c.pos) + |EncodeQuestions(questions)|
    {
      hide Write, EncodeName, Put16, EncodeQuestions, EncodeQuestion;
      ghost var s0, p0 := c.buf[..], c.pos;
      ghost var out: seq<Octet> := [];
      WriteNothing(s0, p0);
      var i := 0;
      while i < |questions|
        invariant 0 <= i <= |questions| && c.buf.Length == |s0| && c.pos == p0 + |out|
        invariant out + EncodeQuestions(questions[i..]) == EncodeQuestions(questions) && c.buf[..] == Write(s0, p0, out)
      {
        var q := questions[i];
        QuestionTurn(questions, i, out);
        ghost var a := out + EncodeName(q.qName);
        ghost var b := a + Put16(q.qType);
        WriteTwice(s0, p0, out, EncodeName(q.qName));
        WriteTwice(s0, p0, a, Put16(q.qType));
        WriteTwice(s0, p0, b, Put16(q.qClass));
        c.EncodeDomainName(q.qName);
        c.Put16bits(q.qType);
        c.Put16bits(q.qClass);
        out := b + Put16(q.qClass);
        i := i + 1;
      }
      QuestionsEnd(questions[i..], out);
    }

    lemma QuestionTurn(qs: seq<Question>, i: nat, out: seq<Octet>)
      requires i < |qs|
      ensures out + EncodeQuestions(qs[i..]) ==
        out + EncodeName(qs[i].qName) + Put16(qs[i].qType) + Put16(qs[i].qClass) + EncodeQuestions(qs[i + 1..])
    {
      hide EncodeName, Put16;
      assert qs[i..][1..] == qs[i + 1..];
    }

    lemma QuestionsEnd(qs: seq<Question>, out: seq<Octet>)
      requires qs == []
      ensures out + EncodeQuestions(qs) == out
    {
    }

    method EncodeHead(c: Cursor)
      requires c.pos + 12 <= c.buf.Length
      modifies c`pos, c.buf
      ensures c.buf[..] == Write(old(c.buf[..]), old(c.pos), EncodeHeader(Value())) && c.pos == old(c.pos) + 12
    {
      hide Write, Put16;
      ghost var s0, p0 := c.buf[..], c.pos;
      var fields: Word := (qr % 2) * 0x8000 + rcode % 16;
      ghost var a := Put16(id);
      ghost var b := a + Put16(fields);
      ghost var d := b + Put16(qdCount);
      ghost var e := d + Put16(anCount);
      ghost var f := e + Put16(nsCount);
      WriteTwice(s0, p0, a, Put16(fields));
      WriteTwice(s0, p0, b, Put16(qdCount));
      WriteTwice(s0, p0, d, Put16(anCount));
      WriteTwice(s0, p0, e, Put16(nsCount));
      WriteTwice(s0, p0, f, Put16(arCount));
      c.Put16bits(id);
      c.Put16bits(fields);
      c.Put16bits(qdCount);
      c.Put16bits(anCount);
      c.Put16bits(nsCount);
      c.Put16bits(arCount);
    }

    /** encode_msg */
    method Encode(c: Cursor) returns (rc: int)
      requires c.pos + |EncodeMsg(Value())| <= c.buf.Length && forall r :: r in answers ==> Typed(r)
      modifies c`pos, c.buf
      ensures rc == if forall r :: r in answers ==> Implemented(r.rtype) then 0 else 1
      ensures rc == 0 ==>
        c.buf[..] == Write(old(c.buf[..]), old(c.pos), EncodeMsg(Value())) && c.pos == old(c.pos) + |EncodeMsg(Value())|
    {
      hide Write, EncodeHeader, EncodeQuestions, EncodeRecords, Typed, Implemented;
      ghost var s0, p0 := c.buf[..], c.pos;
      ghost var h, q := EncodeHeader(Value()), EncodeQuestions(questions);
      WriteTwice(s0, p0, h, q);
      WriteTwice(s0, p0, h + q, EncodeRecords(answers));
      EncodeHead(c);
      PutQuestions(c);
      rc := EncodeResourceRecords(c, answers);
    }
  }

  lemma MatchedAnswers(m: Message)
    requires |m.questions| < 0x1_0000 && m.answers == []
    ensures forall r :: r in Resolve(m).answers ==> Typed(r) && Implemented(r.rtype)
  {
    hide ResolveAll, Answers;
    ResolvedAll(m.questions, m.(qr := 1, rcode := 0, anCount := 0, nsCount := 0, arCount := 0));
    AnswersMatched(Reversed(m.questions));
    forall r | r in Resolve(m).answers
      ensures Typed(r) && Implemented(r.rtype)
    {
      assert r in Answers(Reversed(m.questions));
    }
  }

  lemma NoRecords(w: seq<Octet>, size: int)
    ensures DecodeMsg(w, size).Got? ==> DecodeMsg(w, size).value.answers == []
  {
  }

  /** One packet: the response is written over the query. None means that nothing is sent. */
  method Respond(buf: array<Octet>, size: int) returns (n: Option<nat>)
    requires DecodeMsg(buf[..], size) != Wild
    modifies buf
    ensures var r := ResponseTo(old(buf[..]), size);
      if r.None? then n == None && buf[..] == old(buf[..])
      else |r.value| <= buf.Length && n == Some(|r.value|) && buf[..] == Write(old(buf[..]), 0, r.value)
    ensures old(buf[6]) != 0 || old(buf[7]) != 0 || old(buf[8]) != 0 || old(buf[9]) != 0 ==>
      n == None && buf[..] == old(buf[..])
  {
    hide Write, DecodeMsg, ResolveAll, EncodeMsg, Typed, Implemented, ResponseTo;
    ghost var w := buf[..];
    Answered(w, size);
    if w[6] != 0 || w[7] != 0 || w[8] != 0 || w[9] != 0 { CountsRefused(w, size); }
    var msg := new Msg();
    var c := new Cursor(buf);
    NoRecords(buf[..], size);
    var r := msg.Decode(c, size);
    if r != 0 {
      return None;
    }
    ResponseFits(buf[..], size);
    MatchedAnswers(msg.Value());
    msg.ResolveQuery();
    var p := new Cursor(buf);
    var rc := msg.Encode(p);
    if rc != 0 {
      return None;
    }
    n := Some(p.pos);
  }
}
