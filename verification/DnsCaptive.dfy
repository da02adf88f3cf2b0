/**
 The captive answerer of `main/dns_server.c`, and an independent decoder of DNS messages
 after sections 4.1.1 to 4.1.4 of RFC 1035 to say what its replies mean.
 */
module DnsCaptive {
  import opened Prelude

  const HEADER: nat := 12
  const COPIED: nat := 200
  const GATEWAY: seq<Byte> := [192, 168, 7, 1]

  // ---- The reply as a function of the query ---------------------------------------------------

  /** The walk over the question's name: stops behind its terminator, pointer, or near the end. */
  function WalkName(q: seq<Byte>, off: nat): (r: nat)
    ensures r >= off
    decreases |q| - off
  {
    if off >= |q| - 4 then off
    else if q[off] == 0 then off + 1
    else if q[off] >= 0xC0 then off + 2
    else WalkName(q, off + 1 + q[off])
  }

  function ReplyHeader(q: seq<Byte>, rcode: Byte, answers: Byte): (h: seq<Byte>)
    requires |q| >= HEADER && rcode < 16
    ensures |h| == HEADER
  {
    [q[0], q[1], 0x81, 0x80 + rcode, 0x00, 0x01, 0x00, answers, 0x00, 0x00, 0x00, 0x00]
  }

  /** A record for the name at offset 12, class IN, time to live 1 s, the gateway's address. */
  function AnswerBytes(): (a: seq<Byte>)
    ensures |a| == 16
  {
    [0xC0, 0x0C, 0x00, 0x01, 0x00, 0x01, 0x00, 0x00, 0x00, 0x01, 0x00, 0x04] + GATEWAY
  }

  /** The reply, or nothing when the query cannot be answered. */
  function CaptiveReply(q: seq<Byte>, rmax: nat): (r: seq<Byte>)
    ensures |r| <= rmax && |r| <= COPIED + 16
    ensures r != [] ==> |r| >= HEADER
  {
    if |q| < HEADER || rmax < 28 then [] else
      var off := WalkName(q, HEADER);
      if off + 4 > |q| then [] else
        var n := Min(|q|, COPIED);
        if q[off] != 0 || q[off + 1] != 1 then
          ReplyHeader(q, 3, 0) + (if n <= rmax then q[HEADER..n] else [])
        else if n == HEADER || n + 16 > rmax then []
        else ReplyHeader(q, 0, 1) + q[HEADER..n] + AnswerBytes()
  }

  // ---- The imperative answerer -------------------------------------------------------------------

  /** `memcpy` to the end of what the reply buffer holds so far. */
  method Append(buf: array<Byte>, at: nat, bytes: seq<Byte>) returns (end: nat)
    requires at + |bytes| <= buf.Length
    modifies buf
    ensures end == at + |bytes| && buf[..end] == old(buf[..at]) + bytes
    ensures forall k :: end <= k < buf.Length ==> buf[k] == old(buf[k])
  {
    var i := 0;
    while i < |bytes|
      invariant 0 <= i <= |bytes|
      invariant buf[..at + i] == old(buf[..at]) + bytes[..i]
      invariant forall k :: at + i <= k < buf.Length ==> buf[k] == old(buf[k])
    {
      buf[at + i] := bytes[i];
      i := i + 1;
    }
    assert bytes[..i] == bytes;
    end := at + |bytes|;
  }

  method FindQuestionType(query: seq<Byte>) returns (off: nat)
    requires |query| >= HEADER
    ensures off == WalkName(query, HEADER)
  {
    off := HEADER;
    while off < |query| - 4
      invariant off >= HEADER
      invariant WalkName(query, HEADER) == WalkName(query, off)
      decreases |query| - off
    {
      var len := query[off];
      if len == 0 { off := off + 1; break; }
      if len >= 0xC0 { off := off + 2; break; }
      off := off + 1 + len;
    }
  }

  /** RCODE 3: the header and what is copied of the question, if it fits. */
  method RefuseName(query: seq<Byte>, qlen: nat, reply: array<Byte>, rmax: nat) returns (rlen: nat)
    requires HEADER <= qlen <= |query| && HEADER <= rmax <= reply.Length
    modifies reply
    ensures rlen <= rmax
    ensures reply[..rlen] == ReplyHeader(query, 3, 0) + (if qlen <= rmax then query[HEADER..qlen] else [])
  {
    ghost var header := ReplyHeader(query, 3, 0);
    rlen := Append(reply, 0, ReplyHeader(query, 3, 0));
    assert reply[..rlen] == header;
    var qsz := qlen - HEADER;
    if qsz > 0 && rlen + qsz <= rmax {
      rlen := Append(reply, rlen, query[HEADER..qlen]);
    }
  }

  /** The header, what is copied of the question, and the gateway's address. */
  method AnswerGateway(query: seq<Byte>, qlen: nat, reply: array<Byte>) returns (rlen: nat)
    requires HEADER <= qlen <= |query| && qlen + 16 <= reply.Length
    modifies reply
    ensures rlen == qlen + 16
    ensures reply[..rlen] == ReplyHeader(query, 0, 1) + query[HEADER..qlen] + AnswerBytes()
  {
    ghost var header := ReplyHeader(query, 0, 1);
    rlen := Append(reply, 0, ReplyHeader(query, 0, 1));
    assert reply[..rlen] == header;
    rlen := Append(reply, rlen, query[HEADER..qlen]);
    rlen := Append(reply, rlen, AnswerBytes());
  }

  method MakeCaptiveReply(query: seq<Byte>, reply: array<Byte>, rmax: nat) returns (rlen: nat)
    requires rmax <= reply.Length
    modifies reply
    ensures rlen <= rmax && reply[..rlen] == CaptiveReply(query, rmax)
  {
    var qlen := |query|;
    if qlen < HEADER || rmax < 28 { return 0; }
    var off := FindQuestionType(query);
    if off + 4 > qlen { return 0; }
    var qtype := U16(query, off);
    if qlen > COPIED { qlen := COPIED; }
    if qtype != 1 {
      rlen := RefuseName(query, qlen, reply, rmax);
      return;
    }
    var qsection := qlen - HEADER;
    if qsection <= 0 || HEADER + qsection + 16 > rmax { return 0; }
    rlen := AnswerGateway(query, qlen, reply);
  }

  // ---- Decoding DNS messages ------------------------------------------------------------------------

  type Name = seq<seq<Byte>>

  datatype Parsed<T> = Parsed(value: T, next: nat)
  datatype Question = Question(name: Name, qtype: nat, qclass: nat)
  datatype Record = Record(name: Name, rtype: nat, rclass: nat, ttl: nat, rdata: seq<Byte>)
  datatype Message = Message(id: nat, response: bool, rcode: nat, questions: seq<Question>, answers: seq<Record>)

  function U16(m: seq<Byte>, off: nat): nat
    requires off + 2 <= |m|
  {
    var hi: int, lo: int := m[off], m[off + 1];
    hi * 256 + lo
  }

  /** Section 4.1.4: labels, closed by the root or by a pointer to a prior name, one before `bound`. */
  function DecodeName(m: seq<Byte>, off: nat, bound: nat): (r: Option<Parsed<Name>>)
    ensures r.Some? ==> off < r.value.next <= |m|
    decreases bound, |m| - off
  {
    if off >= |m| then None
    else if m[off] == 0 then Some(Parsed([], off + 1))
    else if m[off] >= 0xC0 then
      if off + 2 > |m| then None else
        var target := U16(m, off) - 0xC000;
        if target >= bound then None else
          (match DecodeName(m, target, target)
           case None => None
           case Some(p) => Some(Parsed(p.value, off + 2)))
    else if m[off] >= 0x40 || off + 1 + m[off] > |m| then None
    else
      (match DecodeName(m, off + 1 + m[off], bound)
       case None => None
       case Some(p) => Some(Parsed([m[off + 1..off + 1 + m[off]]] + p.value, p.next)))
  }

  /** Section 4.1.2. */
  function DecodeQuestion(m: seq<Byte>, off: nat): (r: Option<Parsed<Question>>)
    ensures r.Some? ==> off < r.value.next <= |m|
  {
    match DecodeName(m, off, off)
    case None => None
    case Some(p) =>
      if p.next + 4 > |m| then None
      else Some(Parsed(Question(p.value, U16(m, p.next), U16(m, p.next + 2)), p.next + 4))
  }

  /** The fixed fields and the data of a record whose name has been decoded. */
  function RecordBehind(m: seq<Byte>, p: Parsed<Name>): (r: Option<Parsed<Record>>)
    ensures r.Some? ==> p.next < r.value.next <= |m|
  {
    if p.next + 10 > |m| then None else
      var rdlength := U16(m, p.next + 8);
      if p.next + 10 + rdlength > |m| then None
      else Some(Parsed(Record(p.value, U16(m, p.next), U16(m, p.next + 2),
                              U16(m, p.next + 4) * 0x10000 + U16(m, p.next + 6),
                              m[p.next + 10..p.next + 10 + rdlength]),
                       p.next + 10 + rdlength))
  }

  /** Section 4.1.3. */
  function DecodeRecord(m: seq<Byte>, off: nat): (r: Option<Parsed<Record>>)
    ensures r.Some? ==> off < r.value.next <= |m|
  {
    match DecodeName(m, off, off) case None => None case Some(p) => RecordBehind(m, p)
  }

  function DecodeQuestions(m: seq<Byte>, off: nat, count: nat): Option<Parsed<seq<Question>>>
    decreases count
  {
    if count == 0 then Some(Parsed([], off)) else
      match DecodeQuestion(m, off)
      case None => None
      case Some(q) =>
        (match DecodeQuestions(m, q.next, count - 1)
         case None => None
         case Some(qs) => Some(Parsed([q.value] + qs.value, qs.next)))
  }

  function DecodeRecords(m: seq<Byte>, off: nat, count: nat): Option<Parsed<seq<Record>>>
    decreases count
  {
    if count == 0 then Some(Parsed([], off)) else
      match DecodeRecord(m, off)
      case None => None
      case Some(r) =>
        (match DecodeRecords(m, r.next, count - 1)
         case None => None
         case Some(rs) => Some(Parsed([r.value] + rs.value, rs.next)))
  }

  /** Section 4.1.1: a whole message without authority or additional records and nothing behind it. */
  function DecodeMessage(m: seq<Byte>): Option<Message> {
    if |m| < HEADER || U16(m, 8) != 0 || U16(m, 10) != 0 then None else
      match DecodeQuestions(m, HEADER, U16(m, 4))
      case None => None
      case Some(qs) =>
        (match DecodeRecords(m, qs.next, U16(m, 6))
         case None => None
         case Some(rs) =>
           if rs.next != |m| then None
           else Some(Message(U16(m, 0), m[2] >= 0x80, m[3] % 16, qs.value, rs.value)))
  }

  lemma SingleQuestion(m: seq<Byte>, off: nat)
    ensures DecodeQuestions(m, off, 1) ==
            match DecodeQuestion(m, off) case None => None case Some(p) => Some(Parsed([p.value], p.next))
  {
    var d := DecodeQuestion(m, off);
    if d.Some? {
      assert DecodeQuestions(m, d.value.next, 0) == Some(Parsed([], d.value.next));
      assert [d.value.value] + [] == [d.value.value];
    }
  }

  lemma SingleRecord(m: seq<Byte>, off: nat)
    ensures DecodeRecords(m, off, 1) ==
            match DecodeRecord(m, off) case None => None case Some(p) => Some(Parsed([p.value], p.next))
  {
    var d := DecodeRecord(m, off);
    if d.Some? {
      assert DecodeRecords(m, d.value.next, 0) == Some(Parsed([], d.value.next));
      assert [d.value.value] + [] == [d.value.value];
    }
  }

  /** One question and at most one answer. */
  lemma SmallMessage(m: seq<Byte>)
    requires |m| >= HEADER && U16(m, 4) == 1 && U16(m, 6) <= 1 && U16(m, 8) == U16(m, 10) == 0
    ensures DecodeMessage(m) ==
            match DecodeQuestion(m, HEADER)
            case None => None
            case Some(q) =>
              if U16(m, 6) == 0 then
                if q.next == |m| then Some(Message(U16(m, 0), m[2] >= 0x80, m[3] % 16, [q.value], [])) else None
              else
                match DecodeRecord(m, q.next)
                case None => None
                case Some(r) =>
                  if r.next == |m|
                  then Some(Message(U16(m, 0), m[2] >= 0x80, m[3] % 16, [q.value], [r.value]))
                  else None
  {
    SingleQuestion(m, HEADER);
    var q := DecodeQuestion(m, HEADER);
    if q.Some? {
      SingleRecord(m, q.value.next);
      assert DecodeRecords(m, q.value.next, 0) == Some(Parsed([], q.value.next));
    }
  }

  // ---- Queries that start with one uncompressed question -------------------------------------------------

  predicate ValidName(name: Name) {
    forall k :: 0 <= k < |name| ==> 1 <= |name[k]| <= 63
  }

  function EncodeName(name: Name): (e: seq<Byte>)
    requires ValidName(name)
    ensures |e| >= 1
  {
    if name == [] then [0] else [|name[0]|] + name[0] + EncodeName(name[1..])
  }

  predicate ValidQuestion(x: Question) {
    ValidName(x.name) && x.qtype < 0x10000 && x.qclass < 0x10000
  }

  function EncodeQuestion(x: Question): (e: seq<Byte>)
    requires ValidQuestion(x)
    ensures |e| == |EncodeName(x.name)| + 4
  {
    EncodeName(x.name) + [x.qtype / 256, x.qtype % 256, x.qclass / 256, x.qclass % 256]
  }

  /** Where a question at offset 12 ends. */
  function EndOf(x: Question): (end: nat)
    requires ValidQuestion(x)
    ensures end == 12 + |EncodeName(x.name)| + 4
  {
    12 + |EncodeQuestion(x)|
  }

  /** Any header, this question, and any bytes behind it. */
  ghost predicate Asks(q: seq<Byte>, x: Question) {
    ValidQuestion(x) && EndOf(x) <= |q| && q[12..EndOf(x)] == EncodeQuestion(x)
  }

  lemma {:induction false} WalkReachesEnd(q: seq<Byte>, off: nat, name: Name)
    requires ValidName(name) && off + |EncodeName(name)| + 4 <= |q|
    requires q[off..off + |EncodeName(name)|] == EncodeName(name)
    ensures WalkName(q, off) == off + |EncodeName(name)|
    decreases |name|
  {
    if name == [] {
      assert q[off] == q[off..off + 1][0];
    } else {
      NameHead(q, off, name);
      WalkReachesEnd(q, off + 1 + |name[0]|, name[1..]);
    }
  }

  lemma PartOf(m: seq<Byte>, off: nat, e: seq<Byte>, i: nat, j: nat)
    requires off + |e| <= |m| && m[off..off + |e|] == e && i <= j <= |e|
    ensures m[off + i..off + j] == e[i..j]
  {
    forall k | i <= k < j ensures m[off + k] == e[k] {
      assert m[off..off + |e|][k] == m[off + k];
    }
  }

  /** Decoding a label in front of a name. */
  lemma LabelRoundTrip(m: seq<Byte>, off: nat, bound: nat, part: seq<Byte>)
    requires 1 <= |part| <= 63 && off + 1 + |part| <= |m|
    requires m[off] == |part| && m[off + 1..off + 1 + |part|] == part
    ensures DecodeName(m, off, bound) ==
            match DecodeName(m, off + 1 + |part|, bound)
            case None => None
            case Some(p) => Some(Parsed([part] + p.value, p.next))
  {
  }

  lemma Parts(a: seq<Byte>, b: seq<Byte>, c: seq<Byte>)
    ensures var m := a + b; m[..|a|] == a && m[|a|..|a| + |b|] == b
    ensures var m := a + b + c; m[..|a|] == a && m[|a|..|a| + |b|] == b && m[|a| + |b|..] == c
  {
  }

  lemma EncodedHead(name: Name)
    requires ValidName(name) && name != []
    ensures var e, len := EncodeName(name), |name[0]|;
            && |e| == 1 + len + |EncodeName(name[1..])|
            && e[0] == len && e[1..1 + len] == name[0] && e[1 + len..] == EncodeName(name[1..])
  {
    Parts([|name[0]|], name[0], EncodeName(name[1..]));
  }

  lemma NameHead(m: seq<Byte>, off: nat, name: Name)
    requires ValidName(name) && name != [] && off + |EncodeName(name)| <= |m|
    requires m[off..off + |EncodeName(name)|] == EncodeName(name)
    ensures var part, next := name[0], off + 1 + |name[0]|;
            && |EncodeName(name)| == 1 + |part| + |EncodeName(name[1..])|
            && m[off] == |part| && m[off + 1..next] == part
            && m[next..next + |EncodeName(name[1..])|] == EncodeName(name[1..])
  {
    var e, len := EncodeName(name), |name[0]|;
    EncodedHead(name);
    assert m[off] == m[off..off + |e|][0];
    PartOf(m, off, e, 1, 1 + len);
    PartOf(m, off, e, 1 + len, |e|);
    assert e[1 + len..|e|] == e[1 + len..];
  }

  lemma RootRoundTrip(m: seq<Byte>, off: nat, bound: nat)
    requires off < |m| && m[off..off + 1] == [0]
    ensures DecodeName(m, off, bound) == Some(Parsed([], off + 1))
  {
    assert m[off] == m[off..off + 1][0];
  }

  lemma LabelInFront(m: seq<Byte>, off: nat, bound: nat, name: Name, end: nat)
    requires name != [] && 1 <= |name[0]| <= 63 && off + 1 + |name[0]| <= |m|
    requires m[off] == |name[0]| && m[off + 1..off + 1 + |name[0]|] == name[0]
    requires DecodeName(m, off + 1 + |name[0]|, bound) == Some(Parsed(name[1..], end))
    ensures DecodeName(m, off, bound) == Some(Parsed(name, end))
  {
    LabelRoundTrip(m, off, bound, name[0]);
    assert [name[0]] + name[1..] == name;
  }

  lemma {:induction false} NameRoundTrip(m: seq<Byte>, off: nat, bound: nat, name: Name)
    requires ValidName(name) && off + |EncodeName(name)| <= |m|
    requires m[off..off + |EncodeName(name)|] == EncodeName(name)
    ensures DecodeName(m, off, bound) == Some(Parsed(name, off + |EncodeName(name)|))
    decreases |name|
  {
    if name == [] {
      RootRoundTrip(m, off, bound);
    } else {
      var head, rest := name[0], name[1..];
      NameHead(m, off, name);
      NameRoundTrip(m, off + 1 + |head|, bound, rest);
      LabelInFront(m, off, bound, name, off + |EncodeName(name)|);
    }
  }

  /** The question's parts, wherever its bytes stand at offset 12. */
  lemma QuestionShape(q: seq<Byte>, x: Question)
    requires Asks(q, x)
    ensures var end := EndOf(x);
            && q[12..end - 4] == EncodeName(x.name)
            && U16(q, end - 4) == x.qtype && U16(q, end - 2) == x.qclass
  {
    var e, end := EncodeQuestion(x), EndOf(x);
    PartOf(q, 12, e, 0, |e| - 4);
    forall k | 12 <= k < end ensures q[k] == e[k - 12] {
      assert q[12..end][k - 12] == q[k];
    }
  }

  /** The walk ends right behind the first name, whatever follows the question. */
  lemma WalkEndsBehindName(q: seq<Byte>, x: Question)
    requires Asks(q, x)
    ensures WalkName(q, 12) == EndOf(x) - 4
  {
    QuestionShape(q, x);
    WalkReachesEnd(q, 12, x.name);
  }

  /** The labels of a name, without a terminator. */
  function Labels(name: Name): (e: seq<Byte>)
    requires ValidName(name)
  {
    if name == [] then [] else [|name[0]|] + name[0] + Labels(name[1..])
  }

  lemma FirstLabel(q: seq<Byte>, off: nat, part: seq<Byte>, rest: seq<Byte>)
    requires |part| < 256 && off + 1 + |part| + |rest| <= |q|
    requires q[off..off + 1 + |part| + |rest|] == [|part|] + part + rest
    ensures q[off] == |part| && q[off + 1 + |part|..off + 1 + |part| + |rest|] == rest
  {
    var e := [|part|] + part + rest;
    assert q[off] == q[off..off + |e|][0];
    PartOf(q, off, e, 1 + |part|, |e|);
    Parts([|part|], part, rest);
    assert e[1 + |part|..|e|] == e[1 + |part|..];
  }

  /** A name cut short by a pointer ends behind the pointer's two bytes, wherever that points. */
  lemma {:induction false} WalkEndsBehindPointer(q: seq<Byte>, off: nat, name: Name)
    requires ValidName(name) && off + |Labels(name)| + 6 <= |q|
    requires q[off..off + |Labels(name)|] == Labels(name) && q[off + |Labels(name)|] >= 0xC0
    ensures WalkName(q, off) == off + |Labels(name)| + 2
    decreases |name|
  {
    if name != [] {
      FirstLabel(q, off, name[0], Labels(name[1..]));
      WalkEndsBehindPointer(q, off + 1 + |name[0]|, name[1..]);
    }
  }

  /** What the captive reply should say. */
  function Expected(q: seq<Byte>, x: Question): Message
    requires |q| >= 2
  {
    if x.qtype == 1 then Message(U16(q, 0), true, 0, [x], [Record(x.name, 1, 1, 1, [192, 168, 7, 1])])
    else Message(U16(q, 0), true, 3, [x], [])
  }

  lemma CaptiveReplyBytes(q: seq<Byte>, x: Question, rmax: nat)
    requires Asks(q, x) && rmax >= 216
    ensures var n := Min(|q|, 200);
            CaptiveReply(q, rmax) ==
            if x.qtype == 1 then ReplyHeader(q, 0, 1) + q[12..n] + AnswerBytes()
            else ReplyHeader(q, 3, 0) + q[12..n]
  {
    QuestionShape(q, x);
    WalkEndsBehindName(q, x);
  }

  lemma CopyAsks(q: seq<Byte>, x: Question, m: seq<Byte>)
    requires Asks(q, x) && EndOf(x) <= |m| && m[12..EndOf(x)] == q[12..EndOf(x)]
    ensures Asks(m, x)
  {
  }

  lemma FirstNameDecodes(m: seq<Byte>, x: Question)
    requires Asks(m, x)
    ensures DecodeName(m, 12, 12) == Some(Parsed(x.name, EndOf(x) - 4))
  {
    QuestionShape(m, x);
    NameRoundTrip(m, 12, 12, x.name);
  }

  /** The question's name, copied with the question, decodes at offset 12. */
  lemma CopiedName(q: seq<Byte>, x: Question, m: seq<Byte>)
    requires Asks(q, x) && EndOf(x) <= |m| && m[12..EndOf(x)] == q[12..EndOf(x)]
    ensures DecodeName(m, 12, 12) == Some(Parsed(x.name, EndOf(x) - 4))
  {
    CopyAsks(q, x, m);
    FirstNameDecodes(m, x);
  }

  /** Wherever the question's bytes sit at offset 12, the decoder reads the question back. */
  lemma QuestionRoundTrip(q: seq<Byte>, x: Question, m: seq<Byte>)
    requires Asks(q, x) && EndOf(x) <= |m| && m[12..EndOf(x)] == q[12..EndOf(x)]
    ensures DecodeQuestion(m, 12) == Some(Parsed(x, EndOf(x)))
  {
    CopiedName(q, x, m);
    CopyAsks(q, x, m);
    QuestionShape(m, x);
  }

  /** The 0xC00C pointer names whatever name stands at offset 12. */
  lemma PointerResolves(m: seq<Byte>, n: nat, p: Parsed<Name>)
    requires 12 < n && n + 2 <= |m| && m[n] == 0xC0 && m[n + 1] == 0x0C
    requires DecodeName(m, 12, 12) == Some(p)
    ensures DecodeName(m, n, n) == Some(Parsed(p.value, n + 2))
  {
    assert U16(m, n) == 0xC000 + 12;
  }

  lemma AnswerFields(m: seq<Byte>, n: nat)
    requires |m| == n + 16 && m[n..] == AnswerBytes()
    ensures m[n] == 0xC0 && m[n + 1] == 0x0C
    ensures U16(m, n + 2) == 1 && U16(m, n + 4) == 1 && U16(m, n + 6) == 0 && U16(m, n + 8) == 1 && U16(m, n + 10) == 4
    ensures m[n + 12..n + 16] == [192, 168, 7, 1]
  {
    assert forall k :: 0 <= k < 16 ==> m[n + k] == AnswerBytes()[k];
  }

  lemma AnswerDecodes(m: seq<Byte>, n: nat, name: Name)
    requires |m| == n + 16 && m[n..] == AnswerBytes()
    requires DecodeName(m, n, n) == Some(Parsed(name, n + 2))
    ensures DecodeRecord(m, n) == Some(Parsed(Record(name, 1, 1, 1, [192, 168, 7, 1]), |m|))
  {
    AnswerFields(m, n);
  }

  /** The appended record decodes to the question's name and the gateway's address. */
  lemma AnswerRoundTrip(q: seq<Byte>, x: Question, m: seq<Byte>, n: nat)
    requires Asks(q, x) && EndOf(x) <= n && |m| == n + 16 && m[12..EndOf(x)] == q[12..EndOf(x)]
    requires m[n..] == AnswerBytes()
    ensures DecodeRecord(m, n) == Some(Parsed(Record(x.name, 1, 1, 1, [192, 168, 7, 1]), |m|))
  {
    CopiedName(q, x, m);
    AnswerFields(m, n);
    PointerResolves(m, n, Parsed(x.name, EndOf(x) - 4));
    AnswerDecodes(m, n, x.name);
  }

  function ReplyCode(x: Question): Byte {
    if x.qtype == 1 then 0 else 3
  }

  function AnswerCount(x: Question): Byte {
    if x.qtype == 1 then 1 else 0
  }

  /** The reply's parts: header, copied bytes, and the answer of a type A query. */
  lemma ReplyParts(q: seq<Byte>, x: Question, rmax: nat)
    requires Asks(q, x) && rmax >= 216
    ensures var m, n := CaptiveReply(q, rmax), Min(|q|, 200);
            && |m| == n + (if x.qtype == 1 then 16 else 0)
            && m[..12] == ReplyHeader(q, ReplyCode(x), AnswerCount(x))
            && m[12..n] == q[12..n]
            && (x.qtype == 1 ==> m[n..] == AnswerBytes())
  {
    CaptiveReplyBytes(q, x, rmax);
    Parts(ReplyHeader(q, ReplyCode(x), AnswerCount(x)), q[12..Min(|q|, 200)], AnswerBytes());
  }

  lemma HeaderFields(q: seq<Byte>, x: Question, m: seq<Byte>)
    requires |q| >= 12 && |m| >= 12 && m[..12] == ReplyHeader(q, ReplyCode(x), AnswerCount(x))
    ensures U16(m, 0) == U16(q, 0) && m[2] == 0x81 && m[3] % 16 == ReplyCode(x)
    ensures U16(m, 4) == 1 && U16(m, 6) == AnswerCount(x) && U16(m, 8) == U16(m, 10) == 0
  {
    assert forall k :: 0 <= k < 12 ==> m[k] == m[..12][k];
  }

  lemma ReplyCounts(q: seq<Byte>, x: Question, rmax: nat)
    requires Asks(q, x) && rmax >= 216
    ensures var m, n := CaptiveReply(q, rmax), Min(|q|, 200);
            && |m| == n + (if x.qtype == 1 then 16 else 0)
            && (forall k :: 12 <= k < n ==> m[k] == q[k])
            && (x.qtype == 1 ==> m[n..] == AnswerBytes())
            && U16(m, 0) == U16(q, 0) && m[2] == 0x81 && m[3] % 16 == ReplyCode(x)
            && U16(m, 4) == 1 && U16(m, 6) == AnswerCount(x) && U16(m, 8) == U16(m, 10) == 0
  {
    ReplyParts(q, x, rmax);
    var m, n := CaptiveReply(q, rmax), Min(|q|, 200);
    HeaderFields(q, x, m);
    forall k | 12 <= k < n ensures m[k] == q[k] {
      assert m[12..n][k - 12] == q[12..n][k - 12];
    }
  }

  /** The copied bytes end with the question. */
  lemma WholeQuestionDecodes(q: seq<Byte>, x: Question, rmax: nat)
    requires Asks(q, x) && rmax >= 216 && Min(|q|, 200) == EndOf(x)
    ensures DecodeMessage(CaptiveReply(q, rmax)) == Some(Expected(q, x))
  {
    var m, end := CaptiveReply(q, rmax), EndOf(x);
    ReplyCounts(q, x, rmax);
    assert m[12..end] == q[12..end];
    QuestionRoundTrip(q, x, m);
    if x.qtype == 1 {
      AnswerRoundTrip(q, x, m, end);
    }
    SmallMessage(m);
  }

  // ---- A question cut at 200 bytes -------------------------------------------------------------------------

  /** A name that does not end within the copied bytes is read past them. */
  lemma {:induction false} CutNameRunsOver(q: seq<Byte>, m: seq<Byte>, off: nat, name: Name, bound: nat)
    requires ValidName(name) && 12 <= off && off + |EncodeName(name)| <= |q|
    requires q[off..off + |EncodeName(name)|] == EncodeName(name)
    requires |m| >= 200 && off + |EncodeName(name)| > 200
    requires forall k :: 12 <= k < 200 ==> m[k] == q[k]
    ensures DecodeName(m, off, bound).Some? ==> DecodeName(m, off, bound).value.next > 200
    decreases |name|
  {
    if off < 200 {
      assert name != [];
      NameHead(q, off, name);
      assert m[off] == q[off];
      CutNameRunsOver(q, m, off + 1 + |name[0]|, name[1..], bound);
    }
  }

  /** Where a question that comes out right can end: not within the copied bytes. */
  lemma CutQuestionEnds(q: seq<Byte>, x: Question, m: seq<Byte>)
    requires Asks(q, x) && EndOf(x) > 200 && |m| >= 200
    requires forall k :: 12 <= k < 200 ==> m[k] == q[k]
    ensures DecodeQuestion(m, 12).Some? ==> DecodeQuestion(m, 12).value.next > 200
  {
    QuestionShape(q, x);
    var end := EndOf(x) - 4;
    if end > 200 {
      CutNameRunsOver(q, m, 12, x.name, 12);
    } else {
      assert m[12..end] == q[12..end];
      NameRoundTrip(m, 12, 12, x.name);
    }
  }

  /** A record with an address takes at least 15 bytes, and 15 only for the root name. */
  lemma RecordSize(m: seq<Byte>, off: nat)
    requires DecodeRecord(m, off).Some? && |DecodeRecord(m, off).value.value.rdata| == 4
    ensures DecodeRecord(m, off).value.next >= off + 15
    ensures DecodeRecord(m, off).value.next == off + 15 ==> m[off] == 0
  {
  }

  lemma CutQuestionFails(q: seq<Byte>, x: Question, rmax: nat)
    requires Asks(q, x) && rmax >= 216 && EndOf(x) > 200
    ensures DecodeMessage(CaptiveReply(q, rmax)) != Some(Expected(q, x))
  {
    var m := CaptiveReply(q, rmax);
    ReplyCounts(q, x, rmax);
    CutQuestionEnds(q, x, m);
    SmallMessage(m);
    if x.qtype == 1 {
      assert m[201] == m[200..][1] == 0x0C;
      if DecodeMessage(m) == Some(Expected(q, x)) {
        RecordSize(m, DecodeQuestion(m, 12).value.next);
        assert false;
      }
    }
  }

  // ---- Bytes behind the question -----------------------------------------------------------------------------

  /** A name that ends with the pointer at `n` and starts before it has labels of its own in front. */
  lemma {:induction false} LabelsInFront(m: seq<Byte>, off: nat, bound: nat, n: nat, name: Name)
    requires off <= n && n + 2 <= |m| && m[n] == 0xC0 && m[n + 1] == 0x0C && bound > 12
    requires DecodeName(m, 12, 12).Some? && DecodeName(m, 12, 12).value.value == name
    requires DecodeName(m, off, bound).Some? && DecodeName(m, off, bound).value.next == n + 2
    ensures |DecodeName(m, off, bound).value.value| >= |name|
    ensures off < n ==> |DecodeName(m, off, bound).value.value| > |name|
    decreases n - off
  {
    if off == n {
      assert U16(m, n) == 0xC000 + 12;
    } else {
      var next := off + 1 + m[off];
      assert DecodeName(m, next, bound).Some? && DecodeName(m, next, bound).value.next == n + 2;
      LabelsInFront(m, next, bound, n, name);
    }
  }

  /** The record read behind the question starts in the bytes that followed it, and is not the answer. */
  lemma TailIsNoAnswer(m: seq<Byte>, end: nat, n: nat, name: Name)
    requires 12 < end < n && |m| == n + 16 && m[n..] == AnswerBytes()
    requires DecodeName(m, 12, 12).Some? && DecodeName(m, 12, 12).value.value == name
    ensures DecodeRecord(m, end) != Some(Parsed(Record(name, 1, 1, 1, [192, 168, 7, 1]), |m|))
  {
    AnswerFields(m, n);
    if DecodeRecord(m, end) == Some(Parsed(Record(name, 1, 1, 1, [192, 168, 7, 1]), |m|)) {
      assert DecodeName(m, end, end).value.next + 14 == |m|;
      LabelsInFront(m, end, end, n, name);
      assert false;
    }
  }

  lemma TailFails(q: seq<Byte>, x: Question, rmax: nat)
    requires Asks(q, x) && rmax >= 216 && EndOf(x) < Min(|q|, 200)
    ensures DecodeMessage(CaptiveReply(q, rmax)) != Some(Expected(q, x))
  {
    var m, n, end := CaptiveReply(q, rmax), Min(|q|, 200), EndOf(x);
    ReplyCounts(q, x, rmax);
    assert m[12..end] == q[12..end];
    CopiedName(q, x, m);
    QuestionRoundTrip(q, x, m);
    SmallMessage(m);
    if x.qtype == 1 { TailIsNoAnswer(m, end, n, x.name); }
  }

  /**
   For every query that is a header, one uncompressed question, and any bytes behind it, the
   reply decodes to the same ID and question and to the gateway's address (type A) or to RCODE 3
   (any other type), exactly when the first 200 bytes of the query end with the question: a longer
   question is cut, and an additional record behind it is copied in front of the answer.
   */
  lemma CaptiveReplyDecodesExactly(q: seq<Byte>, x: Question, rmax: nat)
    requires Asks(q, x) && rmax >= 216
    ensures DecodeMessage(CaptiveReply(q, rmax)) == Some(Expected(q, x)) <==> Min(|q|, 200) == EndOf(x)
  {
    if EndOf(x) > 200 {
      CutQuestionFails(q, x, rmax);
    } else if EndOf(x) < Min(|q|, 200) {
      TailFails(q, x, rmax);
    } else {
      WholeQuestionDecodes(q, x, rmax);
    }
  }

  /**
   The type that decides is the one right behind the first name, whatever follows: the reply
   carries the ID and, if the question ends within 200 bytes, the question, with RCODE 0 and one
   answer for type A, RCODE 3 and none for any other. The class is copied and never looked at.
   */
  lemma FirstTypeDecides(q: seq<Byte>, x: Question, rmax: nat)
    requires Asks(q, x) && rmax >= 216
    ensures var m := CaptiveReply(q, rmax);
            && |m| >= 12 && U16(m, 0) == U16(q, 0) && m[2] == 0x81
            && U16(m, 4) == 1 && U16(m, 8) == U16(m, 10) == 0
            && (x.qtype == 1 ==> m[3] % 16 == 0 && U16(m, 6) == 1)
            && (x.qtype != 1 ==> m[3] % 16 == 3 && U16(m, 6) == 0)
            && (EndOf(x) <= 200 ==> DecodeQuestion(m, 12) == Some(Parsed(x, EndOf(x))))
  {
    ReplyCounts(q, x, rmax);
    var m, end := CaptiveReply(q, rmax), EndOf(x);
    if end <= 200 {
      assert m[12..end] == q[12..end];
      QuestionRoundTrip(q, x, m);
    }
  }
}
