/**
  The BinData record layouts of the responder: the 12-byte DNS header with
  its bit-packed flag bytes (RFC 1035 section 4.1.1, with the AD and CD bits
  of RFC 2929 section 2), the question entry (RFC 1035 section 4.1.2), the
  answer record with a fixed 4-byte rdata (RFC 1035 section 4.1.3), and the
  request and response messages built from them. Every layout is a pair of
  functions: the bytes BinData writes, and what BinData reads back.
 */
module Messages {
  import opened Bytes

  // ---------------------------------------------------------------- Header

  datatype Header = Header(
    id: U16,
    queryOrResponse: Bit,
    opcode: Nibble,
    authoritative: Bit,
    truncation: Bit,
    recursionDesired: Bit,
    recursionAvailable: Bit,
    z: Bit,
    authenticatedData: Bit,
    nonAuthenticatedData: Bit,
    responseCode: Nibble,
    questionCount: U16,
    answerCount: U16,
    nameServerCount: U16,
    additionalRecordCount: U16)

  const HeaderLength := 12

  /** Byte 2, most significant bit first: QR, the four opcode bits, AA, TC, RD. */
  function HighFlags(h: Header): (bits: seq<Bit>)
    ensures |bits| == 8
    ensures bits[0] == h.queryOrResponse && FromBits(bits[1..5]) == h.opcode
    ensures bits[5] == h.authoritative && bits[6] == h.truncation && bits[7] == h.recursionDesired
  {
    var op := ToBits(h.opcode, 4);
    var bits := [h.queryOrResponse] + op + [h.authoritative, h.truncation, h.recursionDesired];
    assert bits[1..5] == op;
    assert FromBits(op) == h.opcode by { assert Pow2(4) == 0x10; FromToBits(h.opcode, 4); }
    bits
  }

  /** Byte 3, most significant bit first: RA, Z, AD, CD, the four response-code bits. */
  function LowFlags(h: Header): (bits: seq<Bit>)
    ensures |bits| == 8
    ensures bits[0] == h.recursionAvailable && bits[1] == h.z
    ensures bits[2] == h.authenticatedData && bits[3] == h.nonAuthenticatedData
    ensures FromBits(bits[4..]) == h.responseCode
  {
    var rc := ToBits(h.responseCode, 4);
    var bits := [h.recursionAvailable, h.z, h.authenticatedData, h.nonAuthenticatedData] + rc;
    assert bits[4..] == rc;
    assert FromBits(rc) == h.responseCode by { assert Pow2(4) == 0x10; FromToBits(h.responseCode, 4); }
    bits
  }

  /** The byte whose bits, most significant first, are `bits`. */
  function FlagByte(bits: seq<Bit>): (r: Byte)
    requires |bits| == 8
    ensures ToBits(r, 8) == bits
  {
    assert Pow2(8) == 0x100;
    ToFromBits(bits);
    FromBits(bits)
  }

  /** The header on the wire: 12 bytes, every 16-bit field big-endian, and the
      flags packed into bytes 2 and 3 in declaration order from the top bit. */
  function EncodeHeader(h: Header): (r: seq<Byte>)
    ensures |r| == HeaderLength
    ensures Word(r[0], r[1]) == h.id
    ensures ToBits(r[2], 8) == HighFlags(h)
    ensures ToBits(r[3], 8) == LowFlags(h)
    ensures Word(r[4], r[5]) == h.questionCount
    ensures Word(r[6], r[7]) == h.answerCount
    ensures Word(r[8], r[9]) == h.nameServerCount
    ensures Word(r[10], r[11]) == h.additionalRecordCount
  {
    var id, qd, an := EncodeU16(h.id), EncodeU16(h.questionCount), EncodeU16(h.answerCount);
    var ns, ar := EncodeU16(h.nameServerCount), EncodeU16(h.additionalRecordCount);
    var high, low := FlagByte(HighFlags(h)), FlagByte(LowFlags(h));
    var r := [id[0], id[1], high, low, qd[0], qd[1], an[0], an[1], ns[0], ns[1], ar[0], ar[1]];
    assert r[0] == id[0] && r[1] == id[1] && r[2] == high && r[3] == low;
    assert r[4] == qd[0] && r[5] == qd[1] && r[6] == an[0] && r[7] == an[1];
    assert r[8] == ns[0] && r[9] == ns[1] && r[10] == ar[0] && r[11] == ar[1];
    r
  }

  function Nibble4(bits: seq<Bit>): Nibble
    requires |bits| == 4
  {
    assert Pow2(4) == 0x10;
    FromBits(bits)
  }

  /** Reading a header: fewer than 12 bytes fail; otherwise each field is taken
      from its bytes and bits, and reading stops after byte 11. */
  function DecodeHeader(b: seq<Byte>): (r: Parse<Header>)
    ensures r.Parsed? <==> |b| >= HeaderLength
    ensures r.Parsed? ==> r.rest == b[HeaderLength..]
    ensures r.Parsed? ==> HighFlags(r.value) == ToBits(b[2], 8) && LowFlags(r.value) == ToBits(b[3], 8)
  {
    if |b| < HeaderLength then EndOfInput
    else
      var hi := ToBits(b[2], 8);
      var lo := ToBits(b[3], 8);
      ToFromBits(hi[1..5]);
      ToFromBits(lo[4..]);
      assert hi == [hi[0]] + hi[1..5] + [hi[5], hi[6], hi[7]];
      assert lo == [lo[0], lo[1], lo[2], lo[3]] + lo[4..];
      Parsed(
        Header(
          id := Word(b[0], b[1]),
          queryOrResponse := hi[0],
          opcode := Nibble4(hi[1..5]),
          authoritative := hi[5],
          truncation := hi[6],
          recursionDesired := hi[7],
          recursionAvailable := lo[0],
          z := lo[1],
          authenticatedData := lo[2],
          nonAuthenticatedData := lo[3],
          responseCode := Nibble4(lo[4..]),
          questionCount := Word(b[4], b[5]),
          answerCount := Word(b[6], b[7]),
          nameServerCount := Word(b[8], b[9]),
          additionalRecordCount := Word(b[10], b[11])),
        b[HeaderLength..])
  }

  /** Reading back a written header restores every field. */
  lemma HeaderRoundTrip(h: Header, rest: seq<Byte>)
    ensures DecodeHeader(EncodeHeader(h) + rest) == Parsed(h, rest)
  {
    var b := EncodeHeader(h) + rest;
    assert b[..HeaderLength] == EncodeHeader(h);
    assert b[HeaderLength..] == rest;
    FromToBits(h.opcode, 4);
    FromToBits(h.responseCode, 4);
    assert ToBits(b[2], 8)[1..5] == ToBits(h.opcode, 4);
    assert ToBits(b[3], 8)[4..] == ToBits(h.responseCode, 4);
  }

  /** Every 12 bytes are some header: writing what was read gives the bytes back. */
  lemma HeaderReencodes(b: seq<Byte>)
    requires |b| >= HeaderLength
    ensures EncodeHeader(DecodeHeader(b).value) == b[..HeaderLength]
  {
    var h := DecodeHeader(b).value;
    var e := EncodeHeader(h);
    FromToBits(b[2], 8);
    FromToBits(e[2], 8);
    FromToBits(b[3], 8);
    FromToBits(e[3], 8);
    U16Splits(b[0], b[1]);
    U16Splits(b[4], b[5]);
    U16Splits(b[6], b[7]);
    U16Splits(b[8], b[9]);
    U16Splits(b[10], b[11]);
    assert e[0] == b[0] && e[1] == b[1] && e[2] == b[2] && e[3] == b[3];
    assert e[4] == b[4] && e[5] == b[5] && e[6] == b[6] && e[7] == b[7];
    assert e[8] == b[8] && e[9] == b[9] && e[10] == b[10] && e[11] == b[11];
  }

  // ---------------------------------------------------------------- Question

  /** A question entry. `stringData` holds the raw length-prefixed label bytes
      of the name, without the terminating zero byte. */
  datatype Question = Question(stringData: seq<Byte>, questionType: U16, questionClass: U16)

  function EncodeQuestion(q: Question): (r: seq<Byte>)
    ensures |r| == |UntilZero(q.stringData)| + 1 + 2 + 2
    ensures 0 !in q.stringData ==>
      r == q.stringData + [0] + EncodeU16(q.questionType) + EncodeU16(q.questionClass)
  {
    EncodeStringz(q.stringData) + EncodeU16(q.questionType) + EncodeU16(q.questionClass)
  }

  function DecodeQuestion(b: seq<Byte>): (r: Parse<Question>)
    ensures r.Parsed? ==> 0 !in r.value.stringData && |r.rest| <= |b| - 5
  {
    match DecodeStringz(b)
    case EndOfInput => EndOfInput
    case Parsed(name, b1) =>
      match DecodeU16(b1)
      case EndOfInput => EndOfInput
      case Parsed(qtype, b2) =>
        match DecodeU16(b2)
        case EndOfInput => EndOfInput
        case Parsed(qclass, b3) => Parsed(Question(name, qtype, qclass), b3)
  }

  /** Reading back a written question restores it, provided its name bytes hold
      no zero byte (a zero would end the `stringz` early). */
  lemma QuestionRoundTrip(q: Question, rest: seq<Byte>)
    requires 0 !in q.stringData
    ensures DecodeQuestion(EncodeQuestion(q) + rest) == Parsed(q, rest)
  {
    var t := EncodeU16(q.questionType) + EncodeU16(q.questionClass) + rest;
    assert EncodeQuestion(q) + rest == EncodeStringz(q.stringData) + t;
    StringzRoundTrip(q.stringData, t);
    U16RoundTrip(q.questionType, EncodeU16(q.questionClass) + rest);
    assert t == EncodeU16(q.questionType) + (EncodeU16(q.questionClass) + rest);
    U16RoundTrip(q.questionClass, rest);
  }

  /** Writing a question that was read gives back exactly the bytes it was read from. */
  lemma QuestionReencodes(b: seq<Byte>)
    requires DecodeQuestion(b).Parsed?
    ensures EncodeQuestion(DecodeQuestion(b).value) + DecodeQuestion(b).rest == b
  {
    var s := DecodeStringz(b);
    var t := DecodeU16(s.rest);
    var c := DecodeU16(t.rest);
    StringzReencodes(b);
    U16Reencodes(s.rest);
    U16Reencodes(t.rest);
    ThreeFields(b, EncodeStringz(s.value), s.rest, EncodeU16(t.value), t.rest, EncodeU16(c.value), c.rest);
  }

  // ---------------------------------------------------------------- ResourceRecord

  /** An answer record; `rdata` is always a 4-byte integer, whatever `rdlength` says. */
  datatype ResourceRecord = ResourceRecord(
    stringData: seq<Byte>,
    questionType: U16,
    questionClass: U16,
    ttl: U32,
    rdlength: U16,
    rdata: U32)

  function EncodeRecord(rr: ResourceRecord): (r: seq<Byte>)
    ensures |r| == |UntilZero(rr.stringData)| + 1 + 2 + 2 + 4 + 2 + 4
    ensures 0 !in rr.stringData ==>
      r == rr.stringData + [0] + EncodeU16(rr.questionType) + EncodeU16(rr.questionClass)
           + EncodeU32(rr.ttl) + EncodeU16(rr.rdlength) + EncodeU32(rr.rdata)
  {
    EncodeStringz(rr.stringData) + EncodeU16(rr.questionType) + EncodeU16(rr.questionClass)
      + EncodeU32(rr.ttl) + EncodeU16(rr.rdlength) + EncodeU32(rr.rdata)
  }

  function DecodeRecord(b: seq<Byte>): (r: Parse<ResourceRecord>)
    ensures r.Parsed? ==> 0 !in r.value.stringData && |r.rest| <= |b| - 15
  {
    match DecodeStringz(b)
    case EndOfInput => EndOfInput
    case Parsed(name, b1) =>
      match DecodeU16(b1)
      case EndOfInput => EndOfInput
      case Parsed(rtype, b2) =>
        match DecodeU16(b2)
        case EndOfInput => EndOfInput
        case Parsed(rclass, b3) =>
          match DecodeU32(b3)
          case EndOfInput => EndOfInput
          case Parsed(ttl, b4) =>
            match DecodeU16(b4)
            case EndOfInput => EndOfInput
            case Parsed(rdlength, b5) =>
              match DecodeU32(b5)
              case EndOfInput => EndOfInput
              case Parsed(rdata, b6) =>
                Parsed(ResourceRecord(name, rtype, rclass, ttl, rdlength, rdata), b6)
  }

  /** Reading back a written record restores it when its name holds no zero byte. */
  lemma RecordRoundTrip(rr: ResourceRecord, rest: seq<Byte>)
    requires 0 !in rr.stringData
    ensures DecodeRecord(EncodeRecord(rr) + rest) == Parsed(rr, rest)
  {
    var t5 := EncodeU32(rr.rdata) + rest;
    var t4 := EncodeU16(rr.rdlength) + t5;
    var t3 := EncodeU32(rr.ttl) + t4;
    var t2 := EncodeU16(rr.questionClass) + t3;
    var t1 := EncodeU16(rr.questionType) + t2;
    assert EncodeRecord(rr) + rest == EncodeStringz(rr.stringData) + t1;
    StringzRoundTrip(rr.stringData, t1);
    U16RoundTrip(rr.questionType, t2);
    U16RoundTrip(rr.questionClass, t3);
    U32RoundTrip(rr.ttl, t4);
    U16RoundTrip(rr.rdlength, t5);
    U32RoundTrip(rr.rdata, rest);
  }

  /** Writing a record that was read gives back exactly the bytes it was read from. */
  lemma RecordReencodes(b: seq<Byte>)
    requires DecodeRecord(b).Parsed?
    ensures EncodeRecord(DecodeRecord(b).value) + DecodeRecord(b).rest == b
  {
    var s := DecodeStringz(b);
    var t := DecodeU16(s.rest);
    var c := DecodeU16(t.rest);
    var l := DecodeU32(c.rest);
    var n := DecodeU16(l.rest);
    var d := DecodeU32(n.rest);
    assert s.Parsed? && t.Parsed? && c.Parsed? && l.Parsed? && n.Parsed? && d.Parsed?;
    var e1, e2, e3 := EncodeStringz(s.value), EncodeU16(t.value), EncodeU16(c.value);
    var e4, e5, e6 := EncodeU32(l.value), EncodeU16(n.value), EncodeU32(d.value);
    assert e1 + e2 + e3 + c.rest == b by {
      StringzReencodes(b);
      U16Reencodes(s.rest);
      U16Reencodes(t.rest);
      ThreeFields(b, e1, s.rest, e2, t.rest, e3, c.rest);
    }
    assert e4 + e5 + e6 + d.rest == c.rest by {
      U32Reencodes(c.rest);
      U16Reencodes(l.rest);
      U32Reencodes(n.rest);
      ThreeFields(c.rest, e4, l.rest, e5, n.rest, e6, d.rest);
    }
    assert DecodeRecord(b) == Parsed(ResourceRecord(s.value, t.value, c.value, l.value, n.value, d.value), d.rest);
    SixFields(e1, e2, e3, e4, e5, e6, d.rest);
  }

  lemma SixFields(e1: seq<Byte>, e2: seq<Byte>, e3: seq<Byte>, e4: seq<Byte>, e5: seq<Byte>, e6: seq<Byte>, r: seq<Byte>)
    ensures e1 + e2 + e3 + (e4 + e5 + e6 + r) == e1 + e2 + e3 + e4 + e5 + e6 + r
  {
  }

  // ---------------------------------------------------------------- Request

  /** A request: a header, then `header.questionCount` questions. */
  datatype Request = Request(header: Header, questions: seq<Question>)

  function EncodeQuestions(qs: seq<Question>): seq<Byte>
  {
    if qs == [] then [] else EncodeQuestion(qs[0]) + EncodeQuestions(qs[1..])
  }

  /** Reads exactly `n` questions one after another; any short question fails. */
  function DecodeQuestions(n: nat, b: seq<Byte>): (r: Parse<seq<Question>>)
    ensures r.Parsed? ==> |r.value| == n
    ensures r.Parsed? ==> forall i :: 0 <= i < n ==> 0 !in r.value[i].stringData
    ensures r.Parsed? ==> |r.rest| <= |b| - 5 * n
  {
    if n == 0 then Parsed([], b)
    else
      match DecodeQuestion(b)
      case EndOfInput => EndOfInput
      case Parsed(q, b1) =>
        match DecodeQuestions(n - 1, b1)
        case EndOfInput => EndOfInput
        case Parsed(qs, b2) => Parsed([q] + qs, b2)
  }

  /** Reading a request: the header, then as many questions as its
      `questionCount` declares; trailing bytes are left unread. */
  function DecodeRequest(b: seq<Byte>): (r: Parse<Request>)
    ensures r.Parsed? ==> |b| >= HeaderLength
    ensures r.Parsed? ==> |r.value.questions| == r.value.header.questionCount
    ensures r.Parsed? ==> r.value.header == DecodeHeader(b).value
    ensures r.Parsed? ==> forall i :: 0 <= i < |r.value.questions| ==> 0 !in r.value.questions[i].stringData
  {
    match DecodeHeader(b)
    case EndOfInput => EndOfInput
    case Parsed(h, b1) =>
      match DecodeQuestions(h.questionCount, b1)
      case EndOfInput => EndOfInput
      case Parsed(qs, b2) => Parsed(Request(h, qs), b2)
  }

  function EncodeRequest(req: Request): (r: seq<Byte>)
    ensures |r| >= HeaderLength && r[..HeaderLength] == EncodeHeader(req.header)
  {
    EncodeHeader(req.header) + EncodeQuestions(req.questions)
  }

  lemma {:induction false} QuestionsRoundTrip(qs: seq<Question>, rest: seq<Byte>)
    requires forall i :: 0 <= i < |qs| ==> 0 !in qs[i].stringData
    ensures DecodeQuestions(|qs|, EncodeQuestions(qs) + rest) == Parsed(qs, rest)
  {
    if qs != [] {
      var tail := qs[1..];
      QuestionsRoundTrip(tail, rest);
      QuestionsStep(qs[0], tail, rest);
      assert [qs[0]] + tail == qs;
    }
  }

  /** A question written in front of questions that read back reads back
      with them. */
  lemma QuestionsStep(q: Question, tail: seq<Question>, rest: seq<Byte>)
    requires 0 !in q.stringData
    requires DecodeQuestions(|tail|, EncodeQuestions(tail) + rest) == Parsed(tail, rest)
    ensures DecodeQuestions(|tail| + 1, EncodeQuestions([q] + tail) + rest) == Parsed([q] + tail, rest)
  {
    var later := EncodeQuestions(tail) + rest;
    assert ([q] + tail)[1..] == tail;
    assert EncodeQuestions([q] + tail) + rest == EncodeQuestion(q) + later by {
      Regroup(EncodeQuestion(q), EncodeQuestions(tail), rest);
    }
    QuestionRoundTrip(q, later);
  }

  lemma {:induction false} QuestionsReencode(n: nat, b: seq<Byte>)
    requires DecodeQuestions(n, b).Parsed?
    ensures EncodeQuestions(DecodeQuestions(n, b).value) + DecodeQuestions(n, b).rest == b
  {
    if n > 0 {
      var q := DecodeQuestion(b);
      QuestionsUnfold(n, b);
      var tail := DecodeQuestions(n - 1, q.rest);
      QuestionReencodes(b);
      QuestionsReencode(n - 1, q.rest);
      ReencodeCons(b, q.value, q.rest, tail.value, tail.rest);
    }
  }

  /** One question's bytes followed by the other questions' bytes are the
      bytes of all of them. */
  lemma ReencodeCons(b: seq<Byte>, q: Question, r1: seq<Byte>, qs: seq<Question>, r2: seq<Byte>)
    requires EncodeQuestion(q) + r1 == b && EncodeQuestions(qs) + r2 == r1
    ensures EncodeQuestions([q] + qs) + r2 == b
  {
    EncodeQuestionsCons(q, qs);
    TwoFields(b, EncodeQuestion(q), r1, EncodeQuestions(qs), r2);
  }

  /** Reading `n > 0` questions reads the first one, then `n - 1` more. */
  lemma QuestionsUnfold(n: nat, b: seq<Byte>)
    requires n > 0 && DecodeQuestions(n, b).Parsed?
    ensures DecodeQuestion(b).Parsed? && DecodeQuestions(n - 1, DecodeQuestion(b).rest).Parsed?
    ensures DecodeQuestions(n, b).value
         == [DecodeQuestion(b).value] + DecodeQuestions(n - 1, DecodeQuestion(b).rest).value
    ensures DecodeQuestions(n, b).rest == DecodeQuestions(n - 1, DecodeQuestion(b).rest).rest
  { }

  /** Writing questions writes the first one, then the others. */
  lemma EncodeQuestionsCons(q: Question, qs: seq<Question>)
    ensures EncodeQuestions([q] + qs) == EncodeQuestion(q) + EncodeQuestions(qs)
  {
    assert ([q] + qs)[1..] == qs;
  }

  /** Reading back a written request restores it, when its question count
      matches its questions and no question name holds a zero byte. */
  lemma RequestRoundTrip(req: Request, rest: seq<Byte>)
    requires req.header.questionCount == |req.questions|
    requires forall i :: 0 <= i < |req.questions| ==> 0 !in req.questions[i].stringData
    ensures DecodeRequest(EncodeRequest(req) + rest) == Parsed(req, rest)
  {
    var t := EncodeQuestions(req.questions) + rest;
    assert EncodeRequest(req) + rest == EncodeHeader(req.header) + t;
    HeaderRoundTrip(req.header, t);
    QuestionsRoundTrip(req.questions, rest);
  }

  /** Writing a request that was read gives back exactly the bytes it was
      read from: the header's 12 bytes and its questions' bytes. */
  lemma RequestReencodes(b: seq<Byte>)
    requires DecodeRequest(b).Parsed?
    ensures EncodeRequest(DecodeRequest(b).value) + DecodeRequest(b).rest == b
  {
    var h := DecodeHeader(b).value;
    var body := b[HeaderLength..];
    var read := DecodeQuestions(h.questionCount, body);
    HeaderReencodes(b);
    QuestionsReencode(h.questionCount, body);
    Regroup(EncodeHeader(h), EncodeQuestions(read.value), read.rest);
    assert b == b[..HeaderLength] + body;
  }

  // ---------------------------------------------------------------- Response

  /** A response: a header, the questions, then the answer records. */
  datatype Response = Response(header: Header, questions: seq<Question>, records: seq<ResourceRecord>)

  function EncodeRecords(rs: seq<ResourceRecord>): seq<Byte>
  {
    if rs == [] then [] else EncodeRecord(rs[0]) + EncodeRecords(rs[1..])
  }

  /** The response on the wire: the header's 12 bytes, each question in order,
      then each record in order. */
  function EncodeResponse(resp: Response): (r: seq<Byte>)
    ensures r == EncodeRequest(Request(resp.header, resp.questions)) + EncodeRecords(resp.records)
    ensures r[..HeaderLength] == EncodeHeader(resp.header)
  {
    EncodeHeader(resp.header) + EncodeQuestions(resp.questions) + EncodeRecords(resp.records)
  }

  /** A written response reads back, as a request, to its own header and
      questions, with exactly the record bytes left over. */
  lemma ResponseReadsAsRequest(resp: Response)
    requires resp.header.questionCount == |resp.questions|
    requires forall i :: 0 <= i < |resp.questions| ==> 0 !in resp.questions[i].stringData
    ensures DecodeRequest(EncodeResponse(resp))
         == Parsed(Request(resp.header, resp.questions), EncodeRecords(resp.records))
  {
    RequestRoundTrip(Request(resp.header, resp.questions), EncodeRecords(resp.records));
  }

  /** The records of a response read back one by one, in order. */
  lemma {:induction false} RecordsRoundTrip(rs: seq<ResourceRecord>, i: nat)
    requires i <= |rs|
    requires forall k :: 0 <= k < |rs| ==> 0 !in rs[k].stringData
    ensures DecodeRecord(EncodeRecords(rs[i..])) == if i == |rs| then EndOfInput else Parsed(rs[i], EncodeRecords(rs[i + 1..]))
  {
    if i < |rs| {
      assert rs[i..][1..] == rs[i + 1..];
      RecordRoundTrip(rs[i], EncodeRecords(rs[i + 1..]));
    }
  }
}
