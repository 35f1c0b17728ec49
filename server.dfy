/**
  What `serve` does with one datagram: read it as a request, answer its
  questions from the zones, build the response header, and write the
  response. The socket itself is left to the caller.
 */
module Server {
  import opened Bytes
  import opened Messages
  import opened DomainName
  import opened Resolver

  /** `ResponseCode::NO_ERROR` and `ResponseCode::NAME_ERROR`. */
  const NO_ERROR: Nibble := 0x0
  const NAME_ERROR: Nibble := 0x3

  /** Why `serve` stops instead of answering: the datagram does not read as a
      request. */
  datatype Failure = MalformedRequest

  /** What one turn of `serve` ends with: the response whose bytes,
      `EncodeResponse(response)`, are sent back, or a stop. */
  datatype Outcome = Reply(response: Response) | Stopped(failure: Failure)

  /** The question a BinData array of questions creates when it is indexed
      past its end: an empty name, type 0 and class 0. */
  const EmptyQuestion := Question([], 0, 0)

  /** The request's questions once `questions[0]` has been read: indexing
      an empty BinData array grows it by one default question. */
  function Indexed(qs: seq<Question>): (r: seq<Question>)
    ensures |r| >= 1 && qs <= r
    ensures qs != [] ==> r == qs
    ensures qs == [] ==> r == [EmptyQuestion]
  {
    if qs == [] then [EmptyQuestion] else qs
  }

  /** The questions that indexing adds to those read: one default question
      when none was read, none otherwise. */
  function Padding(qs: seq<Question>): (extra: seq<Question>)
    ensures Indexed(qs) == qs + extra
  {
    if qs == [] then [EmptyQuestion] else []
  }

  /** The response `serve` builds for a request it has read. The answers are
      resolved first, from the questions as read; the response code then
      comes from `questions[0]` alone, which for a request without questions
      is a default question added to the echoed list. */
  function BuildResponse(req: Request, zones: Zones): (resp: Response)
    ensures resp.header.id == req.header.id
    ensures resp.header.opcode == req.header.opcode
    ensures resp.header.questionCount == req.header.questionCount
    ensures resp.header.queryOrResponse == 1 && resp.header.authoritative == 1
    ensures resp.header.truncation == 0 && resp.header.recursionDesired == 0
    ensures resp.header.recursionAvailable == 0 && resp.header.z == 0
    ensures resp.header.authenticatedData == 0 && resp.header.nonAuthenticatedData == 0
    ensures resp.header.nameServerCount == 0 && resp.header.additionalRecordCount == 0
    ensures resp.questions == Indexed(req.questions)
    ensures resp.header.responseCode == NO_ERROR <==> HasDomain(zones, DomainOf(resp.questions[0].stringData))
    ensures resp.header.responseCode == NAME_ERROR <==> !HasDomain(zones, DomainOf(resp.questions[0].stringData))
    ensures resp.header.answerCount == ClampU16(|resp.records|)
    ensures resp.records == ResourceRecordsFor(req.questions, zones)
  {
    var records := ResourceRecordsFor(req.questions, zones);
    var questions := Indexed(req.questions);
    Response(
      Header(
        id := req.header.id,
        queryOrResponse := 1,
        opcode := req.header.opcode,
        authoritative := 1,
        truncation := 0,
        recursionDesired := 0,
        recursionAvailable := 0,
        z := 0,
        authenticatedData := 0,
        nonAuthenticatedData := 0,
        responseCode := if HasDomain(zones, DomainOf(questions[0].stringData)) then NO_ERROR else NAME_ERROR,
        questionCount := req.header.questionCount,
        answerCount := ClampU16(|records|),
        nameServerCount := 0,
        additionalRecordCount := 0),
      questions,
      records)
  }

  /** One turn of the `serve` loop, from the datagram read to the bytes sent. */
  function Serve(data: seq<Byte>, zones: Zones): (out: Outcome)
    ensures out == Stopped(MalformedRequest) <==> DecodeRequest(data).EndOfInput?
    ensures out.Reply? ==> out.response == BuildResponse(DecodeRequest(data).value, zones)
  {
    match DecodeRequest(data)
    case EndOfInput => Stopped(MalformedRequest)
    case Parsed(req, _) => Reply(BuildResponse(req, zones))
  }

  lemma WordsAgree(a: Byte, b: Byte, c: Byte, d: Byte)
    requires Word(a, b) == Word(c, d)
    ensures a == c && b == d
  {
  }

  /** A response whose id is the request's starts with the request's id bytes. */
  lemma IdBytesEchoed(data: seq<Byte>, resp: Response)
    requires DecodeRequest(data).Parsed?
    requires resp.header.id == DecodeRequest(data).value.header.id
    ensures |EncodeResponse(resp)| >= 2 && EncodeResponse(resp)[..2] == data[..2]
  {
    HeaderReencodes(data);
    var eh := EncodeHeader(DecodeHeader(data).value);
    var oh := EncodeHeader(resp.header);
    WordsAgree(eh[0], eh[1], oh[0], oh[1]);
    assert EncodeResponse(resp)[..2] == oh[..2];
    assert data[..2] == eh[..2];
  }

  /** A response that echoes the request's questions repeats the request's
      question section byte for byte, right after the header. */
  lemma QuestionBytesEchoed(data: seq<Byte>, resp: Response)
    requires DecodeRequest(data).Parsed?
    requires resp.questions == DecodeRequest(data).value.questions
    ensures var end := HeaderLength + |EncodeQuestions(DecodeRequest(data).value.questions)|;
            end <= |EncodeResponse(resp)| && end <= |data|
            && EncodeResponse(resp)[HeaderLength..end] == data[HeaderLength..end]
  {
    var req := DecodeRequest(data).value;
    var qbytes := EncodeQuestions(req.questions);
    assert data == EncodeHeader(req.header) + qbytes + DecodeRequest(data).rest by {
      RequestReencodes(data);
    }
    FieldInMiddle(data, EncodeHeader(req.header), qbytes, DecodeRequest(data).rest);
    FieldInMiddle(EncodeResponse(resp), EncodeHeader(resp.header), qbytes, EncodeRecords(resp.records));
  }

  /** A request header that counts no question reads back with no question,
      whatever bytes follow it. */
  lemma HeaderAloneReadsBack(h: Header, rest: seq<Byte>)
    requires h.questionCount == 0
    ensures DecodeRequest(EncodeHeader(h) + rest) == Parsed(Request(h, []), rest)
  {
    HeaderRoundTrip(h, rest);
  }

  /** Indexing a non-empty question list adds no question bytes. */
  lemma NoPadding(qs: seq<Question>, rest: seq<Byte>)
    requires qs != []
    ensures EncodeQuestions(Padding(qs)) + rest == rest
  {
    assert Padding(qs) == [];
    assert EncodeQuestions([]) == [];
  }

  /** The bytes sent back read as a request again: their header is the
      response header, their questions are the datagram's own, and what
      follows is the default question added by indexing an empty request,
      if any, then exactly the answer records. */
  lemma ReplyReadsAsRequest(data: seq<Byte>, zones: Zones)
    requires Serve(data, zones).Reply?
    ensures DecodeRequest(data).Parsed?
    ensures var resp := Serve(data, zones).response;
      var asked := DecodeRequest(data).value.questions;
      DecodeRequest(EncodeResponse(resp))
        == Parsed(Request(resp.header, asked), EncodeQuestions(Padding(asked)) + EncodeRecords(resp.records))
  {
    var req := DecodeRequest(data).value;
    var resp := Serve(data, zones).response;
    assert resp.questions == Indexed(req.questions) && resp.header.questionCount == req.header.questionCount by {
      assert resp == BuildResponse(req, zones);
    }
    if req.questions == [] {
      EmptyAskedReadsBack(resp);
    } else {
      AskedReadsBack(resp, req.questions);
    }
  }

  /** A response to a request read with no question reads back, as a
      request, to its header alone, followed by the default question's and
      the records' bytes. */
  lemma EmptyAskedReadsBack(resp: Response)
    requires resp.header.questionCount == 0 && resp.questions == Indexed([])
    ensures DecodeRequest(EncodeResponse(resp))
         == Parsed(Request(resp.header, []), EncodeQuestions(Padding([])) + EncodeRecords(resp.records))
  {
    var qb, rb := EncodeQuestions(resp.questions), EncodeRecords(resp.records);
    Regroup(EncodeHeader(resp.header), qb, rb);
    HeaderAloneReadsBack(resp.header, qb + rb);
  }

  /** A response carrying and counting the questions read reads back, as a
      request, to its header and those questions, followed by exactly the
      records' bytes. */
  lemma AskedReadsBack(resp: Response, asked: seq<Question>)
    requires asked != [] && resp.questions == asked && resp.header.questionCount == |asked|
    requires forall i :: 0 <= i < |asked| ==> 0 !in asked[i].stringData
    ensures DecodeRequest(EncodeResponse(resp))
         == Parsed(Request(resp.header, asked), EncodeQuestions(Padding(asked)) + EncodeRecords(resp.records))
  {
    ResponseReadsAsRequest(resp);
    NoPadding(asked, EncodeRecords(resp.records));
  }

  /** The reply starts with the datagram's two id bytes. */
  lemma ReplyEchoesId(data: seq<Byte>, zones: Zones)
    requires Serve(data, zones).Reply?
    ensures |data| >= 2 && EncodeResponse(Serve(data, zones).response)[..2] == data[..2]
  {
    var resp := BuildResponse(DecodeRequest(data).value, zones);
    assert Serve(data, zones).response == resp;
    IdBytesEchoed(data, resp);
  }

  /** With no question read there is no question section to echo: the
      echoed range is empty. */
  lemma NoQuestionBytesEchoed(data: seq<Byte>, resp: Response)
    requires DecodeRequest(data).Parsed? && DecodeRequest(data).value.questions == []
    ensures var end := HeaderLength + |EncodeQuestions(DecodeRequest(data).value.questions)|;
            end <= |EncodeResponse(resp)| && end <= |data|
            && EncodeResponse(resp)[HeaderLength..end] == data[HeaderLength..end]
  {
    var qs := DecodeRequest(data).value.questions;
    assert |EncodeQuestions(qs)| == 0 by {
      assert qs == [];
    }
    var out := EncodeResponse(resp);
    assert |out| >= HeaderLength by {
      assert out == EncodeRequest(Request(resp.header, resp.questions)) + EncodeRecords(resp.records);
    }
    EmptyRangesAgree(out, data, HeaderLength);
  }

  lemma EmptyRangesAgree(a: seq<Byte>, b: seq<Byte>, n: nat)
    requires n <= |a| && n <= |b|
    ensures a[n..n] == b[n..n]
  {
  }

  /** Right after its header, the reply repeats the datagram's question
      section byte for byte. */
  lemma ReplyEchoesQuestions(data: seq<Byte>, zones: Zones)
    requires Serve(data, zones).Reply?
    ensures DecodeRequest(data).Parsed?
    ensures var out := EncodeResponse(Serve(data, zones).response);
      var end := HeaderLength + |EncodeQuestions(DecodeRequest(data).value.questions)|;
      end <= |out| && end <= |data| && out[HeaderLength..end] == data[HeaderLength..end]
  {
    var resp := Serve(data, zones).response;
    if DecodeRequest(data).value.questions == [] {
      NoQuestionBytesEchoed(data, resp);
    } else {
      assert resp.questions == DecodeRequest(data).value.questions by {
        assert resp == BuildResponse(DecodeRequest(data).value, zones);
      }
      QuestionBytesEchoed(data, resp);
    }
  }

  /** The default question is written as five zero bytes: the empty name's
      terminating zero, then type 0 and class 0. */
  lemma EmptyQuestionBytes()
    ensures EncodeQuestions([EmptyQuestion]) == [0, 0, 0, 0, 0]
  {
    SingleQuestionBytes(EmptyQuestion);
    EmptyQuestionEncoding();
  }

  lemma EmptyQuestionEncoding()
    ensures EncodeQuestion(EmptyQuestion) == [0, 0, 0, 0, 0]
  {
    assert EncodeStringz([]) == [0];
    assert EncodeU16(0) == [0, 0];
  }

  lemma SingleQuestionBytes(q: Question)
    ensures EncodeQuestions([q]) == EncodeQuestion(q)
  {
    assert [q][1..] == [];
    assert EncodeQuestions([]) == [];
  }

  /** A request read with no question is answered from one default
      question with an empty name, whose domain is the root `.`: the
      response carries that question, keeps the count 0 and has no
      answers. */
  lemma EmptyRequestAnswered(req: Request, zones: Zones)
    requires req.questions == [] && req.header.questionCount == 0
    ensures var resp := BuildResponse(req, zones);
      resp.questions == [EmptyQuestion] && resp.records == [] && resp.header.questionCount == 0
      && resp.header.responseCode == (if HasDomain(zones, ".") then NO_ERROR else NAME_ERROR)
      && EncodeResponse(resp) == EncodeHeader(resp.header) + [0, 0, 0, 0, 0]
  {
    var resp := BuildResponse(req, zones);
    assert resp.questions == [EmptyQuestion] && resp.records == [];
    EmptyQuestionBytes();
    assert EncodeRecords([]) == [];
  }

  /** A datagram that reads as a request with a question count of 0 is
      still answered, not stopped: reading `questions[0]` adds a default
      question, so the reply is the header followed by that question's five
      bytes, with the count 0, no answers, and NO_ERROR exactly when the
      root `.` is a loaded zone. */
  lemma NoQuestionStillAnswered(data: seq<Byte>, zones: Zones)
    requires DecodeRequest(data).Parsed? && DecodeRequest(data).value.header.questionCount == 0
    ensures Serve(data, zones).Reply?
    ensures var resp := Serve(data, zones).response;
      resp.questions == [EmptyQuestion] && resp.records == [] && resp.header.questionCount == 0
      && resp.header.responseCode == (if HasDomain(zones, ".") then NO_ERROR else NAME_ERROR)
      && EncodeResponse(resp) == EncodeHeader(resp.header) + [0, 0, 0, 0, 0]
  {
    var req := DecodeRequest(data).value;
    var resp := Serve(data, zones).response;
    assert resp == BuildResponse(req, zones);
    EmptyRequestAnswered(req, zones);
  }

  /** Only the first question decides the response code: a request whose
      first domain is unloaded gets NAME_ERROR whatever follows it, and no
      answers at all, even for later questions of loaded domains. */
  lemma FirstQuestionDecidesCode(req: Request, zones: Zones)
    requires |req.questions| >= 1
    requires !HasDomain(zones, DomainOf(req.questions[0].stringData))
    ensures BuildResponse(req, zones).header.responseCode == NAME_ERROR
    ensures BuildResponse(req, zones).records == []
    ensures BuildResponse(req, zones).header.answerCount == 0
  {
  }

  /** A loaded first domain gives NO_ERROR, yet a later unloaded domain
      still empties the answers. */
  lemma LaterUnknownEmptiesAnswers(req: Request, zones: Zones, i: nat)
    requires 0 < i < |req.questions|
    requires HasDomain(zones, DomainOf(req.questions[0].stringData))
    requires !HasDomain(zones, DomainOf(req.questions[i].stringData))
    ensures BuildResponse(req, zones).header.responseCode == NO_ERROR
    ensures BuildResponse(req, zones).records == []
    ensures BuildResponse(req, zones).header.answerCount == 0
  {
    UnknownAt(req.questions, zones, i);
  }
}
