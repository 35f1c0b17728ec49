# ruby_dns responder, modelled in Dafny

ruby_dns is a minimal authoritative DNS responder.

- **Reading a request.** It reads a UDP datagram as a BinData `Request`: a 12-byte header followed by `question_count` questions.
- **Answering.** It answers A questions from zone files. The zones are loaded on first use, then kept for the life of the process. Each zone is keyed by its dot-terminated origin.
- **Replying.** It writes back a `Response` with:
  - an authoritative header that echoes the request's id, opcode and question count;
  - the request's questions;
  - one answer record per `a` entry of each question's zone.

This project models that core, all of it from `lib/ruby_dns/server.rb`.

- `bytes.dfy` (module `Bytes`) holds the BinData field types:
  - big-endian `uint16` and `uint32`;
  - `bitN` fields packed most significant bit first;
  - zero-terminated `stringz`;
  - the clamping BinData applies when an integer is assigned to a field too narrow for it.
- `messages.dfy` (module `Messages`) holds the record layouts `Header`, `Question`, `ResourceRecord`, `Request` and `Response`. Each layout is a datatype with a pair of functions, one for the bytes written and one for what is read back. Reading back what was written restores the value for every layout. Writing back what was read restores the bytes for the uint16, uint32 and stringz fields, and for the header, question, record and request layouts.
- `domain.dfy` (module `DomainName`) holds `Question#domain`.
  - It is a `while` loop over the label bytes, modelled as a method with loop invariants.
  - The method is proved equal to a recursive definition: the labels joined by dots, plus a trailing dot.
- `resolver.dfy` (module `Resolver`) holds `has_domain?`, `lookup` and `resource_records_for` over an immutable zone map. The map goes from each origin to its `a` list of (ttl, address) entries.
- `server.dfy` (module `Server`) holds one turn of `serve`, from the datagram received to the response sent.
  - That turn either replies with a response, or it stops where the Ruby loop would raise on a datagram that does not read as a request.
  - The response header is built here.

Behaviours of the code that the model keeps as written:

- **An unknown domain in any question empties all the answers.** The `return []` inside the `flat_map` block returns from `resource_records_for` as a whole. Records already built for earlier questions are discarded, and later known questions get none either. It does not skip just the one question.
- **Only the first question decides the response code.** `questions[0]` alone picks NO_ERROR or NAME_ERROR.
- **A request with no question is still answered.** BinData's `Array#[]` on an empty array grows it by one default question, with an empty name whose domain is `.`. The code is then NO_ERROR exactly when `.` is a loaded origin. The answers are computed before this growth, so there are none. The question count stays 0, but the grown question list is written back, so its 5 default bytes follow the header.
- **Names are never validated.**
  - A length byte that runs past the end of the name takes the bytes that remain.
  - No label-length limit exists.
  - No error is raised for a malformed name.
  - A request that does not read (short header, a question without its zero byte or without its type and class) makes `Request.read` raise, which ends the loop.
- **BinData clamps integers.** An assigned integer too large for its field is clamped to the field's maximum. This applies to `answer_count` and to a zone's ttl or address.

RFC 1035 asks for more than the code does, and the model follows the code. Section 2.3.4 of RFC 1035 limits a label to 63 octets, but the code checks no label length and clips an overrunning label. Section 4.1.1 of RFC 1035 defines response code 1, format error, for a query the server cannot interpret, but the code sends no such reply: a datagram that does not read ends the loop.

## Model

| member | source | states |
|---|---|---|
| Bytes.Clamp | lib/ruby_dns/server.rb:157 | an integer assigned to a BinData field lands in the field's range: kept when it fits, otherwise the nearest end of the range |
| Bytes.FromToBits | lib/ruby_dns/server.rb:51-60 | reading back `n` bit fields written from a number below 2^n gives that number |
| Bytes.ToFromBits | lib/ruby_dns/server.rb:51-60 | writing the number read from a run of bit fields gives back those bits |
| Bytes.EncodeU16 | lib/ruby_dns/server.rb:50 | a `uint16` field is two bytes whose big-endian value is the field |
| Bytes.DecodeU16 | lib/ruby_dns/server.rb:50 | reading a `uint16` succeeds exactly when two bytes remain, and gives their big-endian value and the bytes after them |
| Bytes.U16RoundTrip | lib/ruby_dns/server.rb:62-65 | reading back a written `uint16` gives the value and leaves what follows untouched |
| Bytes.U16Splits | lib/ruby_dns/server.rb:62-65 | any two bytes are the encoding of the word they read as |
| Bytes.U16Reencodes | lib/ruby_dns/server.rb:76-77 | writing the `uint16` read from some bytes gives back exactly the two bytes consumed |
| Bytes.EncodeU32 | lib/ruby_dns/server.rb:103 | a `uint32` field is four bytes whose big-endian value is the field |
| Bytes.DecodeU32 | lib/ruby_dns/server.rb:106 | reading a `uint32` succeeds exactly when four bytes remain, and gives their big-endian value |
| Bytes.U32RoundTrip | lib/ruby_dns/server.rb:103-106 | reading back a written `uint32` gives the value and leaves what follows untouched |
| Bytes.U32Splits | lib/ruby_dns/server.rb:103-106 | any four bytes are the encoding of the `uint32` they read as |
| Bytes.U32Reencodes | lib/ruby_dns/server.rb:103-106 | writing the `uint32` read from some bytes gives back exactly the four bytes consumed |
| Bytes.UntilZero | lib/ruby_dns/server.rb:74 | a `stringz` value is cut at its first zero byte: the result has no zero, is a prefix of the value, is followed by a zero in the value when shorter, and is the whole value when it has no zero |
| Bytes.EncodeStringz | lib/ruby_dns/server.rb:74 | a `stringz` field is the value up to its first zero, then exactly one zero byte; a value without a zero is written unchanged followed by one zero |
| Bytes.DecodeStringz | lib/ruby_dns/server.rb:74 | reading a `stringz` succeeds exactly when a zero byte remains; the value has no zero and the input is the value, the zero, and the rest |
| Bytes.StringzRoundTrip | lib/ruby_dns/server.rb:74 | reading back a written `stringz` without zero bytes gives the value and what follows |
| Bytes.StringzReencodes | lib/ruby_dns/server.rb:74 | writing the `stringz` read from some bytes gives back exactly the bytes consumed |
| Messages.HighFlags | lib/ruby_dns/server.rb:51-55 | byte 2 of the header holds eight bits: QR at the top, then the opcode as four bits, then AA, TC and RD |
| Messages.LowFlags | lib/ruby_dns/server.rb:56-60 | byte 3 of the header holds eight bits: RA at the top, then Z, AD and CD, then the response code as the low four bits |
| Messages.FlagByte | lib/ruby_dns/server.rb:51-60 | the byte built from eight bit fields reads back as those bits, top bit first |
| Messages.EncodeHeader | lib/ruby_dns/server.rb:47-66 | a header is 12 bytes: id, question, answer, authority and additional counts big-endian at bytes 0, 4, 6, 8, 10; byte 2 holds QR, opcode, AA, TC, RD from the top bit; byte 3 holds RA, Z, AD, CD, then the response code in the low four bits |
| Messages.DecodeHeader | lib/ruby_dns/server.rb:47-66 | reading a header succeeds exactly when 12 bytes remain, consumes exactly 12, and takes the flags from the bits of bytes 2 and 3 |
| Messages.HeaderRoundTrip | lib/ruby_dns/server.rb:47-66 | reading back a written header restores every field and leaves what follows |
| Messages.HeaderReencodes | lib/ruby_dns/server.rb:47-66 | any 12 bytes read as a header that writes back to the same 12 bytes |
| Messages.EncodeQuestion | lib/ruby_dns/server.rb:68-77 | a question is its name bytes, one zero byte, then type and class big-endian; its length is that of the name, cut at its first zero byte, plus 5 |
| Messages.DecodeQuestion | lib/ruby_dns/server.rb:68-77 | a question read has a name without zero bytes and consumes at least 5 bytes |
| Messages.QuestionRoundTrip | lib/ruby_dns/server.rb:68-77 | reading back a written question whose name holds no zero byte restores it and leaves what follows |
| Messages.QuestionReencodes | lib/ruby_dns/server.rb:68-77 | writing a question read from some bytes gives back exactly the bytes consumed |
| Messages.EncodeRecord | lib/ruby_dns/server.rb:96-107 | a record is its name, a zero byte, type, class, ttl, rdlength and rdata in order, the name's length plus 1+2+2+4+2+4 bytes long |
| Messages.DecodeRecord | lib/ruby_dns/server.rb:96-107 | a record read has a name without zero bytes and consumes at least 15 bytes |
| Messages.RecordRoundTrip | lib/ruby_dns/server.rb:96-107 | reading back a written record whose name holds no zero byte restores every field |
| Messages.RecordReencodes | lib/ruby_dns/server.rb:96-107 | writing a record read from some bytes gives back exactly the bytes consumed |
| Messages.DecodeQuestions | lib/ruby_dns/server.rb:113 | reading `n` questions gives exactly `n`, none with a zero byte in its name, consuming at least 5 bytes each |
| Messages.DecodeRequest | lib/ruby_dns/server.rb:109-114 | a request read has consumed the 12-byte header, and its question list has exactly the header's `question_count` entries |
| Messages.EncodeRequest | lib/ruby_dns/server.rb:109-114 | a written request starts with its 12 header bytes |
| Messages.QuestionsRoundTrip | lib/ruby_dns/server.rb:113 | reading back as many questions as were written restores the list and leaves what follows |
| Messages.QuestionsReencode | lib/ruby_dns/server.rb:113 | writing the questions read from some bytes gives back exactly the bytes consumed |
| Messages.RequestRoundTrip | lib/ruby_dns/server.rb:109-114 | reading back a written request whose count matches its questions restores it |
| Messages.RequestReencodes | lib/ruby_dns/server.rb:109-114 | writing a request read from some bytes gives back exactly the bytes consumed: the header and the questions |
| Messages.EncodeResponse | lib/ruby_dns/server.rb:116-122 | a response is written as the header bytes, each question in order, then each record in order |
| Messages.ResponseReadsAsRequest | lib/ruby_dns/server.rb:109-122 | a written response reads back as a request of its own header and questions, with exactly the record bytes left over |
| Messages.RecordsRoundTrip | lib/ruby_dns/server.rb:116-122 | the records of a written response read back one by one in order, and reading past the last fails |
| DomainName.Text | lib/ruby_dns/server.rb:88 | each name byte becomes the character with the same code |
| DomainName.LabelEnd | lib/ruby_dns/server.rb:87-88 | a label ends after its length byte's count, clipped to the data, and always past the length byte |
| DomainName.Labels | lib/ruby_dns/server.rb:83-90 | there are no more labels than bytes, and none exactly when the data is empty |
| DomainName.DomainOf | lib/ruby_dns/server.rb:79-93 | the domain always ends in `.` and is exactly `.` for empty name bytes |
| DomainName.LabelsFrom | lib/ruby_dns/server.rb:87-89 | the labels from index `i` on are the label announced at `i`, clipped to the data, then the labels after its end |
| DomainName.DomainStep | lib/ruby_dns/server.rb:83-90 | one turn of the loop keeps its invariant: labels read plus labels left are all the labels, and the text built is the labels read joined by dots, with no dot before the first |
| DomainName.Domain | lib/ruby_dns/server.rb:79-93 | the loop terminates and returns the name's labels joined by dots followed by a trailing dot |
| DomainName.DomainStartsWithFirstLabel | lib/ruby_dns/server.rb:84-88 | the domain of non-empty name bytes starts with the first label's text; with a zero first length byte that text is empty |
| DomainName.DomainClipsOverrun | lib/ruby_dns/server.rb:87-89 | a first length byte that runs past the data takes the remaining bytes as the only label instead of raising |
| DomainName.LabelsOfEncoded | lib/ruby_dns/server.rb:71-74 | reading the labels of well-formed length-prefixed bytes gives back those labels |
| DomainName.DomainOfEncoded | lib/ruby_dns/server.rb:79-93 | for well-formed label bytes the domain is the labels joined by `.` plus a final `.` |
| Resolver.HasDomain | lib/ruby_dns/server.rb:204-206 | a domain is found only as an origin of its own, character for character; when it is not found no origin equals it |
| Resolver.UndottedOriginNeverFound | lib/ruby_dns/server.rb:204-206 | a zone whose origin is empty or lacks the trailing dot never matches the domain of any question |
| Resolver.Lookup | lib/ruby_dns/server.rb:208-217 | an A question gets its zone's `a` list and any other type gets nothing; an A question's zone must be loaded, because indexing a missing zone would raise |
| Resolver.LookupCount | lib/ruby_dns/server.rb:208-217 | the entries looked up number exactly the question's contribution: the zone's `a` count for an A question of a loaded domain, otherwise 0 |
| Resolver.RecordFor | lib/ruby_dns/server.rb:192-199 | a record copies the question's raw name bytes, type and class, has rdlength 4, and carries the entry's ttl and address clamped into 32 bits |
| Resolver.RecordsFor | lib/ruby_dns/server.rb:191-200 | a question gets exactly one record per zone entry |
| Resolver.RecordsForAt | lib/ruby_dns/server.rb:191-200 | record `j` is built from zone entry `j`, so the list order is kept |
| Resolver.UnknownAt | lib/ruby_dns/server.rb:187 | a single question of an unloaded domain anywhere in the request means not all domains are loaded |
| Resolver.Collect | lib/ruby_dns/server.rb:186-201 | the `flat_map` takes the early return exactly when some question's domain is not loaded |
| Resolver.ResourceRecordsFor | lib/ruby_dns/server.rb:185-202 | when any question's domain is unloaded the whole answer list is empty |
| Resolver.AnswersSplit | lib/ruby_dns/server.rb:186-201 | with every domain loaded the answers are the first question's records, one per zone entry of an A question, followed by the answers to the rest |
| Resolver.AnswerCount | lib/ruby_dns/server.rb:186-216 | with every domain loaded the number of answers is the sum over the questions of their zone's `a` count for A questions and 0 otherwise |
| Resolver.AnswerOfFirst | lib/ruby_dns/server.rb:186-200 | the first question's answers come first, in zone order |
| Resolver.AnswerOfLater | lib/ruby_dns/server.rb:186 | the later questions' answers follow the first question's, in order |
| Resolver.AnswerAt | lib/ruby_dns/server.rb:186-216 | with every domain loaded, answer `j` of question `i` sits after the earlier questions' answers and copies the question's raw name, type and class, with entry `j`'s ttl, rdlength 4 and entry `j`'s address |
| Resolver.OnlyAQuestionsAnswered | lib/ruby_dns/server.rb:212-216 | questions that are not of type A get no answers, even for loaded domains |
| Resolver.ClassNotConsulted | lib/ruby_dns/server.rb:185-216 | questions that differ only in class are answered or discarded alike, and their records differ only in the copied class |
| Resolver.UnknownDomainDiscardsEarlierAnswers | lib/ruby_dns/server.rb:186-187 | a question of an unloaded domain after one with answers empties the answer list the earlier question alone would have had |
| Resolver.TwoLabelDomain | lib/ruby_dns/server.rb:79-93 | a name of two well-formed labels renders as `first.second.` |
| Resolver.ExampleComDomain | lib/ruby_dns/server.rb:79-93 | the name bytes of `example.com` render as `example.com.` |
| Resolver.ExampleKnownDomain | spec/features/server_spec.rb:62-67 | an A question for `example.com` against the example zone gets its two entries, 255.255.255.255 and 127.0.0.1, each with ttl 400, in zone order |
| Resolver.ExampleUnknownDomain | spec/features/server_spec.rb:81-86 | an A question for `missing.example` gets no answers |
| Server.BuildResponse | lib/ruby_dns/server.rb:142-163 | the response echoes id, opcode and question count; its questions are the request's, grown by one default question when there is none; sets QR and AA to 1 and TC, RD, RA, Z, AD, CD and both other counts to 0; its answer count is the number of records (clamped to 16 bits); its code is NO_ERROR exactly when the first of those questions names a loaded domain and NAME_ERROR exactly when it does not; its records are the answers resolved for the request's own questions |
| Server.Indexed | lib/ruby_dns/server.rb:154 | indexing the question list leaves a non-empty list as it is and grows an empty one to the one default question |
| Server.Padding | lib/ruby_dns/server.rb:154 | the questions added by indexing are exactly what follows the request's own questions in the indexed list |
| Server.Serve | lib/ruby_dns/server.rb:139-165 | a turn stops as malformed exactly when the datagram does not read as a request; otherwise it replies with the response built from the request read |
| Server.IdBytesEchoed | lib/ruby_dns/server.rb:145 | a response carrying the request's id starts with the datagram's two id bytes |
| Server.QuestionBytesEchoed | lib/ruby_dns/server.rb:161 | a response carrying the request's questions repeats the datagram's question section byte for byte right after the header |
| Server.HeaderAloneReadsBack | lib/ruby_dns/server.rb:109-114 | a header that counts no question reads back as a request with no question, whatever follows |
| Server.NoPadding | lib/ruby_dns/server.rb:154 | indexing a non-empty question list adds no bytes |
| Server.ReplyReadsAsRequest | lib/ruby_dns/server.rb:141-165 | the bytes sent back read as a request with the response header and the datagram's own questions, followed by the default question's bytes when the request had none, then exactly the answer records |
| Server.EmptyAskedReadsBack | lib/ruby_dns/server.rb:154-161 | a response to a request with no question reads back with no question, followed by the default question's bytes and the records |
| Server.AskedReadsBack | lib/ruby_dns/server.rb:161 | a response carrying and counting the questions read reads back to them, followed by exactly the records |
| Server.ReplyEchoesId | lib/ruby_dns/server.rb:145-165 | a reply starts with the datagram's two id bytes |
| Server.NoQuestionBytesEchoed | lib/ruby_dns/server.rb:161 | a datagram with no question has an empty question section, which any reply repeats trivially |
| Server.ReplyEchoesQuestions | lib/ruby_dns/server.rb:141-165 | right after the header a reply repeats the datagram's question section byte for byte |
| Server.EmptyQuestionEncoding | lib/ruby_dns/server.rb:68-77 | the default question, with an empty name and type and class 0, is written as five zero bytes |
| Server.SingleQuestionBytes | lib/ruby_dns/server.rb:113 | a list of one question is written as that question |
| Server.EmptyQuestionBytes | lib/ruby_dns/server.rb:154-161 | the question list grown from an empty one is written as five zero bytes |
| Server.EmptyRequestAnswered | lib/ruby_dns/server.rb:141-163 | a request with no question gets the one default question, no answers and a question count of 0; its code is NO_ERROR exactly when `.` is a loaded origin; its bytes are the header then five zero bytes |
| Server.NoQuestionStillAnswered | lib/ruby_dns/server.rb:139-165 | a datagram that reads with a question count of 0 gets a reply, not a stop, and that reply is the one described for a request with no question |
| Server.FirstQuestionDecidesCode | lib/ruby_dns/server.rb:153-157 | a request whose first domain is unloaded gets NAME_ERROR and no answers, whatever the later questions are |
| Server.LaterUnknownEmptiesAnswers | lib/ruby_dns/server.rb:153-157 | a loaded first domain gives NO_ERROR, yet any later unloaded domain leaves the response with no answers and an answer count of 0 |

## Left out

- The UDP socket (`UDPSocket`, `bind`, `recvfrom`, `send`) is network I/O. `Serve` takes the datagram's bytes and returns the response whose bytes `EncodeResponse` gives. The 512-byte receive limit is not modelled: `Serve` accepts a datagram of any length.
- Zone loading (`available_zones`, `load_zones`: directory listing, file reading, JSON parsing, and memoisation on first use) is I/O. The zones are an immutable map parameter from each `$origin` to its `a` list.
- The address of each `a` entry is parsed with `IPAddr.new(...).to_i`, a library call that also accepts IPv6. The model takes it as an already parsed non-negative integer, clamped into 32 bits like any other `uint32` assignment.
- A zone without an `a` key makes `lookup` return `nil`, and the map over it raises. Such zones are not modelled: a zone is its `a` list.
- Resolver.Lookup requires an A question's domain to be loaded. The code always checks `has_domain?` first, and for a missing zone `zone['a']` would raise on `nil`.
- Domain keys are compared as Dafny strings, with each name byte read as the character of the same code. Ruby's encoding-aware comparison of non-ASCII bytes against zone keys is not modelled.
- Any exception ends the `serve` loop. The one the model keeps is a datagram that does not read as a request. The model returns `Stopped` with the reason; what follows the exception (the process ending) is not modelled.
- Decoding a `Response` is not modelled. The server only writes responses. `ResponseReadsAsRequest` and `RecordsRoundTrip` read the written bytes back through the request and record layouts.
- BinData's exception types on short input are not modelled. Every short read is `EndOfInput`.
- The other `QuestionType`, `ResponseCode` and `ClassType` constants are declared in the code but never used by it, so they are not modelled.
- Server.Serve: the reply to a request with no question rests on BinData's `Array#[]` growing an empty array by one default element, which the model states as `Indexed` rather than derives. BinData is not part of this model.
