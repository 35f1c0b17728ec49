/**
  Answering questions from the zone map: `has_domain?`, `lookup` and
  `resource_records_for`. The zone map is loaded on first use and only read here; it
  is a plain value from a zone's origin to that zone's `a` list.
 */
module Resolver {
  import opened Bytes
  import opened Messages
  import opened DomainName

  /** `QuestionType::A`, the only type that is answered. */
  const A: U16 := 0x0001

  /** One entry of a zone's `a` list: the ttl as the zone gives it, and the
      address as the integer the zone's textual address parses to. */
  datatype AEntry = AEntry(ttl: int, address: nat)

  /** The loaded zones: each origin, dot-terminated, to its `a` list. */
  type Zones = map<string, seq<AEntry>>

  datatype Option<T> = None | Some(value: T)

  /** `has_domain?`: an exact match of the whole domain text against the
      origins; no case folding and no trailing-dot normalisation. */
  function HasDomain(zones: Zones, domain: string): (found: bool)
    ensures found ==> domain in zones.Keys
    ensures !found ==> forall origin :: origin in zones ==> origin != domain
  {
    domain in zones
  }

  /** A zone whose origin lacks the trailing dot is never found: every domain
      read from a question ends with a dot. */
  lemma UndottedOriginNeverFound(zones: Zones, origin: string, name: seq<Byte>)
    requires origin in zones && (origin == [] || origin[|origin| - 1] != '.')
    ensures DomainOf(name) != origin
  {
    var d := DomainOf(name);
    assert d[|d| - 1] == '.';
  }

  /** `lookup`: the `a` list of the question's zone for an A question, and
      nothing for any other type. An A question must name a loaded zone (the
      source would index a missing zone); other types never look. */
  function Lookup(zones: Zones, q: Question): (entries: seq<AEntry>)
    requires q.questionType == A ==> HasDomain(zones, DomainOf(q.stringData))
    ensures q.questionType != A ==> entries == []
    ensures q.questionType == A ==> entries == zones[DomainOf(q.stringData)]
  {
    if q.questionType == A then zones[DomainOf(q.stringData)] else []
  }

  /** A looked-up question yields as many entries as it contributes. */
  lemma LookupCount(zones: Zones, q: Question)
    requires q.questionType == A ==> HasDomain(zones, DomainOf(q.stringData))
    ensures |Lookup(zones, q)| == Contribution(q, zones)
  {
  }

  /** The record built for one zone entry: the question's raw name bytes, type
      and class, the entry's ttl, `rdlength` 4 and the address as `rdata`,
      each integer clamped by BinData to its field's range. */
  function RecordFor(q: Question, e: AEntry): (rr: ResourceRecord)
    ensures rr.stringData == q.stringData
    ensures rr.questionType == q.questionType && rr.questionClass == q.questionClass
    ensures rr.rdlength == 4
    ensures e.ttl <= 0xFFFF_FFFF ==> rr.ttl == if e.ttl < 0 then 0 else e.ttl
    ensures e.ttl > 0xFFFF_FFFF ==> rr.ttl == 0xFFFF_FFFF
    ensures rr.rdata == if e.address > 0xFFFF_FFFF then 0xFFFF_FFFF else e.address
  {
    ResourceRecord(q.stringData, q.questionType, q.questionClass, ClampU32(e.ttl), 4, ClampU32(e.address))
  }

  /** `results.map { ... }` for one question. */
  function RecordsFor(q: Question, entries: seq<AEntry>): (rs: seq<ResourceRecord>)
    ensures |rs| == |entries|
  {
    if entries == [] then [] else [RecordFor(q, entries[0])] + RecordsFor(q, entries[1..])
  }

  /** The map keeps the zone's order: record `j` is built from entry `j`. */
  lemma {:induction false} RecordsForAt(q: Question, entries: seq<AEntry>, j: nat)
    requires j < |entries|
    ensures RecordsFor(q, entries)[j] == RecordFor(q, entries[j])
  {
    if j > 0 {
      RecordsForAt(q, entries[1..], j - 1);
    }
  }

  /** Every question names a loaded zone. */
  predicate AllKnown(qs: seq<Question>, zones: Zones)
  {
    qs == [] || (HasDomain(zones, DomainOf(qs[0].stringData)) && AllKnown(qs[1..], zones))
  }

  /** One question naming an unloaded zone is enough for a request not to
      have all its domains loaded. */
  lemma {:induction false} UnknownAt(qs: seq<Question>, zones: Zones, i: nat)
    requires i < |qs| && !HasDomain(zones, DomainOf(qs[i].stringData))
    ensures !AllKnown(qs, zones)
  {
    if i > 0 {
      assert qs[1..][i - 1] == qs[i];
      UnknownAt(qs[1..], zones, i - 1);
    }
  }

  /** The `flat_map` of `resource_records_for`, question by question: `None`
      is the early `return []` taken at the first question whose domain is
      not loaded. */
  function Collect(qs: seq<Question>, zones: Zones): (r: Option<seq<ResourceRecord>>)
    ensures r.None? <==> !AllKnown(qs, zones)
  {
    if qs == [] then Some([])
    else if !HasDomain(zones, DomainOf(qs[0].stringData)) then None
    else
      match Collect(qs[1..], zones)
      case None => None
      case Some(rest) =>
        Some(RecordsFor(qs[0], Lookup(zones, qs[0])) + rest)
  }

  /** `resource_records_for`: when a single question names an unloaded domain
      the whole answer list is empty, whatever earlier questions produced. */
  function ResourceRecordsFor(qs: seq<Question>, zones: Zones): (rs: seq<ResourceRecord>)
    ensures !AllKnown(qs, zones) ==> rs == []
  {
    match Collect(qs, zones)
    case None => []
    case Some(rs) => rs
  }

  // ---------------------------------------------------------------- properties

  /** How many records a question contributes when every domain is loaded:
      one per entry of its zone's `a` list for an A question, none otherwise. */
  function Contribution(q: Question, zones: Zones): nat
  {
    if q.questionType == A && HasDomain(zones, DomainOf(q.stringData)) then |zones[DomainOf(q.stringData)]| else 0
  }

  /** Where the answers to question `i` start: the contributions of the
      questions before it, in request order. */
  function Offset(qs: seq<Question>, zones: Zones, i: nat): nat
    requires i <= |qs|
  {
    if i == 0 then 0 else Contribution(qs[0], zones) + Offset(qs[1..], zones, i - 1)
  }

  /** When every domain is loaded, the answers are the first question's
      records followed by the answers to the remaining questions. */
  lemma AnswersSplit(qs: seq<Question>, zones: Zones)
    requires AllKnown(qs, zones) && qs != []
    ensures ResourceRecordsFor(qs, zones)
         == RecordsFor(qs[0], Lookup(zones, qs[0])) + ResourceRecordsFor(qs[1..], zones)
    ensures |RecordsFor(qs[0], Lookup(zones, qs[0]))| == Contribution(qs[0], zones)
  {
  }

  /** When every domain is loaded there are as many answers as the questions'
      contributions add up to. */
  lemma {:induction false} AnswerCount(qs: seq<Question>, zones: Zones)
    requires AllKnown(qs, zones)
    ensures |ResourceRecordsFor(qs, zones)| == Offset(qs, zones, |qs|)
  {
    if qs != [] {
      AnswersSplit(qs, zones);
      AnswerCount(qs[1..], zones);
    }
  }

  /** The first question's answers come first, one per zone entry. */
  lemma AnswerOfFirst(qs: seq<Question>, zones: Zones, j: nat)
    requires AllKnown(qs, zones) && qs != [] && j < Contribution(qs[0], zones)
    ensures j < |ResourceRecordsFor(qs, zones)|
    ensures ResourceRecordsFor(qs, zones)[j] == RecordFor(qs[0], zones[DomainOf(qs[0].stringData)][j])
  {
    var head := RecordsFor(qs[0], Lookup(zones, qs[0]));
    assert ResourceRecordsFor(qs, zones) == head + ResourceRecordsFor(qs[1..], zones)
        && |head| == Contribution(qs[0], zones) by {
      AnswersSplit(qs, zones);
    }
    assert Lookup(zones, qs[0]) == zones[DomainOf(qs[0].stringData)];
    RecordsForAt(qs[0], Lookup(zones, qs[0]), j);
  }

  /** The answers to the later questions follow the first question's. */
  lemma AnswerOfLater(qs: seq<Question>, zones: Zones, k: nat)
    requires AllKnown(qs, zones) && qs != [] && k < |ResourceRecordsFor(qs[1..], zones)|
    ensures Contribution(qs[0], zones) + k < |ResourceRecordsFor(qs, zones)|
    ensures ResourceRecordsFor(qs, zones)[Contribution(qs[0], zones) + k]
         == ResourceRecordsFor(qs[1..], zones)[k]
  {
    var head := RecordsFor(qs[0], Lookup(zones, qs[0]));
    var rest := ResourceRecordsFor(qs[1..], zones);
    var all := ResourceRecordsFor(qs, zones);
    assert all == head + rest && |head| == Contribution(qs[0], zones) by {
      AnswersSplit(qs, zones);
    }
    IndexAfter(head, rest, all, k);
  }

  lemma IndexAfter(head: seq<ResourceRecord>, rest: seq<ResourceRecord>, all: seq<ResourceRecord>, k: nat)
    requires all == head + rest && k < |rest|
    ensures |head| + k < |all| && all[|head| + k] == rest[k]
  {
  }

  /** When every domain is loaded, the answers are laid out question by
      question in request order, and the answers to one question are its
      zone entries in list order: answer `j` of question `i` is built by
      `RecordFor` from the question and entry `j` of its zone. */
  lemma {:induction false} AnswerAt(qs: seq<Question>, zones: Zones, i: nat, j: nat)
    requires AllKnown(qs, zones) && i < |qs| && j < Contribution(qs[i], zones)
    ensures Offset(qs, zones, i) + j < |ResourceRecordsFor(qs, zones)|
    ensures ResourceRecordsFor(qs, zones)[Offset(qs, zones, i) + j]
         == RecordFor(qs[i], zones[DomainOf(qs[i].stringData)][j])
  {
    if i == 0 {
      AnswerOfFirst(qs, zones, j);
    } else {
      var tail := qs[1..];
      var k := Offset(tail, zones, i - 1) + j;
      assert Offset(qs, zones, i) + j == Contribution(qs[0], zones) + k;
      var q := qs[i];
      assert tail[i - 1] == q;
      var answer := RecordFor(q, zones[DomainOf(q.stringData)][j]);
      AnswerAt(tail, zones, i - 1, j);
      assert k < |ResourceRecordsFor(tail, zones)| && ResourceRecordsFor(tail, zones)[k] == answer;
      AnswerOfLater(qs, zones, k);
    }
  }

  /** Questions of any type other than A get no answers, even for a loaded domain. */
  lemma {:induction false} OnlyAQuestionsAnswered(qs: seq<Question>, zones: Zones)
    requires forall i :: 0 <= i < |qs| ==> qs[i].questionType != A
    ensures ResourceRecordsFor(qs, zones) == []
  {
    if qs != [] && Collect(qs, zones).Some? {
      OnlyAQuestionsAnswered(qs[1..], zones);
    }
  }

  /** Two record lists that agree record by record on everything except
      the question class. */
  predicate SameButClass(rs: seq<ResourceRecord>, rs': seq<ResourceRecord>)
  {
    |rs'| == |rs| && forall k :: 0 <= k < |rs| ==> rs'[k] == rs[k].(questionClass := rs'[k].questionClass)
  }

  lemma SameButClassConcat(a: seq<ResourceRecord>, a': seq<ResourceRecord>, b: seq<ResourceRecord>, b': seq<ResourceRecord>)
    requires SameButClass(a, a') && SameButClass(b, b')
    ensures SameButClass(a + b, a' + b')
  {
    forall k | 0 <= k < |a + b|
      ensures (a' + b')[k] == (a + b)[k].(questionClass := (a' + b')[k].questionClass)
    {
      if k >= |a| {
        assert (a + b)[k] == b[k - |a|] && (a' + b')[k] == b'[k - |a|];
      }
    }
  }

  /** The question class is never consulted: questions that differ only in
      their class are answered or discarded alike, and get the same records
      apart from the copied class. */
  lemma {:induction false} ClassNotConsulted(qs: seq<Question>, qs': seq<Question>, zones: Zones)
    requires |qs'| == |qs|
    requires forall i :: 0 <= i < |qs| ==>
      qs'[i].stringData == qs[i].stringData && qs'[i].questionType == qs[i].questionType
    ensures AllKnown(qs', zones) == AllKnown(qs, zones)
    ensures SameButClass(ResourceRecordsFor(qs, zones), ResourceRecordsFor(qs', zones))
  {
    if qs != [] {
      var tail, tail' := qs[1..], qs'[1..];
      forall i | 0 <= i < |tail|
        ensures tail'[i].stringData == tail[i].stringData && tail'[i].questionType == tail[i].questionType
      {
        assert tail[i] == qs[i + 1] && tail'[i] == qs'[i + 1];
      }
      ClassNotConsulted(tail, tail', zones);
      var q, q' := qs[0], qs'[0];
      assert q'.stringData == q.stringData && q'.questionType == q.questionType;
      if AllKnown(qs, zones) {
        var entries := Lookup(zones, q);
        assert Lookup(zones, q') == entries;
        var head, head' := RecordsFor(q, entries), RecordsFor(q', entries);
        forall k | 0 <= k < |head|
          ensures head'[k] == head[k].(questionClass := head'[k].questionClass)
        {
          RecordsForAt(q, entries, k);
          RecordsForAt(q', entries, k);
        }
        AnswersSplit(qs, zones);
        AnswersSplit(qs', zones);
        SameButClassConcat(head, head', ResourceRecordsFor(tail, zones), ResourceRecordsFor(tail', zones));
      }
    }
  }

  /** A question of an unloaded domain empties the answers, even when an
      earlier question of a loaded domain would have had some. */
  lemma UnknownDomainDiscardsEarlierAnswers(known: Question, unknown: Question, zones: Zones)
    requires HasDomain(zones, DomainOf(known.stringData)) && known.questionType == A
    requires zones[DomainOf(known.stringData)] != []
    requires !HasDomain(zones, DomainOf(unknown.stringData))
    ensures ResourceRecordsFor([known], zones) != []
    ensures ResourceRecordsFor([known, unknown], zones) == []
  {
    assert [known][1..] == [];
    assert !AllKnown([known, unknown], zones) by {
      assert [known, unknown][1] == unknown;
    }
  }

  // ---------------------------------------------------------------- examples

  /** The name bytes of `example.com.` and of `missing.example.`. */
  const ExampleCom: seq<Byte> := [7, 101, 120, 97, 109, 112, 108, 101, 3, 99, 111, 109]
  const MissingExample: seq<Byte> := [7, 109, 105, 115, 115, 105, 110, 103, 7, 101, 120, 97, 109, 112, 108, 101]

  /** The zone that the feature test loads: `example.com.` with two A entries
      of ttl 400, 255.255.255.255 and 127.0.0.1. */
  const ExampleZones: Zones := map["example.com." := [AEntry(400, 0xFFFF_FFFF), AEntry(400, 0x7F00_0001)]]

  /** The domain of name bytes holding two well-formed labels. */
  lemma TwoLabelDomain(s: seq<Byte>, first: seq<Byte>, second: seq<Byte>)
    requires |first| < 0x100 && |second| < 0x100
    requires s == [|first| as Byte] + first + [|second| as Byte] + second
    ensures DomainOf(s) == Text(first) + "." + Text(second) + "."
  {
    var ls := [first, second];
    assert s == EncodeLabels(ls) by {
      var tail := ls[1..];
      assert tail == [second] && tail[1..] == [];
      assert EncodeLabels(tail) == [|second| as Byte] + second + EncodeLabels([]);
    }
    DomainOfEncoded(ls);
    assert ls[..1] == [first];
  }

  /** Bytes read as the characters with the same codes. */
  lemma TextIs(b: seq<Byte>, t: string)
    requires |t| == |b| && forall k :: 0 <= k < |b| ==> t[k] as int == b[k]
    ensures Text(b) == t
  {
  }

  lemma ExampleComDomain()
    ensures DomainOf(ExampleCom) == "example.com."
  {
    var example: seq<Byte> := [101, 120, 97, 109, 112, 108, 101];
    var com: seq<Byte> := [99, 111, 109];
    TwoLabelDomain(ExampleCom, example, com);
    TextIs(example, "example");
    TextIs(com, "com");
  }

  /** An A question for `example.com.` gets the two entries, in zone order,
      each with ttl 400. */
  lemma ExampleKnownDomain()
    ensures ResourceRecordsFor([Question(ExampleCom, A, 1)], ExampleZones)
         == [ResourceRecord(ExampleCom, A, 1, 400, 4, 0xFFFF_FFFF),
             ResourceRecord(ExampleCom, A, 1, 400, 4, 0x7F00_0001)]
  {
    ExampleComDomain();
    var q := Question(ExampleCom, A, 1);
    var entries := ExampleZones["example.com."];
    assert Lookup(ExampleZones, q) == entries;
    var rs := RecordsFor(q, entries);
    assert rs == [RecordFor(q, entries[0]), RecordFor(q, entries[1])] by {
      assert entries[1..][1..] == [];
    }
    assert [q][1..] == [];
    assert Collect([q], ExampleZones) == Some(rs + []);
  }

  /** An A question for `missing.example.` gets no answers. */
  lemma ExampleUnknownDomain()
    ensures ResourceRecordsFor([Question(MissingExample, A, 1)], ExampleZones) == []
  {
    TwoLabelDomain(MissingExample, [109, 105, 115, 115, 105, 110, 103], [101, 120, 97, 109, 112, 108, 101]);
    assert |DomainOf(MissingExample)| == 16;
    assert !HasDomain(ExampleZones, DomainOf(MissingExample));
  }
}
