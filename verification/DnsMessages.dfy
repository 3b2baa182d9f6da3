/** Whole DNS messages (packages/dns/src/wire.ts, section 4.1 of RFC 1035). */
module DnsMessages {
  import opened Options
  import opened Bytes
  import opened Buffers
  import opened DnsText
  import opened DnsRecords
  import opened DnsHeaders

  datatype Message = Message(
    header: Header,
    questions: seq<Question>,
    answers: Option<seq<Record>>,
    authorities: Option<seq<Record>>,
    additionals: Option<seq<Record>>)

  function OrEmpty(records: Option<seq<Record>>): seq<Record> {
    if records.None? then [] else records.value
  }

  /** The message that is written: the counts of its header are those of its sections. */
  function WithCounts(m: Message): Message {
    m.(header := m.header.(
      questionCount := |m.questions|,
      answerCount := |OrEmpty(m.answers)|,
      authorityCount := |OrEmpty(m.authorities)|,
      additionalCount := |OrEmpty(m.additionals)|))
  }

  function SerializeQuestions(questions: seq<Question>): (r: Option<seq<Data>>)
    ensures r.Some? ==> |r.value| == |questions|
  {
    if questions == [] then Some([])
    else
      var first :- SerializeQuestion(questions[0]);
      var rest :- SerializeQuestions(questions[1..]);
      Some([first] + rest)
  }

  function SerializeRecords(utf8: Utf8, records: seq<Record>): (r: Option<seq<Data>>)
    ensures r.Some? ==> |r.value| == |records|
  {
    if records == [] then Some([])
    else
      var first :- SerializeRecord(utf8, records[0]);
      var rest :- SerializeRecords(utf8, records[1..]);
      Some([first] + rest)
  }

  /** The parts of a message, in the order they are written. */
  function SerializeParts(utf8: Utf8, m: Message): Option<seq<Data>> {
    var header :- SerializeHeader(WithCounts(m).header);
    var questions :- SerializeQuestions(m.questions);
    var answers :- SerializeRecords(utf8, OrEmpty(m.answers));
    var authorities :- SerializeRecords(utf8, OrEmpty(m.authorities));
    var additionals :- SerializeRecords(utf8, OrEmpty(m.additionals));
    Some([header] + (questions + (answers + (authorities + additionals))))
  }

  /** `serializeDnsMessage` */
  function SerializeMessage(utf8: Utf8, m: Message): Option<Data> {
    var parts :- SerializeParts(utf8, m);
    Some(Flatten(parts))
  }

  /** `count` items behind each other. */
  function ParseMany<T>(parse: nat -> Option<Parsed<T>>, offset: nat, count: nat): Option<Parsed<seq<T>>>
    decreases count
  {
    if count == 0 then Some(Parsed([], offset))
    else
      var first :- parse(offset);
      var rest :- ParseMany(parse, first.end, count - 1);
      Some(Parsed([first.value] + rest.value, rest.end))
  }

  function Questions(utf8: Utf8, data: Data): nat -> Option<Parsed<Question>> {
    (offset: nat) => ParseQuestion(utf8, data, offset)
  }

  function Records(utf8: Utf8, data: Data): nat -> Option<Parsed<Record>> {
    (offset: nat) => ParseRecord(utf8, data, offset)
  }

  /** `parseDnsMessage` */
  function ParseMessage(utf8: Utf8, data: Data): Option<Message> {
    var header :- ParseHeader(data);
    var questions :- ParseMany(Questions(utf8, data), HEADER_LENGTH, header.questionCount);
    var answers :- ParseMany(Records(utf8, data), questions.end, header.answerCount);
    var authorities :- ParseMany(Records(utf8, data), answers.end, header.authorityCount);
    var additionals :- ParseMany(Records(utf8, data), authorities.end, header.additionalCount);
    Some(Message(header, questions.value, Some(answers.value), Some(authorities.value), Some(additionals.value)))
  }

  ghost predicate RecordsWellFormed(utf8: Utf8, records: seq<Record>) {
    |records| < 0x1_0000 && forall i :: 0 <= i < |records| ==> RecordWellFormed(utf8, records[i])
  }

  ghost predicate WellFormed(utf8: Utf8, m: Message) {
    && m.header.id < 0x1_0000 && OpCode(m.header.opcode).Some? && RCode(m.header.rcode).Some?
    && |m.questions| < 0x1_0000 && (forall i :: 0 <= i < |m.questions| ==> QuestionWellFormed(m.questions[i]))
    && RecordsWellFormed(utf8, OrEmpty(m.answers))
    && RecordsWellFormed(utf8, OrEmpty(m.authorities))
    && RecordsWellFormed(utf8, OrEmpty(m.additionals))
  }

  lemma FlattenCons(x: Data, rest: seq<Data>)
    ensures Flatten([x] + rest) == x + Flatten(rest)
  {
    HeadTail(x, rest);
  }

  lemma {:induction false} QuestionsSerialize(questions: seq<Question>)
    requires forall i :: 0 <= i < |questions| ==> QuestionWellFormed(questions[i])
    ensures SerializeQuestions(questions).Some?
  {
    if questions != [] {
      assert SerializeQuestion(questions[0]).Some?;
      QuestionsSerialize(questions[1..]);
    }
  }

  lemma {:induction false} RecordsSerialize(utf8: Utf8, records: seq<Record>)
    requires RecordsWellFormed(utf8, records)
    ensures SerializeRecords(utf8, records).Some?
  {
    if records != [] {
      RecordSerializes(utf8, records[0]);
      RecordsSerialize(utf8, records[1..]);
    }
  }

  /** The first of several parts, and the others behind it. */
  lemma FirstHolds(data: Data, offset: nat, first: Data, rest: seq<Data>)
    requires Holds(data, offset, Flatten([first] + rest))
    ensures Holds(data, offset, first) && Holds(data, offset + |first|, Flatten(rest))
    ensures |Flatten([first] + rest)| == |first| + |Flatten(rest)|
  {
    FlattenCons(first, rest);
    HoldsParts(data, offset, first, Flatten(rest));
  }

  lemma ManyStep<T>(parse: nat -> Option<Parsed<T>>, offset: nat, count: nat, x: T, next: nat, rest: seq<T>, end: nat)
    requires count > 0 && parse(offset) == Some(Parsed(x, next))
    requires ParseMany(parse, next, count - 1) == Some(Parsed(rest, end))
    ensures ParseMany(parse, offset, count) == Some(Parsed([x] + rest, end))
  {
  }

  /** `parts` stand behind each other and are the bytes of the questions. */
  lemma {:induction false} QuestionsParse(
    utf8: Utf8, data: Data, offset: nat, questions: seq<Question>, parts: seq<Data>, end: nat)
    requires ExtendsAscii(utf8) && forall i :: 0 <= i < |questions| ==> QuestionWellFormed(questions[i])
    requires SerializeQuestions(questions) == Some(parts) && Holds(data, offset, Flatten(parts))
    requires end == offset + |Flatten(parts)|
    ensures ParseMany(Questions(utf8, data), offset, |questions|) == Some(Parsed(questions, end))
    decreases questions
  {
    if questions != [] {
      var first, rest := parts[0], SerializeQuestions(questions[1..]).value;
      assert parts == [first] + rest;
      FirstHolds(data, offset, first, rest);
      var next: nat := offset + |first|;
      QuestionParses(utf8, data, offset, questions[0], next);
      QuestionsParse(utf8, data, next, questions[1..], rest, end);
      ManyStep(Questions(utf8, data), offset, |questions|, questions[0], next, questions[1..], end);
      HeadAndTail(questions);
    }
  }

  lemma RecordsCons(utf8: Utf8, records: seq<Record>, parts: seq<Data>) returns (first: Data, rest: seq<Data>)
    requires records != [] && RecordsWellFormed(utf8, records) && SerializeRecords(utf8, records) == Some(parts)
    ensures SerializeRecord(utf8, records[0]) == Some(first) && SerializeRecords(utf8, records[1..]) == Some(rest)
    ensures parts == [first] + rest && RecordWellFormed(utf8, records[0]) && RecordsWellFormed(utf8, records[1..])
  {
    first, rest := parts[0], SerializeRecords(utf8, records[1..]).value;
  }

  lemma {:induction false} RecordsParse(
    utf8: Utf8, data: Data, offset: nat, records: seq<Record>, parts: seq<Data>, end: nat)
    requires ExtendsAscii(utf8) && RecordsWellFormed(utf8, records)
    requires SerializeRecords(utf8, records) == Some(parts) && Holds(data, offset, Flatten(parts))
    requires end == offset + |Flatten(parts)|
    ensures RecordsRead(utf8, data, offset, records, end)
    decreases records
  {
    if records != [] {
      var first, rest := RecordsCons(utf8, records, parts);
      FirstHolds(data, offset, first, rest);
      var next: nat := offset + |first|;
      RecordParses(utf8, data, offset, records[0], next);
      RecordsParse(utf8, data, next, records[1..], rest, end);
      RecordsReadStep(utf8, data, offset, records, next, end);
    }
  }

  /** Reading as many records from `offset` gives these, up to `end`. */
  ghost predicate RecordsRead(utf8: Utf8, data: Data, offset: nat, records: seq<Record>, end: nat) {
    ParseMany(Records(utf8, data), offset, |records|) == Some(Parsed(records, end))
  }

  lemma RecordsReadStep(utf8: Utf8, data: Data, offset: nat, records: seq<Record>, next: nat, end: nat)
    requires records != [] && ParseRecord(utf8, data, offset) == Some(Parsed(records[0], next))
    requires RecordsRead(utf8, data, next, records[1..], end)
    ensures RecordsRead(utf8, data, offset, records, end)
  {
    ManyStep(Records(utf8, data), offset, |records|, records[0], next, records[1..], end);
    HeadAndTail(records);
  }

  /** The parts of a message, once they have been written. */
  ghost predicate AreParts(utf8: Utf8, m: Message, q: seq<Data>, an: seq<Data>, au: seq<Data>, ad: seq<Data>) {
    && SerializeQuestions(m.questions) == Some(q) && SerializeRecords(utf8, OrEmpty(m.answers)) == Some(an)
    && SerializeRecords(utf8, OrEmpty(m.authorities)) == Some(au)
    && SerializeRecords(utf8, OrEmpty(m.additionals)) == Some(ad)
  }

  /** The sections of a message, read from their offsets. */
  ghost predicate SectionsRead(utf8: Utf8, data: Data, m: Message, o1: nat, o2: nat, o3: nat, o4: nat) {
    && ParseMany(Questions(utf8, data), HEADER_LENGTH, |m.questions|) == Some(Parsed(m.questions, o1))
    && RecordsRead(utf8, data, o1, OrEmpty(m.answers), o2)
    && RecordsRead(utf8, data, o2, OrEmpty(m.authorities), o3)
    && RecordsRead(utf8, data, o3, OrEmpty(m.additionals), o4)
  }

  lemma SectionOffsets(data: Data, q: seq<Data>, an: seq<Data>, au: seq<Data>, ad: seq<Data>, o1: nat, o2: nat, o3: nat)
    requires Holds(data, HEADER_LENGTH, Flatten(q + (an + (au + ad))))
    requires o1 == HEADER_LENGTH + |Flatten(q)| && o2 == o1 + |Flatten(an)| && o3 == o2 + |Flatten(au)|
    ensures Holds(data, HEADER_LENGTH, Flatten(q)) && Holds(data, o1, Flatten(an))
    ensures Holds(data, o2, Flatten(au)) && Holds(data, o3, Flatten(ad))
  {
    FlattenAppend(q, an + (au + ad));
    FlattenAppend(an, au + ad);
    FlattenAppend(au, ad);
    FourHold(data, HEADER_LENGTH, Flatten(q), Flatten(an), Flatten(au), Flatten(ad), o1, o2, o3);
  }

  lemma FourHold(data: Data, at: nat, a: Data, b: Data, c: Data, d: Data, o1: nat, o2: nat, o3: nat)
    requires Holds(data, at, a + (b + (c + d)))
    requires o1 == at + |a| && o2 == o1 + |b| && o3 == o2 + |c|
    ensures Holds(data, at, a) && Holds(data, o1, b) && Holds(data, o2, c) && Holds(data, o3, d)
  {
    HoldsParts(data, at, a, b + (c + d));
    HoldsParts(data, o1, b, c + d);
    HoldsParts(data, o2, c, d);
  }

  lemma SectionsParse(
    utf8: Utf8, data: Data, m: Message, q: seq<Data>, an: seq<Data>, au: seq<Data>, ad: seq<Data>, o1: nat, o2: nat,
    o3: nat, o4: nat)
    requires ExtendsAscii(utf8) && WellFormed(utf8, m) && AreParts(utf8, m, q, an, au, ad)
    requires Holds(data, HEADER_LENGTH, Flatten(q)) && Holds(data, o1, Flatten(an))
    requires Holds(data, o2, Flatten(au)) && Holds(data, o3, Flatten(ad))
    requires o1 == HEADER_LENGTH + |Flatten(q)| && o2 == o1 + |Flatten(an)| && o3 == o2 + |Flatten(au)|
    requires o4 == o3 + |Flatten(ad)|
    ensures SectionsRead(utf8, data, m, o1, o2, o3, o4)
  {
    QuestionsParse(utf8, data, HEADER_LENGTH, m.questions, q, o1);
    RecordsParse(utf8, data, o1, OrEmpty(m.answers), an, o2);
    RecordsParse(utf8, data, o2, OrEmpty(m.authorities), au, o3);
    RecordsParse(utf8, data, o3, OrEmpty(m.additionals), ad, o4);
  }

  /** What is read back: the counts are filled in, and missing sections are empty. */
  function Completed(m: Message): Message {
    Message(WithCounts(m).header, m.questions, Some(OrEmpty(m.answers)), Some(OrEmpty(m.authorities)),
      Some(OrEmpty(m.additionals)))
  }

  lemma MessageParts(utf8: Utf8, m: Message)
    requires WellFormed(utf8, m)
    ensures SerializeHeader(WithCounts(m).header).Some? && SerializeQuestions(m.questions).Some?
    ensures SerializeRecords(utf8, OrEmpty(m.answers)).Some? && SerializeRecords(utf8, OrEmpty(m.authorities)).Some?
    ensures SerializeRecords(utf8, OrEmpty(m.additionals)).Some?
  {
    QuestionsSerialize(m.questions);
    RecordsSerialize(utf8, OrEmpty(m.answers));
    RecordsSerialize(utf8, OrEmpty(m.authorities));
    RecordsSerialize(utf8, OrEmpty(m.additionals));
  }

  lemma MessageAssembled(utf8: Utf8, data: Data, m: Message, o1: nat, o2: nat, o3: nat, o4: nat)
    requires ParseHeader(data) == Some(WithCounts(m).header) && SectionsRead(utf8, data, m, o1, o2, o3, o4)
    ensures ParseMessage(utf8, data) == Some(Completed(m))
  {
  }

  lemma MessageParses(
    utf8: Utf8, data: Data, m: Message, h: Data, q: seq<Data>, an: seq<Data>, au: seq<Data>, ad: seq<Data>)
    requires ExtendsAscii(utf8) && WellFormed(utf8, m) && SerializeHeader(WithCounts(m).header) == Some(h)
    requires AreParts(utf8, m, q, an, au, ad) && Holds(data, 0, Flatten([h] + (q + (an + (au + ad)))))
    ensures ParseMessage(utf8, data) == Some(Completed(m))
  {
    FirstHolds(data, 0, h, q + (an + (au + ad)));
    HeaderParses(data, WithCounts(m).header);
    var o1: nat := HEADER_LENGTH + |Flatten(q)|;
    var o2: nat := o1 + |Flatten(an)|;
    var o3: nat := o2 + |Flatten(au)|;
    var o4: nat := o3 + |Flatten(ad)|;
    SectionOffsets(data, q, an, au, ad, o1, o2, o3);
    SectionsParse(utf8, data, m, q, an, au, ad, o1, o2, o3, o4);
    MessageAssembled(utf8, data, m, o1, o2, o3, o4);
  }

  /**
   Whole messages: with ASCII names of good labels, canonical addresses and TXT values that fit their
   length field, the written bytes are read back as the message, with its counts filled in and its
   missing sections empty, whatever follows them.
   */
  lemma MessageRoundTrip(utf8: Utf8, m: Message, rest: Data)
    requires ExtendsAscii(utf8) && WellFormed(utf8, m)
    ensures SerializeMessage(utf8, m).Some?
    ensures ParseMessage(utf8, SerializeMessage(utf8, m).value + rest) == Some(Completed(m))
  {
    MessageParts(utf8, m);
    var h, q := SerializeHeader(WithCounts(m).header).value, SerializeQuestions(m.questions).value;
    var an := SerializeRecords(utf8, OrEmpty(m.answers)).value;
    var au := SerializeRecords(utf8, OrEmpty(m.authorities)).value;
    var ad := SerializeRecords(utf8, OrEmpty(m.additionals)).value;
    assert SerializeParts(utf8, m) == Some([h] + (q + (an + (au + ad))));
    var bytes := SerializeMessage(utf8, m).value;
    var data := bytes + rest;
    assert Holds(data, 0, bytes);
    MessageParses(utf8, data, m, h, q, an, au, ad);
  }

  // ---------------------------------------------------------------- the loops

  /** What remains to be read, `rest`, completes what was read, `done`, to the `whole`. */
  ghost predicate Continues<T>(whole: Option<Parsed<seq<T>>>, done: seq<T>, rest: Option<Parsed<seq<T>>>) {
    && (whole.None? <==> rest.None?)
    && (whole.Some? ==> whole.value == Parsed(done + rest.value.value, rest.value.end))
  }

  lemma ContinuesAtStart<T>(whole: Option<Parsed<seq<T>>>)
    ensures Continues(whole, [], whole)
  {
    if whole.Some? {
      assert [] + whole.value.value == whole.value.value;
    }
  }

  lemma ContinuesWith<T>(whole: Option<Parsed<seq<T>>>, done: seq<T>, x: T, rest: Option<Parsed<seq<T>>>)
    requires Continues(whole, done, if rest.None? then None else Some(Parsed([x] + rest.value.value, rest.value.end)))
    ensures Continues(whole, done + [x], rest)
  {
    if rest.Some? {
      assert done + ([x] + rest.value.value) == done + [x] + rest.value.value;
    }
  }

  lemma ContinuesToEnd<T>(whole: Option<Parsed<seq<T>>>, done: seq<T>, end: nat)
    requires Continues(whole, done, Some(Parsed([], end)))
    ensures whole == Some(Parsed(done, end))
  {
    assert done + [] == done;
  }

  /** One more item. */
  lemma ContinuesNext<T>(
    parse: nat -> Option<Parsed<T>>, whole: Option<Parsed<seq<T>>>, done: seq<T>, offset: nat, count: nat)
    requires count > 0 && Continues(whole, done, ParseMany(parse, offset, count))
    ensures var next := parse(offset);
      if next.None? then whole == None
      else Continues(whole, done + [next.value.value], ParseMany(parse, next.value.end, count - 1))
  {
    var next := parse(offset);
    if next.Some? {
      ContinuesWith(whole, done, next.value.value, ParseMany(parse, next.value.end, count - 1));
    }
  }

  /** The loops of `parseDnsMessage` over the items of a section. */
  method ParseSection<T>(parse: nat -> Option<Parsed<T>>, start: nat, count: nat) returns (r: Option<Parsed<seq<T>>>)
    ensures r == ParseMany(parse, start, count)
  {
    var items: seq<T> := [];
    var offset: nat := start;
    ghost var whole := ParseMany(parse, start, count);
    ContinuesAtStart(whole);
    for i := 0 to count
      invariant Continues(whole, items, ParseMany(parse, offset, count - i))
    {
      ContinuesNext(parse, whole, items, offset, count - i);
      var next := parse(offset);
      if next.None? {
        return None;
      }
      items := items + [next.value.value];
      offset := next.value.end;
    }
    ContinuesToEnd(whole, items, offset);
    return Some(Parsed(items, offset));
  }

  method ParseDnsMessage(utf8: Utf8, data: Data) returns (r: Option<Message>)
    ensures r == ParseMessage(utf8, data)
  {
    var header := ParseHeader(data);
    if header.None? {
      return None;
    }
    var questions := ParseSection(Questions(utf8, data), HEADER_LENGTH, header.value.questionCount);
    if questions.None? {
      return None;
    }
    var answers := ParseSection(Records(utf8, data), questions.value.end, header.value.answerCount);
    if answers.None? {
      return None;
    }
    var authorities := ParseSection(Records(utf8, data), answers.value.end, header.value.authorityCount);
    if authorities.None? {
      return None;
    }
    var additionals := ParseSection(Records(utf8, data), authorities.value.end, header.value.additionalCount);
    if additionals.None? {
      return None;
    }
    return Some(Message(header.value, questions.value.value, Some(answers.value.value), Some(authorities.value.value),
      Some(additionals.value.value)));
  }

  /** The loops of `serializeDnsMessage` that add up the size and write the parts. */
  method WriteParts(parts: seq<Data>) returns (r: Data)
    ensures r == Flatten(parts)
  {
    var size := 0;
    for k := 0 to |parts|
      invariant size == |Flatten(parts[..k])|
    {
      FlattenPrefix(parts, k);
      size := size + |parts[k]|;
    }
    assert parts[..|parts|] == parts;
    var buffer := new Byte[size](_ => 0);
    var offset := 0;
    for k := 0 to |parts|
      invariant offset == |Flatten(parts[..k])| && Filled(buffer, Flatten(parts[..k]))
    {
      FlattenPrefix(parts, k);
      FlattenPrefixLength(parts, k + 1);
      Append(buffer, Flatten(parts[..k]), offset, parts[k]);
      offset := offset + |parts[k]|;
    }
    return buffer[..];
  }

  lemma FlattenPrefix(parts: seq<Data>, k: nat)
    requires k < |parts|
    ensures Flatten(parts[..k + 1]) == Flatten(parts[..k]) + parts[k]
  {
    assert parts[..k + 1] == parts[..k] + [parts[k]];
    FlattenAppend(parts[..k], [parts[k]]);
    FlattenOne(parts[k]);
  }

  lemma FlattenPrefixLength(parts: seq<Data>, k: nat)
    requires k <= |parts|
    ensures |Flatten(parts[..k])| <= |Flatten(parts)|
  {
    assert parts == parts[..k] + parts[k..];
    FlattenAppend(parts[..k], parts[k..]);
  }

  lemma CountsTwice(utf8: Utf8, m: Message)
    ensures SerializeParts(utf8, WithCounts(m)) == SerializeParts(utf8, m)
  {
    SameParts(utf8, WithCounts(m), m);
  }

  lemma SameParts(utf8: Utf8, m: Message, n: Message)
    requires WithCounts(m).header == WithCounts(n).header && m.questions == n.questions
    requires m.answers == n.answers && m.authorities == n.authorities && m.additionals == n.additionals
    ensures SerializeParts(utf8, m) == SerializeParts(utf8, n)
  {
  }

  /** The message of the caller, whose header is updated in place. */
  class MessageObject {
    var header: Header
    const questions: seq<Question>
    const answers: Option<seq<Record>>
    const authorities: Option<seq<Record>>
    const additionals: Option<seq<Record>>

    ghost function Abstract(): Message
      reads this
    {
      Message(header, questions, answers, authorities, additionals)
    }

    constructor (m: Message)
      ensures Abstract() == m
    {
      header, questions, answers := m.header, m.questions, m.answers;
      authorities, additionals := m.authorities, m.additionals;
    }

    method FillCounts()
      modifies this`header
      ensures Abstract() == WithCounts(old(Abstract()))
    {
      header := header.(
        questionCount := |questions|,
        answerCount := |OrEmpty(answers)|,
        authorityCount := |OrEmpty(authorities)|,
        additionalCount := |OrEmpty(additionals)|);
    }

    /** `serializeDnsMessage`: the counts are filled in, also when a part cannot be written. */
    method SerializeDnsMessage(utf8: Utf8) returns (r: Option<Data>)
      modifies this`header
      ensures Abstract() == WithCounts(old(Abstract())) && r == SerializeMessage(utf8, old(Abstract()))
    {
      ghost var before := Abstract();
      FillCounts();
      CountsTwice(utf8, before);
      var parts := SerializeParts(utf8, Message(header, questions, answers, authorities, additionals));
      if parts.None? {
        return None;
      }
      var data := WriteParts(parts.value);
      return Some(data);
    }
  }
}
