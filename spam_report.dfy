/**
 * The record-building loop of `extract_emails` in Gmail_access.py: for each
 * fetched message, in the order of the message ids, parse the Date header's
 * year, keep only messages of 2024, decode the subject, pick the body, classify
 * it and append a `{Subject, From, Date, Spam Status}` record.
 *
 * Fetching over IMAP and MIME parsing are not modelled: the messages arrive
 * already parsed into headers and content. The library routines the loop calls
 * are the fields of `Collaborators`, each a deterministic function.
 */
module SpamReport {
  import opened Options
  import opened MimeBody

  /** The only year whose messages are reported. */
  const TargetYear: int := 2024

  const SpamLabel: string := "Spam"
  const NotSpamLabel: string := "Not Spam"

  /** A fetched message: the raw Date, Subject and From headers (None when the
      header is absent) and its content. */
  datatype Message = Message(date: Option<string>, subject: Option<string>, from: Option<string>, content: Content)

  /** One row of the report: Subject, From, Date and Spam Status. */
  datatype Record = Record(subject: string, from: Option<string>, date: string, spamStatus: string)

  /** Why processing a message raised an exception that ends the whole run. */
  datatype Fault =
    | MissingDate         // `strptime(None, ...)` raises TypeError, which is not caught
    | MissingSubject      // `decode_header(None)` raises TypeError
    | UndecodableSubject  // the subject's bytes do not decode in their declared charset

  /** The position in the id list of the message that ended the run, and why. */
  datatype Failure = Failure(index: nat, fault: Fault)

  /** The library routines the loop calls:
      - parseYear: `datetime.strptime(date, "%a, %d %b %Y %H:%M:%S %z").year`, None on ValueError;
      - decodeSubject: `decode_header(subject)[0]` then, for bytes, `.decode(charset or "utf-8")`,
        None when either raises (a malformed encoded word, an unknown charset, bytes
        that are invalid in the charset);
      - decodePayload: `.decode('utf-8', errors='ignore')` of a part's payload;
      - predict: `predict_spam(model, vectorizer, body)`, the class label the model outputs. */
  datatype Collaborators = Collaborators(
    parseYear: string -> Option<int>,
    decodeSubject: string -> Option<string>,
    decodePayload: Bytes -> string,
    predict: string -> int)

  /** `"Spam" if is_spam else "Not Spam"`: a numeric label is truthy when nonzero. */
  function SpamStatus(prediction: int): (status: string)
    ensures status == SpamLabel <==> prediction != 0
    ensures status == NotSpamLabel <==> prediction == 0
  {
    if prediction != 0 then SpamLabel else NotSpamLabel
  }

  /** What one iteration of the loop does with a message: raise, skip it, or
      produce its record. */
  function Step(m: Message, env: Collaborators): Result<Option<Record>, Fault> {
    match m.date
    case None => Err(MissingDate)
    case Some(date) =>
      if env.parseYear(date) != Some(TargetYear) then Ok(None)
      else match m.subject
        case None => Err(MissingSubject)
        case Some(raw) =>
          match env.decodeSubject(raw)
          case None => Err(UndecodableSubject)
          case Some(subject) =>
            var body := MessageBody(m.content, env.decodePayload);
            Ok(Some(Record(subject, m.from, date, SpamStatus(env.predict(body)))))
  }

  /** The records one message contributes: its record, or nothing. */
  function Output(m: Message, env: Collaborators): seq<Record> {
    match Step(m, env)
    case Ok(Some(record)) => [record]
    case _ => []
  }

  /** The report as a filter and a map over the messages, in their order. */
  function Emitted(msgs: seq<Message>, env: Collaborators): seq<Record> {
    if |msgs| == 0 then [] else Output(msgs[0], env) + Emitted(msgs[1..], env)
  }

  /** No message of `msgs` makes its iteration raise. */
  predicate Completes(msgs: seq<Message>, env: Collaborators) {
    forall i :: 0 <= i < |msgs| ==> Step(msgs[i], env).Ok?
  }

  /** `Emitted` of a concatenation is the concatenation of the `Emitted` parts:
      records keep the order of the messages they come from. */
  lemma {:induction false} EmittedAppend(a: seq<Message>, b: seq<Message>, env: Collaborators)
    ensures Emitted(a + b, env) == Emitted(a, env) + Emitted(b, env)
  {
    if |a| == 0 {
      assert a + b == b;
    } else {
      assert (a + b)[1..] == a[1..] + b;
      EmittedAppend(a[1..], b, env);
    }
  }

  /** There are never more records than messages. */
  lemma {:induction false} EmittedLength(msgs: seq<Message>, env: Collaborators)
    ensures |Emitted(msgs, env)| <= |msgs|
  {
    if |msgs| > 0 {
      EmittedLength(msgs[1..], env);
    }
  }

  /** A message whose Date is present but does not parse to 2024 (an unparsable
      date included) contributes no record, wherever it stands. */
  lemma OtherYearEmitsNothing(before: seq<Message>, m: Message, after: seq<Message>, env: Collaborators)
    requires m.date.Some? && env.parseYear(m.date.value) != Some(TargetYear)
    ensures Emitted(before + [m] + after, env) == Emitted(before + after, env)
  {
    assert Emitted([m], env) == [];
    EmittedAppend(before + [m], after, env);
    EmittedAppend(before, [m], env);
    EmittedAppend(before, after, env);
  }

  /** A message yields a record exactly when its Date parses to 2024 and its
      subject decodes, and the record then carries the raw Date and From headers,
      the decoded subject and the label of its body. */
  lemma OutputCharacterised(m: Message, env: Collaborators)
    ensures |Output(m, env)| == 1 <==>
      m.date.Some? && env.parseYear(m.date.value) == Some(TargetYear) &&
      m.subject.Some? && env.decodeSubject(m.subject.value).Some?
    ensures |Output(m, env)| == 1 ==>
      Output(m, env)[0] == Record(env.decodeSubject(m.subject.value).value, m.from, m.date.value,
                                  SpamStatus(env.predict(MessageBody(m.content, env.decodePayload))))
    ensures |Output(m, env)| <= 1
  {
  }

  /** Exactly which messages make their iteration raise, and with which fault:
      the Date header is tested first, the Subject only for a message of 2024. */
  lemma StepFaults(m: Message, env: Collaborators)
    ensures Step(m, env) == Err(MissingDate) <==> m.date.None?
    ensures Step(m, env) == Err(MissingSubject) <==>
      m.date.Some? && env.parseYear(m.date.value) == Some(TargetYear) && m.subject.None?
    ensures Step(m, env) == Err(UndecodableSubject) <==>
      m.date.Some? && env.parseYear(m.date.value) == Some(TargetYear) &&
      m.subject.Some? && env.decodeSubject(m.subject.value).None?
    ensures Step(m, env).Ok? <==>
      m.date.Some? && (env.parseYear(m.date.value) == Some(TargetYear) ==>
        m.subject.Some? && env.decodeSubject(m.subject.value).Some?)
  {
  }

  /** `record` is the record of message `m`: the message is dated 2024, and the
      record holds its decoded subject, its raw From and Date headers and the
      label of its body. */
  ghost predicate IsRecordOf(record: Record, m: Message, env: Collaborators) {
    && m.date == Some(record.date)
    && env.parseYear(record.date) == Some(TargetYear)
    && m.subject.Some? && env.decodeSubject(m.subject.value) == Some(record.subject)
    && record.from == m.from
    && record.spamStatus == SpamStatus(env.predict(MessageBody(m.content, env.decodePayload)))
  }

  /** Every record is the record of some message. */
  lemma {:induction false} EmittedOrigin(msgs: seq<Message>, env: Collaborators, k: nat)
    requires k < |Emitted(msgs, env)|
    ensures exists j :: 0 <= j < |msgs| && IsRecordOf(Emitted(msgs, env)[k], msgs[j], env)
  {
    var first := Output(msgs[0], env);
    OutputCharacterised(msgs[0], env);
    if k < |first| {
      assert Emitted(msgs, env)[k] == first[0];
      assert IsRecordOf(first[0], msgs[0], env);
    } else {
      EmittedOrigin(msgs[1..], env, k - |first|);
      var j :| 0 <= j < |msgs[1..]| && IsRecordOf(Emitted(msgs[1..], env)[k - |first|], msgs[1..][j], env);
      assert Emitted(msgs, env)[k] == Emitted(msgs[1..], env)[k - |first|];
      assert msgs[j + 1] == msgs[1..][j];
    }
  }

  /** The loop of `extract_emails`. It either returns every record, or ends at
      the first message whose processing raises. */
  method ExtractEmails(msgs: seq<Message>, env: Collaborators) returns (r: Result<seq<Record>, Failure>)
    ensures r.Ok? <==> Completes(msgs, env)
    ensures r.Ok? ==> r.value == Emitted(msgs, env)
    ensures r.Err? ==> r.error.index < |msgs| && Step(msgs[r.error.index], env) == Err(r.error.fault)
    ensures r.Err? ==> Completes(msgs[..r.error.index], env)
  {
    var records: seq<Record> := [];
    for i := 0 to |msgs|
      invariant Completes(msgs[..i], env)
      invariant records == Emitted(msgs[..i], env)
    {
      var msg := msgs[i];
      assert msgs[..i + 1] == msgs[..i] + [msg];
      EmittedAppend(msgs[..i], [msg], env);
      assert Emitted([msg], env) == Output(msg, env);

      if msg.date.None? {
        return Err(Failure(i, MissingDate));
      }
      var date := msg.date.value;
      var year := env.parseYear(date);
      if year != Some(TargetYear) {
        continue;
      }

      if msg.subject.None? {
        return Err(Failure(i, MissingSubject));
      }
      var subject := env.decodeSubject(msg.subject.value);
      if subject.None? {
        return Err(Failure(i, UndecodableSubject));
      }
      var from := msg.from;

      var body := ExtractBody(msg.content, env.decodePayload);
      var status := SpamStatus(env.predict(body));
      records := records + [Record(subject.value, from, date, status)];
    }
    assert msgs[..|msgs|] == msgs;
    r := Ok(records);
  }
}
