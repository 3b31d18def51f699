/** The `email.audit` send-gate validator and its audit-record builder
    (validators/email_audit.py). The module reads no clock and touches no
    file system: the current time, whether the audit directory exists and
    the ISO-8601 parser are parameters. */
module EmailAudit {
  import opened Results
  import opened Strings
  import opened Clock

  const VERSION: string := "1.0.0"
  const VALIDATOR_ID: string := "email.audit"

  /** A value of the context dictionary: Python's `None`, a string, or some
      other object, of which only its truthiness matters. Other objects have
      no `replace` method. */
  datatype Value = Null | Str(text: string) | NonString(truthy: bool)

  predicate Truthy(v: Value) {
    match v
    case Null => false
    case Str(s) => s != ""
    case NonString(b) => b
  }

  /** The send context: `to`, `subject`, `body`, `timestamp` and whatever
      else the caller put in the dictionary. */
  type Context = map<string, Value>

  datatype Status = Pass | Fail | Warn

  /** The validator's `{"status": ..., "reason": ...}` record. */
  datatype Verdict = Verdict(status: Status, reason: string)

  /** The fields checked for presence, in the order they are checked. */
  const REQUIRED: seq<string> := ["to", "subject", "timestamp"]

  const READY := Verdict(Pass, "Audit trail ready")
  const BAD_TIMESTAMP := Verdict(Fail, "Invalid timestamp format")
  const NO_DIRECTORY := Verdict(Fail, "Audit directory does not exist")

  function MissingField(name: string): Verdict {
    Verdict(Fail, "Missing required field: " + name)
  }

  /** A required field counts as present when its key exists and its value
      is truthy. */
  predicate Present(ctx: Context, field: string) {
    field in ctx && Truthy(ctx[field])
  }

  /** The index of the first field of `fields` that is not present, or
      `|fields|` when all are. */
  function FirstMissing(ctx: Context, fields: seq<string>): (k: nat)
    ensures k <= |fields|
    ensures forall j :: 0 <= j < k ==> Present(ctx, fields[j])
    ensures k < |fields| ==> !Present(ctx, fields[k])
  {
    if |fields| == 0 then 0
    else if !Present(ctx, fields[0]) then 0
    else 1 + FirstMissing(ctx, fields[1..])
  }

  /** `datetime.fromisoformat(v.replace("Z", "+00:00"))` succeeds: a
      non-string value fails on `replace` (the AttributeError branch). */
  predicate TimestampParses(v: Value, parses: string -> bool)
    ensures TimestampParses(v, parses) ==> v.Str?
    ensures v.Str? && 'Z' !in v.text ==> (TimestampParses(v, parses) <==> parses(v.text))
  {
    match v
    case Str(s) => parses(ReplaceAll(s, 'Z', "+00:00"))
    case _ => false
  }

  /** `validate(context)`. The rules run in order and the first failure
      decides: `to`, `subject` and `timestamp` present, then the timestamp
      parses, then the audit directory exists. `Warn` is never produced. */
  function Validate(ctx: Context, parses: string -> bool, auditDirExists: bool): (r: Verdict)
    ensures r.status != Warn
    ensures !Present(ctx, "to") ==> r == MissingField("to")
    ensures Present(ctx, "to") && !Present(ctx, "subject") ==> r == MissingField("subject")
    ensures (Present(ctx, "to") && Present(ctx, "subject") && !Present(ctx, "timestamp"))
              ==> r == MissingField("timestamp")
    ensures (Present(ctx, "to") && Present(ctx, "subject") && Present(ctx, "timestamp")
             && !TimestampParses(ctx["timestamp"], parses))
              ==> r == BAD_TIMESTAMP
    ensures (Present(ctx, "to") && Present(ctx, "subject") && Present(ctx, "timestamp")
             && TimestampParses(ctx["timestamp"], parses) && !auditDirExists)
              ==> r == NO_DIRECTORY
    ensures r.status == Pass <==>
              (Present(ctx, "to") && Present(ctx, "subject") && Present(ctx, "timestamp")
               && TimestampParses(ctx["timestamp"], parses) && auditDirExists)
    ensures r.status == Pass ==> r == READY
  {
    var k := FirstMissing(ctx, REQUIRED);
    assert REQUIRED[0] == "to" && REQUIRED[1] == "subject" && REQUIRED[2] == "timestamp";
    assert k == 0 <==> !Present(ctx, "to");
    assert k == 1 <==> Present(ctx, "to") && !Present(ctx, "subject");
    assert k == 2 <==> Present(ctx, "to") && Present(ctx, "subject") && !Present(ctx, "timestamp");
    if k < |REQUIRED| then MissingField(REQUIRED[k])
    else if !TimestampParses(ctx["timestamp"], parses) then BAD_TIMESTAMP
    else if !auditDirExists then NO_DIRECTORY
    else READY
  }

  /** A missing recipient is reported even when the timestamp is malformed
      and the audit directory is absent: field checks come first. */
  lemma FieldCheckBeforeTimestamp(ctx: Context, parses: string -> bool, auditDirExists: bool)
    requires "to" !in ctx || ctx["to"] == Str("")
    ensures Validate(ctx, parses, auditDirExists) == MissingField("to")
  {
  }

  /** The verdict depends on nothing but the `to`, `subject` and `timestamp`
      entries, the parser's answer on the rewritten timestamp and the
      directory bit: other keys, such as `body`, never change it. */
  lemma ValidateLocal(ctx1: Context, ctx2: Context, parses1: string -> bool,
                      parses2: string -> bool, auditDirExists: bool)
    requires forall f :: f in REQUIRED ==> (f in ctx1 <==> f in ctx2)
    requires forall f :: f in REQUIRED && f in ctx1 ==> ctx1[f] == ctx2[f]
    requires "timestamp" in ctx1 && ctx1["timestamp"].Str? ==>
               var z := ReplaceAll(ctx1["timestamp"].text, 'Z', "+00:00");
               parses1(z) == parses2(z)
    ensures Validate(ctx1, parses1, auditDirExists) == Validate(ctx2, parses2, auditDirExists)
  {
    assert "to" in REQUIRED && "subject" in REQUIRED && "timestamp" in REQUIRED;
  }

  /** A complete context with a `Z`-suffixed UTC timestamp passes when the
      directory exists. */
  lemma ScenarioPass(ctx: Context)
    requires ctx == map["to" := Str("a@b.com"), "subject" := Str("Hi"),
                        "timestamp" := Str("2024-01-01T00:00:00Z")]
    ensures Validate(ctx, IsoParses, true) == READY
  {
    ScenarioFieldsPresent(ctx);
    ScenarioTimestampRule(ctx);
  }

  lemma ScenarioFieldsPresent(ctx: Context)
    requires ctx == map["to" := Str("a@b.com"), "subject" := Str("Hi"),
                        "timestamp" := Str("2024-01-01T00:00:00Z")]
    ensures Present(ctx, "to") && Present(ctx, "subject") && Present(ctx, "timestamp")
  {
  }

  lemma ScenarioTimestampRule(ctx: Context)
    requires ctx == map["to" := Str("a@b.com"), "subject" := Str("Hi"),
                        "timestamp" := Str("2024-01-01T00:00:00Z")]
    ensures TimestampParses(ctx["timestamp"], IsoParses)
  {
    ScenarioTimestampParses();
  }

  lemma ScenarioTimestampParses()
    ensures TimestampParses(Str("2024-01-01T00:00:00Z"), IsoParses)
  {
    ExampleIsoFormat();
    UtcTimestampParses(DateTime(2024, 1, 1, 0, 0, 0, 0));
  }

  /** The same context with an empty recipient fails on the recipient. */
  lemma ScenarioEmptyRecipient(ctx: Context, parses: string -> bool, auditDirExists: bool)
    requires ctx == map["to" := Str(""), "subject" := Str("Hi"),
                        "timestamp" := Str("2024-01-01T00:00:00Z")]
    ensures Validate(ctx, parses, auditDirExists) == Verdict(Fail, "Missing required field: to")
  {
    assert !Present(ctx, "to");
  }

  /** A `Z`-suffixed `isoformat()` rendering of a real clock value passes the
      timestamp rule of the concrete parser. */
  lemma UtcTimestampParses(t: DateTime)
    requires Valid(t)
    ensures TimestampParses(Str(IsoFormat(t) + "Z"), IsoParses)
  {
    var iso := IsoFormat(t);
    ReplaceAllAppend(iso, "Z", 'Z', "+00:00");
    assert ReplaceAll("Z", 'Z', "+00:00") == "+00:00" by {
      assert "Z"[1..] == "";
    }
    IsoRoundTrip(t);
  }

  lemma ExampleYear()
    ensures Pad(2024, 4) == "2024"
  {
    assert Pad(2, 1) == "2";
    assert Pad(20, 2) == "20";
  }

  lemma ExampleDate()
    ensures DatePart(DateTime(2024, 1, 1, 0, 0, 0, 0)) == "2024-01-01"
  {
    ExampleYear();
    assert Pad(1, 2) == "01";
  }

  lemma ExampleClock()
    ensures ClockPart(DateTime(2024, 1, 1, 0, 0, 0, 0)) == "00:00:00"
  {
    assert Pad(0, 2) == "00";
  }

  lemma ExampleIsoFormat()
    ensures "2024-01-01T00:00:00Z" == IsoFormat(DateTime(2024, 1, 1, 0, 0, 0, 0)) + "Z"
  {
    ExampleDate();
    ExampleClock();
  }

  /** The fixed-schema record `log_send` writes. `to` is the recipient string
      and `subject` whatever value the context held. */
  datatype AuditEntry = AuditEntry(
    validator: string, version: string, timestamp: string,
    to: string, subject: Value, status: string, outlook: bool)

  /** A written log file: its name inside the audit directory and its record. */
  datatype AuditFile = AuditFile(name: string, entry: AuditEntry)

  /** The exceptions `log_send` can raise before writing: a missing key
      (KeyError) or a recipient that is not a string (no `split`). */
  datatype LogError = MissingKey(key: string) | NotAString(key: string)

  /** At most this many characters of the recipient's local part go into a
      file name. */
  const PREFIX_LIMIT: nat := 20

  /** `to.split("@")[0][:20]`. */
  function RecipientPrefix(to: string): (p: string)
    ensures p <= to && '@' !in p && |p| <= PREFIX_LIMIT
    ensures |p| == PREFIX_LIMIT || |p| == |to| || to[|p|] == '@'
  {
    var local := Before(to, '@');
    if |local| <= PREFIX_LIMIT then local else local[..PREFIX_LIMIT]
  }

  /** The file name `log_send` derives from the clock value and recipient. */
  function AuditFileName(now: DateTime, to: string): (name: string)
    ensures Stamp(now) <= name
    ensures |name| >= 21 && name[15] == '-' && name[|name| - 5..] == ".json"
    ensures name[16..|name| - 5] == RecipientPrefix(to)
  {
    var name := Stamp(now) + "-" + RecipientPrefix(to) + ".json";
    assert name[16..|name| - 5] == RecipientPrefix(to);
    name
  }

  /** `log_send(context, sent_dir)` with `now` the value `datetime.utcnow()`
      returned: the record and the name of the file it is written to. One
      clock reading serves both the record and the name. */
  function LogSend(ctx: Context, now: DateTime): (r: Result<AuditFile, LogError>)
    ensures "to" !in ctx ==> r == Err(MissingKey("to"))
    ensures "to" in ctx && "subject" !in ctx ==> r == Err(MissingKey("subject"))
    ensures "to" in ctx && "subject" in ctx && !ctx["to"].Str? ==> r == Err(NotAString("to"))
    ensures r.Ok? <==> "to" in ctx && "subject" in ctx && ctx["to"].Str?
    ensures r.Ok? ==>
              && r.value.entry.validator == "email.audit"
              && r.value.entry.version == "1.0.0"
              && r.value.entry.status == "sent"
              && r.value.entry.outlook
              && r.value.entry.to == ctx["to"].text
              && r.value.entry.subject == ctx["subject"]
              && r.value.entry.timestamp == IsoFormat(now) + "Z"
    ensures r.Ok? ==> r.value.name == AuditFileName(now, ctx["to"].text)
  {
    if "to" !in ctx then Err(MissingKey("to"))
    else if "subject" !in ctx then Err(MissingKey("subject"))
    else if !ctx["to"].Str? then Err(NotAString("to"))
    else
      var to := ctx["to"].text;
      var entry := AuditEntry(VALIDATOR_ID, VERSION, IsoFormat(now) + "Z", to,
        ctx["subject"], "sent", true);
      Ok(AuditFile(AuditFileName(now, to), entry))
  }

  /** Distinct audit files within one second need distinct recipient
      prefixes: equal names mean the same second and the same prefix. */
  lemma AuditFileNameInjective(a: DateTime, b: DateTime, toA: string, toB: string)
    requires Valid(a) && Valid(b)
    ensures AuditFileName(a, toA) == AuditFileName(b, toB) <==>
              SameSecond(a, b) && RecipientPrefix(toA) == RecipientPrefix(toB)
  {
    var na := AuditFileName(a, toA);
    var nb := AuditFileName(b, toB);
    if na == nb {
      assert na[..15] == Stamp(a) && nb[..15] == Stamp(b);
      assert na[16..|na| - 5] == RecipientPrefix(toA);
      assert nb[16..|nb| - 5] == RecipientPrefix(toB);
    }
    StampInjective(a, b);
  }

  /** Two recipients whose local parts agree on their first twenty
      characters share a file name within the same second: the truncation
      makes the name unique per second only up to that prefix. */
  lemma AuditFileNameCollision(now: DateTime, toA: string, toB: string)
    requires |Before(toA, '@')| >= PREFIX_LIMIT && |Before(toB, '@')| >= PREFIX_LIMIT
    requires toA[..PREFIX_LIMIT] == toB[..PREFIX_LIMIT]
    ensures AuditFileName(now, toA) == AuditFileName(now, toB)
  {
    var la := Before(toA, '@');
    var lb := Before(toB, '@');
    assert RecipientPrefix(toA) == la[..PREFIX_LIMIT] == toA[..PREFIX_LIMIT];
    assert RecipientPrefix(toB) == lb[..PREFIX_LIMIT] == toB[..PREFIX_LIMIT];
  }

  /** The record `log_send` writes passes the validator's timestamp rule: its
      `Z`-suffixed `isoformat()` rendering parses once `Z` becomes
      `+00:00`. So a context carrying a recorded timestamp, a recipient and a
      subject passes the gate whenever the audit directory exists. */
  lemma RecordedTimestampPasses(ctx: Context, now: DateTime, f: AuditFile)
    requires Valid(now)
    requires LogSend(ctx, now) == Ok(f)
    requires Present(ctx, "to") && Present(ctx, "subject")
    ensures Validate(ctx["timestamp" := Str(f.entry.timestamp)], IsoParses, true) == READY
  {
    UtcTimestampParses(now);
    var ctx' := ctx["timestamp" := Str(f.entry.timestamp)];
    assert Present(ctx', "to") && Present(ctx', "subject") && Present(ctx', "timestamp");
    assert TimestampParses(ctx'["timestamp"], IsoParses);
  }
}
