/** The decision logic of the command-line tool (email.py): reading a
    template, settling the subject and body of the `send` command, and what
    `send_email` does with the access token and the mail service's answer.
    The token, the HTTP status, the clock readings, the configuration and
    the template files are parameters. */
module Mailer {
  import opened Results
  import opened Strings
  import opened Clock
  import EmailAudit

  /** The subject of a template that declares none. */
  const DEFAULT_SUBJECT: string := "CANONIC"

  /** The one status the mail service answers with when it accepts a send. */
  const ACCEPTED: int := 202

  datatype Template = Template(subject: string, body: string)

  /** `line.lower().startswith("subject:")`. Lower-casing only the ASCII
      letters decides this exactly: the only non-ASCII characters whose
      lower-case form starts with an ASCII letter are U+0130 (to `i`) and
      U+212A (to `k`), and neither letter occurs in `subject:`. */
  predicate HasSubjectHeader(line: string) {
    |line| >= 8 && LowerAscii(line[..8]) == "subject:"
  }

  /** A line has a header exactly when it starts with `subject:` spelt with
      each letter in either case. */
  lemma HasSubjectHeaderCases(line: string)
    ensures HasSubjectHeader(line) <==>
              && |line| >= 8
              && (line[0] == 's' || line[0] == 'S') && (line[1] == 'u' || line[1] == 'U')
              && (line[2] == 'b' || line[2] == 'B') && (line[3] == 'j' || line[3] == 'J')
              && (line[4] == 'e' || line[4] == 'E') && (line[5] == 'c' || line[5] == 'C')
              && (line[6] == 't' || line[6] == 'T') && line[7] == ':'
  {
    if |line| >= 8 {
      var w := line[..8];
      var low := LowerAscii(w);
      LowerCharMatch(w[0], 's', 'S');
      LowerCharMatch(w[1], 'u', 'U');
      LowerCharMatch(w[2], 'b', 'B');
      LowerCharMatch(w[3], 'j', 'J');
      LowerCharMatch(w[4], 'e', 'E');
      LowerCharMatch(w[5], 'c', 'C');
      LowerCharMatch(w[6], 't', 'T');
      LowerCharMatch(w[7], ':', ':');
      assert low == [low[0], low[1], low[2], low[3], low[4], low[5], low[6], low[7]];
    }
  }

  /** A character lower-cases to `lo` exactly when it is `lo` or its
      upper-case form `up`; a non-letter is its own upper-case form. */
  lemma LowerCharMatch(c: char, lo: char, up: char)
    requires ('a' <= lo <= 'z' && up as int == lo as int - 32) || (lo == up && !('A' <= lo <= 'z'))
    ensures (if 'A' <= c <= 'Z' then (c as int + 32) as char else c) == lo <==> c == lo || c == up
  {
  }

  /** A header line has its first colon right after `subject`, so the text
      after the first colon is everything from the ninth character on. */
  lemma HeaderColon(line: string)
    requires HasSubjectHeader(line)
    ensures ':' in line && Before(line, ':') == line[..7] && After(line, ':') == line[8..]
  {
    var low := LowerAscii(line[..8]);
    assert line[7] == ':' by {
      assert low[7] == ':';
    }
    assert forall i :: 0 <= i < 7 ==> line[i] != ':' by {
      forall i | 0 <= i < 7 ensures line[i] != ':' {
        assert low[i] != ':';
      }
    }
    assert |Before(line, ':')| == 7;
  }

  /** The index of the line the body starts on when a header is present:
      the second, or the third when the second holds only whitespace. */
  function BodyStart(lines: seq<string>): nat {
    if |lines| > 1 && Strip(lines[1]) == "" then 2 else 1
  }

  /** `load_template(name)` once the file's text has been read: an optional
      `Subject:` first line, then the body, with one blank line after the
      header skipped. */
  function LoadTemplate(content: string): (t: Template)
    ensures !HasSubjectHeader(Before(content, '\n')) ==> t == Template(DEFAULT_SUBJECT, content)
    ensures HasSubjectHeader(Before(content, '\n')) ==> t.subject == Strip(Before(content, '\n')[8..])
  {
    var lines := Split(content, '\n');
    if HasSubjectHeader(lines[0]) then
      HeaderColon(lines[0]);
      Template(Strip(After(lines[0], ':')), Join(lines[BodyStart(lines)..], '\n'))
    else
      JoinSplit(content, '\n');
      Template(DEFAULT_SUBJECT, Join(lines, '\n'))
  }

  /** Without a header the subject is the default and the body is the whole
      text, unchanged. */
  lemma LoadTemplateNoHeader(content: string)
    requires !HasSubjectHeader(Before(content, '\n'))
    ensures LoadTemplate(content) == Template(DEFAULT_SUBJECT, content)
  {
    JoinSplit(content, '\n');
  }

  lemma LoadTemplateEmpty()
    ensures LoadTemplate("") == Template("CANONIC", "")
  {
    LoadTemplateNoHeader("");
  }

  /** With a header the subject is the rest of the first line after
      `subject:`, stripped; colons later in the line stay in the subject. */
  lemma LoadTemplateSubject(content: string)
    requires HasSubjectHeader(Before(content, '\n'))
    ensures LoadTemplate(content).subject == Strip(Before(content, '\n')[8..])
  {
    HeaderColon(Before(content, '\n'));
  }

  /** With a header the body starts on the second line, or on the third when
      the second holds only whitespace; a header alone gives an empty body. */
  lemma LoadTemplateBody(content: string)
    requires HasSubjectHeader(Before(content, '\n'))
    ensures '\n' !in content ==> LoadTemplate(content).body == ""
    ensures '\n' in content ==>
              var rest := After(content, '\n');
              var second := Before(rest, '\n');
              LoadTemplate(content).body ==
                if !AllSpace(second) then rest
                else if '\n' in rest then After(rest, '\n')
                else ""
  {
    if '\n' !in content {
      HeaderBody(content);
    } else if !AllSpace(Before(After(content, '\n'), '\n')) {
      BodyAfterHeader(content);
    } else {
      BodyAfterBlankLine(content);
      JoinAfterFirst(After(content, '\n'));
    }
  }

  lemma BodyAfterHeader(content: string)
    requires HasSubjectHeader(Before(content, '\n')) && '\n' in content
    requires !AllSpace(Before(After(content, '\n'), '\n'))
    ensures LoadTemplate(content).body == After(content, '\n')
  {
    var lines := Split(content, '\n');
    var rest := After(content, '\n');
    HeaderBody(content);
    SplitAfterFirst(content, '\n');
    assert lines[1..] == Split(rest, '\n');
    assert BodyStart(lines) == 1;
    JoinSplit(rest, '\n');
  }

  lemma BodyAfterBlankLine(content: string)
    requires HasSubjectHeader(Before(content, '\n')) && '\n' in content
    requires AllSpace(Before(After(content, '\n'), '\n'))
    ensures var rest := After(content, '\n');
            LoadTemplate(content).body == Join(Split(rest, '\n')[1..], '\n')
  {
    var lines := Split(content, '\n');
    var rest := After(content, '\n');
    HeaderBody(content);
    SplitAfterFirst(content, '\n');
    assert lines[1..] == Split(rest, '\n');
    assert BodyStart(lines) == 2;
    assert lines[2..] == Split(rest, '\n')[1..];
  }

  lemma JoinAfterFirst(rest: string)
    ensures Join(Split(rest, '\n')[1..], '\n') == if '\n' in rest then After(rest, '\n') else ""
  {
    if '\n' in rest {
      SplitAfterFirst(rest, '\n');
      assert Split(rest, '\n')[1..] == Split(After(rest, '\n'), '\n');
      JoinSplit(After(rest, '\n'), '\n');
    }
  }

  lemma HeaderBody(content: string)
    requires HasSubjectHeader(Before(content, '\n'))
    ensures var lines := Split(content, '\n');
            LoadTemplate(content).body == Join(lines[BodyStart(lines)..], '\n')
  {
  }

  /** A template written as a `Subject:` header, a blank line and a body
      loads back as that subject and body. */
  lemma LoadTemplateRoundTrip(subject: string, body: string)
    requires '\n' !in subject
    requires subject == [] || (!IsSpace(subject[0]) && !IsSpace(subject[|subject| - 1]))
    ensures LoadTemplate("Subject: " + subject + "\n\n" + body) == Template(subject, body)
  {
    var content := "Subject: " + subject + "\n\n" + body;
    HeaderLineOf(subject, body);
    SubjectHeaderLine(subject);
    SubjectOfHeader(content, "Subject: " + subject);
    SubjectFieldStrips(subject);
    BodyAfterBlank(subject, body);
  }

  lemma HeaderLineOf(subject: string, body: string)
    requires '\n' !in subject
    ensures var content := "Subject: " + subject + "\n\n" + body;
            '\n' in content && Before(content, '\n') == "Subject: " + subject
            && After(content, '\n') == "\n" + body
  {
    var header := "Subject: " + subject;
    assert '\n' !in header;
    assert header + "\n\n" + body == header + ['\n'] + ("\n" + body);
    BeforeAfterCons(header, '\n', "\n" + body);
  }

  lemma SubjectOfHeader(content: string, header: string)
    requires HasSubjectHeader(header) && Before(content, '\n') == header
    ensures LoadTemplate(content).subject == Strip(header[8..])
  {
    LoadTemplateSubject(content);
  }

  lemma SubjectFieldStrips(subject: string)
    requires subject == [] || (!IsSpace(subject[0]) && !IsSpace(subject[|subject| - 1]))
    ensures Strip(("Subject: " + subject)[8..]) == subject
  {
    assert ("Subject: " + subject)[8..] == " " + subject;
    StripAfterSpace(subject);
  }

  lemma BodyAfterBlank(subject: string, body: string)
    requires '\n' !in subject
    ensures LoadTemplate("Subject: " + subject + "\n\n" + body).body == body
  {
    HeaderLineOf(subject, body);
    assert "\n" + body == [] + ['\n'] + body;
    BeforeAfterCons([], '\n', body);
    SubjectHeaderLine(subject);
    LoadTemplateBody("Subject: " + subject + "\n\n" + body);
  }

  lemma SubjectHeaderLine(subject: string)
    ensures HasSubjectHeader("Subject: " + subject)
  {
    assert ("Subject: " + subject)[..8] == "Subject:";
    LowerSubject();
  }

  lemma LowerSubject()
    ensures LowerAscii("Subject:") == "subject:"
  {
    assert "Subject:"[1..] == "ubject:";
  }

  /** `load_template(name)` against the templates directory, given as a map
      from template name to file text; `None` when the file does not exist. */
  function FindTemplate(templates: map<string, string>, name: string): (t: Option<Template>)
    ensures t.Some? <==> name in templates
    ensures t.Some? ==> t.value == LoadTemplate(templates[name])
  {
    if name in templates then Some(LoadTemplate(templates[name])) else None
  }

  /** A command-line value that Python treats as true: given and not empty. */
  predicate Given(arg: Option<string>) {
    arg.Some? && arg.value != ""
  }

  /** Python's `arg or fallback` on an optional string. */
  function OrElse(arg: Option<string>, fallback: string): Option<string> {
    if Given(arg) then arg else Some(fallback)
  }

  /** Why the `send` command stops before sending. */
  datatype Refusal = ConfigMissing | TemplateNotFound(name: string) | MissingContent

  datatype Resolution = Refused(why: Refusal) | Ready(subject: string, body: string)

  /** The configuration was loaded and is a non-empty dictionary. */
  predicate Configured(config: Option<map<string, string>>) {
    config.Some? && config.value != map[]
  }

  /** The `send` branch of `main` up to the call of `send_email`: refuse
      without a configuration, refuse a named template that does not exist,
      let a non-empty `--subject` or `--body` override the template, and
      refuse when the subject or the body ends up empty. */
  function ResolveSend(config: Option<map<string, string>>, subjectArg: Option<string>,
                       bodyArg: Option<string>, templateArg: Option<string>,
                       templates: map<string, string>): (r: Resolution)
    ensures !Configured(config) ==> r == Refused(ConfigMissing)
    ensures (Configured(config) && Given(templateArg) && templateArg.value !in templates)
              ==> r == Refused(TemplateNotFound(templateArg.value))
    ensures r.Ready? ==> r.subject != "" && r.body != ""
    ensures r.Ready? && Given(subjectArg) ==> r.subject == subjectArg.value
    ensures r.Ready? && Given(bodyArg) ==> r.body == bodyArg.value
    ensures r.Ready? && !Given(subjectArg) ==>
              Given(templateArg) && templateArg.value in templates
              && r.subject == LoadTemplate(templates[templateArg.value]).subject
    ensures r.Ready? && !Given(bodyArg) ==>
              Given(templateArg) && templateArg.value in templates
              && r.body == LoadTemplate(templates[templateArg.value]).body
    ensures Configured(config) && !Given(templateArg) ==>
              (r.Ready? <==> Given(subjectArg) && Given(bodyArg))
    ensures Configured(config) && Given(templateArg) && templateArg.value in templates ==>
              var t := LoadTemplate(templates[templateArg.value]);
              (r.Ready? <==> (Given(subjectArg) || t.subject != "") && (Given(bodyArg) || t.body != ""))
  {
    if !Configured(config) then Refused(ConfigMissing)
    else
      var found := if Given(templateArg) then FindTemplate(templates, templateArg.value) else None;
      if Given(templateArg) && found.None? then Refused(TemplateNotFound(templateArg.value))
      else
        var subject := if found.Some? then OrElse(subjectArg, found.value.subject) else subjectArg;
        var body := if found.Some? then OrElse(bodyArg, found.value.body) else bodyArg;
        if Given(subject) && Given(body) then Ready(subject.value, body.value)
        else Refused(MissingContent)
  }

  /** The Graph `sendMail` request: the bearer header, the plain-text
      message for one recipient, and the request to keep a copy in the
      sender's Sent folder. */
  datatype GraphRequest = GraphRequest(
    authorization: string, subject: string, contentType: string,
    content: string, recipient: string, saveToSentItems: bool)

  /** The record `send_email` writes; unlike the validator's record it has no
      validator name or version. */
  datatype SentRecord = SentRecord(
    timestamp: string, to: string, subject: string, status: string, outlook: bool)

  datatype SentLog = SentLog(name: string, record: SentRecord)

  /** What one call of `send_email` did: its return value, the request it
      posted (if any) and the log file it wrote (if any). */
  datatype SendOutcome = SendOutcome(delivered: bool, request: Option<GraphRequest>, log: Option<SentLog>)

  /** The file name `send_email` uses: stamp, `-`, the whole local part of
      the recipient (no truncation), `.json`. */
  function SentFileName(clock: DateTime, to: string): (name: string)
    ensures Stamp(clock) <= name
    ensures |name| >= 21 && name[15] == '-' && name[|name| - 5..] == ".json"
    ensures var p := name[16..|name| - 5];
              p <= to && '@' !in p && (|p| == |to| || to[|p|] == '@')
  {
    var name := Stamp(clock) + "-" + Before(to, '@') + ".json";
    assert name[16..|name| - 5] == Before(to, '@');
    name
  }

  /** `send_email(to, subject, body, config)`. `token` is what
      `get_access_token` returned, `status` the HTTP status of the post,
      `recordClock` and `nameClock` the two separate `datetime.utcnow()`
      readings for the record and for the file name. */
  function SendEmail(to: string, subject: string, body: string, token: Option<string>,
                     status: int, recordClock: DateTime, nameClock: DateTime): (r: SendOutcome)
    ensures r.request.Some? <==> Given(token)
    ensures r.request.Some? ==>
              r.request.value == GraphRequest("Bearer " + token.value, subject, "Text", body, to, true)
    ensures r.log.Some? <==> Given(token) && status == ACCEPTED
    ensures r.delivered <==> r.log.Some?
    ensures r.log.Some? ==>
              r.log.value.record == SentRecord(IsoFormat(recordClock) + "Z", to, subject, "sent", true)
    ensures r.log.Some? ==> r.log.value.name == SentFileName(nameClock, to)
  {
    if !Given(token) then SendOutcome(false, None, None)
    else
      var request := GraphRequest("Bearer " + token.value, subject, "Text", body, to, true);
      if status == ACCEPTED then
        var record := SentRecord(IsoFormat(recordClock) + "Z", to, subject, "sent", true);
        SendOutcome(true, Some(request), Some(SentLog(SentFileName(nameClock, to), record)))
      else
        SendOutcome(false, Some(request), None)
  }

  /** The whole `send` command: resolve, then send. */
  function RunSend(config: Option<map<string, string>>, to: string, subjectArg: Option<string>,
                   bodyArg: Option<string>, templateArg: Option<string>,
                   templates: map<string, string>, token: Option<string>, status: int,
                   recordClock: DateTime, nameClock: DateTime): (r: Result<SendOutcome, Refusal>)
    ensures r.Err? <==> ResolveSend(config, subjectArg, bodyArg, templateArg, templates).Refused?
  {
    match ResolveSend(config, subjectArg, bodyArg, templateArg, templates)
    case Refused(why) => Err(why)
    case Ready(subject, body) => Ok(SendEmail(to, subject, body, token, status, recordClock, nameClock))
  }

  /** A log file exists only after a configured command with a non-empty
      subject and body obtained a token and the service answered 202, and
      its record carries that subject. */
  lemma NoLogUnlessAccepted(config: Option<map<string, string>>, to: string,
                            subjectArg: Option<string>, bodyArg: Option<string>,
                            templateArg: Option<string>, templates: map<string, string>,
                            token: Option<string>, status: int,
                            recordClock: DateTime, nameClock: DateTime)
    requires var r := RunSend(config, to, subjectArg, bodyArg, templateArg, templates,
                              token, status, recordClock, nameClock);
             r.Ok? && r.value.log.Some?
    ensures Configured(config) && Given(token) && status == 202
    ensures var res := ResolveSend(config, subjectArg, bodyArg, templateArg, templates);
            var r := RunSend(config, to, subjectArg, bodyArg, templateArg, templates,
                             token, status, recordClock, nameClock);
            res.Ready? && r.value.log.value.record.subject == res.subject && res.subject != ""
            && r.value.log.value.record.to == to
  {
  }

  /** For a local part of at most twenty characters and one clock value both
      writers name the file alike; a longer local part makes the names
      differ, because only the validator truncates. */
  lemma SentNameVersusAuditName(clock: DateTime, to: string)
    ensures |Before(to, '@')| <= EmailAudit.PREFIX_LIMIT ==>
              SentFileName(clock, to) == EmailAudit.AuditFileName(clock, to)
    ensures |Before(to, '@')| > EmailAudit.PREFIX_LIMIT ==>
              |SentFileName(clock, to)| > |EmailAudit.AuditFileName(clock, to)|
  {
  }
}
