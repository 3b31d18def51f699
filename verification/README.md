# CANONIC email: audit validator and send logic

A Dafny model of two pieces of the CANONIC command-line mailer.

- **The `email.audit` validator** (`validators/email_audit.py`):
  - `validate(context)` is the send gate. It checks that `to`, `subject` and `timestamp` are present and truthy, then that the timestamp parses as ISO 8601 once a `Z` is rewritten to `+00:00`, then that the audit directory exists. The first failing rule decides the verdict.
  - `log_send(context, sent_dir)` builds the fixed-schema audit record. It also builds the record's file name: a UTC stamp `YYYYMMDD-HHMMSS`, `-`, the recipient's local part cut to 20 characters, and `.json`.
  - The constants are `VERSION = "1.0.0"` and `VALIDATOR_ID = "email.audit"`.
- **The decision logic of `email.py`:**
  - `load_template` parses an optional `Subject:` header line, then skips one blank line.
  - The `send` branch of `main` settles the subject and body. A given `--subject` or `--body` overrides the template. The command refuses when the configuration or content is missing.
  - `send_email` decides what happens from the access token and the HTTP status. It posts only with a token, and logs and reports success only on status 202. The log file name keeps the whole local part of the recipient.
  - `view_log` lists `*.json` names in descending order and shows at most 20 of them.

Files:

| file | module | contents |
|---|---|---|
| `results.dfy` | `Results` | `Option` and `Result` |
| `strings.dfy` | `Strings` | the Python `str` behaviour used: `split`/`join` on one character, `strip()`, `replace`, ASCII lower-casing, and code-point order |
| `clock.dfy` | `Clock` | `datetime` values; `isoformat()`, the `strftime('%Y%m%d-%H%M%S')` stamp, and a parser for a subset of `fromisoformat` |
| `email_audit.dfy` | `EmailAudit` | `validate`, `log_send`, and the two file-name properties |
| `mailer.dfy` | `Mailer` | `load_template`, send resolution, `send_email`, and the whole `send` command |
| `log_view.dfy` | `LogView` | the selection and order of the history listing |

The model reads no clocks, files or network. These are all parameters:

- the `datetime.utcnow()` readings (`email.py` takes two separate readings);
- whether the audit directory exists;
- the ISO parser that `validate` uses;
- the template files, as a map from name to text;
- the loaded configuration;
- the access token and the HTTP status;
- the directory listing.

## Model

| member | source | states |
|---|---|---|
| EmailAudit.TimestampParses | validators/email_audit.py:32-35 | only a string can pass; a string without `Z` passes exactly when the parser accepts it as it is |
| EmailAudit.FirstMissing | validators/email_audit.py:26-29 | the required fields before the returned index are all present and truthy, and the field at the index (if any) is not |
| EmailAudit.Validate | validators/email_audit.py:18-42 | rules in source order, first failure wins: a missing `to`, then `subject`, then `timestamp`, each with its reason; then an unparsable timestamp; then a missing directory. Pass holds exactly when every rule passes, and always carries "Audit trail ready". `warn` is never returned |
| EmailAudit.FieldCheckBeforeTimestamp | validators/email_audit.py:26-35 | an absent or empty recipient is reported as missing whatever the timestamp and directory are |
| EmailAudit.ValidateLocal | validators/email_audit.py:18-42 | the verdict depends only on the three required entries, on the parser's answer for the rewritten timestamp, and on the directory bit; any other key such as `body` is irrelevant |
| EmailAudit.ScenarioPass | validators/email_audit.py:26-42 | `{to:"a@b.com", subject:"Hi", timestamp:"2024-01-01T00:00:00Z"}` passes with the concrete ISO parser when the directory exists |
| EmailAudit.ScenarioEmptyRecipient | validators/email_audit.py:27-29 | the same context with `to:""` fails with "Missing required field: to" |
| EmailAudit.UtcTimestampParses | validators/email_audit.py:32-35 | a `Z`-suffixed `isoformat()` of any real date and time passes the timestamp rule |
| EmailAudit.RecipientPrefix | validators/email_audit.py:58 | the prefix is a prefix of the recipient, holds no `@` and has at most 20 characters; it ends at the first `@`, at the end of the text, or at the 20-character limit |
| EmailAudit.AuditFileName | validators/email_audit.py:58-59 | the name is the stamp, `-`, the recipient prefix, and `.json` |
| EmailAudit.LogSend | validators/email_audit.py:45-62 | a KeyError on `to`, then on `subject`, and a non-string recipient are the only failures, in that order. The record has the fixed validator, version, status and outlook fields, the copied `to` and `subject`, and the time as `isoformat()+"Z"`. The name is `AuditFileName` of the same clock reading and the recipient |
| EmailAudit.AuditFileNameInjective | validators/email_audit.py:58-59 | two audit names are equal exactly when the clock readings fall in the same second and the recipient prefixes are equal |
| EmailAudit.AuditFileNameCollision | validators/email_audit.py:58-59 | recipients whose local parts share their first 20 characters get the same name within one second |
| EmailAudit.RecordedTimestampPasses | validators/email_audit.py:32-56 | putting the timestamp `log_send` recorded back into a context with a recipient and a subject makes it pass the gate whenever the directory exists |
| Clock.IsoFormat | validators/email_audit.py:51 | `isoformat()` has 19 characters, or 26 when the microseconds are non-zero, and never contains `Z` |
| Clock.IsoRoundTrip | validators/email_audit.py:33 | the parser reads back an `isoformat()` rendering as the same clock value, with or without a `+00:00` suffix |
| Clock.Stamp | validators/email_audit.py:59 | `strftime('%Y%m%d-%H%M%S')` gives fifteen characters: eight digits, `-`, six digits |
| Clock.StampRoundTrip | validators/email_audit.py:59 | a stamp parses back to its clock value with the microseconds dropped |
| Clock.StampInjective | validators/email_audit.py:59 | equal stamps means the same second |
| Clock.StampOrder | email.py:195 | stamps compare in string order exactly as their clock values compare in time, at one-second resolution |
| Strings.ReplaceAll | validators/email_audit.py:33 | after replacing `Z` by `+00:00` no `Z` remains, and text without `Z` is unchanged |
| Strings.ReplaceAllOne | validators/email_audit.py:33 | a single character becomes the replacement exactly when it is the pattern; with `ReplaceAllAppend` this fixes the result for every text |
| Strings.Strip | email.py:172-174 | the result is a contiguous piece of the text with only whitespace before and after it; it neither starts nor ends with whitespace; it is empty exactly when the text is all whitespace; already-stripped text is unchanged |
| Strings.Split | email.py:167 | at least one piece and no separator inside any piece; one piece exactly when the separator is absent; the first piece is the longest separator-free prefix |
| Strings.JoinSplit | email.py:167-177 | joining the lines of a split restores the text |
| Strings.SplitJoin | email.py:167-177 | splitting separator-free pieces after joining them restores the pieces |
| Mailer.HasSubjectHeaderCases | email.py:171 | a line has a header exactly when its first eight characters spell `subject:` with each letter in either case |
| Mailer.HeaderColon | email.py:171-172 | on a header line the first colon is the eighth character, so the subject text starts at the ninth |
| Mailer.LoadTemplate | email.py:166-178 | without a header the template is ("CANONIC", the whole text); with one the subject is the first line after `subject:`, stripped |
| Mailer.LoadTemplateNoHeader | email.py:166-178 | without a `subject:` first line the subject is "CANONIC" and the body is the whole text unchanged |
| Mailer.LoadTemplateEmpty | email.py:166-178 | an empty template gives ("CANONIC", "") |
| Mailer.LoadTemplateSubject | email.py:171-172 | with a header the subject is the first line after `subject:`, stripped; later colons stay |
| Mailer.LoadTemplateBody | email.py:173-177 | with a header the body is everything after the first line. When the second line is only whitespace, the body is everything after the second line. A template that is one line gives an empty body |
| Mailer.LoadTemplateRoundTrip | email.py:159-178 | `"Subject: " + s + "\n\n" + b` loads as (s, b) for any one-line stripped subject s and any body b |
| Mailer.FindTemplate | email.py:159-178 | a template is found exactly when a file of that name exists, and it is that file's text parsed by `LoadTemplate` |
| Mailer.ResolveSend | email.py:302-320 | no configuration is refused first, then a missing template. A non-empty `--subject`/`--body` overrides the template's field. Otherwise the field comes from the template. The command is ready exactly when both the subject and the body end up non-empty |
| Mailer.SentFileName | email.py:143 | the name is the stamp, `-`, the local part up to the first `@` with no length limit, and `.json` |
| Mailer.SendEmail | email.py:105-156 | a request is posted exactly when a token was obtained, with bearer header, plain-text body, recipient and sent-items copy. A log is written exactly when the status is 202, and only then is the send reported as delivered. The record carries the first clock reading and the name is `SentFileName` of the second reading and the recipient |
| Mailer.RunSend | email.py:302-323 | the command fails before sending exactly when the resolution refuses |
| Mailer.NoLogUnlessAccepted | email.py:302-323 | a written log implies configuration, token and status 202, and its record carries the resolved non-empty subject and the recipient |
| Mailer.SentNameVersusAuditName | email.py:143 | with a local part of at most 20 characters the mailer and the validator produce the same name; with a longer one the mailer's name is longer |
| LogView.LogNames | email.py:195 | exactly the listing entries matching `*.json` (ending in `.json`, hidden names included) are kept, each as many times as the listing holds it |
| LogView.SortDescending | email.py:195 | the sorted list is a permutation of its input |
| LogView.SortDescendingSorted | email.py:195 | the sorted list is in descending string order |
| LogView.ViewLog | email.py:195-201 | at most 20 entries, fewer only when fewer log files exist; every shown name is a log file in the listing, each as often as it occurs |
| LogView.ViewLogHiddenName | email.py:195-201 | a listing holding only `.a.json` shows that file |
| LogView.ViewLogDescending | email.py:195-201 | the shown names are in descending order |
| LogView.ViewLogGreatest | email.py:195-201 | any log file that sorts after a shown one is shown too |
| LogView.ViewLogNewestFirst | email.py:195-201 | of two shown names that begin with stamps, the earlier shown never carries the earlier second |

## Left out

- Authentication (`get_msal_app`, `get_access_token`, `logout`, and `auth.py`): the token is a parameter. The model covers only whether a token was obtained, which is when it is non-empty.
- The HTTP post to Microsoft Graph: its status code is a parameter. The request body is modelled as a `GraphRequest` value, and its JSON encoding is not.
- File system effects: writing the JSON records, `json.dumps` formatting, `ensure_dirs`, and loading and saving the configuration. Reading the template file, including the universal-newline translation of `read_text()`: the template's text is the input.
- `setup`, `list_templates`, argument parsing, and every `print`. For `view_log` that includes the reading of each record and the per-line slicing of its fields. The model covers which files are shown and in what order.
- The link between the validator and the mailer. `email.py` never calls `validate` or `log_send`, so the model does not connect them either. Two lemmas only relate their outputs: the recorded timestamp passes the gate, and both writers name a file alike.
- Clock.ParseIso: a documented subset of `datetime.fromisoformat`. It accepts `YYYY-MM-DD`, or that date followed by `T`, `HH:MM:SS[.ffffff]` and an optional `+00:00`, with real calendar ranges. `Validate` itself takes any parser as a parameter. The lemmas that use the concrete parser only claim acceptance of such strings.
- EmailAudit.TimestampParses: a non-string timestamp is treated as a parse failure. That is right for values without `replace` (AttributeError). A `bytes` or a `datetime` value has a `replace` method that rejects these arguments with a TypeError, which the source does not catch; the model does not produce that exception.
- EmailAudit.LogSend: a subject that `json.dumps` cannot serialize is not modelled as an error. Nor is a failing `write_text`: a recipient such as `a/b@example.com` yields the name `…-a/b.json`, which points into a missing subdirectory, so the write raises and no record exists.
- Mailer.SendEmail: the file write is assumed to succeed. After a 202, a failing `write_text` (email.py:143-144) raises out of `send_email`: the mail is sent, no log exists and `True` is never returned. A recipient such as `a/b@example.com` triggers this, because the name `…-a/b.json` points into a missing subdirectory of `sent/`. The contract's "a log is written exactly on 202" holds only for writes that succeed.
- Clock.Stamp: the year is zero-padded to four digits. glibc's `%Y` leaves years below 1000 unpadded.
- Mailer.Configured: `not config` is modelled for a missing or empty mapping. Other falsy JSON values in `config.json` are not distinguished.
- `validate`'s directory check uses the directory next to the validator package (`Path(__file__).parent.parent / "sent"`). The model reduces it to a boolean.
- `view_log` sorts `Path` objects. Within one directory their order is the order of the file names, which is what the model sorts.

Where the source's own comments promise more than its code does, the model follows the code:

- The validator's docstring (validators/email_audit.py:5-7) names the trigger `before_send` and says every email must be logged before transmission. In `email.py` nothing calls `validate` or `log_send`, and the log is written only after the service accepts the mail.
- `validate`'s docstring (validators/email_audit.py:23) lists the statuses `pass|fail|warn`. `validate` never returns `warn`.
- Only `log_send` truncates the recipient part of a log name to 20 characters; `send_email` keeps the whole local part (`Mailer.SentNameVersusAuditName`).
