# Icinga2 mail service notification, modelled in Dafny

`mail-service-notification.rb` is the script Icinga2 runs to mail one service
notification. The script goes through these steps in order:

1. It fills an options Hash from thirteen environment variables, plus an empty
   `extrainformation` Array.
2. It lets the command-line flags overwrite the Hash. Each `-E` appends its
   stripped argument instead, and a `-T` naming a missing file aborts straight
   away.
3. It checks ten required keys in order and aborts on the first one that is nil.
4. It builds a `"key: value"` summary of the Hash.
5. It renders the ERB template and sends the mail through `send_mail` on a
   Net::SMTP object for `localhost`, port 25.
6. It logs the summary joined with `;`.

The model keeps the script's imperative shape. Each imperative part is a method
proved against a specification function, and lemmas prove what the script
promises about those functions.

- `RubyHash` (`ruby_hash.dfy`): a Ruby Hash is an insertion-ordered sequence of
  entries.
  - `Put` replaces a key in place or appends a new key at the end.
  - `Get` of an absent key is nil.
- `RubyString` (`ruby_string.dfy`): `strip`, `chomp`, `join`, and the `inspect`
  text an Array of Strings takes inside `"#{value}"`.
- `MailDispatch` (`mail_dispatch.dfy`): `send_mail`.
  - The SMTP object is class `Smtp`. Its `trace` records the commands issued on
    it: start, MAIL FROM, RCPT TO, DATA and finish.
  - The object that owns `@from`, `@to`, `@cc` and `@mail_message` is class
    `Script`.
  - `SendMail` reassigns those fields, normalises `to` and `cc`, and loops
    RCPT TO over the recipients.
- `NotificationOptions` (`notification_options.dfy`): class `Options`, the
  mutable options Hash.
  - Its constructor runs the environment assignments.
  - `Parse` runs the flag handlers in command-line order.
  - `CheckRequired` is the early-exit loop over the required keys.
  - `Summary` is the `each_pair` loop.
  - The specification functions beside the class are `EnvTable`, `Step`,
    `ApplyFlags`, `FirstNil` and `SummaryOf`. They are compared with reference
    readings (`EnvDefault`, `LastFor`, `Extras`, `MissingTemplate`) that say
    directly what each key ends up holding.
- `MailServiceNotification` (`notification.dfy`): the main flow.
  - `Notify` returns how the run ends: abort with its message, sent with the
    info line, rescued with the fatal line, or crashed with no log line. It
    also returns the relay and port of the SMTP object, when one was created,
    and the commands issued on it.
  - `RunSpec` is the function it is proved equal to.

Calls into code that is not modelled become parameters:

- The environment is the parameter `env: map<string, string>`.
- The command line is the parameter `argv`, a sequence of `(flag, argument)`
  pairs, already tokenised.
- `File.exist?` is the parameter `fileExists`.
- The ERB template rendering is the parameter `rendered`, a `Rendering`:
  - `Rendered(message)` is the rendered mail.
  - `Raised` means `File.read` or the ERB evaluation raised a StandardError.
    The rescue clause catches it and logs the fatal summary line.
  - `Escaped` means the template raised something outside StandardError, such
    as a SyntaxError in a scriptlet or SystemExit from an `exit`. The rescue
    clause does not catch it, so the process ends without a log line.

Some facts about the script shape the model:

- **Address, author and comment keys.** `-4`, `-6`, `-b` and `-c` write the
  keys `address`, `address6`, `author` and `comment`. They do not write the
  keys the environment fills, `hostaddress`, `hostaddress6`,
  `notificationauthorname` and `notificationcomment`. So no flag ever touches
  those environment keys (`EnvOnlyUnchanged`).
- **Template-file check.** The only check on the template file is
  `File.exist?`, inside the `-T` handler. Whether the file can be read shows up
  later, when `File.read` raises.
- **Aborts bypass the rescue clause.** `abort` raises SystemExit, which
  `rescue => err` does not catch. So an abort never reaches the fatal summary
  line.
- **The fatal lines before an abort are never logged.** The guard
  `unless defined?(options["log"])` is always false, because `defined?` of a
  method call is always truthy. So `-v` does not change whether those lines
  are logged. Its value is still stored under `log` and appears in the summary.
- **What reaches the rescue clause.** Any StandardError raised in the main
  block reaches it, but the clause only does its job for one raised after
  `summary` is assigned (line 178) while `@logger` exists. Then it logs the
  fatal summary line, and the script ends normally. For an earlier one the
  clause itself raises instead, and the process dies with no fatal line:
  - an OptionParser error from `parse!` leaves `summary` nil, so
    `summary.join` raises;
  - a failing `Logger.new` leaves `@logger` nil, so `@logger.debug` raises.
- **Modelled sources of rescued errors.** The model covers two StandardErrors
  raised after line 178. One is reading or rendering the template. The other
  is the NoMethodError `send_mail` raises for a nil `to` (`nil + @cc`), which
  `RescuedOnlyOnRender` shows never happens in the main flow.

## Model

| member | source | states |
|---|---|---|
| RubyHash.GetAbsent | mail-service-notification.rb:170 | reading a key the Hash does not hold gives nil |
| RubyHash.PutKeys | mail-service-notification.rb:61-76 | assigning an existing key keeps the key order; a new key is appended at the end, and the Hash becomes the old one plus that entry |
| RubyHash.PutOther | mail-service-notification.rb:104-156 | assigning one key leaves every other key's value unchanged |
| MailDispatch.ToList | mail-service-notification.rb:49 | a String `to` becomes a one-element list, an Array stays as it is, and nil has no list form |
| MailDispatch.CcList | mail-service-notification.rb:50-51 | a nil `cc` becomes `[]`, a String a one-element list, and an Array stays as it is |
| MailDispatch.Recipients | mail-service-notification.rb:49-52 | the recipients exist exactly when `to` is not nil, and are then all of `to` followed by all of `cc` |
| MailDispatch.RcptAllAppend | mail-service-notification.rb:52-54 | issuing RCPT TO for `a + b` is issuing it for `a` and then for `b` |
| MailDispatch.SendTraceShape | mail-service-notification.rb:46-57 | the session, position by position: start with the mail server, MAIL FROM with `from`, one RCPT TO for each `to` address and then each `cc` address, DATA with the message unchanged, finish, and nothing else |
| MailDispatch.Script.SendMail | mail-service-notification.rb:40-58 | appends exactly that session to the SMTP trace, and sets `@from`, `@mail_message`, and the normalised `@to` and `@cc`; it fails (where Ruby raises) exactly when `to` is nil, after start and MAIL FROM were already issued |
| MailDispatch.Script.NormaliseRecipients | mail-service-notification.rb:49-51 | `@to` and `@cc` take their list forms; `@from` and `@mail_message` do not change |
| MailDispatch.Script.RcptEach | mail-service-notification.rb:52-54 | the loop appends one RCPT TO per address, in order |
| RubyString.StripSpec | mail-service-notification.rb:150 | `strip` returns the slice between the leading and the trailing whitespace, and the slice neither starts nor ends with whitespace |
| RubyString.ChompAfterStrip | mail-service-notification.rb:150 | `chomp` after `strip` changes nothing |
| NotificationOptions.ExtraItem | mail-service-notification.rb:150 | the value `-E` appends is its argument stripped |
| NotificationOptions.TemplateMissingText | mail-service-notification.rb:158 | the missing-template message is "Templatefile ", the path, then " does not exist" |
| NotificationOptions.TemplateMissingNames | mail-service-notification.rb:158 | two paths give the same message exactly when they are equal: the message names the path |
| NotificationOptions.RequireMessageText | mail-service-notification.rb:171 | the missing-option message is "Require option " followed by the key |
| NotificationOptions.RequireMessageNames | mail-service-notification.rb:171 | two keys give the same message exactly when they are equal: the message names the key |
| NotificationOptions.ValueText | mail-service-notification.rb:180 | a value's interpolated text: nil is empty, a String is itself, and an Array is its bracketed `inspect` text |
| NotificationOptions.EntryTextParts | mail-service-notification.rb:180 | an entry's summary text is its key, ": ", then its value's text |
| MailServiceNotification.SentLine | mail-service-notification.rb:195 | the info line is "Mail sent: " followed by the summary joined with ";" |
| MailServiceNotification.SentLineCarries | mail-service-notification.rb:195 | when no entry contains ";", the entries can be read back from the info line |
| MailServiceNotification.RescueLine | mail-service-notification.rb:199 | the fatal line is "Error in script. The variables or options were: " followed by the summary joined with ";" |
| MailServiceNotification.RescueLineCarries | mail-service-notification.rb:199 | when no entry contains ";", the entries can be read back from the fatal line |
| NotificationOptions.KeyOf | mail-service-notification.rb:104-156 | only `-E` writes `extrainformation`, and only `-T` writes `templatefile` |
| NotificationOptions.Options.FromEnv | mail-service-notification.rb:61-76 | the assignments build the Hash described by `EnvTable` and leave its keys distinct |
| NotificationOptions.EnvTableShape | mail-service-notification.rb:61-76 | the Hash starts with the thirteen environment keys in assignment order, then `extrainformation`, all distinct, and `extrainformation` is the empty Array |
| NotificationOptions.EnvTableGet | mail-service-notification.rb:62-76 | before the flags, an environment key reads as its variable's value (nil when the variable is unset), `extrainformation` as `[]`, and every other key as nil |
| NotificationOptions.Options.Set | mail-service-notification.rb:105-156 | `options[k] = v` keeps the keys distinct and stores v under k |
| NotificationOptions.Options.Push | mail-service-notification.rb:150 | `options[k] << s` appends s to that Array |
| NotificationOptions.Options.Parse | mail-service-notification.rb:104-163 | the handlers, run in command-line order, leave the Hash and the abort message as `ApplyFlags` says |
| NotificationOptions.MissingTemplateSpec | mail-service-notification.rb:155-161 | parsing aborts exactly when some `-T` names a file that does not exist; the message is "Templatefile <path> does not exist" for the first such `-T`, and every earlier `-T` named an existing file |
| NotificationOptions.ApplyFlagsAbort | mail-service-notification.rb:155-163 | the handlers stop at the first missing template, with its message, and otherwise do not abort |
| NotificationOptions.StepGet | mail-service-notification.rb:104-156 | one handler stores its argument under its own key and changes no other key apart from `extrainformation` |
| NotificationOptions.StepKeys | mail-service-notification.rb:104-156 | one handler appends its key when the key is new, and otherwise keeps the key order |
| NotificationOptions.StepExtra | mail-service-notification.rb:149-151 | `-E` appends its stripped argument to `extrainformation`, and no other handler changes it |
| NotificationOptions.ApplyFlagsScalar | mail-service-notification.rb:104-156 | after parsing, a scalar key holds the argument of the last flag that writes it, or else what it held before |
| NotificationOptions.ApplyFlagsKeys | mail-service-notification.rb:104-156 | after parsing, the earlier keys keep their places at the front, and a key is present exactly when it was before or some flag writes it |
| NotificationOptions.ApplyFlagsExtras | mail-service-notification.rb:149-151 | after parsing, `extrainformation` holds its earlier items followed by every `-E` value, stripped, in command-line order |
| NotificationOptions.LastForUnflagged | mail-service-notification.rb:104-156 | a key that no handler writes never gets a value from the flags |
| NotificationOptions.FirstNilSpec | mail-service-notification.rb:169-175 | the check passes exactly when no listed key reads as nil (an empty string passes); otherwise it names the first key that reads as nil |
| NotificationOptions.Options.CheckRequired | mail-service-notification.rb:168-175 | the early-exit loop returns the first required key that reads as nil, if there is one |
| NotificationOptions.SummaryEntries | mail-service-notification.rb:178-181 | the summary has exactly one "key: value" text per Hash entry, in insertion order |
| NotificationOptions.SummaryAppend | mail-service-notification.rb:179-180 | one more entry adds one more text at the end |
| NotificationOptions.Options.Summary | mail-service-notification.rb:178-181 | the `each_pair` loop returns the summary of the current Hash |
| RubyString.UnescapeEscape | mail-service-notification.rb:180 | the escaping that `extrainformation`'s `inspect` text applies loses nothing: unescaping gives back the original string |
| RubyString.SplitJoin | mail-service-notification.rb:195 | when no entry contains the separator, splitting the joined line on it gives the entries back |
| MailServiceNotification.Notify | mail-service-notification.rb:61-195 | the whole run ends with the outcome and the SMTP trace that `RunSpec` describes |
| MailServiceNotification.ParseAndSend | mail-service-notification.rb:163-194 | after the environment assignments: abort from parsing, then abort from the required check, then delivery; afterwards the Hash is the one the handlers left, which is the Hash the template's binding sees |
| MailServiceNotification.Deliver | mail-service-notification.rb:178-199 | summary, recipients and sender; then a rendering StandardError is rescued and an exception outside StandardError ends the run, with no SMTP object in either case; otherwise `send_mail` runs on a fresh SMTP object for `localhost`, port 25, with a nil `cc` |
| MailServiceNotification.DeliverySent | mail-service-notification.rb:184-195 | with a String `usermail` and a rendered template, the session runs through `localhost`, port 25, and is start, MAIL FROM, a single RCPT TO for `usermail`, DATA and finish, and the info line carries the summary |
| MailServiceNotification.FinalResolved | mail-service-notification.rb:62-156 | after parsing, a key other than `extrainformation` holds the last flag value that writes it, else its environment value, else nil; so a flag replaces a shared key's environment value |
| MailServiceNotification.FinalExtras | mail-service-notification.rb:76-151 | after parsing, `extrainformation` is exactly the list of `-E` values, stripped, in command-line order |
| MailServiceNotification.FinalKeys | mail-service-notification.rb:61-156 | after parsing, the fourteen initial keys come first in assignment order, and any other key is present exactly when some flag writes it |
| MailServiceNotification.FlagOnlyAbsent | mail-service-notification.rb:104-156 | a key that only a flag sets is absent, and reads as nil, unless its flag is given; then it holds the last such flag's argument |
| MailServiceNotification.EnvOnlyUnchanged | mail-service-notification.rb:62-156 | a key that only the environment sets keeps its environment value whatever the flags |
| MailServiceNotification.TemplateCheckedFirst | mail-service-notification.rb:155-175 | a `-T` naming a missing file ends the run with its message before any required key is checked, and nothing is sent |
| MailServiceNotification.RequiredResolved | mail-service-notification.rb:168-170 | every required key reads as the reference reading of the environment and the flags says |
| MailServiceNotification.RequiredChecked | mail-service-notification.rb:168-175 | past the template check, the run aborts exactly when some required key resolves to nil; it then names the first such key in check order and sends nothing |
| MailServiceNotification.SentSession | mail-service-notification.rb:184-195 | a mail is sent when the template exists, every required key is set and the template renders; the session runs through `localhost`, port 25, the recipient list is exactly `[usermail]`, MAIL FROM carries `mailfrom`, DATA carries the rendered message, and the info line carries the whole summary |
| MailServiceNotification.RescuedOnlyOnRender | mail-service-notification.rb:188-199 | the rescue clause is reached exactly when the checks pass and reading or rendering the template raises a StandardError; nothing is sent then, and the fatal line carries the summary, because `send_mail` never meets a nil `to` |
| MailServiceNotification.CrashedOnlyOnRender | mail-service-notification.rb:188-199 | the run ends with no log line exactly when the checks pass and the template raises an exception outside StandardError; nothing is sent then |
| NotificationOptions.SharedFlagged | mail-service-notification.rb:62-147 | each of the seven shared keys is filled from the environment and written by its own flag |
| MailServiceNotification.SharedOverride | mail-service-notification.rb:62-147 | a shared key holds the last argument of its flag when the flag is given, and otherwise its environment value |

## Left out

- Logging: the Logger, its file and the debug lines are not modelled. The two fatal log calls guarded by `unless defined?(options["log"])` never log anyway, because `defined?` of a method call is always truthy.
- ERB rendering and `File.read`: these evaluate arbitrary Ruby in the script's binding. They are the input `rendered`: a message, a StandardError (`Raised`) or another exception (`Escaped`). This assumes the template, though it runs in the script's own binding, neither reassigns nor mutates in place any of `to` (the same String as `options["usermail"]`), `from`, `mailserver` and `summary` before they are used at lines 193-195. The exact relay, MAIL FROM, RCPT TO and info line in `SentSession` and `DeliverySent` depend on that.
- Other exceptions: a failing `Logger.new`, an OptionParser exception, and other exceptions from `send_mail` or the SMTP object are not modelled. A failing `Logger.new` or an OptionParser exception reaches the rescue clause, which then raises itself. An SMTP exception is rescued and logs the fatal summary line.
- String encodings: every flag and environment value is treated as valid text. Byte strings that the locale's encoding rejects are not modelled; examples are invalid UTF-8, or any non-ASCII byte under a C/POSIX locale. Neither is the ArgumentError that `strip` raises on such an `-E` argument at line 150. That error is raised inside `parse!`, so it reaches the rescue clause before `summary` exists: the clause itself raises, and the process dies with no mail and no fatal line.
- `File.exist?`: this is the parameter `fileExists`; the file system is not modelled.
- Net::SMTP: only the commands the script issues are modelled, in order. The network, the server's replies, transport errors and the rescue they trigger are not.
- OptionParser: short and long spellings, `=` syntax, the banner and usage text, and the exceptions for an unknown flag or a missing argument are not modelled. Those exceptions reach the rescue clause before `summary` exists, and the rescue line then raises itself. `argv` arrives already tokenised.
- `abort`: its stderr message and exit status 1 are the `Aborted(message)` outcome.
- End of a rescued run: after the rescue clause the process ends normally; the model stops at the `Rescued(line)` outcome.
- RubyString.Escape: Array#inspect's escapes are modelled for `"`, `\`, `\n`, `\r`, `\t`, `\f`, `\v`, `\b`, `\a`, `\e`, and for `#` before `{`, `$` or `@`. The `\x..`/`\u....` form of other control and non-printable characters is not modelled.
- RubyString.Strip: NUL counts as whitespace at both ends. Some Ruby versions strip NUL only at the end.
- The environment assignments run as a loop over a table of (key, variable) pairs in the script's order, instead of thirteen separate statements. The resulting Hash is the same.
