/**
 * The script's main flow: build the option hash from the environment,
 * apply the flags, check the required keys, build the summary, render the
 * template and send the mail through the local relay, logging the summary.
 */
module MailServiceNotification {
  import opened Wrappers
  import opened RubyHash
  import opened RubyString
  import opened MailDispatch
  import opened NotificationOptions

  /** The relay the mail is handed to, and the HELO domain given to it. */
  const MailServer := "localhost"
  const SmtpPort := 25

  /**
   * What reading and rendering the template gives: the message; a
   * StandardError, which `rescue => err` catches; or an exception outside
   * StandardError (a SyntaxError in a scriptlet, an `exit` in the template),
   * which the rescue clause does not catch.
   */
  datatype Rendering =
    | Rendered(message: string)
    | Raised
    | Escaped

  /** How a run ends. */
  datatype Outcome =
    | Aborted(message: string)   // `abort(msg)`: the message goes to stderr, exit status 1
    | Sent(logLine: string)      // the info line logged after `send_mail` returns
    | Rescued(logLine: string)   // the fatal line logged by the `rescue` clause
    | Crashed                    // an exception the rescue clause does not catch ends the process, nothing is logged

  /** The relay and port a Net::SMTP object was created for. */
  datatype Relay = Relay(address: string, port: nat)

  /** The outcome, the SMTP object created during the run (if any), and the commands issued on it. */
  datatype Run = Run(outcome: Outcome, relay: Option<Relay>, trace: seq<Command>)

  /** The info line after a send: a fixed text, then the summary joined with ";". */
  function SentLine(summary: seq<string>): (r: string)
    ensures |r| >= 11 && r[..11] == "Mail sent: " && r[11..] == Join(summary, ";")
  {
    "Mail sent: " + Join(summary, ";")
  }

  /** The fatal line of the rescue clause: a fixed text, then the summary joined with ";". */
  function RescueLine(summary: seq<string>): (r: string)
    ensures |r| >= 48 && r[..48] == "Error in script. The variables or options were: " && r[48..] == Join(summary, ";")
  {
    "Error in script. The variables or options were: " + Join(summary, ";")
  }

  /**
   * The info line carries the whole summary: when no entry contains ";",
   * splitting the text after the fixed prefix gives the entries back.
   */
  lemma SentLineCarries(summary: seq<string>)
    requires |summary| > 0
    requires forall i :: 0 <= i < |summary| ==> ';' !in summary[i]
    ensures Split(SentLine(summary)[11..], ';') == summary
  {
    SplitJoin(summary, ';');
  }

  /** So does the fatal line of the rescue clause. */
  lemma RescueLineCarries(summary: seq<string>)
    requires |summary| > 0
    requires forall i :: 0 <= i < |summary| ==> ';' !in summary[i]
    ensures Split(RescueLine(summary)[48..], ';') == summary
  {
    SplitJoin(summary, ';');
  }

  /** The hash once the flags are processed. */
  function Final(env: map<string, string>, argv: seq<Arg>, fileExists: string -> bool): Parsed
  {
    EnvTableExtra(env);
    ApplyFlags(EnvTable(env), argv, fileExists)
  }

  /** A whole run. `rendered` is what reading and rendering the template file gives. */
  function RunSpec(env: map<string, string>, argv: seq<Arg>, fileExists: string -> bool, rendered: Rendering): Run
  {
    RunFrom(Final(env, argv, fileExists), rendered)
  }

  /** The run after parsing: the parse abort, then the required check, then the delivery. */
  function RunFrom(p: Parsed, rendered: Rendering): Run
  {
    if p.abort.Some? then Run(Aborted(p.abort.value), None, [])
    else match FirstNil(p.options, Required)
      case Some(k) => Run(Aborted(RequireMessage(k)), None, [])
      case None => Delivery(p.options, rendered)
  }

  /** Summary, rendering and `send_mail` on a hash that passed the required check. */
  function Delivery(t: Table, rendered: Rendering): Run
  {
    var summary := SummaryOf(t);
    match rendered
    case Raised => Run(Rescued(RescueLine(summary)), None, [])
    case Escaped => Run(Crashed, None, [])
    case Rendered(message) =>
      var to := Get(t, "usermail");
      var trace := SendTrace(MailServer, Get(t, "mailfrom"), to, Nil, message);
      var relay := Some(Relay(MailServer, SmtpPort));
      if Recipients(to, Nil).Some? then Run(Sent(SentLine(summary)), relay, trace)
      else Run(Rescued(RescueLine(summary)), relay, trace)
  }

  /** The script's top level: the hash from the environment, then everything after it. */
  method Notify(env: map<string, string>, argv: seq<Arg>, fileExists: string -> bool, rendered: Rendering)
    returns (outcome: Outcome, relay: Option<Relay>, trace: seq<Command>)
    ensures Run(outcome, relay, trace) == RunSpec(env, argv, fileExists, rendered)
  {
    var options := new Options.FromEnv(env);
    EnvTableExtra(env);
    outcome, relay, trace := ParseAndSend(options, argv, fileExists, rendered);
  }

  /** `parse!`, then the required check, each of which may abort, then the delivery. */
  method ParseAndSend(options: Options, argv: seq<Arg>, fileExists: string -> bool, rendered: Rendering)
    returns (outcome: Outcome, relay: Option<Relay>, trace: seq<Command>)
    requires options.Valid() && options.Lookup(ExtraKey).List?
    modifies options
    ensures Run(outcome, relay, trace) == RunFrom(ApplyFlags(old(options.entries), argv, fileExists), rendered)
    ensures options.entries == ApplyFlags(old(options.entries), argv, fileExists).options
  {
    var abort := options.Parse(argv, fileExists);
    if abort.Some? {
      return Aborted(abort.value), None, [];
    }
    var missing := options.CheckRequired();
    if missing.Some? {
      return Aborted(RequireMessage(missing.value)), None, [];
    }
    outcome, relay, trace := Deliver(options, rendered);
  }

  /** The summary, `to` and `from`, the rendered template, and `send_mail` on a fresh SMTP object. */
  method Deliver(options: Options, rendered: Rendering) returns (outcome: Outcome, relay: Option<Relay>, trace: seq<Command>)
    ensures Run(outcome, relay, trace) == Delivery(options.entries, rendered)
  {
    var summary := options.Summary();
    var to := options.Lookup("usermail");
    var from := options.Lookup("mailfrom");
    if rendered.Raised? {
      return Rescued(RescueLine(summary)), None, [];
    }
    if rendered.Escaped? {
      return Crashed, None, [];
    }
    var smtp := new Smtp(MailServer, SmtpPort);
    var script := new Script();
    var ok := script.SendMail(MailServer, smtp, from, to, Nil, rendered.message);
    relay := Some(Relay(smtp.address, smtp.port));
    trace := smtp.trace;
    if ok {
      outcome := Sent(SentLine(summary));
    } else {
      outcome := Rescued(RescueLine(summary));
    }
  }

  /** Delivery never aborts: past the required check the run ends Sent, Rescued or Crashed. */
  lemma DeliveryNeverAborts(t: Table, rendered: Rendering)
    ensures !Delivery(t, rendered).outcome.Aborted?
  {
  }

  /**
   * Delivery with a String `usermail` and a rendered template sends exactly
   * start, MAIL FROM, one RCPT TO, the message and finish, and logs the summary.
   */
  lemma DeliverySent(t: Table, rendered: Rendering)
    requires rendered.Rendered? && Get(t, "usermail").Str?
    ensures Delivery(t, rendered) == Run(
      Sent(SentLine(SummaryOf(t))),
      Some(Relay(MailServer, SmtpPort)),
      [ Command.Start(MailServer), Command.MailFrom(Get(t, "mailfrom")),
        RcptTo(Get(t, "usermail").s), Data(rendered.message), Finish ])
  {
    var to := Get(t, "usermail");
    SendTraceUnfold(MailServer, Get(t, "mailfrom"), to, Nil, rendered.message);
    assert RcptAll([to.s] + []) == [RcptTo(to.s)];
  }

  /**
   * Reference reading of a scalar option: the last flag that writes it wins;
   * without one it keeps what the environment gave it.
   */
  function Resolved(env: map<string, string>, argv: seq<Arg>, k: string): Value
  {
    match LastFor(argv, k)
    case Some(v) => Str(v)
    case None => EnvDefault(env, k)
  }

  /** After parsing, every key other than `extrainformation` reads as the reference reading says. */
  lemma FinalResolved(env: map<string, string>, argv: seq<Arg>, fileExists: string -> bool, k: string)
    requires MissingTemplate(argv, fileExists).None?
    requires k != ExtraKey
    ensures Get(Final(env, argv, fileExists).options, k) == Resolved(env, argv, k)
  {
    EnvTableExtra(env);
    ApplyFlagsAbort(EnvTable(env), argv, fileExists);
    ApplyFlagsScalar(EnvTable(env), argv, fileExists, k);
    EnvTableGet(env, k);
  }

  /** After parsing, `extrainformation` holds every `-E` value, stripped, in command-line order. */
  lemma FinalExtras(env: map<string, string>, argv: seq<Arg>, fileExists: string -> bool)
    requires MissingTemplate(argv, fileExists).None?
    ensures Get(Final(env, argv, fileExists).options, ExtraKey) == List(Extras(argv))
  {
    EnvTableShape(env);
    ApplyFlagsAbort(EnvTable(env), argv, fileExists);
    ApplyFlagsExtras(EnvTable(env), argv, fileExists);
    assert [] + Extras(argv) == Extras(argv);
  }

  /**
   * After parsing, the fourteen environment keys come first in assignment
   * order, and any other key is present exactly when some flag writes it.
   */
  lemma FinalKeys(env: map<string, string>, argv: seq<Arg>, fileExists: string -> bool, k: string)
    requires MissingTemplate(argv, fileExists).None?
    ensures IsPrefix(InitialKeys, Keys(Final(env, argv, fileExists).options))
    ensures k !in InitialKeys ==> (k in Keys(Final(env, argv, fileExists).options) <==> LastFor(argv, k).Some?)
  {
    EnvTableExtra(env);
    ApplyFlagsAbort(EnvTable(env), argv, fileExists);
    ApplyFlagsKeys(EnvTable(env), argv, fileExists, k);
  }

  /** A `-T` naming a missing file ends the run first, before the required keys are looked at, and nothing is sent. */
  lemma TemplateCheckedFirst(env: map<string, string>, argv: seq<Arg>, fileExists: string -> bool, rendered: Rendering)
    requires MissingTemplate(argv, fileExists).Some?
    ensures RunSpec(env, argv, fileExists, rendered) == Run(Aborted(MissingTemplate(argv, fileExists).value), None, [])
  {
    EnvTableExtra(env);
    ApplyFlagsAbort(EnvTable(env), argv, fileExists);
  }

  /** Past the template check, every required key reads as the reference reading says. */
  lemma RequiredResolved(env: map<string, string>, argv: seq<Arg>, fileExists: string -> bool)
    requires MissingTemplate(argv, fileExists).None?
    ensures forall i :: 0 <= i < |Required| ==>
      Get(Final(env, argv, fileExists).options, Required[i]) == Resolved(env, argv, Required[i])
  {
    ExtraNotRequired();
    forall i | 0 <= i < |Required|
      ensures Get(Final(env, argv, fileExists).options, Required[i]) == Resolved(env, argv, Required[i])
    {
      FinalResolved(env, argv, fileExists, Required[i]);
    }
  }

  /**
   * Past the template check, the run aborts exactly when some required key
   * reads as nil, naming the first one in check order; nothing is sent then.
   */
  lemma RequiredChecked(env: map<string, string>, argv: seq<Arg>, fileExists: string -> bool, rendered: Rendering)
    requires MissingTemplate(argv, fileExists).None?
    ensures RunSpec(env, argv, fileExists, rendered).outcome.Aborted? <==>
      exists i :: 0 <= i < |Required| && Resolved(env, argv, Required[i]) == Nil
    ensures RunSpec(env, argv, fileExists, rendered).outcome.Aborted? ==>
      RunSpec(env, argv, fileExists, rendered).relay == None &&
      RunSpec(env, argv, fileExists, rendered).trace == [] &&
      exists i :: 0 <= i < |Required| && Resolved(env, argv, Required[i]) == Nil
        && RunSpec(env, argv, fileExists, rendered).outcome == Aborted(RequireMessage(Required[i]))
        && forall j :: 0 <= j < i ==> Resolved(env, argv, Required[j]) != Nil
  {
    var p := Final(env, argv, fileExists);
    EnvTableExtra(env);
    ApplyFlagsAbort(EnvTable(env), argv, fileExists);
    RequiredResolved(env, argv, fileExists);
    FirstNilSpec(p.options, Required);
    DeliveryNeverAborts(p.options, rendered);
  }

  /** A scalar option is never an Array: the environment and the flags only store Strings. */
  lemma ResolvedScalar(env: map<string, string>, argv: seq<Arg>, k: string)
    requires k != ExtraKey
    ensures !Resolved(env, argv, k).List?
  {
  }

  /**
   * A mail is sent when the template exists, every required key is set and
   * the template renders: through `localhost`, port 25, the session is then
   * start, MAIL FROM with the `mailfrom` option, a single RCPT TO for
   * `usermail`, the rendered message and finish, and the log line carries
   * the whole summary.
   */
  lemma SentSession(env: map<string, string>, argv: seq<Arg>, fileExists: string -> bool, rendered: Rendering)
    requires MissingTemplate(argv, fileExists).None?
    requires forall i :: 0 <= i < |Required| ==> Resolved(env, argv, Required[i]) != Nil
    requires rendered.Rendered?
    ensures Resolved(env, argv, "usermail").Str?
    ensures RunSpec(env, argv, fileExists, rendered) == Run(
      Sent(SentLine(SummaryOf(Final(env, argv, fileExists).options))),
      Some(Relay(MailServer, SmtpPort)),
      [ Command.Start(MailServer), Command.MailFrom(Resolved(env, argv, "mailfrom")),
        RcptTo(Resolved(env, argv, "usermail").s), Data(rendered.message), Finish ])
  {
    var p := Final(env, argv, fileExists);
    EnvTableExtra(env);
    ApplyFlagsAbort(EnvTable(env), argv, fileExists);
    RequiredResolved(env, argv, fileExists);
    FirstNilSpec(p.options, Required);
    UserMailRequired();
    ResolvedScalar(env, argv, "usermail");
    FinalResolved(env, argv, fileExists, "mailfrom");
    DeliverySent(p.options, rendered);
  }

  /**
   * The `rescue` clause is reached only when reading or rendering the
   * template raises a StandardError: `send_mail` never meets a nil `to`.
   * Nothing is sent then, and no SMTP object exists.
   */
  lemma RescuedOnlyOnRender(env: map<string, string>, argv: seq<Arg>, fileExists: string -> bool, rendered: Rendering)
    ensures RunSpec(env, argv, fileExists, rendered).outcome.Rescued? <==>
      MissingTemplate(argv, fileExists).None?
      && (forall i :: 0 <= i < |Required| ==> Resolved(env, argv, Required[i]) != Nil)
      && rendered.Raised?
    ensures RunSpec(env, argv, fileExists, rendered).outcome.Rescued? ==>
      RunSpec(env, argv, fileExists, rendered) == Run(Rescued(RescueLine(SummaryOf(Final(env, argv, fileExists).options))), None, [])
  {
    EnvTableExtra(env);
    ApplyFlagsAbort(EnvTable(env), argv, fileExists);
    if MissingTemplate(argv, fileExists).None? {
      RequiredChecked(env, argv, fileExists, rendered);
      if rendered.Rendered? && forall i :: 0 <= i < |Required| ==> Resolved(env, argv, Required[i]) != Nil {
        SentSession(env, argv, fileExists, rendered);
      }
    }
  }

  /**
   * An exception from the template that is not a StandardError ends the run
   * without any log line; it happens only past the checks, and nothing is
   * sent then.
   */
  lemma CrashedOnlyOnRender(env: map<string, string>, argv: seq<Arg>, fileExists: string -> bool, rendered: Rendering)
    ensures RunSpec(env, argv, fileExists, rendered).outcome.Crashed? <==>
      MissingTemplate(argv, fileExists).None?
      && (forall i :: 0 <= i < |Required| ==> Resolved(env, argv, Required[i]) != Nil)
      && rendered.Escaped?
    ensures RunSpec(env, argv, fileExists, rendered).outcome.Crashed? ==>
      RunSpec(env, argv, fileExists, rendered) == Run(Crashed, None, [])
  {
    EnvTableExtra(env);
    ApplyFlagsAbort(EnvTable(env), argv, fileExists);
    if MissingTemplate(argv, fileExists).None? {
      RequiredChecked(env, argv, fileExists, rendered);
      if rendered.Rendered? && forall i :: 0 <= i < |Required| ==> Resolved(env, argv, Required[i]) != Nil {
        SentSession(env, argv, fileExists, rendered);
      }
    }
  }

  /** A key only the environment sets keeps its environment value whatever the flags. */
  lemma EnvOnlyUnchanged(env: map<string, string>, argv: seq<Arg>, fileExists: string -> bool, i: nat)
    requires MissingTemplate(argv, fileExists).None?
    requires i < |EnvOnlyKeys|
    ensures Get(Final(env, argv, fileExists).options, EnvOnlyKeys[i]) == Get(EnvTable(env), EnvOnlyKeys[i])
  {
    var k := EnvOnlyKeys[i];
    EnvOnlyUnflagged(k);
    LastForUnflagged(argv, k);
    FinalResolved(env, argv, fileExists, k);
    EnvTableGet(env, k);
  }

  /** A key only a flag sets is absent unless its flag is given, and then holds the last such flag's argument. */
  lemma FlagOnlyAbsent(env: map<string, string>, argv: seq<Arg>, fileExists: string -> bool, i: nat)
    requires MissingTemplate(argv, fileExists).None?
    requires i < |FlagOnlyKeys|
    ensures var k := FlagOnlyKeys[i];
      && (k in Keys(Final(env, argv, fileExists).options) <==> LastFor(argv, k).Some?)
      && Get(Final(env, argv, fileExists).options, k) == match LastFor(argv, k) case Some(v) => Str(v) case None => Nil
  {
    var k := FlagOnlyKeys[i];
    FlagOnlyNotInitial(k);
    assert k !in EnvKeys;
    VarForAbsent(EnvKeys, EnvVars, k);
    FinalKeys(env, argv, fileExists, k);
    FinalResolved(env, argv, fileExists, k);
  }

  /**
   * A key both the environment and a flag set: the last such flag's argument
   * replaces the environment value; without the flag the environment value stays.
   */
  lemma SharedOverride(env: map<string, string>, argv: seq<Arg>, fileExists: string -> bool, i: nat)
    requires MissingTemplate(argv, fileExists).None?
    requires i < |SharedKeys|
    ensures var k := SharedKeys[i];
      && i < |SharedFlags| && KeyOf(SharedFlags[i]) == k && k in EnvKeys
      && Get(Final(env, argv, fileExists).options, k) ==
        match LastFor(argv, k) case Some(v) => Str(v) case None => Get(EnvTable(env), k)
  {
    var k := SharedKeys[i];
    SharedFlagged(i);
    FinalResolved(env, argv, fileExists, k);
    EnvTableGet(env, k);
  }
}
