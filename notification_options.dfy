/**
 * The option hash of the notification script: filled from the environment,
 * overwritten by the command-line flags in order, checked for the required
 * keys, and rendered as the summary logged after a send.
 */
module NotificationOptions {
  import opened Wrappers
  import opened RubyHash
  import opened RubyString

  /** The flags the option parser accepts, one per handler. */
  datatype Flag =
    | Date | ServiceName | HostName | HostDisplayName | ServiceOutput | UserMail
    | ServiceState | NotificationType | ServiceDisplayName | MailFrom | Address
    | Address6 | Author | Comment | IcingaWeb2Url | ExtraInformation | Log | TemplateFile

  /** One flag occurrence on the command line with its argument. */
  datatype Arg = Arg(flag: Flag, value: string)

  const ExtraKey := "extrainformation"
  const TemplateKey := "templatefile"

  /** The option key each flag's handler writes. */
  function KeyOf(f: Flag): (k: string)
    ensures k == ExtraKey <==> f == ExtraInformation
    ensures k == TemplateKey <==> f == TemplateFile
  {
    match f
    case Date => "date"
    case ServiceName => "servicename"
    case HostName => "hostname"
    case HostDisplayName => "hostdisplayname"
    case ServiceOutput => "serviceoutput"
    case UserMail => "usermail"
    case ServiceState => "servicestate"
    case NotificationType => "notificationtype"
    case ServiceDisplayName => "servicedisplayname"
    case MailFrom => "mailfrom"
    case Address => "address"
    case Address6 => "address6"
    case Author => "author"
    case Comment => "comment"
    case IcingaWeb2Url => "icingaweb2url"
    case ExtraInformation => ExtraKey
    case Log => "log"
    case TemplateFile => TemplateKey
  }

  /** The option keys filled from the environment, in the order they are assigned ... */
  const EnvKeys: seq<string> := [
    "date", "hostname", "hostdisplayname", "hostoutput", "usermail", "hoststate", "notificationtype",
    "hostaddress", "hostaddress6", "notificationauthorname", "notificationcomment", "icingaweb2url", "mailfrom"]

  /** ... and the environment variable each one is read from. */
  const EnvVars: seq<string> := [
    "LONGDATETIME", "HOSTNAME", "HOSTDISPLAYNAME", "HOSTOUTPUT", "USEREMAIL", "HOSTSTATE", "NOTIFICATIONTYPE",
    "HOSTADDRESS", "HOSTADDRESS6", "NOTIFICATIONAUTHORNAME", "NOTIFICATIONCOMMENT", "ICINGAWEB2URL", "MAILFROM"]

  /** Keys that come from the environment and also have a flag. */
  const SharedKeys: seq<string> := ["date", "hostname", "hostdisplayname", "usermail", "notificationtype", "mailfrom", "icingaweb2url"]

  /** The flag that writes each shared key, in the same order. */
  const SharedFlags: seq<Flag> := [Date, HostName, HostDisplayName, UserMail, NotificationType, MailFrom, IcingaWeb2Url]

  /** Each shared key is filled from the environment and written by its flag. */
  lemma SharedFlagged(i: nat)
    requires i < |SharedKeys|
    ensures i < |SharedFlags| && KeyOf(SharedFlags[i]) == SharedKeys[i]
    ensures SharedKeys[i] in EnvKeys && SharedKeys[i] != ExtraKey
  {
  }

  /** Keys that only the environment sets. */
  const EnvOnlyKeys: seq<string> := ["hoststate", "hostoutput", "hostaddress", "hostaddress6", "notificationauthorname", "notificationcomment"]

  /** Keys that only a flag sets. */
  const FlagOnlyKeys: seq<string> := [
    "servicename", "serviceoutput", "servicestate", "servicedisplayname", "address", "address6",
    "author", "comment", "log", "templatefile"]

  /** The keys that must not be nil once the flags are processed, in the order they are checked. */
  const Required: seq<string> := [
    "date", "servicename", "hostname", "hostdisplayname", "serviceoutput", "usermail",
    "servicestate", "notificationtype", "servicedisplayname", "templatefile"]

  /** `extrainformation` is not among the required keys. */
  lemma ExtraNotRequired()
    ensures ExtraKey !in Required
  {
  }

  /** `usermail` is required, so it is not `extrainformation`. */
  lemma UserMailRequired()
    ensures "usermail" in Required && "usermail" != ExtraKey
  {
    assert Required[5] == "usermail";
  }

  /** No flag handler writes a key that only the environment sets. */
  lemma EnvOnlyUnflagged(k: string)
    requires k in EnvOnlyKeys
    ensures k != ExtraKey
    ensures forall f: Flag :: KeyOf(f) != k
  {
  }

  /** A key that only a flag sets is none of the keys the hash starts with. */
  lemma FlagOnlyNotInitial(k: string)
    requires k in FlagOnlyKeys
    ensures k !in InitialKeys && k != ExtraKey
  {
  }

  /** `ENV[name]`: nil when the variable is unset. */
  function EnvValue(env: map<string, string>, name: string): Value
  {
    if name in env then Str(env[name]) else Nil
  }

  /** The hash as it stands before the flags: every environment key (nil when unset), then an empty `extrainformation` Array. */
  function EnvTable(env: map<string, string>): Table
  {
    seq(|EnvKeys|, i requires 0 <= i < |EnvKeys| => Entry(EnvKeys[i], EnvValue(env, EnvVars[i])))
      + [Entry(ExtraKey, List([]))]
  }

  /** The fourteen keys the hash holds before the flags, in assignment order. */
  const InitialKeys: seq<string> := EnvKeys + [ExtraKey]

  lemma InitialKeysDistinct()
    ensures Distinct(InitialKeys)
  {
  }

  lemma {:induction false} EnvTableKeys(env: map<string, string>, j: nat)
    requires j <= |InitialKeys|
    ensures Keys(EnvTable(env)[..j]) == InitialKeys[..j]
  {
    var t := EnvTable(env)[..j];
    assert forall i :: 0 <= i < j ==> Keys(t)[i] == InitialKeys[i];
  }

  /** Each assignment adds its key at the end: the hash never held it before. */
  lemma EnvTableStep(env: map<string, string>, j: nat)
    requires j < |InitialKeys|
    ensures Distinct(Keys(EnvTable(env)[..j]))
    ensures Put(EnvTable(env)[..j], InitialKeys[j], EnvTable(env)[j].value) == EnvTable(env)[..j + 1]
    ensures j + 1 == |InitialKeys| ==> EnvTable(env)[..j + 1] == EnvTable(env)
  {
    var t := EnvTable(env);
    EnvTableKeys(env, j);
    EnvTableKeys(env, j + 1);
    assert Keys(t[..j + 1])[j] == t[j].key;
    InitialKeysDistinct();
    FreshStep(t, InitialKeys, j);
  }

  /** Filling a hash in the order of distinct keys ks, the next key is always new. */
  lemma FreshStep(t: Table, ks: seq<string>, j: nat)
    requires j < |t| && Distinct(ks) && j < |ks|
    requires Keys(t[..j]) == ks[..j] && t[j].key == ks[j]
    ensures Distinct(Keys(t[..j]))
    ensures Put(t[..j], ks[j], t[j].value) == t[..j + 1]
  {
    DistinctPrefix(ks, j);
    PutKeys(t[..j], ks[j], t[j].value);
    assert t[..j + 1] == t[..j] + [t[j]];
  }

  /** A prefix of distinct keys is distinct and does not hold the key after it. */
  lemma DistinctPrefix(ks: seq<string>, j: nat)
    requires Distinct(ks) && j < |ks|
    ensures Distinct(ks[..j]) && ks[j] !in ks[..j]
  {
    var p := ks[..j];
    forall a, b | 0 <= a < b < |p| ensures p[a] != p[b] {
      assert p[a] == ks[a] && p[b] == ks[b];
    }
    forall a | 0 <= a < |p| ensures p[a] != ks[j] {
      assert p[a] == ks[a];
    }
  }

  /** All fourteen keys are present, distinct and in assignment order, and `extrainformation` is the empty Array. */
  lemma EnvTableShape(env: map<string, string>)
    ensures Keys(EnvTable(env)) == InitialKeys
    ensures Distinct(Keys(EnvTable(env)))
    ensures Get(EnvTable(env), ExtraKey) == List([])
  {
    var t := EnvTable(env);
    EnvTableKeys(env, |t|);
    assert t[..|t|] == t;
    InitialKeysDistinct();
    GetAt(t, |EnvKeys|);
  }

  /** The one fact about the initial hash the handlers rely on. */
  lemma EnvTableExtra(env: map<string, string>)
    ensures Get(EnvTable(env), ExtraKey).List?
  {
    EnvTableShape(env);
  }

  /** The variable the assignments read key k from, looked up in the paired lists ks and vs. */
  function VarFor(ks: seq<string>, vs: seq<string>, k: string): Option<string>
    decreases |ks|
  {
    if ks == [] || vs == [] then None
    else if ks[0] == k then Some(vs[0])
    else VarFor(ks[1..], vs[1..], k)
  }

  lemma {:induction false} VarForAt(ks: seq<string>, vs: seq<string>, i: nat)
    requires Distinct(ks) && |ks| == |vs| && i < |ks|
    ensures VarFor(ks, vs, ks[i]) == Some(vs[i])
  {
    if i > 0 {
      assert ks[0] != ks[i];
      assert Distinct(ks[1..]) by {
        forall a, b | 0 <= a < b < |ks| - 1 ensures ks[1..][a] != ks[1..][b] {
          assert ks[a + 1] != ks[b + 1];
        }
      }
      VarForAt(ks[1..], vs[1..], i - 1);
    }
  }

  lemma {:induction false} VarForAbsent(ks: seq<string>, vs: seq<string>, k: string)
    requires k !in ks
    ensures VarFor(ks, vs, k).None?
    decreases |ks|
  {
    if ks != [] && vs != [] {
      assert k != ks[0];
      VarForAbsent(ks[1..], vs[1..], k);
    }
  }

  /**
   * Reference reading of the hash before the flags: `extrainformation` is an
   * empty Array, a key read from the environment holds `ENV[var]`, and any
   * other key reads as nil.
   */
  function EnvDefault(env: map<string, string>, k: string): Value
  {
    if k == ExtraKey then List([])
    else match VarFor(EnvKeys, EnvVars, k)
      case Some(name) => EnvValue(env, name)
      case None => Nil
  }

  lemma EnvTableGet(env: map<string, string>, k: string)
    ensures Get(EnvTable(env), k) == EnvDefault(env, k)
  {
    var t := EnvTable(env);
    EnvTableShape(env);
    if k != ExtraKey {
      if k in EnvKeys {
        var i :| 0 <= i < |EnvKeys| && EnvKeys[i] == k;
        InitialKeysDistinct();
        assert Distinct(EnvKeys) by {
          forall a, b | 0 <= a < b < |EnvKeys| ensures EnvKeys[a] != EnvKeys[b] {
            assert InitialKeys[a] != InitialKeys[b];
          }
        }
        VarForAt(EnvKeys, EnvVars, i);
        GetAt(t, i);
      } else {
        assert k !in Keys(t);
        GetAbsent(t, k);
        VarForAbsent(EnvKeys, EnvVars, k);
      }
    }
  }

  /** `extrainformation.strip.chomp`: the chomp never has anything left to remove. */
  function ExtraItem(v: string): (r: string)
    ensures r == Strip(v)
  {
    ChompAfterStrip(v);
    Chomp(Strip(v))
  }

  /** The abort message of a `-T` naming a missing file: the path between two fixed texts. */
  function TemplateMissing(path: string): string
  {
    "Templatefile " + path + " does not exist"
  }

  /** The message is "Templatefile ", the path, then " does not exist". */
  lemma TemplateMissingText(path: string)
    ensures var r := TemplateMissing(path);
      && |r| == 13 + |path| + 15
      && r[..13] == "Templatefile " && r[13..13 + |path|] == path && r[13 + |path|..] == " does not exist"
  {
  }

  /** Different paths give different messages: the message names the path exactly. */
  lemma TemplateMissingNames(a: string, b: string)
    ensures TemplateMissing(a) == TemplateMissing(b) <==> a == b
  {
    TemplateMissingText(a);
    TemplateMissingText(b);
    if TemplateMissing(a) == TemplateMissing(b) {
      assert |a| == |b|;
      assert a == TemplateMissing(a)[13..13 + |a|];
    }
  }

  /** The abort message of a missing required key: the key after a fixed text. */
  function RequireMessage(key: string): string
  {
    "Require option " + key
  }

  /** The message is "Require option " followed by the key. */
  lemma RequireMessageText(key: string)
    ensures var r := RequireMessage(key);
      && |r| == 15 + |key| && r[..15] == "Require option " && r[15..] == key
  {
  }

  /** Different keys give different messages: the message names the key exactly. */
  lemma RequireMessageNames(a: string, b: string)
    ensures RequireMessage(a) == RequireMessage(b) <==> a == b
  {
    RequireMessageText(a);
    RequireMessageText(b);
    if RequireMessage(a) == RequireMessage(b) {
      assert a == RequireMessage(a)[15..];
    }
  }

  /** The hash after some flags, and the abort message if a handler stopped the run. */
  datatype Parsed = Parsed(options: Table, abort: Option<string>)

  /** One flag handler. */
  function Step(t: Table, a: Arg, fileExists: string -> bool): (p: Parsed)
    requires Get(t, ExtraKey).List?
    ensures Get(p.options, ExtraKey).List?
  {
    if a.flag == ExtraInformation then
      Parsed(Put(t, ExtraKey, List(Get(t, ExtraKey).items + [ExtraItem(a.value)])), None)
    else if a.flag == TemplateFile then
      PutOther(t, TemplateKey, Str(a.value), ExtraKey);
      Parsed(Put(t, TemplateKey, Str(a.value)), if fileExists(a.value) then None else Some(TemplateMissing(a.value)))
    else
      PutOther(t, KeyOf(a.flag), Str(a.value), ExtraKey);
      Parsed(Put(t, KeyOf(a.flag), Str(a.value)), None)
  }

  /** `parse!`: the handlers run in command-line order until one aborts. */
  function ApplyFlags(t: Table, argv: seq<Arg>, fileExists: string -> bool): (p: Parsed)
    requires Get(t, ExtraKey).List?
    ensures Get(p.options, ExtraKey).List?
    decreases |argv|
  {
    if argv == [] then Parsed(t, None)
    else
      var q := Step(t, argv[0], fileExists);
      if q.abort.Some? then q else ApplyFlags(q.options, argv[1..], fileExists)
  }

  /** Reference reading of the scalar flags: the value of the last occurrence of a flag writing k. */
  function LastFor(argv: seq<Arg>, k: string): Option<string>
    decreases |argv|
  {
    if argv == [] then None
    else match LastFor(argv[1..], k)
      case Some(v) => Some(v)
      case None =>
        if argv[0].flag != ExtraInformation && KeyOf(argv[0].flag) == k then Some(argv[0].value) else None
  }

  /** Reference reading of `-E`: every occurrence's stripped value, in command-line order. */
  function Extras(argv: seq<Arg>): seq<string>
    decreases |argv|
  {
    if argv == [] then []
    else (if argv[0].flag == ExtraInformation then [ExtraItem(argv[0].value)] else []) + Extras(argv[1..])
  }

  /** Reference reading of the abort: the first `-T` naming a file that does not exist. */
  function MissingTemplate(argv: seq<Arg>, fileExists: string -> bool): Option<string>
    decreases |argv|
  {
    if argv == [] then None
    else if argv[0].flag == TemplateFile && !fileExists(argv[0].value) then Some(TemplateMissing(argv[0].value))
    else MissingTemplate(argv[1..], fileExists)
  }

  /**
   * The run aborts while parsing exactly when some `-T` names a missing file,
   * and then it names the first such file; every earlier `-T` exists.
   */
  lemma {:induction false} MissingTemplateSpec(argv: seq<Arg>, fileExists: string -> bool)
    ensures MissingTemplate(argv, fileExists).None? <==>
      forall i :: 0 <= i < |argv| && argv[i].flag == TemplateFile ==> fileExists(argv[i].value)
    ensures MissingTemplate(argv, fileExists).Some? ==>
      exists i :: 0 <= i < |argv| && argv[i].flag == TemplateFile && !fileExists(argv[i].value)
        && MissingTemplate(argv, fileExists) == Some(TemplateMissing(argv[i].value))
        && forall j :: 0 <= j < i && argv[j].flag == TemplateFile ==> fileExists(argv[j].value)
  {
    if argv != [] {
      MissingTemplateSpec(argv[1..], fileExists);
      if !(argv[0].flag == TemplateFile && !fileExists(argv[0].value)) && MissingTemplate(argv, fileExists).Some? {
        var i :| 0 <= i < |argv| - 1 && argv[1..][i].flag == TemplateFile && !fileExists(argv[1..][i].value)
          && MissingTemplate(argv[1..], fileExists) == Some(TemplateMissing(argv[1..][i].value))
          && forall j :: 0 <= j < i && argv[1..][j].flag == TemplateFile ==> fileExists(argv[1..][j].value);
        assert argv[i + 1] == argv[1..][i];
        forall j | 0 <= j < i + 1 && argv[j].flag == TemplateFile ensures fileExists(argv[j].value) {
          if j > 0 { assert argv[j] == argv[1..][j - 1]; }
        }
      }
    }
  }

  /** Parsing aborts exactly as the reference reading says, with its message. */
  lemma {:induction false} ApplyFlagsAbort(t: Table, argv: seq<Arg>, fileExists: string -> bool)
    requires Get(t, ExtraKey).List?
    ensures ApplyFlags(t, argv, fileExists).abort == MissingTemplate(argv, fileExists)
    decreases |argv|
  {
    if argv != [] {
      var q := Step(t, argv[0], fileExists);
      if q.abort.None? {
        ApplyFlagsAbort(q.options, argv[1..], fileExists);
      }
    }
  }

  /** What one handler does to a key other than `extrainformation`. */
  lemma StepGet(t: Table, a: Arg, fileExists: string -> bool, k: string)
    requires Get(t, ExtraKey).List?
    requires k != ExtraKey
    ensures Get(Step(t, a, fileExists).options, k) ==
      if a.flag != ExtraInformation && KeyOf(a.flag) == k then Str(a.value) else Get(t, k)
  {
    if a.flag == ExtraInformation {
      PutOther(t, ExtraKey, List(Get(t, ExtraKey).items + [ExtraItem(a.value)]), k);
    } else if KeyOf(a.flag) != k {
      PutOther(t, KeyOf(a.flag), Str(a.value), k);
    }
  }

  /** What one handler does to the key order: a scalar flag's key is appended when new. */
  lemma StepKeys(t: Table, a: Arg, fileExists: string -> bool)
    requires Get(t, ExtraKey).List?
    ensures Keys(Step(t, a, fileExists).options) ==
      if a.flag != ExtraInformation && KeyOf(a.flag) !in Keys(t) then Keys(t) + [KeyOf(a.flag)] else Keys(t)
  {
    GetPresent(t, ExtraKey);
    if a.flag == ExtraInformation {
      PutKeys(t, ExtraKey, List(Get(t, ExtraKey).items + [ExtraItem(a.value)]));
    } else {
      PutKeys(t, KeyOf(a.flag), Str(a.value));
    }
  }

  /** What one handler does to `extrainformation`. */
  lemma StepExtra(t: Table, a: Arg, fileExists: string -> bool)
    requires Get(t, ExtraKey).List?
    ensures Get(Step(t, a, fileExists).options, ExtraKey) ==
      if a.flag == ExtraInformation then List(Get(t, ExtraKey).items + [ExtraItem(a.value)]) else Get(t, ExtraKey)
  {
    if a.flag != ExtraInformation {
      PutOther(t, KeyOf(a.flag), Str(a.value), ExtraKey);
    }
  }

  /**
   * After a run that did not abort, a key other than `extrainformation` holds
   * the argument of the last flag that writes it, or, with no such flag,
   * what it held before.
   */
  lemma {:induction false} ApplyFlagsScalar(t: Table, argv: seq<Arg>, fileExists: string -> bool, k: string)
    requires Get(t, ExtraKey).List?
    requires k != ExtraKey
    requires ApplyFlags(t, argv, fileExists).abort.None?
    ensures Get(ApplyFlags(t, argv, fileExists).options, k) ==
      match LastFor(argv, k) case Some(v) => Str(v) case None => Get(t, k)
    decreases |argv|
  {
    if argv != [] {
      var q := Step(t, argv[0], fileExists);
      StepGet(t, argv[0], fileExists, k);
      ApplyFlagsScalar(q.options, argv[1..], fileExists, k);
    }
  }

  predicate IsPrefix(a: seq<string>, b: seq<string>)
  {
    |a| <= |b| && b[..|a|] == a
  }

  /**
   * After a run that did not abort, the keys present before keep their
   * places at the front, and a key is present exactly when it was before or
   * some flag writes it.
   */
  lemma {:induction false} ApplyFlagsKeys(t: Table, argv: seq<Arg>, fileExists: string -> bool, k: string)
    requires Get(t, ExtraKey).List?
    requires ApplyFlags(t, argv, fileExists).abort.None?
    ensures IsPrefix(Keys(t), Keys(ApplyFlags(t, argv, fileExists).options))
    ensures k in Keys(ApplyFlags(t, argv, fileExists).options) <==> k in Keys(t) || LastFor(argv, k).Some?
    decreases |argv|
  {
    if argv != [] {
      var q := Step(t, argv[0], fileExists);
      StepKeys(t, argv[0], fileExists);
      ApplyFlagsKeys(q.options, argv[1..], fileExists, k);
      var ks := Keys(ApplyFlags(t, argv, fileExists).options);
      assert ks[..|Keys(q.options)|] == Keys(q.options);
      assert ks[..|Keys(t)|] == Keys(q.options)[..|Keys(t)|];
    }
  }

  /** After a run that did not abort, `extrainformation` has had every `-E` value appended, in order. */
  lemma {:induction false} ApplyFlagsExtras(t: Table, argv: seq<Arg>, fileExists: string -> bool)
    requires Get(t, ExtraKey).List?
    requires ApplyFlags(t, argv, fileExists).abort.None?
    ensures Get(ApplyFlags(t, argv, fileExists).options, ExtraKey) == List(Get(t, ExtraKey).items + Extras(argv))
    decreases |argv|
  {
    var before := Get(t, ExtraKey).items;
    if argv == [] {
      assert before + [] == before;
    } else {
      var q := Step(t, argv[0], fileExists);
      assert ApplyFlags(t, argv, fileExists) == ApplyFlags(q.options, argv[1..], fileExists);
      ApplyFlagsExtras(q.options, argv[1..], fileExists);
      assert argv == [argv[0]] + argv[1..];
      StepExtras(t, argv[0], argv[1..], fileExists);
    }
  }

  lemma StepExtras(t: Table, a: Arg, rest: seq<Arg>, fileExists: string -> bool)
    requires Get(t, ExtraKey).List?
    ensures Get(Step(t, a, fileExists).options, ExtraKey).items + Extras(rest) == Get(t, ExtraKey).items + Extras([a] + rest)
  {
    StepExtra(t, a, fileExists);
    assert ([a] + rest)[1..] == rest;
    var before := Get(t, ExtraKey).items;
    if a.flag == ExtraInformation {
      var x := ExtraItem(a.value);
      assert Extras([a] + rest) == [x] + Extras(rest);
      assert before + ([x] + Extras(rest)) == (before + [x]) + Extras(rest);
    } else {
      assert Extras([a] + rest) == Extras(rest);
    }
  }

  /** A key no flag writes is never given a value by the flags. */
  lemma {:induction false} LastForUnflagged(argv: seq<Arg>, k: string)
    requires forall f: Flag :: KeyOf(f) != k
    ensures LastFor(argv, k).None?
    decreases |argv|
  {
    if argv != [] {
      LastForUnflagged(argv[1..], k);
    }
  }

  /** The first key of ks that reads as nil. */
  function FirstNil(t: Table, ks: seq<string>): Option<string>
    decreases |ks|
  {
    if ks == [] then None
    else if Get(t, ks[0]) == Nil then Some(ks[0])
    else FirstNil(t, ks[1..])
  }

  /**
   * The check passes exactly when no key of ks reads as nil (an empty string
   * passes); otherwise it names the first key that does.
   */
  lemma {:induction false} FirstNilSpec(t: Table, ks: seq<string>)
    ensures FirstNil(t, ks).None? <==> forall i :: 0 <= i < |ks| ==> Get(t, ks[i]) != Nil
    ensures FirstNil(t, ks).Some? ==>
      exists i :: 0 <= i < |ks| && ks[i] == FirstNil(t, ks).value && Get(t, ks[i]) == Nil
        && forall j :: 0 <= j < i ==> Get(t, ks[j]) != Nil
    decreases |ks|
  {
    if ks != [] && Get(t, ks[0]) != Nil {
      FirstNilSpec(t, ks[1..]);
      assert forall i :: 0 <= i < |ks| - 1 ==> ks[1..][i] == ks[i + 1];
      if FirstNil(t, ks).Some? {
        var i :| 0 <= i < |ks| - 1 && ks[1..][i] == FirstNil(t, ks).value && Get(t, ks[1..][i]) == Nil
          && forall j :: 0 <= j < i ==> Get(t, ks[1..][j]) != Nil;
        assert ks[i + 1] == FirstNil(t, ks).value;
      }
    }
  }

  /** `"#{value}"`: nil is empty, a String itself, an Array its `inspect`. */
  function ValueText(v: Value): (r: string)
    ensures v.Nil? ==> r == ""
    ensures v.Str? ==> r == v.s
    ensures v.List? ==> |r| >= 2 && r[0] == '[' && r[|r| - 1] == ']'
  {
    match v
    case Nil => ""
    case Str(s) => s
    case List(xs) => Inspect(xs)
  }

  /** `"#{key}: #{value}"`. */
  function EntryText(e: Entry): string
  {
    e.key + ": " + ValueText(e.value)
  }

  /** An entry's text is its key, ": ", then the value's text. */
  lemma EntryTextParts(e: Entry)
    ensures var r := EntryText(e);
      && |r| == |e.key| + 2 + |ValueText(e.value)|
      && r[..|e.key|] == e.key && r[|e.key|..|e.key| + 2] == ": " && r[|e.key| + 2..] == ValueText(e.value)
  {
  }

  /** The summary: one text per entry, in insertion order. */
  function SummaryOf(t: Table): seq<string>
  {
    if t == [] then [] else [EntryText(t[0])] + SummaryOf(t[1..])
  }

  /** The summary has exactly one "key: value" text per entry of the hash, in the hash's order. */
  lemma {:induction false} SummaryEntries(t: Table)
    ensures |SummaryOf(t)| == |t|
    ensures forall i :: 0 <= i < |t| ==> SummaryOf(t)[i] == EntryText(t[i])
  {
    if t != [] {
      SummaryEntries(t[1..]);
    }
  }

  lemma {:induction false} SummaryAppend(a: Table, e: Entry)
    ensures SummaryOf(a + [e]) == SummaryOf(a) + [EntryText(e)]
  {
    if a == [] {
      assert a + [e] == [e];
    } else {
      assert (a + [e])[1..] == a[1..] + [e];
      SummaryAppend(a[1..], e);
    }
  }

  /** The options hash the script builds and mutates. */
  class Options {
    var entries: Table

    ghost predicate Valid()
      reads this
    {
      Distinct(Keys(entries))
    }

    /** `options[k]`. */
    function Lookup(k: string): Value
      reads this
    {
      Get(entries, k)
    }

    /** `options = Hash.new` followed by the assignments from the environment. */
    constructor FromEnv(env: map<string, string>)
      ensures Valid()
      ensures entries == EnvTable(env)
    {
      entries := [];
      new;
      ghost var t := EnvTable(env);
      for j := 0 to |EnvKeys|
        invariant Valid()
        invariant entries == t[..j]
      {
        EnvTableStep(env, j);
        Set(EnvKeys[j], EnvValue(env, EnvVars[j]));
      }
      EnvTableStep(env, |EnvKeys|);
      Set(ExtraKey, List([]));
    }

    /** `options[k] = v`. */
    method Set(k: string, v: Value)
      requires Valid()
      modifies this
      ensures Valid()
      ensures entries == Put(old(entries), k, v)
    {
      PutDistinct(entries, k, v);
      entries := Put(entries, k, v);
    }

    /** `options[k] << s` on an Array value. */
    method Push(k: string, s: string)
      requires Valid() && Lookup(k).List?
      modifies this
      ensures Valid()
      ensures entries == Put(old(entries), k, List(old(Lookup(k)).items + [s]))
    {
      PutDistinct(entries, k, List(Lookup(k).items + [s]));
      entries := Put(entries, k, List(Lookup(k).items + [s]));
    }

    /** The option parser's `parse!` with the handlers above; returns the abort message, if any. */
    method Parse(argv: seq<Arg>, fileExists: string -> bool) returns (abort: Option<string>)
      requires Valid() && Lookup(ExtraKey).List?
      modifies this
      ensures Valid()
      ensures Parsed(entries, abort) == ApplyFlags(old(entries), argv, fileExists)
    {
      var i := 0;
      while i < |argv|
        invariant 0 <= i <= |argv|
        invariant Valid() && Lookup(ExtraKey).List?
        invariant ApplyFlags(old(entries), argv, fileExists) == ApplyFlags(entries, argv[i..], fileExists)
      {
        var a := argv[i];
        assert argv[i..][1..] == argv[i + 1..];
        if a.flag == ExtraInformation {
          Push(ExtraKey, ExtraItem(a.value));
        } else if a.flag == TemplateFile {
          Set(TemplateKey, Str(a.value));
          if !fileExists(a.value) {
            return Some(TemplateMissing(a.value));
          }
        } else {
          Set(KeyOf(a.flag), Str(a.value));
        }
        i := i + 1;
      }
      return None;
    }

    /** The loop over the required keys: the first one that reads as nil, if any. */
    method CheckRequired() returns (missing: Option<string>)
      ensures missing == FirstNil(entries, Required)
    {
      var i := 0;
      while i < |Required|
        invariant 0 <= i <= |Required|
        invariant FirstNil(entries, Required) == FirstNil(entries, Required[i..])
      {
        assert Required[i..][1..] == Required[i + 1..];
        if Lookup(Required[i]).Nil? {
          return Some(Required[i]);
        }
        i := i + 1;
      }
      return None;
    }

    /** The `each_pair` loop that builds the summary. */
    method Summary() returns (summary: seq<string>)
      ensures summary == SummaryOf(entries)
    {
      summary := [];
      var i := 0;
      while i < |entries|
        invariant 0 <= i <= |entries|
        invariant summary == SummaryOf(entries[..i])
      {
        var e := entries[i];
        summary := summary + [EntryText(e)];
        assert entries[..i + 1] == entries[..i] + [e];
        SummaryAppend(entries[..i], e);
        i := i + 1;
      }
      assert entries[..i] == entries;
    }
  }
}
