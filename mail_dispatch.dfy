/**
 * `send_mail` and the SMTP session it drives. The SMTP client is modelled by
 * the commands it is asked to issue, appended to a trace in call order; the
 * network, the server's replies and transport errors are not modelled.
 */
module MailDispatch {
  import opened Wrappers
  import opened RubyHash

  /** The Net::SMTP calls `send_mail` makes. `start`'s first argument is the HELO domain. */
  datatype Command =
    | Start(helo: string)
    | MailFrom(from: Value)
    | RcptTo(addr: string)
    | Data(message: string)
    | Finish

  /** A Net::SMTP object: the relay it was created for and the commands issued on it so far. */
  class Smtp {
    const address: string
    const port: nat
    var trace: seq<Command>

    constructor (address: string, port: nat)
      ensures this.address == address && this.port == port
      ensures trace == []
    {
      this.address := address;
      this.port := port;
      trace := [];
    }

    method Start(helo: string)
      modifies this
      ensures trace == old(trace) + [Command.Start(helo)]
    {
      trace := trace + [Command.Start(helo)];
    }

    method MailFrom(from: Value)
      modifies this
      ensures trace == old(trace) + [Command.MailFrom(from)]
    {
      trace := trace + [Command.MailFrom(from)];
    }

    method RcptTo(addr: string)
      modifies this
      ensures trace == old(trace) + [Command.RcptTo(addr)]
    {
      trace := trace + [Command.RcptTo(addr)];
    }

    method Data(message: string)
      modifies this
      ensures trace == old(trace) + [Command.Data(message)]
    {
      trace := trace + [Command.Data(message)];
    }

    method Finish()
      modifies this
      ensures trace == old(trace) + [Command.Finish]
    {
      trace := trace + [Command.Finish];
    }
  }

  /**
   * `to` as a list: a String becomes a one-element list, a list stays as it
   * is, and nil has no list form (`nil + [...]` raises NoMethodError).
   */
  function ToList(to: Value): (r: Option<seq<string>>)
    ensures to.Str? ==> r == Some([to.s])
    ensures to.List? ==> r == Some(to.items)
    ensures r.None? <==> to.Nil?
  {
    match to
    case Nil => None
    case Str(s) => Some([s])
    case List(xs) => Some(xs)
  }

  /** `cc` as a list: nil becomes the empty list, a String a one-element list. */
  function CcList(cc: Value): (r: seq<string>)
    ensures cc.Nil? ==> r == []
    ensures cc.Str? ==> r == [cc.s]
    ensures cc.List? ==> r == cc.items
  {
    match cc
    case Nil => []
    case Str(s) => [s]
    case List(xs) => xs
  }

  /** The value a normalised field holds afterwards: the list, or `to` itself when it stays nil. */
  function Normalised(v: Option<seq<string>>, orig: Value): Value
  {
    match v
    case Some(xs) => List(xs)
    case None => orig
  }

  /** The envelope recipients: all of `to`, then all of `cc`, each in its own order. */
  function Recipients(to: Value, cc: Value): (r: Option<seq<string>>)
    ensures r.Some? <==> !to.Nil?
    ensures r.Some? ==> r.value == ToList(to).value + CcList(cc)
  {
    match ToList(to)
    case None => None
    case Some(xs) => Some(xs + CcList(cc))
  }

  /** One RCPT TO per address, in order. */
  function RcptAll(rs: seq<string>): (r: seq<Command>)
    ensures |r| == |rs|
  {
    if rs == [] then [] else [RcptTo(rs[0])] + RcptAll(rs[1..])
  }

  lemma {:induction false} RcptAllAt(rs: seq<string>, i: nat)
    requires i < |rs|
    ensures RcptAll(rs)[i] == RcptTo(rs[i])
  {
    if i > 0 {
      RcptAllAt(rs[1..], i - 1);
    }
  }

  /** Issuing RCPT TO for a + b is issuing it for a, then for b. */
  lemma {:induction false} RcptAllAppend(a: seq<string>, b: seq<string>)
    ensures RcptAll(a + b) == RcptAll(a) + RcptAll(b)
  {
    if a == [] {
      assert a + b == b;
    } else {
      assert (a + b)[1..] == a[1..] + b;
      RcptAllAppend(a[1..], b);
    }
  }

  /**
   * The commands `send_mail` issues: start and MAIL FROM come first; then,
   * when the recipients have a list form, one RCPT TO each, the message and
   * finish. A nil `to` stops the sequence after MAIL FROM.
   */
  function SendTrace(helo: string, from: Value, to: Value, cc: Value, message: string): seq<Command>
  {
    [Start(helo), MailFrom(from)]
      + match Recipients(to, cc)
        case None => []
        case Some(rs) => RcptAll(rs) + [Data(message), Finish]
  }

  /**
   * The whole session, position by position: start(helo), mailfrom(from),
   * rcptto once for each `to` address and then each `cc` address, data with
   * the message unchanged, finish; and nothing else.
   */
  lemma SendTraceShape(helo: string, from: Value, to: Value, cc: Value, message: string)
    requires !to.Nil?
    ensures var rs := ToList(to).value + CcList(cc);
      var tr := SendTrace(helo, from, to, cc, message);
      && |tr| == |rs| + 4
      && tr[0] == Start(helo)
      && tr[1] == MailFrom(from)
      && (forall i :: 0 <= i < |rs| ==> tr[2 + i] == RcptTo(rs[i]))
      && tr[|rs| + 2] == Data(message)
      && tr[|rs| + 3] == Finish
  {
    var rs := ToList(to).value + CcList(cc);
    var tr := SendTrace(helo, from, to, cc, message);
    assert tr == [Start(helo), MailFrom(from)] + RcptAll(rs) + [Data(message), Finish];
    forall i | 0 <= i < |rs| ensures tr[2 + i] == RcptTo(rs[i]) {
      RcptAllAt(rs, i);
    }
  }

  lemma SendTraceUnfold(helo: string, from: Value, to: Value, cc: Value, message: string)
    ensures to.Nil? ==> SendTrace(helo, from, to, cc, message) == [Start(helo), MailFrom(from)]
    ensures !to.Nil? ==>
      SendTrace(helo, from, to, cc, message) == [Start(helo), MailFrom(from)] + RcptAll(ToList(to).value + CcList(cc)) + [Data(message), Finish]
  {
  }

  /** The object `send_mail` is defined on, with the instance variables it assigns. */
  class Script {
    var from: Value
    var to: Value
    var cc: Value
    var mailMessage: string

    constructor ()
      ensures from == Nil && to == Nil && cc == Nil && mailMessage == ""
    {
      from, to, cc, mailMessage := Nil, Nil, Nil, "";
    }

    /**
     * `send_mail(mailserver, smtp, from, to, cc, mail_message)`. Returns false
     * where Ruby raises NoMethodError: a nil `to`, after start and mailfrom
     * have already been issued.
     */
    method SendMail(mailserver: string, smtp: Smtp, from: Value, to: Value, cc: Value, mailMessage: string)
      returns (ok: bool)
      modifies this, smtp
      ensures ok <==> Recipients(to, cc).Some?
      ensures smtp.trace == old(smtp.trace) + SendTrace(mailserver, from, to, cc, mailMessage)
      ensures this.from == from && this.mailMessage == mailMessage
      ensures this.to == Normalised(ToList(to), to)
      ensures this.cc == List(CcList(cc))
    {
      this.from := from;
      this.to := to;
      this.cc := cc;
      this.mailMessage := mailMessage;

      ghost var opening := smtp.trace + [Command.Start(mailserver), Command.MailFrom(from)];
      smtp.Start(mailserver);
      smtp.MailFrom(this.from);
      assert smtp.trace == opening;

      NormaliseRecipients();
      if this.to.Nil? {
        SendTraceUnfold(mailserver, from, to, cc, mailMessage);
        assert opening == old(smtp.trace) + SendTrace(mailserver, from, to, cc, mailMessage);
        return false;
      }

      var rs := this.to.items + this.cc.items;
      assert rs == Recipients(to, cc).value;
      assert smtp.trace == opening;
      RcptEach(smtp, rs);
      ghost var envelope := smtp.trace;
      assert envelope == opening + RcptAll(rs);
      smtp.Data(this.mailMessage);
      assert smtp.trace == envelope + [Command.Data(mailMessage)];
      smtp.Finish();
      assert smtp.trace == envelope + [Command.Data(mailMessage)] + [Command.Finish];
      assert smtp.trace == opening + RcptAll(rs) + [Command.Data(mailMessage), Command.Finish];
      SendTraceUnfold(mailserver, from, to, cc, mailMessage);
      assert opening + RcptAll(rs) + [Command.Data(mailMessage), Command.Finish]
        == old(smtp.trace) + SendTrace(mailserver, from, to, cc, mailMessage);
      ok := true;
    }

    /** `@to = [@to] if String`; `@cc = [] if nil`; `@cc = [@cc] if String`. */
    method NormaliseRecipients()
      modifies this
      ensures to == Normalised(ToList(old(to)), old(to))
      ensures cc == List(CcList(old(cc)))
      ensures from == old(from) && mailMessage == old(mailMessage)
    {
      if to.Str? {
        to := List([to.s]);
      }
      if cc.Nil? {
        cc := List([]);
      }
      if cc.Str? {
        cc := List([cc.s]);
      }
    }

    /** `(@to + @cc).map { |addr| smtp.rcptto addr }`: one RCPT TO per address, in order. */
    method RcptEach(smtp: Smtp, rs: seq<string>)
      modifies smtp
      ensures smtp.trace == old(smtp.trace) + RcptAll(rs)
    {
      var i := 0;
      while i < |rs|
        invariant 0 <= i <= |rs|
        invariant smtp.trace == old(smtp.trace) + RcptAll(rs[..i])
      {
        smtp.RcptTo(rs[i]);
        assert rs[..i + 1] == rs[..i] + [rs[i]];
        RcptAllAppend(rs[..i], [rs[i]]);
        i := i + 1;
      }
      assert rs[..i] == rs;
    }
  }
}
