/** The transaction hooks: `hook_rcpt` decides whether a recipient is served
    and replaces it with its registry destination; `hook_data_post` rewrites
    the originator fields (section 3.6.2 of RFC 5322) and the envelope
    sender to the forwarder. */
module Envelope {
  import opened Results
  import Text
  import HostList
  import Resolver

  /** Header values by lower-case field name, in the order they were added. */
  type Headers = map<string, seq<string>>

  datatype Transaction = Transaction(mailFrom: string, rcptTo: seq<string>, headers: Headers)

  /** The part of an SMTP connection the hooks touch. */
  datatype Connection = Connection(transaction: Option<Transaction>, relaying: bool)

  /** Why a hook raised instead of returning a verdict. */
  datatype HookError =
    | MalformedAddress                              // recipient without `@`
    | Unresolved(error: Resolver.ResolveError)      // `NoDestError` from the lookup
    | MissingFrom                                   // no `From` header to copy

  datatype Verdict = Continue | Deny(message: string) | Rejected(error: HookError)

  datatype RcptOutcome = RcptOutcome(verdict: Verdict, connection: Connection)

  /** The lookup `hook_rcpt` performs: the lower-cased address to its
      destination or to the reason there is none. */
  type Lookup = string -> Result<string, Resolver.ResolveError>

  /** The registry lookup started at depth 0, as `hook_rcpt` calls it. */
  function RegistryLookup(reg: Resolver.Registry): Lookup
  {
    a => Resolver.Resolve(reg, a, 0)
  }

  /** The recipient's host: the part after the first `@` (up to any second
      one), lower-cased; none when the address has no `@`. */
  function RecipientHost(recipient: string): (host: Option<string>)
    ensures host.None? <==> '@' !in recipient
    ensures host.Some? ==> Text.IsLower(host.value) && '@' !in host.value
  {
    var parts := Text.Split(recipient, '@');
    if |parts| < 2 then None else Some(Text.ToLower(parts[1]))
  }

  /** The host of `local@host` is `host` lower-cased; with a further `@`,
      only the text between the first and the second one. */
  lemma RecipientHostOf(local: string, host: string, rest: string)
    requires '@' !in local && '@' !in host
    ensures RecipientHost(local + "@" + host) == Some(Text.ToLower(host))
    ensures RecipientHost(local + "@" + host + "@" + rest) == Some(Text.ToLower(host))
  {
    Text.AddressParts(local, host);
    Text.SplitAfterPart(local, '@', host + "@" + rest);
    Text.SplitAfterPart(host, '@', rest);
    assert local + "@" + host + "@" + rest == local + ['@'] + (host + "@" + rest);
    assert host + "@" + rest == host + ['@'] + rest;
  }

  function NotServedMessage(host: string): string
  {
    "Not resolving because " + host + " is not in host_list"
  }

  /** `rcpt_to.pop()` followed by `rcpt_to.push(dest)`. */
  function ReplaceLast(rcpts: seq<string>, dest: string): (r: seq<string>)
    ensures |rcpts| > 0 ==> |r| == |rcpts|
    ensures |rcpts| == 0 ==> r == [dest]
    ensures forall i :: 0 <= i < |rcpts| - 1 ==> r[i] == rcpts[i]
    ensures r[|r| - 1] == dest
  {
    if |rcpts| == 0 then [dest] else rcpts[..|rcpts| - 1] + [dest]
  }

  /** `hook_rcpt` with the registry lookup as a parameter.
      - no transaction: continue, nothing changes;
      - no `@` in the recipient: the hook raises, nothing changes;
      - host not served: deny with the host named, nothing changes;
      - otherwise `relaying` is set; if the lookup fails the hook raises and
        the recipients are untouched, else the last recipient becomes the
        destination, every earlier one and the count staying as they were. */
  function HookRcpt(hosts: set<string>, lookup: Lookup, conn: Connection, recipient: string): (out: RcptOutcome)
    ensures conn.transaction.None? ==> out == RcptOutcome(Continue, conn)
    ensures conn.transaction.Some? && '@' !in recipient ==>
              out == RcptOutcome(Rejected(MalformedAddress), conn)
    ensures out.verdict.Deny? <==>
              conn.transaction.Some? && RecipientHost(recipient).Some? &&
              !HostList.IsServed(hosts, RecipientHost(recipient).value)
    ensures out.verdict.Deny? ==>
              out == RcptOutcome(Deny(NotServedMessage(RecipientHost(recipient).value)), conn)
    ensures out.connection.transaction.Some? <==> conn.transaction.Some?
    ensures out.connection.relaying <==>
              conn.relaying ||
              (conn.transaction.Some? && RecipientHost(recipient).Some? &&
               HostList.IsServed(hosts, RecipientHost(recipient).value))
    ensures conn.transaction.Some? && RecipientHost(recipient).Some? &&
            HostList.IsServed(hosts, RecipientHost(recipient).value) ==>
              out.verdict == (if lookup(Text.ToLower(recipient)).Ok? then Continue
                              else Rejected(Unresolved(lookup(Text.ToLower(recipient)).error)))
    ensures out.verdict == Rejected(MalformedAddress) ==> '@' !in recipient
    ensures out.verdict.Rejected? && !out.verdict.error.Unresolved? ==> out.connection == conn
    ensures out.verdict.Rejected? && out.verdict.error.Unresolved? ==>
              lookup(Text.ToLower(recipient)) == Err(out.verdict.error.error) &&
              out.connection.transaction == conn.transaction
    ensures conn.transaction.Some? && out.verdict == Continue ==>
              var before := conn.transaction.value.rcptTo;
              var after := out.connection.transaction.value.rcptTo;
              && lookup(Text.ToLower(recipient)).Ok?
              && (|before| > 0 ==> |after| == |before|)
              && (forall i :: 0 <= i < |before| - 1 ==> after[i] == before[i])
              && |after| > 0
              && (|before| == 0 ==> after == [lookup(Text.ToLower(recipient)).value])
              && after[|after| - 1] == lookup(Text.ToLower(recipient)).value
              && out.connection.transaction.value == conn.transaction.value.(rcptTo := after)
  {
    match conn.transaction
    case None => RcptOutcome(Continue, conn)
    case Some(txn) =>
      var address := Text.ToLower(recipient);
      match RecipientHost(recipient)
      case None => RcptOutcome(Rejected(MalformedAddress), conn)
      case Some(host) =>
        if !HostList.IsServed(hosts, host) then RcptOutcome(Deny(NotServedMessage(host)), conn)
        else
          var relayed := conn.(relaying := true);
          match lookup(address)
          case Err(e) => RcptOutcome(Rejected(Unresolved(e)), relayed)
          case Ok(dest) =>
            RcptOutcome(Continue, relayed.(transaction := Some(txn.(rcptTo := ReplaceLast(txn.rcptTo, dest)))))
  }

  /** End to end: a recipient `local@host` whose host is served and whose
      lower-cased local part names a registry entry with a `mx.forwardTo`
      record is replaced by that record, and the connection is relaying. */
  lemma ForwardedRecipient(hosts: set<string>, reg: Resolver.Registry, txn: Transaction,
                           local: string, host: string)
    requires '@' !in local && '@' !in host
    requires HostList.IsServed(hosts, Text.ToLower(host))
    requires Resolver.GetText(reg, Text.ToLower(local) + Resolver.Tld, Resolver.ForwardToKey) != ""
    ensures var out := HookRcpt(hosts, RegistryLookup(reg), Connection(Some(txn), false), local + "@" + host);
      && out.verdict == Continue
      && out.connection.relaying
      && out.connection.transaction == Some(txn.(rcptTo := ReplaceLast(txn.rcptTo,
           Resolver.GetText(reg, Text.ToLower(local) + Resolver.Tld, Resolver.ForwardToKey))))
  {
    var recipient := local + "@" + host;
    Text.AddressParts(local, host);
    Text.SplitToLower(recipient);
    var lowered := Text.ToLower(recipient);
    assert Text.Split(lowered, '@') == [Text.ToLower(local), Text.ToLower(host)];
    assert Resolver.RegistryName(lowered) == Text.ToLower(local) + Resolver.Tld;
    assert RecipientHost(recipient) == Some(Text.ToLower(host));
  }

  /** `add_header(name, value)`: the value is appended to the field's values. */
  function AddHeader(headers: Headers, name: string, value: string): (r: Headers)
    ensures name in r && r[name] == (if name in headers then headers[name] else []) + [value]
    ensures forall k :: k != name ==> (k in r <==> k in headers) && (k in headers ==> r[k] == headers[k])
  {
    headers[name := (if name in headers then headers[name] else []) + [value]]
  }

  /** `remove_header(name)`: every value of the field is dropped. */
  function RemoveHeader(headers: Headers, name: string): (r: Headers)
    ensures name !in r
    ensures forall k :: k != name ==> (k in r <==> k in headers) && (k in headers ==> r[k] == headers[k])
  {
    headers - {name}
  }

  /** Lower-case names of the fields the rewrite touches. */
  const FromField: string := "from"
  const ReplyToField: string := "reply-to"

  /** The `From` value naming the forwarder. */
  function ForwarderFrom(forwarder: string): string
  {
    "Forwarder <" + forwarder + ">"
  }

  /** `hook_data_post`: the first original `From` value is appended to
      `Reply-to` verbatim, `From` becomes exactly the forwarder, the envelope
      sender becomes the forwarder, and every other field and the recipients
      are unchanged. Without a `From` value the hook raises. */
  function HookDataPost(txn: Transaction, forwarder: string): (r: Result<Transaction, HookError>)
    ensures r.Err? <==> FromField !in txn.headers || |txn.headers[FromField]| == 0
    ensures r.Err? ==> r.error == MissingFrom
    ensures r.Ok? ==>
      var h := r.value.headers;
      && FromField in h && h[FromField] == [ForwarderFrom(forwarder)]
      && ReplyToField in h && |h[ReplyToField]| > 0
      && h[ReplyToField][|h[ReplyToField]| - 1] == txn.headers[FromField][0]
      && h[ReplyToField][..|h[ReplyToField]| - 1] ==
           (if ReplyToField in txn.headers then txn.headers[ReplyToField] else [])
      && (forall k :: k != FromField && k != ReplyToField ==>
            (k in h <==> k in txn.headers) && (k in h ==> h[k] == txn.headers[k]))
      && r.value.mailFrom == forwarder
      && r.value.rcptTo == txn.rcptTo
  {
    if FromField !in txn.headers || |txn.headers[FromField]| == 0 then Err(MissingFrom)
    else
      var original := txn.headers[FromField][0];
      var withReplyTo := AddHeader(txn.headers, ReplyToField, original);
      var withoutFrom := RemoveHeader(withReplyTo, FromField);
      var rewritten := AddHeader(withoutFrom, FromField, ForwarderFrom(forwarder));
      Ok(txn.(headers := rewritten, mailFrom := forwarder))
  }

  /** A message without an earlier `Reply-to` ends with exactly one, the
      original sender; the original sender is no longer a `From` value unless
      it was the forwarder line itself. */
  lemma OriginalSenderMovesToReplyTo(txn: Transaction, forwarder: string)
    requires FromField in txn.headers && |txn.headers[FromField]| > 0
    requires ReplyToField !in txn.headers
    ensures HookDataPost(txn, forwarder).Ok?
    ensures HookDataPost(txn, forwarder).value.headers[ReplyToField] == [txn.headers[FromField][0]]
    ensures txn.headers[FromField][0] != ForwarderFrom(forwarder) ==>
              txn.headers[FromField][0] !in HookDataPost(txn, forwarder).value.headers[FromField]
  {
    var h := HookDataPost(txn, forwarder).value.headers;
    assert h[ReplyToField] == h[ReplyToField][..|h[ReplyToField]| - 1] + [h[ReplyToField][|h[ReplyToField]| - 1]];
  }
}
