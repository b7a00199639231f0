# ensmail routing core, modelled in Dafny

This project models the routing logic of the `haraka-plugin-ensmail` mail
plugin. The plugin forwards mail for locally served hosts to addresses held
in the Ethereum Name Service registry. The model covers four pieces:

- **Registry resolution** (`lookup_ens_dest`). The local part of `local@host`
  names the registry entry `local.eth`. Three text records are read in a
  fixed order:
  - `mx.forwardTo` is delivered at once;
  - `mx.canonical` is a redirect, followed while the depth is at most 10;
  - `email` is the fallback.

  An empty record counts as absent. Failures are `NoDestError` with the
  message "no destination found" or "too many redirects".
- **Host list** (`load_host_list`). The configured hosts, lower-cased, form a
  set. Membership is an exact match.
- **Recipient hook** (`hook_rcpt`). The hook:
  - denies a recipient whose host is not served;
  - otherwise marks the connection as relaying;
  - replaces the last recipient with the resolved destination.
- **Data hook** (`hook_data_post`). It rewrites the originator fields of
  section 3.6.2 of RFC 5322:
  - the first original `From` value is added to `Reply-to`;
  - `From` becomes `Forwarder <fwd>`;
  - the envelope sender becomes `fwd`.

Modules: `Results` (Option/Result), `Text` (`toLowerCase`, `split("@")`),
`Resolver`, `HostList`, `Envelope`. The registry is a pure map
`name -> key -> value`. Connection and transaction are immutable records. The
lookup is a parameter of `Envelope.HookRcpt`, so the hook's effect on the
connection can be stated apart from the registry.

In these places the model follows what the code does, not what the plugin evidently intends:
- On a recipient with no `@`, the code raises a `TypeError`. The model returns
  `Rejected(MalformedAddress)` and changes nothing.
- When the lookup fails, the code raises `NoDestError`. It does not return a
  denial. By then `relaying` is already true. The model returns
  `Rejected(Unresolved(e))`, with `relaying` set and the recipients unchanged.
- The host is the text between the first and second `@`, lower-cased.
- `Reply-to` is added with `add_header`. That call appends to any existing
  `Reply-to` values, so an earlier `Reply-to` is not replaced.

## Model

| member | source | states |
|---|---|---|
| Resolver.Resolve | index.js:102-121 | Resolution returns only a non-empty value. That value is one the registry holds under some name's `mx.forwardTo` or `email` key. Termination follows from the depth rising on every redirect up to the bound. |
| Resolver.GetText | index.js:107-118 | A record read is the stored value when the name and key are present. A non-empty read comes from a stored record, so an empty or missing record reads as `""`, which the truthiness tests treat as absent. |
| Resolver.RegistryName | index.js:103 | The registry name of any address ends in `.eth` and contains no `@`. |
| Resolver.RegistryNameOfPrefix | index.js:103 | For any address, including a canonical value fed back at index.js:114, the registry name is the text before the first `@` followed by `.eth`. An address without `@` names itself plus `.eth`. |
| Resolver.RegistryNameOfAddress | index.js:103 | The registry name of `local@host` is `local.eth`. |
| Resolver.ForwardToWins | index.js:107-109 | A non-empty `mx.forwardTo` is the result at any depth, whatever every other record in the registry holds. |
| Resolver.EmailIsFallback | index.js:117-120 | When `mx.forwardTo` and `mx.canonical` are both empty or missing, the result is the `email` record if it is non-empty, and otherwise "no destination found". |
| Resolver.NoRecordsNoDestination | index.js:107-120 | A lookup whose first name has no registry entry fails with "no destination found". |
| Resolver.CanonicalRedirects | index.js:111-115 | With an empty `mx.forwardTo`, a non-empty `mx.canonical` at depth d <= 10 resolves the canonical value at depth d+1. At d > 10 it fails with "too many redirects". |
| Resolver.FollowChain | index.js:111-115 | Following k redirects of a chain from depth d equals resolving the k-th address at depth d+k, provided d+k <= 11. |
| Resolver.ElevenRedirectsFollowed | index.js:113-114 | A chain of exactly 11 redirects, ending at a name with `mx.forwardTo`, resolves to that value. |
| Resolver.TwelfthRedirectFails | index.js:113 | A chain of 12 redirects fails with "too many redirects". |
| Resolver.RedirectLoopFails | index.js:111-115 | A name whose `mx.canonical` leads back to the same name fails with "too many redirects" from any depth. |
| Resolver.ResolveAsWritten | index.js:114 | As written, a redirect within the bound raises a `TypeError`. This happens exactly when `mx.forwardTo` is empty, `mx.canonical` is non-empty and the depth is at most 10. |
| Resolver.AsWrittenAgreesWithoutRedirect | index.js:107-120 | Where no redirect is followed, the code as written and the intended resolution give the same result. |
| Resolver.RedirectCounterexample | index.js:114 | Take a name that redirects to a second name, which forwards. The code as written raises a `TypeError`, while the intended resolution delivers to the second name's `mx.forwardTo`. |
| Text.Split | index.js:103 | `split("@")` yields at least one part, and no part contains `@`. A string with no `@` is its own single part. A string with an `@` yields two or more parts. |
| Text.JoinSplit | index.js:103 | Joining the parts of `split("@")` with `@` gives back the address. |
| Text.SplitJoin | index.js:103 | Splitting the join of `@`-free parts gives back those parts. |
| Text.ToLower | index.js:67 | The lower-cased address has the same length, each character is that of the input with `A`-`Z` mapped to `a`-`z`, and no upper-case letter remains. |
| Text.ToLowerIdempotent | index.js:50 | Lower-casing an already lower-cased entry changes nothing. |
| Text.SplitToLower | index.js:67-68 | The parts of the lower-cased address are the lower-cased parts of the address. So the host taken from the original address agrees with the lower-cased address passed to the lookup. |
| HostList.HostSet | index.js:49-53 | The reference host set: the set of the lower-cased configured entries, against which the loop is proved. |
| HostList.LoadHostList | index.js:43-54 | A host is in the built set exactly when some configured entry lower-cases to it. Every member is lower-case. |
| HostList.HostSetAppend | index.js:49-51 | Each configured entry adds exactly its lower-cased form. |
| HostList.ServedIffConfigured | index.js:69 | A host is served exactly when a configured entry lower-cases to it, by exact match and not by suffix. A case variant of an entry is served once lower-cased. An empty list serves nothing. |
| HostList.SameEntriesSameHosts | index.js:49-53 | Reordering or repeating the configured entries gives the same host set. |
| HostList.CaseVariantCollapses | index.js:50 | Adding a case variant of a listed entry leaves the host set unchanged. |
| HostList.IsServed | index.js:69 | The corrected served test: exact membership of the lower-cased host in the host set. |
| HostList.IsServedAsWritten | index.js:69 | The served test as written accepts `constructor` and `__proto__` whatever the host set. For every other host it agrees with exact membership. |
| HostList.InheritedKeyCounterexample | index.js:69 | As written, the lookup on a plain object agrees with exact membership except for `constructor` and `__proto__`. Those count as served even with an empty host list. |
| Envelope.RegistryLookup | index.js:78 | The lookup the hook performs: the intended resolution (with the redirect followed, not the code as written at index.js:114), started at the default depth 0 of index.js:102. |
| Envelope.NotServedMessage | index.js:71 | The deny text: "Not resolving because <host> is not in host_list". |
| Envelope.RecipientHost | index.js:68 | The host is absent exactly when the recipient has no `@`. Otherwise it is lower-case and contains no `@`. |
| Envelope.RecipientHostOf | index.js:68 | The host of `local@host` is `host` lower-cased, and with a further `@` it is only the text between the first and second `@`. |
| Envelope.ReplaceLast | index.js:80-81 | The pop then push keeps the count of a non-empty list and every earlier recipient, and the last recipient becomes the destination. |
| Envelope.HookRcpt | index.js:61-84 | The hook's effect, case by case: (1) With no transaction: continue, nothing changes. (2) With no `@`: raise, nothing changes. (3) Deny exactly when the host is not served, with the host named in the message and nothing changed. (4) `relaying` is set exactly when the host is served. (5) For a served host the hook continues exactly when the lookup succeeds, and otherwise raises with the lookup's error, leaving the recipients unchanged; no other raise changes anything. (6) On continue, the last recipient becomes the lookup's destination, and the count and all earlier recipients are unchanged; an empty list becomes exactly the destination. |
| Envelope.ForwardedRecipient | index.js:67-81 | End to end: a served `local@host` whose lower-cased `local.eth` has a `mx.forwardTo` has its last recipient replaced by that value, and the connection is relaying. |
| Envelope.ForwarderFrom | index.js:95 | The new `From` value: `Forwarder <fwd>` with the configured forwarder address. |
| Envelope.AddHeader | index.js:91 | Adding a header appends the value to that field's existing values, or starts a one-value list. Every other field is unchanged. This is the host runtime's `add_header` behaviour. |
| Envelope.RemoveHeader | index.js:92 | Removing a header drops the field and all its values. Every other field is unchanged. This is the host runtime's `remove_header` behaviour. |
| Envelope.HookDataPost | index.js:86-100 | The first original `From` value is appended verbatim to `Reply-to`. `From` becomes exactly `["Forwarder <fwd>"]`. The envelope sender becomes `fwd`. Every other field and the recipients are unchanged. Without a `From` value the hook raises. |
| Envelope.OriginalSenderMovesToReplyTo | index.js:91-93 | With no earlier `Reply-to`, `Reply-to` is exactly the original sender, and, unless it equals the forwarder line `Forwarder <fwd>`, the original sender is no longer a `From` value. |

## Findings

| source | as written | input that shows it | evidently intended | confidence | as-written member | corrected member |
|---|---|---|---|---|---|---|
| index.js:114 | a redirect calls `this.lookup_ens_mx`, which is not defined, so it raises a `TypeError` | `alice.eth` has `mx.canonical = bob@served.example`, `bob.eth` has `mx.forwardTo = carol@elsewhere.example`, recipient `alice@served.example` | a self-call `lookup_ens_dest(mxCanonical, depth + 1)` that delivers to `carol@elsewhere.example` | high; not executed | Resolver.ResolveAsWritten, Resolver.RedirectCounterexample | Resolver.Resolve, Resolver.CanonicalRedirects |
| index.js:69 | `host_list` is a plain object, so `host_list["constructor"]` and `host_list["__proto__"]` are truthy | empty host list, recipient `bob@constructor`: not denied, marked relaying and resolved | exact membership in the configured hosts | high; not executed | HostList.IsServedAsWritten, HostList.InheritedKeyCounterexample | HostList.IsServed, HostList.ServedIffConfigured |

## Left out

- `register` and `load_ensmail_ini` (index.js:11-41) are left out. They read configuration, build the RPC provider and resolve the template path. The startup failure in `RECEIVE` mode is also left out. All of this is configuration I/O.
- `hook_mail` (index.js:56-59) is left out because it does nothing.
- Registry access is not modelled: `EnsResolver.fromName`, `getText`, network and transport errors. The registry is a pure map. A name with no resolver is treated as a name with no records, whereas the code would dereference a null resolver.
- The `next` callback, async scheduling and logging are not modelled. So is the host runtime's handling of a hook that raises: the model reports `Rejected` and stops there.
- `Address` objects from `address-rfc2821` are not modelled. Addresses are plain strings. A destination that the `Address` constructor would refuse is not detected.
- Text.ToLower: it maps only ASCII `A`-`Z`. JavaScript's `toLowerCase` also maps non-ASCII letters.
- The `NoDestError` class (error.js, whose `name` is spelled "NoDistError") is not modelled as a class. It is represented by the `Resolver.ResolveError` variants and their messages.
- Header storage is reduced to the behaviour the code relies on. `add_header` and `remove_header` belong to the host runtime. They are modelled as appending a value to, or dropping, the lower-case field name. The raw header text is not modelled.
- Envelope.HookDataPost: it takes the transaction directly. The hook never runs without one, so the crash on a missing transaction is not modelled.
- Sender authentication, backoff and outbound-vs-inbound classification are not modelled. The plugin does not implement them.
