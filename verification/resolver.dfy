/** Registry resolution of a mail address (`lookup_ens_dest`): the local part
    names a registry entry `<local>.eth` whose text records are read in a
    fixed priority order, following `mx.canonical` redirects to a bounded
    depth. */
module Resolver {
  import opened Results
  import Text

  /** The text records of one registry name, by key. */
  type Records = map<string, string>

  /** The naming registry as the plugin sees it: name -> key -> value. */
  type Registry = map<string, Records>

  const ForwardToKey: string := "mx.forwardTo"
  const CanonicalKey: string := "mx.canonical"
  const EmailKey: string := "email"
  const Tld: string := ".eth"

  /** A `mx.canonical` record is followed only while the depth is at most this. */
  const MaxRedirectDepth: nat := 10

  /** The two ways resolution raises `NoDestError`: with the message
      "no destination found" and with "too many redirects". */
  datatype ResolveError = NoDestinationFound | TooManyRedirects

  /** `getText(key)` tested for truthiness: a missing name, a missing key and
      an empty value all read as "". */
  function GetText(reg: Registry, name: string, key: string): (v: string)
    ensures v != "" ==> name in reg && key in reg[name] && reg[name][key] == v
    ensures name in reg && key in reg[name] ==> v == reg[name][key]
  {
    if name in reg && key in reg[name] then reg[name][key] else ""
  }

  /** The registry name of a mail address: the part before the first `@`,
      followed by `.eth`. */
  function RegistryName(mailAddress: string): (name: string)
    ensures |name| >= |Tld| && name[|name| - |Tld|..] == Tld
    ensures '@' !in name
  {
    Text.Split(mailAddress, '@')[0] + Tld
  }

  /** The registry name of `local@host` is `local.eth`. */
  lemma RegistryNameOfAddress(local: string, host: string)
    requires '@' !in local && '@' !in host
    ensures RegistryName(local + "@" + host) == local + Tld
  {
    Text.AddressParts(local, host);
  }

  /** The registry name of any address is its part before the first `@`
      followed by `.eth`: a canonical value without `@` names itself, and
      with several `@` only the text before the first one counts. */
  lemma RegistryNameOfPrefix(local: string, rest: string)
    requires '@' !in local
    ensures RegistryName(local) == local + Tld
    ensures RegistryName(local + "@" + rest) == local + Tld
  {
    Text.SplitAfterPart(local, '@', rest);
    assert local + "@" + rest == local + ['@'] + rest;
  }

  /** A value that the registry holds as some name's `mx.forwardTo` or
      `email` record: the only kinds of record resolution delivers to. */
  ghost predicate IsDeliveryRecord(reg: Registry, v: string)
  {
    exists name :: name in reg &&
      ((ForwardToKey in reg[name] && reg[name][ForwardToKey] == v) ||
       (EmailKey in reg[name] && reg[name][EmailKey] == v))
  }

  /** `lookup_ens_dest(mailAddress, depth)`. The recursive call on a
      canonical record is a call to `lookup_ens_dest` itself; the source
      names a method that does not exist at that point (see
      `ResolveAsWritten`), and the self-call is its evident intent. A result
      is never empty and is always a value the registry holds under some
      name's `mx.forwardTo` or `email` key. */
  function Resolve(reg: Registry, mailAddress: string, depth: nat): (r: Result<string, ResolveError>)
    ensures r.Ok? ==> r.value != ""
    ensures r.Ok? ==> IsDeliveryRecord(reg, r.value)
    decreases 11 - depth
  {
    var name := RegistryName(mailAddress);
    var forwardTo := GetText(reg, name, ForwardToKey);
    if forwardTo != "" then Ok(forwardTo)
    else
      var canonical := GetText(reg, name, CanonicalKey);
      if canonical != "" then
        if depth > MaxRedirectDepth then Err(TooManyRedirects)
        else Resolve(reg, canonical, depth + 1)
      else
        var email := GetText(reg, name, EmailKey);
        if email != "" then Ok(email) else Err(NoDestinationFound)
  }

  /** A non-empty `mx.forwardTo` wins: the result is that value, whatever the
      other records of the name (or of any other name) hold. */
  lemma ForwardToWins(reg1: Registry, reg2: Registry, mailAddress: string, d1: nat, d2: nat)
    requires GetText(reg1, RegistryName(mailAddress), ForwardToKey) != ""
    requires GetText(reg1, RegistryName(mailAddress), ForwardToKey)
          == GetText(reg2, RegistryName(mailAddress), ForwardToKey)
    ensures Resolve(reg1, mailAddress, d1) == Resolve(reg2, mailAddress, d2)
              == Ok(GetText(reg1, RegistryName(mailAddress), ForwardToKey))
  {
  }

  /** The `email` record is a fallback: it decides the result exactly when
      neither `mx.forwardTo` nor `mx.canonical` is non-empty, and then an
      empty or missing `email` fails with "no destination found". */
  lemma EmailIsFallback(reg: Registry, mailAddress: string, depth: nat)
    ensures var name := RegistryName(mailAddress);
      GetText(reg, name, ForwardToKey) == "" && GetText(reg, name, CanonicalKey) == "" ==>
        Resolve(reg, mailAddress, depth) ==
          (if GetText(reg, name, EmailKey) != "" then Ok(GetText(reg, name, EmailKey))
           else Err(NoDestinationFound))
  {
  }

  /** A first name with no records at all fails with "no destination
      found". */
  lemma NoRecordsNoDestination(reg: Registry, mailAddress: string, depth: nat)
    requires RegistryName(mailAddress) !in reg
    ensures Resolve(reg, mailAddress, depth) == Err(NoDestinationFound)
  {
  }

  /** A non-empty `mx.canonical` (and no `mx.forwardTo`) at depth `d`: up to
      depth 10 resolution continues with the canonical value at `d + 1`;
      beyond it fails with "too many redirects". */
  lemma CanonicalRedirects(reg: Registry, mailAddress: string, depth: nat)
    requires GetText(reg, RegistryName(mailAddress), ForwardToKey) == ""
    requires GetText(reg, RegistryName(mailAddress), CanonicalKey) != ""
    ensures depth <= MaxRedirectDepth ==>
      Resolve(reg, mailAddress, depth)
        == Resolve(reg, GetText(reg, RegistryName(mailAddress), CanonicalKey), depth + 1)
    ensures depth > MaxRedirectDepth ==>
      Resolve(reg, mailAddress, depth) == Err(TooManyRedirects)
  {
  }

  /** `hops` is a chain of redirects: each address's name has no
      `mx.forwardTo` and has the next address as its (non-empty)
      `mx.canonical`. */
  ghost predicate CanonicalChain(reg: Registry, hops: seq<string>)
    decreases |hops|
  {
    |hops| <= 1 ||
    (GetText(reg, RegistryName(hops[0]), ForwardToKey) == "" &&
     hops[1] != "" &&
     GetText(reg, RegistryName(hops[0]), CanonicalKey) == hops[1] &&
     CanonicalChain(reg, hops[1..]))
  }

  /** Following the first `k` redirects of a chain from depth `d` is
      resolving the `k`-th address at depth `d + k`, as long as every hop
      happens at depth 10 or less. */
  lemma {:induction false} FollowChain(reg: Registry, hops: seq<string>, k: nat, depth: nat)
    requires CanonicalChain(reg, hops) && k < |hops|
    requires depth + k <= MaxRedirectDepth + 1
    ensures Resolve(reg, hops[0], depth) == Resolve(reg, hops[k], depth + k)
    decreases k
  {
    if k > 0 {
      assert Resolve(reg, hops[0], depth) == Resolve(reg, hops[1], depth + 1);
      FollowChain(reg, hops[1..], k - 1, depth + 1);
    }
  }

  /** Eleven redirects from a fresh lookup are all followed: a chain of
      eleven `mx.canonical` hops ending at a name with a `mx.forwardTo`
      resolves to that value. */
  lemma ElevenRedirectsFollowed(reg: Registry, hops: seq<string>)
    requires |hops| == 12 && CanonicalChain(reg, hops)
    requires GetText(reg, RegistryName(hops[11]), ForwardToKey) != ""
    ensures Resolve(reg, hops[0], 0) == Ok(GetText(reg, RegistryName(hops[11]), ForwardToKey))
  {
    FollowChain(reg, hops, 11, 0);
  }

  /** A chain's step at position `i`. */
  lemma {:induction false} ChainStep(reg: Registry, hops: seq<string>, i: nat)
    requires CanonicalChain(reg, hops) && i + 1 < |hops|
    ensures GetText(reg, RegistryName(hops[i]), ForwardToKey) == ""
    ensures GetText(reg, RegistryName(hops[i]), CanonicalKey) == hops[i + 1] != ""
    decreases i
  {
    if i > 0 {
      ChainStep(reg, hops[1..], i - 1);
    }
  }

  /** The twelfth redirect is refused: a chain of twelve `mx.canonical` hops
      fails with "too many redirects", whatever the records further on. */
  lemma TwelfthRedirectFails(reg: Registry, hops: seq<string>)
    requires |hops| == 13 && CanonicalChain(reg, hops)
    ensures Resolve(reg, hops[0], 0) == Err(TooManyRedirects)
  {
    FollowChain(reg, hops, 11, 0);
    ChainStep(reg, hops, 11);
  }

  /** A name whose `mx.canonical` leads back to itself is a redirect loop:
      resolution stops with "too many redirects" from any depth. */
  lemma {:induction false} RedirectLoopFails(reg: Registry, mailAddress: string, depth: nat)
    requires GetText(reg, RegistryName(mailAddress), ForwardToKey) == ""
    requires GetText(reg, RegistryName(mailAddress), CanonicalKey) != ""
    requires RegistryName(GetText(reg, RegistryName(mailAddress), CanonicalKey)) == RegistryName(mailAddress)
    ensures Resolve(reg, mailAddress, depth) == Err(TooManyRedirects)
    decreases 11 - depth
  {
    if depth <= MaxRedirectDepth {
      var canonical := GetText(reg, RegistryName(mailAddress), CanonicalKey);
      RedirectLoopFails(reg, canonical, depth + 1);
    }
  }

  /** What the source raises on its canonical branch: `NoDestError` or, since
      the method it calls is not defined, a `TypeError`. */
  datatype SourceFailure = Thrown(error: ResolveError) | NotAFunction

  /** `lookup_ens_dest` as written: the canonical branch calls
      `this.lookup_ens_mx`, which is undefined, so a redirect within the depth
      bound raises a `TypeError` instead of being followed. */
  function ResolveAsWritten(reg: Registry, mailAddress: string, depth: nat): (r: Result<string, SourceFailure>)
    ensures r.Ok? ==> r.value != ""
    ensures r == Err(NotAFunction) <==>
      var name := RegistryName(mailAddress);
      GetText(reg, name, ForwardToKey) == "" && GetText(reg, name, CanonicalKey) != ""
        && depth <= MaxRedirectDepth
  {
    var name := RegistryName(mailAddress);
    var forwardTo := GetText(reg, name, ForwardToKey);
    if forwardTo != "" then Ok(forwardTo)
    else
      var canonical := GetText(reg, name, CanonicalKey);
      if canonical != "" then
        if depth > MaxRedirectDepth then Err(Thrown(TooManyRedirects))
        else Err(NotAFunction)
      else
        var email := GetText(reg, name, EmailKey);
        if email != "" then Ok(email) else Err(Thrown(NoDestinationFound))
  }

  /** Where no redirect is followed, the code as written and the intended
      resolution agree. */
  lemma AsWrittenAgreesWithoutRedirect(reg: Registry, mailAddress: string, depth: nat)
    requires ResolveAsWritten(reg, mailAddress, depth) != Err(NotAFunction)
    ensures match ResolveAsWritten(reg, mailAddress, depth)
      case Ok(v) => Resolve(reg, mailAddress, depth) == Ok(v)
      case Err(f) => Resolve(reg, mailAddress, depth) == Err(f.error)
  {
  }

  /** A registry where the name of `from@host` redirects to `to@host` and
      the name of `to@host` forwards to `dest`. */
  function RedirectRegistry(from: string, to: string, host: string, dest: string): Registry
  {
    map[from + Tld := map[CanonicalKey := to + "@" + host],
        to + Tld := map[ForwardToKey := dest]]
  }

  /** On such a registry the code as written raises a `TypeError` for
      `from@host`, while the intended resolution follows the redirect to
      `dest`; for instance `alice.eth` redirecting to `bob@served.example`
      and `bob.eth` forwarding to `carol@elsewhere.example`. */
  lemma RedirectCounterexample(from: string, to: string, host: string, dest: string)
    requires '@' !in from && '@' !in to && '@' !in host
    requires from != to && dest != ""
    ensures ResolveAsWritten(RedirectRegistry(from, to, host, dest), from + "@" + host, 0) == Err(NotAFunction)
    ensures Resolve(RedirectRegistry(from, to, host, dest), from + "@" + host, 0) == Ok(dest)
  {
    var reg := RedirectRegistry(from, to, host, dest);
    RegistryNameOfAddress(from, host);
    RegistryNameOfAddress(to, host);
    assert from + Tld != to + Tld by {
      assert (from + Tld)[..|from|] == from;
      assert (to + Tld)[..|to|] == to;
    }
    assert GetText(reg, from + Tld, ForwardToKey) == "";
    assert GetText(reg, from + Tld, CanonicalKey) == to + "@" + host;
    assert GetText(reg, to + Tld, ForwardToKey) == dest;
  }
}
