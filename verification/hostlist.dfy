/** The set of locally served mail hosts (`load_host_list`) and the
    membership test `hook_rcpt` applies to it. */
module HostList {
  import Text

  /** The served hosts: every configured entry, lower-cased. Case variants
      and duplicates of an entry collapse into one member. */
  function HostSet(raw: seq<string>): set<string>
  {
    set i | 0 <= i < |raw| :: Text.ToLower(raw[i])
  }

  /** `load_host_list`: one pass over the configured list, recording each
      lower-cased entry. A host is in the result exactly when some entry
      lower-cases to it, and every member is lower-case. */
  method LoadHostList(raw: seq<string>) returns (hosts: set<string>)
    ensures forall h :: h in hosts <==> exists i :: 0 <= i < |raw| && Text.ToLower(raw[i]) == h
    ensures forall h :: h in hosts ==> Text.IsLower(h)
    ensures hosts == HostSet(raw)
  {
    hosts := {};
    var i := 0;
    while i < |raw|
      invariant 0 <= i <= |raw|
      invariant hosts == HostSet(raw[..i])
    {
      assert raw[..i + 1] == raw[..i] + [raw[i]];
      HostSetAppend(raw[..i], raw[i]);
      hosts := hosts + {Text.ToLower(raw[i])};
      i := i + 1;
    }
    assert raw[..i] == raw;
  }

  /** Adding an entry to the list adds its lower-cased form to the set. */
  lemma HostSetAppend(raw: seq<string>, entry: string)
    ensures HostSet(raw + [entry]) == HostSet(raw) + {Text.ToLower(entry)}
  {
    var extended := raw + [entry];
    forall h | h in HostSet(extended)
      ensures h in HostSet(raw) + {Text.ToLower(entry)}
    {
      var i :| 0 <= i < |extended| && Text.ToLower(extended[i]) == h;
      if i < |raw| {
        assert extended[i] == raw[i];
      }
    }
    forall h | h in HostSet(raw)
      ensures h in HostSet(extended)
    {
      var i :| 0 <= i < |raw| && Text.ToLower(raw[i]) == h;
      assert extended[i] == raw[i];
    }
    assert Text.ToLower(extended[|raw|]) in HostSet(extended);
  }

  /** `host_list[host]` intended as exact membership: no suffix or partial
      matching, and the host is compared as given (the caller lower-cases). */
  predicate IsServed(hosts: set<string>, host: string)
  {
    host in hosts
  }

  /** A host is served exactly when some configured entry, lower-cased, is
      that host; a case variant of a configured entry is served once
      lower-cased; an empty list serves nothing. */
  lemma ServedIffConfigured(raw: seq<string>, host: string)
    ensures IsServed(HostSet(raw), host) <==>
              exists i :: 0 <= i < |raw| && Text.ToLower(raw[i]) == host
    ensures (exists i :: 0 <= i < |raw| && Text.ToLower(raw[i]) == Text.ToLower(host)) ==>
              IsServed(HostSet(raw), Text.ToLower(host))
    ensures |raw| == 0 ==> !IsServed(HostSet(raw), host)
  {
  }

  /** Only the set of entries matters: reordering or repeating entries of
      the list gives the same host set. */
  lemma SameEntriesSameHosts(raw1: seq<string>, raw2: seq<string>)
    requires forall x :: x in raw1 <==> x in raw2
    ensures HostSet(raw1) == HostSet(raw2)
  {
    forall h | h in HostSet(raw1) ensures h in HostSet(raw2) {
      var i :| 0 <= i < |raw1| && Text.ToLower(raw1[i]) == h;
      assert raw1[i] in raw2;
      var j :| 0 <= j < |raw2| && raw2[j] == raw1[i];
    }
    forall h | h in HostSet(raw2) ensures h in HostSet(raw1) {
      var i :| 0 <= i < |raw2| && Text.ToLower(raw2[i]) == h;
      assert raw2[i] in raw1;
      var j :| 0 <= j < |raw1| && raw1[j] == raw2[i];
    }
  }

  /** An entry that is a case variant of one already listed adds nothing. */
  lemma CaseVariantCollapses(raw: seq<string>, i: nat, variant: string)
    requires i < |raw| && Text.ToLower(variant) == Text.ToLower(raw[i])
    ensures HostSet(raw + [variant]) == HostSet(raw)
  {
    HostSetAppend(raw, variant);
  }

  /** Property names every plain JavaScript object inherits whose spelling
      is all lower-case, so that a lower-cased host can equal them. */
  const InheritedKeys: set<string> := {"constructor", "__proto__"}

  /** `host_list[host]` as written: `host_list` is a plain object, so a
      lookup of an inherited property name yields a truthy value even when
      no entry was configured under it. It accepts every inherited name and
      otherwise agrees with exact membership. */
  predicate IsServedAsWritten(hosts: set<string>, host: string)
    ensures host in InheritedKeys ==> IsServedAsWritten(hosts, host)
    ensures host !in InheritedKeys ==> (IsServedAsWritten(hosts, host) <==> IsServed(hosts, host))
  {
    host in hosts || host in InheritedKeys
  }

  /** The membership test as written agrees with exact membership except on
      the inherited names, which it accepts even with an empty host list. */
  lemma InheritedKeyCounterexample(raw: seq<string>, host: string)
    ensures host !in InheritedKeys ==>
              (IsServedAsWritten(HostSet(raw), host) <==> IsServed(HostSet(raw), host))
    ensures IsServedAsWritten(HostSet([]), "constructor")
    ensures !IsServed(HostSet([]), "constructor")
  {
  }
}
