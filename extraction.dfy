/**
 * Identifier extraction from the initial query's entries: the five sets
 * `emails`, `usernames`, `names`, `phones` and `ips` filled entry by entry.
 */
module Extraction {
  import opened Wrappers
  import opened Records

  /**
   * Walks the initial entries once and adds every truthy email, username,
   * name, phone and ip_address to the set of its kind, verbatim.
   */
  method ExtractIdentifiers(entries: seq<Entry>) returns (ids: KindSets)
    ensures ids == Identifiers(entries)
  {
    var emails, usernames, names, phones, ips := {}, {}, {}, {}, {};
    for i := 0 to |entries|
      invariant emails == Values(entries[..i], Email)
      invariant usernames == Values(entries[..i], Username)
      invariant names == Values(entries[..i], Name)
      invariant phones == Values(entries[..i], Phone)
      invariant ips == Values(entries[..i], Ip)
    {
      var entry := entries[i];
      assert entries[..i + 1] == entries[..i] + [entry];
      forall k { ValuesSnoc(entries[..i], entry, k); }
      if IsSet(entry.email) { emails := emails + {entry.email.value}; }
      if IsSet(entry.username) { usernames := usernames + {entry.username.value}; }
      if IsSet(entry.name) { names := names + {entry.name.value}; }
      if IsSet(entry.phone) { phones := phones + {entry.phone.value}; }
      if IsSet(entry.ipAddress) { ips := ips + {entry.ipAddress.value}; }
    }
    assert entries[..|entries|] == entries;
    ids := KindSets(emails, usernames, names, phones, ips);
  }

  /**
   * The initial identifier sets as a value, what `ExtractIdentifiers` returns:
   * a value is in the set for kind `k` iff some initial entry has that field
   * present, non-empty and equal to it; an empty string never is.
   */
  function Identifiers(entries: seq<Entry>): (ids: KindSets)
    ensures forall k :: ids.Of(k) == Values(entries, k)
    ensures forall k, v :: v in ids.Of(k) <==>
              v != "" && exists i :: 0 <= i < |entries| && FieldOf(entries[i], k) == Some(v)
  {
    forall k, v
      ensures v in Values(entries, k) <==>
                v != "" && exists i :: 0 <= i < |entries| && FieldOf(entries[i], k) == Some(v)
    {
      ValuesMembership(entries, k, v);
    }
    KindSets(Values(entries, Email), Values(entries, Username), Values(entries, Name),
             Values(entries, Phone), Values(entries, Ip))
  }

  /** No initial entries give five empty sets. */
  lemma NoEntriesNoIdentifiers()
    ensures Identifiers([]) == Empty
  {
  }
}
