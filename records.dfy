/**
 * Breach records as the search provider returns them, the five identifier
 * kinds the correlation looks at, and the per-kind value sets that both the
 * initial identifier collection and each term's matches are made of.
 */
module Records {
  import opened Wrappers

  /** One entry of a provider response; only the fields the correlation reads. */
  datatype Entry = Entry(
    email: Option<string>,
    username: Option<string>,
    name: Option<string>,
    phone: Option<string>,
    ipAddress: Option<string>)

  /** The five identifier kinds; there is no address and no password kind. */
  datatype Kind = Email | Username | Name | Phone | Ip

  /** The field of an entry that holds identifiers of kind `k`. */
  function FieldOf(e: Entry, k: Kind): Option<string>
  {
    match k
    case Email => e.email
    case Username => e.username
    case Name => e.name
    case Phone => e.phone
    case Ip => e.ipAddress
  }

  /** JavaScript truthiness of a string field: present and not the empty string. */
  predicate IsSet(v: Option<string>)
  {
    v.Some? && v.value != ""
  }

  /** The identifier of kind `k` that entry `e` contributes, if any. */
  function Contributed(e: Entry, k: Kind): (r: set<string>)
    ensures "" !in r
  {
    if IsSet(FieldOf(e, k)) then {FieldOf(e, k).value} else {}
  }

  /** One set of strings per identifier kind. */
  datatype KindSets = KindSets(
    email: set<string>,
    username: set<string>,
    name: set<string>,
    phone: set<string>,
    ip: set<string>)
  {
    /** The set for kind `k`. */
    function Of(k: Kind): set<string>
    {
      match k
      case Email => email
      case Username => username
      case Name => name
      case Phone => phone
      case Ip => ip
    }
  }

  /** Five empty sets. */
  const Empty := KindSets({}, {}, {}, {}, {})

  /** Two `KindSets` with the same set for every kind are equal. */
  lemma SameSetsSame(a: KindSets, b: KindSets)
    requires forall k :: a.Of(k) == b.Of(k)
    ensures a == b
  {
    assert a.Of(Email) == b.Of(Email) && a.Of(Username) == b.Of(Username);
    assert a.Of(Name) == b.Of(Name) && a.Of(Phone) == b.Of(Phone) && a.Of(Ip) == b.Of(Ip);
  }

  /**
   * The distinct truthy values of field kind `k` across `entries`; what a
   * `Set` filled with `if (entry.f) set.add(entry.f)` over the entries holds.
   */
  function Values(entries: seq<Entry>, k: Kind): (r: set<string>)
    ensures "" !in r
    decreases |entries|
  {
    if entries == [] then {}
    else Values(entries[..|entries| - 1], k) + Contributed(entries[|entries| - 1], k)
  }

  /** Extending the entries by one adds exactly that entry's contribution. */
  lemma ValuesSnoc(entries: seq<Entry>, e: Entry, k: Kind)
    ensures Values(entries + [e], k) == Values(entries, k) + Contributed(e, k)
  {
    assert (entries + [e])[..|entries|] == entries;
  }

  /**
   * A value is collected for kind `k` iff some entry has that field present,
   * non-empty and equal to the value: no case folding, no trimming.
   */
  lemma {:induction false} ValuesMembership(entries: seq<Entry>, k: Kind, v: string)
    ensures v in Values(entries, k) <==>
      v != "" && exists i :: 0 <= i < |entries| && FieldOf(entries[i], k) == Some(v)
    decreases |entries|
  {
    if entries != [] {
      var n := |entries| - 1;
      var init := entries[..n];
      ValuesMembership(init, k, v);
      if v != "" && exists i :: 0 <= i < |entries| && FieldOf(entries[i], k) == Some(v) {
        var i :| 0 <= i < |entries| && FieldOf(entries[i], k) == Some(v);
        if i < n {
          assert init[i] == entries[i];
        }
      }
      if v in Values(init, k) {
        var i :| 0 <= i < |init| && FieldOf(init[i], k) == Some(v);
        assert entries[i] == init[i];
      }
    }
  }
}
