/**
 * Per-term correlation: every related term's entries are tested, field by
 * field, against the initial identifier sets, and the term's record is
 * stored in the connection map under the term.
 */
module Correlation {
  import opened Wrappers
  import opened Records
  import opened Extraction

  /** What the provider gave back for one query, once parsed as JSON. */
  datatype Response = Response(error: bool, message: Option<string>, entries: Option<seq<Entry>>)

  /** One provider call: either it threw (network or JSON failure) or it answered. */
  datatype Reply = Thrown(reason: string) | Received(body: Response)

  /** The slot of the connection map for one term: its entries and its matches. */
  datatype TermResult = TermResult(entries: seq<Entry>, connections: KindSets)

  /** The matches of one term: per kind, the term's values that are also initial identifiers. */
  function Matches(entries: seq<Entry>, ids: KindSets): (m: KindSets)
    ensures forall k :: m.Of(k) <= Values(entries, k) && m.Of(k) <= ids.Of(k)
  {
    KindSets(Values(entries, Email) * ids.email, Values(entries, Username) * ids.username,
             Values(entries, Name) * ids.name, Values(entries, Phone) * ids.phone,
             Values(entries, Ip) * ids.ip)
  }

  /**
   * Tests each entry's five fields by exact membership in the initial sets and
   * adds the hits to the term's match sets: each match set is the intersection
   * of the term's truthy values of that kind with the initial set of that kind.
   */
  method MatchEntries(entries: seq<Entry>, ids: KindSets) returns (m: KindSets)
    ensures forall k :: m.Of(k) == Values(entries, k) * ids.Of(k)
  {
    var email, username, name, phone, ip := {}, {}, {}, {}, {};
    for i := 0 to |entries|
      invariant email == Values(entries[..i], Email) * ids.email
      invariant username == Values(entries[..i], Username) * ids.username
      invariant name == Values(entries[..i], Name) * ids.name
      invariant phone == Values(entries[..i], Phone) * ids.phone
      invariant ip == Values(entries[..i], Ip) * ids.ip
    {
      var entry := entries[i];
      assert entries[..i + 1] == entries[..i] + [entry];
      forall k { ValuesSnoc(entries[..i], entry, k); }
      if IsSet(entry.email) && entry.email.value in ids.email {
        email := email + {entry.email.value};
      }
      if IsSet(entry.username) && entry.username.value in ids.username {
        username := username + {entry.username.value};
      }
      if IsSet(entry.name) && entry.name.value in ids.name {
        name := name + {entry.name.value};
      }
      if IsSet(entry.phone) && entry.phone.value in ids.phone {
        phone := phone + {entry.phone.value};
      }
      if IsSet(entry.ipAddress) && entry.ipAddress.value in ids.ip {
        ip := ip + {entry.ipAddress.value};
      }
    }
    assert entries[..|entries|] == entries;
    m := KindSets(email, username, name, phone, ip);
  }

  /** The map after one more term: a reply with `entries` (re)places the term's slot. */
  function Record(cm: map<string, TermResult>, term: string, r: Response, ids: KindSets): (cm': map<string, TermResult>)
    ensures cm'.Keys == if r.entries.Some? then cm.Keys + {term} else cm.Keys
    ensures forall t :: t in cm && t != term ==> cm'[t] == cm[t]
  {
    if r.entries.Some? then cm[term := TermResult(r.entries.value, Matches(r.entries.value, ids))]
    else cm
  }

  /**
   * The loop over related terms as a fold: the first thrown reply aborts the
   * whole pass with its message, a reply without `entries` is skipped.
   */
  function Correlated(terms: seq<string>, replies: seq<Reply>, ids: KindSets): (r: Result<map<string, TermResult>, string>)
    requires |terms| == |replies|
    ensures r.Success? ==> forall t :: t in r.value ==> t in terms
    decreases |terms|
  {
    if terms == [] then Success(map[])
    else
      var n := |terms| - 1;
      match Correlated(terms[..n], replies[..n], ids)
      case Failure(msg) => Failure(msg)
      case Success(cm) =>
        match replies[n]
        case Thrown(msg) => Failure(msg)
        case Received(r) => Success(Record(cm, terms[n], r, ids))
  }

  /** The error flag of a related term's answer is never read: with `entries` it is recorded. */
  lemma ErrorFlagIgnored(term: string, entries: seq<Entry>, message: Option<string>, ids: KindSets)
    ensures Correlated([term], [Received(Response(true, message, Some(entries)))], ids) ==
            Success(map[term := TermResult(entries, Matches(entries, ids))])
  {
    assert [term][..0] == [] && [Received(Response(true, message, Some(entries)))][..0] == [];
  }

  /** Once a prefix of the terms has failed, the whole pass fails the same way. */
  lemma {:induction false} FailureSticks(terms: seq<string>, replies: seq<Reply>, ids: KindSets, n: nat)
    requires |terms| == |replies| && n <= |terms|
    requires Correlated(terms[..n], replies[..n], ids).Failure?
    ensures Correlated(terms, replies, ids) == Correlated(terms[..n], replies[..n], ids)
    decreases |terms|
  {
    if n < |terms| {
      var m := |terms| - 1;
      assert terms[..m][..n] == terms[..n] && replies[..m][..n] == replies[..n];
      FailureSticks(terms[..m], replies[..m], ids, n);
    } else {
      assert terms[..n] == terms && replies[..n] == replies;
    }
  }

  /**
   * Queries the related terms one after the other, in order, storing each
   * term that got `entries` with its matches. `queried` counts the provider
   * calls made: all of them on success; on failure the thrown call was the
   * last one and every call before it answered.
   */
  method CorrelateTerms(terms: seq<string>, replies: seq<Reply>, ids: KindSets)
    returns (out: Result<map<string, TermResult>, string>, queried: nat)
    requires |terms| == |replies|
    ensures out == Correlated(terms, replies, ids)
    ensures queried <= |terms|
    ensures out.Success? ==> queried == |terms|
    ensures out.Failure? ==> 0 < queried && replies[queried - 1] == Thrown(out.error)
    ensures forall j :: 0 <= j < queried && !(out.Failure? && j == queried - 1) ==> replies[j].Received?
  {
    var cm: map<string, TermResult> := map[];
    for i := 0 to |terms|
      invariant Correlated(terms[..i], replies[..i], ids) == Success(cm)
      invariant forall j :: 0 <= j < i ==> replies[j].Received?
    {
      assert terms[..i + 1][..i] == terms[..i] && replies[..i + 1][..i] == replies[..i];
      match replies[i]
      case Thrown(msg) =>
        FailureSticks(terms, replies, ids, i + 1);
        return Failure(msg), i + 1;
      case Received(r) =>
        if r.entries.Some? {
          var m := MatchEntries(r.entries.value, ids);
          SameSetsSame(m, Matches(r.entries.value, ids));
          cm := cm[terms[i] := TermResult(r.entries.value, m)];
        }
    }
    assert terms[..|terms|] == terms && replies[..|replies|] == replies;
    return Success(cm), |terms|;
  }

  /** A reply that answered with an `entries` list (possibly empty). */
  predicate HasEntries(r: Reply)
  {
    r.Received? && r.body.entries.Some?
  }

  /** The slot a reply with entries gives its term. */
  function Slot(r: Reply, ids: KindSets): TermResult
    requires HasEntries(r)
  {
    TermResult(r.body.entries.value, Matches(r.body.entries.value, ids))
  }

  /** No later occurrence of the `i`-th term got entries. */
  predicate LastWithEntries(terms: seq<string>, replies: seq<Reply>, i: nat)
    requires |terms| == |replies| && i < |terms|
  {
    forall j :: i < j < |terms| && terms[j] == terms[i] ==> !HasEntries(replies[j])
  }

  /** The pass over the related terms succeeds iff no provider call threw. */
  lemma {:induction false} CorrelatedSucceeds(terms: seq<string>, replies: seq<Reply>, ids: KindSets)
    requires |terms| == |replies|
    ensures Correlated(terms, replies, ids).Success? <==> forall j :: 0 <= j < |replies| ==> replies[j].Received?
    decreases |terms|
  {
    if terms != [] {
      var n := |terms| - 1;
      CorrelatedSucceeds(terms[..n], replies[..n], ids);
      assert forall j :: 0 <= j < n ==> replies[..n][j] == replies[j];
    }
  }

  /** A failed pass reports the reason of the first provider call that threw. */
  lemma {:induction false} CorrelatedFailsAtFirstThrow(terms: seq<string>, replies: seq<Reply>, ids: KindSets, msg: string)
    requires |terms| == |replies|
    requires Correlated(terms, replies, ids) == Failure(msg)
    ensures exists i :: 0 <= i < |replies| && replies[i] == Thrown(msg) &&
                        forall j :: 0 <= j < i ==> replies[j].Received?
    decreases |terms|
  {
    var n := |terms| - 1;
    match Correlated(terms[..n], replies[..n], ids)
    case Failure(m) =>
      CorrelatedFailsAtFirstThrow(terms[..n], replies[..n], ids, msg);
      var i :| 0 <= i < n && replies[..n][i] == Thrown(msg) &&
        forall j :: 0 <= j < i ==> replies[..n][j].Received?;
      assert forall j :: 0 <= j < i ==> replies[..n][j] == replies[j];
    case Success(_) =>
      CorrelatedSucceeds(terms[..n], replies[..n], ids);
      assert forall j :: 0 <= j < n ==> replies[..n][j] == replies[j];
  }

  /**
   * A term is a key of the connection map iff one of its provider calls
   * answered with `entries`; answers without `entries` are skipped silently.
   */
  lemma {:induction false} ConnectionMapKeys(terms: seq<string>, replies: seq<Reply>, ids: KindSets,
                                            cm: map<string, TermResult>, t: string)
    requires |terms| == |replies|
    requires Correlated(terms, replies, ids) == Success(cm)
    ensures t in cm <==> exists i :: 0 <= i < |terms| && terms[i] == t && HasEntries(replies[i])
    decreases |terms|
  {
    if terms != [] {
      var n := |terms| - 1;
      var cm0: map<string, TermResult> :| Correlated(terms[..n], replies[..n], ids) == Success(cm0);
      ConnectionMapKeys(terms[..n], replies[..n], ids, cm0, t);
      assert forall j :: 0 <= j < n ==> terms[..n][j] == terms[j] && replies[..n][j] == replies[j];
    }
  }

  /**
   * The slot of a term is the one made from the last of its replies that had
   * `entries`: those entries unchanged, and their matches against the initial
   * sets. A repeated term overwrites its earlier slot; other terms never touch it.
   */
  lemma {:induction false} ConnectionMapSlot(terms: seq<string>, replies: seq<Reply>, ids: KindSets,
                                            cm: map<string, TermResult>, i: nat)
    requires |terms| == |replies| && i < |terms|
    requires Correlated(terms, replies, ids) == Success(cm)
    requires HasEntries(replies[i]) && LastWithEntries(terms, replies, i)
    ensures terms[i] in cm && cm[terms[i]] == Slot(replies[i], ids)
    decreases |terms|
  {
    var n := |terms| - 1;
    var cm0: map<string, TermResult> :| Correlated(terms[..n], replies[..n], ids) == Success(cm0);
    var last := replies[n].body;
    assert cm == Record(cm0, terms[n], last, ids);
    if i < n {
      var ts, rs := terms[..n], replies[..n];
      assert ts[i] == terms[i] && rs[i] == replies[i];
      assert LastWithEntries(ts, rs, i) by {
        forall j | i < j < n && ts[j] == ts[i] ensures !HasEntries(rs[j]) {
          assert ts[j] == terms[j] && rs[j] == replies[j];
        }
      }
      ConnectionMapSlot(ts, rs, ids, cm0, i);
      if terms[n] == terms[i] {
        assert !HasEntries(replies[n]);
      }
    }
  }

  /**
   * Every slot holds some reply's entries together with exactly their matches
   * against the initial sets: a term's matches depend on nothing else.
   */
  lemma {:induction false} SlotsAreMatches(terms: seq<string>, replies: seq<Reply>, ids: KindSets,
                                          cm: map<string, TermResult>, t: string)
    requires |terms| == |replies|
    requires Correlated(terms, replies, ids) == Success(cm)
    requires t in cm
    ensures cm[t].connections == Matches(cm[t].entries, ids)
    ensures exists i :: 0 <= i < |replies| && terms[i] == t && HasEntries(replies[i]) &&
                        replies[i].body.entries.value == cm[t].entries
    decreases |terms|
  {
    var n := |terms| - 1;
    var cm0: map<string, TermResult> :| Correlated(terms[..n], replies[..n], ids) == Success(cm0);
    if !(terms[n] == t && HasEntries(replies[n])) {
      SlotsAreMatches(terms[..n], replies[..n], ids, cm0, t);
      var i :| 0 <= i < n && terms[..n][i] == t && HasEntries(replies[..n][i]) &&
               replies[..n][i].body.entries.value == cm0[t].entries;
      assert terms[i] == t && replies[i] == replies[..n][i];
    }
  }

  /** Each match set of a term is the intersection of its values and the initial set of that kind. */
  lemma MatchesAreIntersections(entries: seq<Entry>, ids: KindSets, k: Kind)
    ensures Matches(entries, ids).Of(k) == Values(entries, k) * ids.Of(k)
  {
  }

  /**
   * Matching is exact string equality: a value is matched for kind `k` iff it
   * is non-empty and appears verbatim in that field of some term entry and of
   * some initial entry.
   */
  lemma MatchIsExact(initial: seq<Entry>, entries: seq<Entry>, k: Kind, v: string)
    ensures v in Matches(entries, Identifiers(initial)).Of(k) <==>
      v != "" &&
      (exists i :: 0 <= i < |entries| && FieldOf(entries[i], k) == Some(v)) &&
      (exists j :: 0 <= j < |initial| && FieldOf(initial[j], k) == Some(v))
  {
    MatchesAreIntersections(entries, Identifiers(initial), k);
    ValuesMembership(entries, k, v);
  }

  /**
   * An initial email "Alice@Example.com" and username "alice1" against a term
   * entry with email "alice@example.com" and username "alice1 ": values that
   * differ only in letter case or in whitespace are not matches.
   */
  lemma CaseAndSpaceDoNotMatch()
    ensures var initial := [Entry(Some("Alice@Example.com"), Some("alice1"), None, None, None)];
            var term := [Entry(Some("alice@example.com"), Some("alice1 "), None, None, None)];
            Matches(term, Identifiers(initial)) == Empty
  {
    var initial := [Entry(Some("Alice@Example.com"), Some("alice1"), None, None, None)];
    var term := [Entry(Some("alice@example.com"), Some("alice1 "), None, None, None)];
    assert initial[..0] == [] && term[..0] == [];
    assert Values(initial, Email) == {"Alice@Example.com"};
    assert Values(term, Email) == {"alice@example.com"};
    assert Values(initial, Username) == {"alice1"};
    assert Values(term, Username) == {"alice1 "};
    assert "alice@example.com" != "Alice@Example.com" by { assert "alice@example.com"[0] != "Alice@Example.com"[0]; }
    assert "alice1 " != "alice1" by { assert |"alice1 "| != |"alice1"|; }
  }
}
