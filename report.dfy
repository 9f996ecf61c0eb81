/**
 * The one decision `displayResults` makes: which terms are reported as
 * having connections, and whether the "no connections" notice is shown.
 */
module Report {
  import opened Wrappers
  import opened Records
  import opened Correlation

  /** `hasAnyConnection`: some match set of the term is non-empty. */
  function HasAnyConnection(c: KindSets): (b: bool)
    ensures b <==> exists k :: c.Of(k) != {}
  {
    assert c.Of(Email) == c.email && c.Of(Username) == c.username && c.Of(Name) == c.name;
    assert c.Of(Phone) == c.phone && c.Of(Ip) == c.ip;
    c.email != {} || c.username != {} || c.name != {} || c.phone != {} || c.ip != {}
  }

  /**
   * `hasConnections`: walks the terms of the connection map and raises the
   * flag on the first one with a connection. The "no connections" notice is
   * shown exactly when the result is false.
   */
  method HasConnections(cm: map<string, TermResult>) returns (found: bool)
    ensures found <==> exists t :: t in cm && HasAnyConnection(cm[t].connections)
  {
    found := false;
    var todo := cm.Keys;
    while todo != {}
      invariant todo <= cm.Keys
      invariant found <==> exists t :: t in cm.Keys - todo && HasAnyConnection(cm[t].connections)
      decreases |todo|
    {
      var t :| t in todo;
      if HasAnyConnection(cm[t].connections) {
        found := true;
      }
      todo := todo - {t};
    }
  }

  /**
   * No spurious connections: if no term's entries share a value with the
   * initial sets, no term of a completed pass is reported.
   */
  lemma NoOverlapNoConnections(terms: seq<string>, replies: seq<Reply>, ids: KindSets,
                               cm: map<string, TermResult>)
    requires |terms| == |replies|
    requires Correlated(terms, replies, ids) == Success(cm)
    requires forall i, k :: 0 <= i < |replies| && HasEntries(replies[i]) ==>
               Values(replies[i].body.entries.value, k) * ids.Of(k) == {}
    ensures forall t :: t in cm ==> !HasAnyConnection(cm[t].connections)
  {
    forall t | t in cm ensures !HasAnyConnection(cm[t].connections) {
      SlotsAreMatches(terms, replies, ids, cm, t);
      forall k ensures cm[t].connections.Of(k) == {} {
        MatchesAreIntersections(cm[t].entries, ids, k);
      }
    }
  }

  /** The key JavaScript treats as the prototype accessor of a plain object. */
  const ProtoKey := "__proto__"

  /**
   * The terms `Object.entries(connectionMap)` lists, as written: the map is a
   * plain object literal, so `connectionMap["__proto__"] = ...` replaces its
   * prototype instead of adding an own property, and that term is never listed.
   */
  function ListedTerms(cm: map<string, TermResult>): (listed: set<string>)
    ensures listed <= cm.Keys && ProtoKey !in listed
    ensures forall t :: t in cm && t != ProtoKey ==> t in listed
  {
    cm.Keys - {ProtoKey}
  }

  /**
   * The related term "__proto__" whose entries share an email with the
   * initial sets has a connection, yet no listed term has one, so the page
   * as written says "No connections found".
   */
  lemma ProtoTermHidden()
    ensures var ids := KindSets({"a@b.c"}, {}, {}, {}, {});
            var entries := [Entry(Some("a@b.c"), None, None, None, None)];
            var replies := [Received(Response(false, None, Some(entries)))];
            var pass := Correlated([ProtoKey], replies, ids);
            pass.Success? &&
            (exists t :: t in pass.value && HasAnyConnection(pass.value[t].connections)) &&
            !(exists t :: t in ListedTerms(pass.value) && HasAnyConnection(pass.value[t].connections))
  {
    var ids := KindSets({"a@b.c"}, {}, {}, {}, {});
    var entries := [Entry(Some("a@b.c"), None, None, None, None)];
    var replies := [Received(Response(false, None, Some(entries)))];
    assert [ProtoKey][..0] == [] && replies[..0] == [] && entries[..0] == [];
    var cm := map[ProtoKey := TermResult(entries, Matches(entries, ids))];
    assert Correlated([ProtoKey], replies, ids) == Success(cm);
    assert Values(entries, Email) == {"a@b.c"};
    assert "a@b.c" in cm[ProtoKey].connections.Of(Email);
    assert ListedTerms(cm) == {};
  }
}
