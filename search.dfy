/**
 * The search handler's pass without the DOM: check the initial response,
 * extract the initial identifiers, correlate every related term, and either
 * hand the results to the display or abort with one error message.
 */
module SearchHandler {
  import opened Wrappers
  import opened Records
  import opened Extraction
  import opened Correlation
  import opened TermParsing

  /** What a completed pass hands to the display. */
  datatype Found = Found(initialEntries: seq<Entry>, connectionMap: map<string, TermResult>)

  /** The error text of a failed initial query: its message, or a default when the message is missing or empty. */
  function FailureText(message: Option<string>): (text: string)
    ensures text != ""
    ensures IsSet(message) ==> text == message.value
    ensures !IsSet(message) ==> text == "No results found"
  {
    if IsSet(message) then message.value else "No results found"
  }

  /**
   * The check on the initial query's reply: a thrown call, an error flag or a
   * missing `entries` aborts; an empty `entries` list does not.
   */
  function InitialEntries(initial: Reply): (r: Result<seq<Entry>, string>)
    ensures r.Success? <==> initial.Received? && !initial.body.error && initial.body.entries.Some?
    ensures r.Success? ==> r.value == initial.body.entries.value
    ensures initial.Thrown? ==> r == Failure(initial.reason)
    ensures initial.Received? && r.Failure? ==> r.error == FailureText(initial.body.message)
  {
    match initial
    case Thrown(reason) => Failure(reason)
    case Received(body) =>
      if body.error || body.entries.None? then Failure(FailureText(body.message))
      else Success(body.entries.value)
  }

  /** The whole pass as a value: initial check, extraction, then correlation of the parsed terms. */
  function SearchPass(initial: Reply, relatedInput: string, replies: seq<Reply>): (r: Result<Found, string>)
    requires |replies| == |ParseTerms(relatedInput)|
    ensures InitialEntries(initial).Failure? ==> r == Failure(InitialEntries(initial).error)
    ensures r.Success? ==> InitialEntries(initial) == Success(r.value.initialEntries)
    ensures r.Success? ==> forall t :: t in r.value.connectionMap ==> t in ParseTerms(relatedInput)
  {
    match InitialEntries(initial)
    case Failure(msg) => Failure(msg)
    case Success(entries) =>
      match Correlated(ParseTerms(relatedInput), replies, Identifiers(entries))
      case Failure(msg) => Failure(msg)
      case Success(cm) => Success(Found(entries, cm))
  }

  /**
   * Runs the pass. `replies` are the provider's answers to the related terms,
   * in order; `queried` counts how many of them were asked for. A failed
   * initial check asks for none; a completed pass asks for all.
   */
  method Search(initial: Reply, relatedInput: string, replies: seq<Reply>)
    returns (out: Result<Found, string>, queried: nat)
    requires |replies| == |ParseTerms(relatedInput)|
    ensures out == SearchPass(initial, relatedInput, replies)
    ensures queried <= |replies|
    ensures InitialEntries(initial).Failure? ==> queried == 0 && out == Failure(InitialEntries(initial).error)
    ensures out.Success? ==> queried == |replies|
    ensures out.Failure? && queried > 0 ==> replies[queried - 1] == Thrown(out.error)
  {
    var terms := ParseTerms(relatedInput);
    var checked := InitialEntries(initial);
    if checked.Failure? {
      return Failure(checked.error), 0;
    }
    var entries := checked.value;
    var ids := ExtractIdentifiers(entries);
    var correlated, n := CorrelateTerms(terms, replies, ids);
    queried := n;
    match correlated
    case Failure(msg) => out := Failure(msg);
    case Success(cm) => out := Success(Found(entries, cm));
  }

  /**
   * A provider call that throws on any related term aborts the whole pass:
   * no connection map survives, not even for the terms already done.
   */
  lemma RelatedThrowAborts(initial: Reply, relatedInput: string, replies: seq<Reply>, j: nat)
    requires |replies| == |ParseTerms(relatedInput)|
    requires j < |replies| && replies[j].Thrown?
    ensures SearchPass(initial, relatedInput, replies).Failure?
  {
    if InitialEntries(initial).Success? {
      CorrelatedSucceeds(ParseTerms(relatedInput), replies, Identifiers(InitialEntries(initial).value));
    }
  }

  /**
   * A completed pass keeps the initial entries unchanged and records each
   * parsed term that got `entries`, with the matches of its last such reply
   * against the identifiers of the initial entries.
   */
  lemma CompletedPass(initial: Reply, relatedInput: string, replies: seq<Reply>, i: nat)
    requires |replies| == |ParseTerms(relatedInput)|
    requires SearchPass(initial, relatedInput, replies).Success?
    requires i < |replies| && HasEntries(replies[i]) && LastWithEntries(ParseTerms(relatedInput), replies, i)
    ensures var found := SearchPass(initial, relatedInput, replies).value;
            found.initialEntries == initial.body.entries.value &&
            ParseTerms(relatedInput)[i] in found.connectionMap &&
            found.connectionMap[ParseTerms(relatedInput)[i]] == Slot(replies[i], Identifiers(found.initialEntries))
  {
    var entries := InitialEntries(initial).value;
    var cm := SearchPass(initial, relatedInput, replies).value.connectionMap;
    ConnectionMapSlot(ParseTerms(relatedInput), replies, Identifiers(entries), cm, i);
  }
}
