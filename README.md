# Identity correlation in the breach-search page, modelled in Dafny

The page takes an initial query and a comma-separated list of related terms.
It queries the breach-search provider for the initial query and collects the
identifiers found in the answer: emails, usernames, names, phones and IP
addresses. It then queries every related term in turn and records, per term,
which of that term's identifiers also occur among the initial ones. Finally it
reports the terms that have at least one such connection. This project models
that pass without the DOM and without the network. The provider's answers are
inputs: one `Reply` for the initial query and one per related term, in order.

Modules:

- `Wrappers` (wrappers.dfy): `Option` and `Result`.
- `Records` (records.dfy): entries, the five identifier kinds, JavaScript
  truthiness of a string field (`IsSet`), per-kind sets (`KindSets`), and
  `Values`, the set of truthy values of one kind across some entries.
- `Extraction` (extraction.dfy): the initial identifier sets, built by a loop.
- `Correlation` (correlation.dfy): responses, the per-term matching loop, the
  loop over related terms that fills the connection map, and its properties.
- `SearchHandler` (search.dfy): the initial-response check and the whole pass.
- `TermParsing` (terms.dfy): split on `,`, JavaScript `trim`, drop empty pieces.
- `HtmlEscape` (escape.dfy): `escapeHtml`, with a decoder as its inverse.
- `Report` (report.dfy): the any-connection decision of the display.

The model follows the code as written:

- Matching is exact string equality for all five kinds (email, username,
  name, phone, ip_address), with no case folding and no trimming.
- For a related term, only a thrown provider call (network or JSON failure)
  aborts the pass. A related-term answer without `entries` is skipped
  silently. Its error flag is never read, so an answer with an error flag and
  `entries` is recorded like any other. Only the initial answer aborts the pass
  on an error flag or a missing `entries`.
- A repeated term keeps the slot of its LAST answer that had `entries`. A
  later answer without `entries` does not clear an earlier slot.

The initial identifier sets are an immutable `KindSets` value passed to the
correlation, so no step of it can change them. `Correlation.SlotsAreMatches`
states that each term's matches depend only on its own entries and on those sets.

## Model

| member | source | states |
|---|---|---|
| `Records.Values` | script.js:103-109 | the distinct truthy values of one field across the entries, as the `if (entry.f) set.add(entry.f)` loop collects them; the empty string is never among them |
| `Records.ValuesMembership` | script.js:103-109 | a value is collected for a kind iff it is non-empty and equals that field of some entry |
| `Extraction.ExtractIdentifiers` | script.js:95-109 | the loop leaves, for every kind, exactly the set of truthy values of that field across the initial entries |
| `Extraction.Identifiers` | script.js:95-109 | the five initial sets: a value is in the set for a kind iff some initial entry has that field present, non-empty and verbatim equal to it; duplicates collapse and `''` is never added |
| `Extraction.NoEntriesNoIdentifiers` | script.js:95-109 | an empty `entries` list gives five empty sets |
| `Correlation.Matches` | script.js:127-143 | a term's five match sets; each is contained both in the term's values of that kind and in the initial set of that kind |
| `Correlation.MatchEntries` | script.js:118-143 | each of a term's match sets is the intersection of the term's truthy values of that kind with the initial set of that kind |
| `Correlation.MatchIsExact` | script.js:103-143 | a value matches iff it is non-empty and occurs verbatim in that field of some term entry and of some initial entry |
| `Correlation.CaseAndSpaceDoNotMatch` | script.js:128-141 | an example: an email differing only in letter case and a username differing only by a trailing space give no match; the general rule is `Correlation.MatchIsExact` |
| `Correlation.Record` | script.js:115-125 | one term's step: an answer with `entries` adds or replaces the term's key, one without leaves the keys as they were; no other term's slot changes |
| `Correlation.Correlated` | script.js:112-145 | the loop over terms as a fold that stops at the first thrown call; every key of a completed map is one of the terms |
| `Correlation.CorrelateTerms` | script.js:112-145 | the loop over terms computes the connection map fold; it stops at the first thrown call, after which no more terms are queried, and every earlier call answered |
| `Correlation.ErrorFlagIgnored` | script.js:115-125 | an answer for a related term that has an error flag and `entries` is recorded with its matches, because only `entries` is tested |
| `Correlation.FailureSticks` | script.js:113-114 | once a prefix of the terms aborted, the whole pass aborts with the same message |
| `Correlation.CorrelatedSucceeds` | script.js:113-115 | the loop over terms completes iff no provider call threw; answers without `entries` do not abort |
| `Correlation.CorrelatedFailsAtFirstThrow` | script.js:113-114 | an aborted loop carries the reason of the first call that threw |
| `Correlation.ConnectionMapKeys` | script.js:113-125 | a term is a key of the connection map iff one of its answers had `entries` |
| `Correlation.ConnectionMapSlot` | script.js:113-125 | a term's slot holds the entries of its last answer with `entries`, unchanged, and their matches; a repeated term overwrites its earlier slot |
| `Correlation.SlotsAreMatches` | script.js:113-145 | every slot's matches are exactly the matches of its own entries against the initial sets, whatever the other terms are |
| `SearchHandler.FailureText` | script.js:91 | the abort message is `message` when it is truthy, else `'No results found'`; it is never empty |
| `SearchHandler.InitialEntries` | script.js:88-92 | the initial answer passes iff it answered, has no error flag and has `entries` (an empty list passes); it then yields those entries unchanged |
| `SearchHandler.SearchPass` | script.js:86-151 | the whole pass as a value: a failed initial check is the result; a completed pass carries the initial answer's entries and keys drawn from the parsed terms |
| `SearchHandler.Search` | script.js:86-152 | the handler's pass: a failed initial check aborts with its message before any related term is queried; a completed pass queried every term |
| `SearchHandler.RelatedThrowAborts` | script.js:113-151 | a thrown call for any related term aborts the pass, discarding the slots of earlier terms |
| `SearchHandler.CompletedPass` | script.js:88-148 | a completed pass keeps the initial entries and gives each parsed term the slot of its last answer with `entries` |
| `TermParsing.TrimStart` | script.js:74 | the result is a suffix of the input, preceded only by whitespace and not starting with whitespace |
| `TermParsing.TrimEnd` | script.js:74 | the result is a prefix of the input, followed only by whitespace and not ending with whitespace |
| `TermParsing.Trim` | script.js:74 | the trimmed piece neither starts nor ends with whitespace |
| `TermParsing.TrimIdempotent` | script.js:74 | trimming twice is trimming once |
| `TermParsing.TrimAddsNothing` | script.js:74 | a character absent from a piece is absent from its trim |
| `TermParsing.Split` | script.js:74 | splitting on `,` gives at least one piece and no piece holds a `,` |
| `TermParsing.SplitJoin` | script.js:74 | joining the pieces with the separator gives the input back |
| `TermParsing.SplitAtSeparator` | script.js:74 | the pieces of `a,b` are the pieces of `a` followed by those of `b` |
| `TermParsing.CleanAppend` | script.js:74 | trimming and filtering a concatenation handles each part in order |
| `TermParsing.CleanMembership` | script.js:74 | a term survives iff it is the non-empty trim of some piece |
| `TermParsing.ParseTerms` | script.js:74 | the related terms: split on `,`, trim each piece, drop the empty ones; at most one term per piece (properties in `ParsedTermsClean`, `ParseTermsAtComma`, `ParseTermsMembership`) |
| `TermParsing.ParsedTermsClean` | script.js:74 | no parsed term is empty, each equals its own trim and none holds a `,` |
| `TermParsing.ParseTermsAtComma` | script.js:74 | terms keep the input's order: the terms of `a,b` are those of `a` then those of `b` |
| `TermParsing.ParseTermsMembership` | script.js:74 | a term is listed iff it is the non-empty trim of some comma-separated piece |
| `HtmlEscape.EntityOf` | script.js:42-48 | the replacement table: each of `& < > " '` becomes an entity starting with `&` and ending with `;`, every other character stays itself, and no replacement holds a markup character |
| `HtmlEscape.EscapeHtml` | script.js:41-50 | the escaped text holds no `<`, `>`, `"` or `'` and is at least as long as the input |
| `HtmlEscape.EscapeAppend` | script.js:49 | escaping is per character: the escape of a concatenation is the concatenation of the escapes |
| `HtmlEscape.EscapePlain` | script.js:49 | text without the five special characters is left unchanged |
| `HtmlEscape.UnescapeEntity` | script.js:42-48 | each table entry decodes back to its character |
| `HtmlEscape.UnescapeEscape` | script.js:41-50 | decoding the five entities undoes the escape, so every character maps to its own entity or to itself |
| `Report.HasAnyConnection` | script.js:195 | a term has a connection iff at least one of its match sets is non-empty |
| `Report.HasConnections` | script.js:192-198 | the flag is raised iff some term of the connection map has a connection; the "no connections" notice (line 232) shows iff it is not |
| `Report.NoOverlapNoConnections` | script.js:127-197 | if no term's values meet the initial sets, no term of a completed pass is reported |
| `Report.ListedTerms` | script.js:193 | the terms listed by `Object.entries` are all keys except `"__proto__"` |
| `Report.ProtoTermHidden` | script.js:116-197 | an example: a pass in which the term `"__proto__"` has an email match, yet no listed term has a connection; the general fact is `ProtoKey !in listed` in `Report.ListedTerms` |

## Findings

| source | as written | input that shows it | evidently intended | confidence | as-written member | corrected member |
|---|---|---|---|---|---|---|
| script.js:116 | `connectionMap[term] = ...` on a plain object literal; for the term `__proto__` this replaces the object's prototype, so `Object.entries(connectionMap)` at line 193 never lists the term | related terms `__proto__`, whose answer has an entry with the same email as an initial entry: the page says "No connections found" | every term with an answer that has `entries` is a key of the map and is reported when it has a connection | high, not executed | `Report.ProtoTermHidden` | `Report.HasConnections` |

The correlation itself (`Correlation.CorrelateTerms`) is modelled with a map in
which `"__proto__"` is an ordinary key, which is what `HasConnections` walks.

## Left out

- The custom cursor, the API-key entry, section toggling and the button state: DOM plumbing with no logic.
- The empty-field guard before the pass (`alert('Please fill in both fields')`): a UI alert, not part of the correlation.
- `dehashedSearch`: the request body, the credential header and the network. Each call is a `Reply`, either `Thrown(reason)` (fetch or JSON failure) or `Received(response)`; the number of replies equals the number of parsed terms.
- `async`/`await`: the calls are sequential, so the pass is an ordinary loop over pre-supplied replies.
- The HTML assembly in `displayResults`: entry markup, the 10-entry and 3-sample truncation and the `innerHTML` writes. Only the any-connection decision is modelled.
- JSON values of other types: fields are modelled as optional strings and the error flag as a boolean (its truthiness). A number or object where a string is expected is not modelled; `String(text)` in `escapeHtml` is applied only to strings here.
- Malformed bodies that make the handler throw a TypeError inside its `try` and abort at script.js:150: a `null` JSON body (`.error` at line 90, `.entries` at line 115), a truthy `entries` that is not an array (`.forEach` at lines 103 and 127), and a `null` element of `entries` (`entry.email` at lines 104 and 128). The types of the model cannot express these. A `null` body has the same effect as a `Thrown` reply and can be given to the model as one.
- Insertion order of JavaScript `Set`s: matches are modelled as sets, since only the display depends on their order.
- Strings are sequences of Unicode scalar values, while JavaScript strings are UTF-16 code units: a field holding an unpaired surrogate such as `\uD800` cannot be represented. Every character `trim` strips, and `,`, lies in the Basic Multilingual Plane, so trimming, splitting and equality agree with JavaScript on every string the model can represent.
- Fields of an entry other than the five identifiers (password, hash, database name): only the display reads them.
