/**
 * Parsing of the related-terms input: split on ',', trim every piece with
 * JavaScript's `String.prototype.trim`, drop the pieces that end up empty.
 */
module TermParsing {

  /** JavaScript WhiteSpace and LineTerminator code points, which `trim` strips. */
  predicate IsTrimmable(c: char)
  {
    c == '\t' || c == '\n' || c == '\U{B}' || c == '\U{C}' || c == '\r' || c == ' ' ||
    c == '\U{A0}' || c == '\U{1680}' || ('\U{2000}' <= c <= '\U{200A}') ||
    c == '\U{2028}' || c == '\U{2029}' || c == '\U{202F}' || c == '\U{205F}' ||
    c == '\U{3000}' || c == '\U{FEFF}'
  }

  /** `s` without its leading whitespace: a suffix of `s` preceded only by whitespace. */
  function TrimStart(s: string): (r: string)
    ensures |r| <= |s| && r == s[|s| - |r|..]
    ensures forall i :: 0 <= i < |s| - |r| ==> IsTrimmable(s[i])
    ensures r == [] || !IsTrimmable(r[0])
    decreases |s|
  {
    if s != [] && IsTrimmable(s[0]) then TrimStart(s[1..]) else s
  }

  /** `s` without its trailing whitespace: a prefix of `s` followed only by whitespace. */
  function TrimEnd(s: string): (r: string)
    ensures |r| <= |s| && r == s[..|r|]
    ensures forall i :: |r| <= i < |s| ==> IsTrimmable(s[i])
    ensures r == [] || !IsTrimmable(r[|r| - 1])
    decreases |s|
  {
    if s != [] && IsTrimmable(s[|s| - 1]) then TrimEnd(s[..|s| - 1]) else s
  }

  /** JavaScript's `trim`: `s` with its leading and its trailing whitespace removed. */
  function Trim(s: string): (r: string)
    ensures r == [] || (!IsTrimmable(r[0]) && !IsTrimmable(r[|r| - 1]))
  {
    TrimEnd(TrimStart(s))
  }

  /** Trimming never introduces a character. */
  lemma TrimAddsNothing(s: string, c: char)
    requires c !in s
    ensures c !in Trim(s)
  {
    var u := TrimStart(s);
    assert u == s[|s| - |u|..];
    assert c !in u;
    assert Trim(s) == u[..|Trim(s)|];
  }

  /** Trimming a trimmed string changes nothing. */
  lemma TrimIdempotent(s: string)
    ensures Trim(Trim(s)) == Trim(s)
  {
    var t := Trim(s);
    assert TrimStart(t) == t;
    assert TrimEnd(t) == t;
  }

  /** `s` cut at every `sep`; the pieces hold no `sep` and there is always at least one. */
  function Split(s: string, sep: char): (parts: seq<string>)
    ensures |parts| >= 1
    ensures forall p <- parts :: sep !in p
    decreases |s|
  {
    if s == [] then [[]]
    else
      var rest := Split(s[1..], sep);
      if s[0] == sep then [[]] + rest
      else [[s[0]] + rest[0]] + rest[1..]
  }

  /** The pieces glued back together with `sep`. */
  function Join(parts: seq<string>, sep: char): string
    requires |parts| >= 1
  {
    if |parts| == 1 then parts[0] else parts[0] + [sep] + Join(parts[1..], sep)
  }

  /** Splitting loses nothing: joining the pieces with the separator gives the input back. */
  lemma {:induction false} SplitJoin(s: string, sep: char)
    ensures Join(Split(s, sep), sep) == s
    decreases |s|
  {
    if s != [] {
      var rest := Split(s[1..], sep);
      SplitJoin(s[1..], sep);
      if s[0] == sep {
        assert Split(s, sep)[1..] == rest;
        assert s == [sep] + s[1..];
      } else if |rest| == 1 {
        assert s == [s[0]] + s[1..];
      } else {
        assert Split(s, sep)[1..] == rest[1..];
        assert Join(rest, sep) == rest[0] + [sep] + Join(rest[1..], sep);
        assert s == [s[0]] + s[1..];
      }
    }
  }

  /** A separator in the middle splits into the pieces of either side. */
  lemma {:induction false} SplitAtSeparator(a: string, b: string, sep: char)
    ensures Split(a + [sep] + b, sep) == Split(a, sep) + Split(b, sep)
    decreases |a|
  {
    var s := a + [sep] + b;
    if a == [] {
      assert s[1..] == b;
    } else {
      assert s[1..] == a[1..] + [sep] + b;
      SplitAtSeparator(a[1..], b, sep);
    }
  }

  /** Trims every piece and keeps the non-empty ones, in order. */
  function Clean(pieces: seq<string>): (terms: seq<string>)
    ensures |terms| <= |pieces|
    decreases |pieces|
  {
    if pieces == [] then [] else Kept(pieces[0]) + Clean(pieces[1..])
  }

  /** The trimmed piece, unless it is empty. */
  function Kept(piece: string): seq<string>
  {
    if Trim(piece) == "" then [] else [Trim(piece)]
  }

  /** Cleaning a concatenation cleans each part in order. */
  lemma {:induction false} CleanAppend(p: seq<string>, q: seq<string>)
    ensures Clean(p + q) == Clean(p) + Clean(q)
    decreases |p|
  {
    if p == [] {
      assert p + q == q;
    } else {
      assert (p + q)[0] == p[0] && (p + q)[1..] == p[1..] + q;
      CleanAppend(p[1..], q);
      calc {
        Clean(p + q);
        Kept(p[0]) + Clean(p[1..] + q);
        Kept(p[0]) + (Clean(p[1..]) + Clean(q));
        (Kept(p[0]) + Clean(p[1..])) + Clean(q);
      }
    }
  }

  /** A term survives cleaning iff it is the non-empty trim of some piece. */
  lemma {:induction false} CleanMembership(pieces: seq<string>, t: string)
    ensures t in Clean(pieces) <==> t != "" && exists p <- pieces :: Trim(p) == t
    decreases |pieces|
  {
    if pieces != [] {
      CleanMembership(pieces[1..], t);
      assert forall p <- pieces :: p == pieces[0] || p in pieces[1..];
    }
  }

  /** The related terms of a comma-separated input, as the search handler lists them. */
  function ParseTerms(input: string): (terms: seq<string>)
    ensures |terms| <= |Split(input, ',')|
  {
    Clean(Split(input, ','))
  }

  /** No parsed term is empty, has whitespace at either end, or holds a comma. */
  lemma ParsedTermsClean(input: string)
    ensures forall t <- ParseTerms(input) :: t != "" && Trim(t) == t && ',' !in t
  {
    var pieces := Split(input, ',');
    forall t <- ParseTerms(input) ensures t != "" && Trim(t) == t && ',' !in t {
      CleanMembership(pieces, t);
      var p :| p in pieces && Trim(p) == t;
      TrimIdempotent(p);
      TrimAddsNothing(p, ',');
    }
  }

  /** Terms keep the order of the input: parsing distributes over a comma. */
  lemma ParseTermsAtComma(a: string, b: string)
    ensures ParseTerms(a + "," + b) == ParseTerms(a) + ParseTerms(b)
  {
    SplitAtSeparator(a, b, ',');
    CleanAppend(Split(a, ','), Split(b, ','));
  }

  /** A term is listed iff it is the non-empty trim of some comma-separated piece. */
  lemma ParseTermsMembership(input: string, t: string)
    ensures t in ParseTerms(input) <==> t != "" && exists p <- Split(input, ',') :: Trim(p) == t
  {
    CleanMembership(Split(input, ','), t);
  }
}
