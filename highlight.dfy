/**
 * Highlighting of query terms in a page (the re.sub call of start()).
 * Every term is replaced, case-insensitively, by a marked, upper-cased
 * copy of itself; the terms are applied one after the other to the same
 * text. The term is treated as a literal string. The regular expression
 * engine agrees with that only for terms without metacharacters, and the
 * tokenizer that produces the terms is not constrained to yield such terms.
 */
module Highlight {
  import opened Text

  const MarkOpen := "<mark style=\"background-color: #FFFF00\">"
  const MarkClose := "</mark>"

  /** What every occurrence of a term is replaced by. */
  function Mark(term: string): string { MarkOpen + Upper(term) + MarkClose }

  /** pat occurs at the very start of s, ignoring case. */
  predicate MatchesAt(s: string, pat: string) { |pat| <= |s| && Lower(s[..|pat|]) == Lower(pat) }

  /** pat occurs somewhere in s, ignoring case. */
  predicate Occurs(s: string, pat: string)
  {
    exists i :: 0 <= i <= |s| && MatchesAt(s[i..], pat)
  }

  /** re.sub(pat, rep, s, flags=re.IGNORECASE) for a literal pattern: the
      text is scanned left to right and every match, leftmost first and
      without overlap, is replaced by rep. An empty pattern matches at every
      position, before each character and at the end. */
  function ReplaceCI(s: string, pat: string, rep: string): string
    decreases |s|
  {
    if s == [] then (if pat == [] then rep else "")
    else if pat == [] then rep + [s[0]] + ReplaceCI(s[1..], pat, rep)
    else if MatchesAt(s, pat) then rep + ReplaceCI(s[|pat|..], pat, rep)
    else [s[0]] + ReplaceCI(s[1..], pat, rep)
  }

  /** A piece of the text as the scan sees it: a character passed over, or a match. */
  datatype Piece = Passed(c: char) | Matched(text: string)

  /** The scan re.sub performs, cutting the text into passed-over characters and matches. */
  function Scan(s: string, pat: string): seq<Piece>
    decreases |s|
  {
    if s == [] then (if pat == [] then [Matched("")] else [])
    else if pat == [] then [Matched(""), Passed(s[0])] + Scan(s[1..], pat)
    else if MatchesAt(s, pat) then [Matched(s[..|pat|])] + Scan(s[|pat|..], pat)
    else [Passed(s[0])] + Scan(s[1..], pat)
  }

  /** The text the pieces were cut from. */
  function Original(ps: seq<Piece>): string
    decreases |ps|
  {
    if ps == [] then ""
    else (match ps[0] case Passed(c) => [c] case Matched(t) => t) + Original(ps[1..])
  }

  /** The pieces with every match replaced by rep. */
  function Substitute(ps: seq<Piece>, rep: string): string
    decreases |ps|
  {
    if ps == [] then ""
    else (match ps[0] case Passed(c) => [c] case Matched(_) => rep) + Substitute(ps[1..], rep)
  }

  function MatchCount(ps: seq<Piece>): nat
    decreases |ps|
  {
    if ps == [] then 0 else (if ps[0].Matched? then 1 else 0) + MatchCount(ps[1..])
  }

  /** The replacement is exactly "cut the text into passed-over characters and
      matches of the term, then put rep in place of every match": the pieces
      spell the text, every match equals the term up to case, a character is
      passed over only where no match starts, and substituting the matches
      gives the result of the replacement. */
  lemma ReplaceIsSubstitution(s: string, pat: string, rep: string)
    ensures Original(Scan(s, pat)) == s
    ensures forall k :: 0 <= k < |Scan(s, pat)| && Scan(s, pat)[k].Matched? ==>
      Lower(Scan(s, pat)[k].text) == Lower(pat)
    ensures pat != [] ==> forall k :: 0 <= k < |Scan(s, pat)| && Scan(s, pat)[k].Passed? ==>
      !MatchesAt(Original(Scan(s, pat)[k..]), pat)
    ensures Substitute(Scan(s, pat), rep) == ReplaceCI(s, pat, rep)
  {
    ScanSpellsText(s, pat);
    ScanMatchesTerm(s, pat);
    if pat != [] {
      ScanIsLeftmost(s, pat);
    }
    ScanSubstitutes(s, pat, rep);
  }

  /** How far one step of the scan advances. */
  function Advance(s: string, pat: string): nat
    requires s != []
  {
    if pat != [] && MatchesAt(s, pat) then |pat| else 1
  }

  lemma {:induction false} ScanSpellsText(s: string, pat: string)
    ensures Original(Scan(s, pat)) == s
    decreases |s|
  {
    if s != [] {
      var n := Advance(s, pat);
      ScanSpellsText(s[n..], pat);
      ScanStep(s, pat);
      SliceJoin(s, n);
    }
  }

  lemma SliceJoin(s: string, n: nat)
    requires n <= |s|
    ensures s[..n] + s[n..] == s
  {
  }

  /** The pieces one step of the scan produces. */
  function Head(s: string, pat: string): seq<Piece>
    requires s != []
  {
    if pat == [] then [Matched(""), Passed(s[0])]
    else if MatchesAt(s, pat) then [Matched(s[..|pat|])]
    else [Passed(s[0])]
  }

  lemma ScanStep(s: string, pat: string)
    requires s != []
    ensures Scan(s, pat) == Head(s, pat) + Scan(s[Advance(s, pat)..], pat)
    ensures Original(Head(s, pat)) == s[..Advance(s, pat)]
    ensures Original(Scan(s, pat)) == s[..Advance(s, pat)] + Original(Scan(s[Advance(s, pat)..], pat))
  {
    OriginalAppend(Head(s, pat), Scan(s[Advance(s, pat)..], pat));
    var h := Head(s, pat);
    if pat == [] {
      assert h[1..] == [Passed(s[0])] && h[1..][1..] == [];
      assert Original(h[1..][1..]) == "";
      assert Original(h[1..]) == [s[0]] + "";
      assert Original(h) == "" + Original(h[1..]);
    } else if MatchesAt(s, pat) {
      assert h[1..] == [];
    } else {
      assert h[1..] == [];
    }
  }

  lemma {:induction false} OriginalAppend(a: seq<Piece>, b: seq<Piece>)
    ensures Original(a + b) == Original(a) + Original(b)
    decreases |a|
  {
    if a != [] {
      OriginalAppend(a[1..], b);
      assert (a + b)[1..] == a[1..] + b;
    } else {
      assert a + b == b;
    }
  }

  lemma {:induction false} ScanMatchesTerm(s: string, pat: string)
    ensures forall k :: 0 <= k < |Scan(s, pat)| && Scan(s, pat)[k].Matched? ==>
      Lower(Scan(s, pat)[k].text) == Lower(pat)
    decreases |s|
  {
    if s != [] {
      var n := Advance(s, pat);
      ScanMatchesTerm(s[n..], pat);
      var ps, rest := Scan(s, pat), Scan(s[n..], pat);
      var skip := if pat == [] then 2 else 1;
      assert ps == ps[..skip] + rest;
      forall k | skip <= k < |ps| ensures ps[k] == rest[k - skip] {}
    }
  }

  lemma {:induction false} ScanIsLeftmost(s: string, pat: string)
    requires pat != []
    ensures forall k :: 0 <= k < |Scan(s, pat)| && Scan(s, pat)[k].Passed? ==>
      !MatchesAt(Original(Scan(s, pat)[k..]), pat)
    decreases |s|
  {
    if s != [] {
      var n := Advance(s, pat);
      ScanIsLeftmost(s[n..], pat);
      ScanSpellsText(s, pat);
      var ps, rest := Scan(s, pat), Scan(s[n..], pat);
      assert ps[1..] == rest;
      assert ps[0..] == ps;
      forall k | 1 <= k < |ps| ensures ps[k] == rest[k - 1] && ps[k..] == rest[k - 1..] {}
    }
  }

  lemma {:induction false} ScanSubstitutes(s: string, pat: string, rep: string)
    ensures Substitute(Scan(s, pat), rep) == ReplaceCI(s, pat, rep)
    decreases |s|
  {
    if s != [] {
      var n := Advance(s, pat);
      ScanSubstitutes(s[n..], pat, rep);
      var ps := Scan(s, pat);
      if pat == [] {
        assert ps[1..] == [Passed(s[0])] + Scan(s[1..], pat);
        assert ps[1..][1..] == Scan(s[1..], pat);
      } else {
        assert ps[1..] == Scan(s[n..], pat);
      }
    }
  }

  /** For a non-empty term, the scan finds a match exactly when the term occurs. */
  lemma {:induction false} MatchCountOccurs(s: string, pat: string)
    requires pat != []
    ensures MatchCount(Scan(s, pat)) > 0 <==> Occurs(s, pat)
    decreases |s|
  {
    if s == [] {
      assert !Occurs(s, pat) by {
        forall i | 0 <= i <= |s| ensures !MatchesAt(s[i..], pat) {}
      }
    } else if MatchesAt(s, pat) {
      assert s[0..] == s;
    } else {
      MatchCountOccurs(s[1..], pat);
      if Occurs(s, pat) {
        var i :| 0 <= i <= |s| && MatchesAt(s[i..], pat);
        assert i != 0 by { assert s[0..] == s; }
        assert s[1..][i - 1..] == s[i..];
      }
      if Occurs(s[1..], pat) {
        var i :| 0 <= i <= |s[1..]| && MatchesAt(s[1..][i..], pat);
        assert s[1..][i..] == s[i + 1..];
      }
    }
  }

  lemma {:induction false} ReplaceLength(s: string, pat: string, rep: string)
    requires |rep| >= |pat|
    ensures |ReplaceCI(s, pat, rep)| >= |s|
    ensures |rep| > |pat| && MatchCount(Scan(s, pat)) > 0 ==> |ReplaceCI(s, pat, rep)| > |s|
    decreases |s|
  {
    if s != [] {
      if pat != [] && MatchesAt(s, pat) {
        ReplaceLength(s[|pat|..], pat, rep);
      } else {
        ReplaceLength(s[1..], pat, rep);
      }
    }
  }

  /** Highlighting one non-empty term changes the text exactly when the term
      occurs in it, ignoring case. */
  lemma HighlightChangesIffOccurs(s: string, term: string)
    requires term != []
    ensures ReplaceCI(s, term, Mark(term)) == s <==> !Occurs(s, term)
  {
    MatchCountOccurs(s, term);
    ReplaceLength(s, term, Mark(term));
    if !Occurs(s, term) {
      NoMatchUnchanged(s, term, Mark(term));
    }
  }

  lemma {:induction false} NoMatchUnchanged(s: string, pat: string, rep: string)
    requires pat != [] && MatchCount(Scan(s, pat)) == 0
    ensures ReplaceCI(s, pat, rep) == s
    decreases |s|
  {
    if s != [] {
      NoMatchUnchanged(s[1..], pat, rep);
      assert s == [s[0]] + s[1..];
    }
  }

  /** The page text after every term has been highlighted, in term order
      (the inner loop of start()). */
  function HighlightAll(text: string, terms: seq<string>): string
    decreases |terms|
  {
    if terms == [] then text
    else
      var last := terms[|terms| - 1];
      ReplaceCI(HighlightAll(text, terms[..|terms| - 1]), last, Mark(last))
  }

  /** Highlighting never shortens a page, and leaves a page in which no
      (non-empty) term occurs exactly as it was. */
  lemma {:induction false} HighlightAllSpec(text: string, terms: seq<string>)
    ensures |HighlightAll(text, terms)| >= |text|
    ensures (forall t :: t in terms ==> t != [] && !Occurs(text, t)) ==> HighlightAll(text, terms) == text
    decreases |terms|
  {
    if terms != [] {
      var last := terms[|terms| - 1];
      var front := terms[..|terms| - 1];
      HighlightAllSpec(text, front);
      var prev := HighlightAll(text, front);
      ReplaceLength(prev, last, Mark(last));
      if forall t :: t in terms ==> t != [] && !Occurs(text, t) {
        assert forall t :: t in front ==> t in terms;
        assert prev == text;
        assert last in terms;
        HighlightChangesIffOccurs(prev, last);
      }
    }
  }
}
