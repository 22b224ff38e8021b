/**
 * Query terms (get_search_terms) and the query line read by start().
 * Punctuation is removed from the query, the rest is cut into words by a
 * tokenizer, and every lower-cased word that is not a stop word becomes a
 * term. The tokenizer and the stop-word list belong to a natural-language
 * library and are inputs here.
 */
module Terms {
  import opened Text

  /** A character of the \w class: a letter, a digit or '_'. */
  predicate IsWordChar(c: char) { IsCased(c) || IsDigit(c) || c == '_' }

  /** What re.sub(r'[^\w\s]', '', q) keeps. */
  predicate Kept(c: char) { IsWordChar(c) || IsSpace(c) }

  /** re.sub(r'[^\w\s]', '', q): every character that is neither a word
      character nor white space is dropped. */
  function StripPunctuation(q: string): string
    decreases |q|
  {
    if q == [] then ""
    else (if Kept(q[0]) then [q[0]] else []) + StripPunctuation(q[1..])
  }

  /** The stripped query keeps every word and space character, as often as
      it occurs, and nothing else; it changes the query exactly when the
      query holds some other character. StripPunctuationAppend adds that
      the kept characters stay in order. */
  lemma StripPunctuationSpec(q: string)
    ensures forall c :: multiset(StripPunctuation(q))[c] == if Kept(c) then multiset(q)[c] else 0
    ensures forall i :: 0 <= i < |StripPunctuation(q)| ==> Kept(StripPunctuation(q)[i])
    ensures |StripPunctuation(q)| <= |q|
    ensures StripPunctuation(q) == q <==> forall i :: 0 <= i < |q| ==> Kept(q[i])
  {
    StripPunctuationCounts(q);
    StripPunctuationKeeps(q);
  }

  lemma {:induction false} StripPunctuationCounts(q: string)
    ensures forall c :: multiset(StripPunctuation(q))[c] == if Kept(c) then multiset(q)[c] else 0
    decreases |q|
  {
    if q != [] {
      StripPunctuationCounts(q[1..]);
      assert q == [q[0]] + q[1..];
    }
  }

  lemma {:induction false} StripPunctuationKeeps(q: string)
    ensures forall i :: 0 <= i < |StripPunctuation(q)| ==> Kept(StripPunctuation(q)[i])
    ensures |StripPunctuation(q)| <= |q|
    ensures StripPunctuation(q) == q <==> forall i :: 0 <= i < |q| ==> Kept(q[i])
    decreases |q|
  {
    if q != [] {
      var rest := StripPunctuation(q[1..]);
      StripPunctuationKeeps(q[1..]);
      if Kept(q[0]) {
        assert StripPunctuation(q) == [q[0]] + rest;
        assert q == [q[0]] + q[1..];
        forall i | 1 <= i < |q| ensures q[i] == q[1..][i - 1] {}
      } else {
        assert StripPunctuation(q) == rest;
      }
    }
  }

  /** Stripping works character by character: the stripped concatenation
      is the concatenation of the stripped parts, so the kept characters
      stay in the order they occur. */
  lemma {:induction false} StripPunctuationAppend(a: string, b: string)
    ensures StripPunctuation(a + b) == StripPunctuation(a) + StripPunctuation(b)
    decreases |a|
  {
    if a == [] {
      assert a + b == b;
    } else {
      StripPunctuationAppend(a[1..], b);
      assert (a + b)[0] == a[0] && (a + b)[1..] == a[1..] + b;
    }
  }

  lemma StripPunctuationIdempotent(q: string)
    ensures StripPunctuation(StripPunctuation(q)) == StripPunctuation(q)
  {
    StripPunctuationSpec(q);
    StripPunctuationSpec(StripPunctuation(q));
  }

  /** get_search_terms(query): the lower-cased tokens of the stripped query
      that are not stop words. */
  function SearchTerms(query: string, tokenize: string -> seq<string>, stopWords: set<string>): set<string>
  {
    set w | w in tokenize(StripPunctuation(query)) && Lower(w) !in stopWords :: Lower(w)
  }

  /** A string is a term exactly when some token lower-cases to it and it is
      not a stop word; every term is lower case; no tokens, no terms. */
  lemma SearchTermsSpec(query: string, tokenize: string -> seq<string>, stopWords: set<string>)
    ensures forall t :: t in SearchTerms(query, tokenize, stopWords) <==>
      t !in stopWords && exists w :: w in tokenize(StripPunctuation(query)) && Lower(w) == t
    ensures forall t :: t in SearchTerms(query, tokenize, stopWords) ==> Lower(t) == t
    ensures tokenize(StripPunctuation(query)) == [] ==> SearchTerms(query, tokenize, stopWords) == {}
    ensures |SearchTerms(query, tokenize, stopWords)| <= |tokenize(StripPunctuation(query))|
  {
    var toks := tokenize(StripPunctuation(query));
    forall t | t in SearchTerms(query, tokenize, stopWords) ensures Lower(t) == t {
      var w :| w in toks && Lower(w) == t;
      LowerTwice(w);
    }
    TermsFromTokens(toks, stopWords);
  }

  lemma LowerTwice(s: string)
    ensures Lower(Lower(s)) == Lower(s)
  {
    forall i | 0 <= i < |s| ensures Lower(Lower(s))[i] == Lower(s)[i] {}
  }

  /** There are no more terms than tokens. */
  lemma {:induction false} TermsFromTokens(toks: seq<string>, stopWords: set<string>)
    ensures |set w | w in toks && Lower(w) !in stopWords :: Lower(w)| <= |toks|
    decreases |toks|
  {
    if toks != [] {
      var rest := toks[1..];
      TermsFromTokens(rest, stopWords);
      var a := set w | w in toks && Lower(w) !in stopWords :: Lower(w);
      var b := set w | w in rest && Lower(w) !in stopWords :: Lower(w);
      assert a <= b + {Lower(toks[0])} by {
        forall t | t in a ensures t in b + {Lower(toks[0])} {
          var w :| w in toks && Lower(w) !in stopWords && Lower(w) == t;
          if w != toks[0] {
            assert w in rest;
          }
        }
      }
      SubsetCard(a, b + {Lower(toks[0])});
    }
  }

  lemma SubsetCard(a: set<string>, b: set<string>)
    requires a <= b
    ensures |a| <= |b|
  {
    assert b == a + (b - a);
  }

  /** What start() does with one line of input. */
  datatype Command = Quit | Search(query: string)

  /** The line is lower-cased and stripped; "q" and "quit" end the program,
      anything else is searched for. */
  function ReadCommand(line: string): Command
  {
    var sel := Strip(Lower(line));
    if sel == "q" || sel == "quit" then Quit else Search(sel)
  }

  /** Surrounding white space and case do not matter for quitting. */
  lemma QuitPadded(a: string, b: string)
    requires AllSpace(a) && AllSpace(b)
    ensures ReadCommand(a + "Quit" + b) == Quit
  {
    assert Lower(a + "Quit" + b) == Lower(a) + "quit" + Lower(b);
    assert AllSpace(Lower(a)) && AllSpace(Lower(b));
    StripPadded(Lower(a), "quit", Lower(b));
  }
}
