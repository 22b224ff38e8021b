/**
 * One search round of start(): every stored page is scored against the
 * query terms; a page that scores is highlighted term by term, rendered as
 * a Markdown result and recorded in the results dict under that text with
 * its score; the dict is then shown by display_results.
 *
 * The term set is enumerated once, in an order the model leaves open, and
 * both the scoring and the highlighting walk that same enumeration. The
 * page text is highlighted in a copy: the stored page list is reloaded for
 * every query, so the change start() makes to it is never seen again.
 */
module Query {
  import opened Text
  import opened Scoring
  import opened Highlight
  import opened Index
  import opened Ranking
  import opened Terms

  const LinkOpen := "## <a href=\"file:\\\\\\"
  const PageFragment := "#page="

  /** The Markdown block of one result: a link to the page of the PDF (the
      absolute path with spaces escaped, the page number taken from the
      display name), the hit count, the stored path, and the highlighted
      page text. absPath stands for os.path.abspath. */
  function Render(absPath: string -> string, rec: PageRecord, text: string, hits: nat): (r: string)
    ensures LinkOpen <= r
    ensures EndsWith(r, "\n\n" + text)
  {
    var link := LinkOpen + ReplaceChar(absPath(rec.path), ' ', "%20") + PageFragment + PageAnchor(rec.filename);
    var head := link + "\">" + rec.filename + "</a>\nhits: " + NatToString(hits) + "\n" + rec.path;
    assert (head + "\n\n" + text)[..|LinkOpen|] == LinkOpen;
    head + "\n\n" + text
  }

  /** The score start() gives a page: get_hits on its text. */
  function Score(terms: seq<string>): PageRecord -> nat
  {
    (rec: PageRecord) => GetHits(rec.page, terms)
  }

  /** The text start() files a scoring page under: the page highlighted with
      every term, rendered with its score. */
  function ResultText(absPath: string -> string, terms: seq<string>): PageRecord -> string
  {
    (rec: PageRecord) => Render(absPath, rec, HighlightAll(rec.page, terms), GetHits(rec.page, terms))
  }

  /** The assignments results[text(page)] = score(page) the loop makes, in
      page order: one for every page that scores. */
  function Filings(pages: seq<PageRecord>, score: PageRecord -> nat, text: PageRecord -> string): seq<Entry>
    decreases |pages|
  {
    if pages == [] then []
    else
      var rec := pages[|pages| - 1];
      Filings(pages[..|pages| - 1], score, text) + if score(rec) > 0 then [Entry(text(rec), score(rec))] else []
  }

  /** The results dict after the given pages have been examined. */
  function QueryResults(pages: seq<PageRecord>, terms: seq<string>, absPath: string -> string): seq<Entry>
  {
    Assign(Filings(pages, Score(terms), ResultText(absPath, terms)))
  }

  /** The loop of start() over the stored pages. */
  method QueryPages(pageData: seq<PageRecord>, terms: seq<string>, absPath: string -> string)
    returns (results: seq<Entry>)
    ensures results == QueryResults(pageData, terms, absPath)
    ensures DistinctKeys(results)
    ensures forall e :: e in results ==> e.hits > 0
  {
    var score, text := Score(terms), ResultText(absPath, terms);
    results := [];
    var k := 0;
    while k < |pageData|
      invariant 0 <= k <= |pageData|
      invariant results == Assign(Filings(pageData[..k], score, text))
    {
      var page := pageData[k];
      var hits := GetHits(page.page, terms);
      QueryStep(pageData, k, score, text);
      assert score(page) == hits;
      if hits > 0 {
        var highlighted := Highlighted(page.page, terms);
        var result := Render(absPath, page, highlighted, hits);
        assert text(page) == result;
        results := Put(results, result, hits);
      }
      k := k + 1;
    }
    assert pageData[..k] == pageData;
    QueryResultsWellFormed(pageData, terms, absPath);
  }

  /** The inner loop of start(): every term, in turn, is highlighted in the page text. */
  method Highlighted(page: string, terms: seq<string>) returns (text: string)
    ensures text == HighlightAll(page, terms)
    ensures |text| >= |page|
    ensures (forall t :: t in terms ==> t != [] && !Occurs(page, t)) ==> text == page
  {
    text := page;
    var j := 0;
    while j < |terms|
      invariant 0 <= j <= |terms|
      invariant text == HighlightAll(page, terms[..j])
    {
      assert terms[..j + 1][..j] == terms[..j];
      text := ReplaceCI(text, terms[j], Mark(terms[j]));
      j := j + 1;
    }
    assert terms[..j] == terms;
    HighlightAllSpec(page, terms);
  }

  /** Examining one more page adds its filing, if it scores. */
  lemma FilingsAppend(pages: seq<PageRecord>, rec: PageRecord, score: PageRecord -> nat, text: PageRecord -> string)
    ensures Filings(pages + [rec], score, text)
      == Filings(pages, score, text) + if score(rec) > 0 then [Entry(text(rec), score(rec))] else []
  {
    assert (pages + [rec])[..|pages|] == pages;
  }

  /** What examining page k does to the dict. */
  lemma QueryStep(pageData: seq<PageRecord>, k: int, score: PageRecord -> nat, text: PageRecord -> string)
    requires 0 <= k < |pageData|
    ensures Assign(Filings(pageData[..k + 1], score, text))
      == if score(pageData[k]) > 0 then
           Put(Assign(Filings(pageData[..k], score, text)), text(pageData[k]), score(pageData[k]))
         else Assign(Filings(pageData[..k], score, text))
  {
    assert pageData[..k + 1] == pageData[..k] + [pageData[k]];
    FilingsAppend(pageData[..k], pageData[k], score, text);
    var front := Filings(pageData[..k], score, text);
    if score(pageData[k]) > 0 {
      AssignAppend(front, Entry(text(pageData[k]), score(pageData[k])));
    } else {
      assert Filings(pageData[..k + 1], score, text) == front + [];
      assert front + [] == front;
    }
  }

  /** Exactly the pages that score are filed, each under its text and with its score. */
  lemma {:induction false} FilingsSpec(pages: seq<PageRecord>, score: PageRecord -> nat, text: PageRecord -> string)
    ensures forall e :: e in Filings(pages, score, text) <==>
      exists i :: 0 <= i < |pages| && score(pages[i]) > 0 && e == Entry(text(pages[i]), score(pages[i]))
    ensures forall e :: e in Filings(pages, score, text) ==> e.hits > 0
    ensures |Filings(pages, score, text)| <= |pages|
    decreases |pages|
  {
    if pages != [] {
      var n := |pages| - 1;
      var front := pages[..n];
      FilingsSpec(front, score, text);
      forall i | 0 <= i < n ensures pages[i] == front[i] {}
    }
  }

  /** Nothing is filed exactly when no page scores. */
  lemma FilingsEmpty(pages: seq<PageRecord>, score: PageRecord -> nat, text: PageRecord -> string)
    ensures Filings(pages, score, text) == [] <==> forall i :: 0 <= i < |pages| ==> score(pages[i]) == 0
  {
    var ws := Filings(pages, score, text);
    FilingsSpec(pages, score, text);
    if ws != [] {
      assert ws[0] in ws;
    }
    forall i | 0 <= i < |pages| && score(pages[i]) > 0 ensures ws != [] {
      assert Entry(text(pages[i]), score(pages[i])) in ws;
    }
  }

  /** The results dict has distinct keys and positive scores only. */
  lemma QueryResultsWellFormed(pages: seq<PageRecord>, terms: seq<string>, absPath: string -> string)
    ensures DistinctKeys(QueryResults(pages, terms, absPath))
    ensures forall e :: e in QueryResults(pages, terms, absPath) ==> e.hits > 0
  {
    var ws := Filings(pages, Score(terms), ResultText(absPath, terms));
    FilingsSpec(pages, Score(terms), ResultText(absPath, terms));
    AssignKeys(ws);
    AssignSound(ws);
    forall e | e in Assign(ws) ensures e.hits > 0 {
      var i :| LastWrite(ws, i) && ws[i] == e;
      assert ws[i] in ws;
    }
  }

  /** The results dict holds an entry under the result text of every scoring
      page and nothing else, with the score taken on the page before
      highlighting; each entry is the last assignment made under its key. */
  lemma QueryResultsSpec(pages: seq<PageRecord>, terms: seq<string>, absPath: string -> string)
    ensures forall e :: e in QueryResults(pages, terms, absPath) ==>
      exists i :: 0 <= i < |pages| && Score(terms)(pages[i]) > 0 &&
        e == Entry(ResultText(absPath, terms)(pages[i]), Score(terms)(pages[i]))
    ensures forall i :: 0 <= i < |pages| && Score(terms)(pages[i]) > 0 ==>
      ResultText(absPath, terms)(pages[i]) in KeySet(QueryResults(pages, terms, absPath))
    ensures forall e :: e in QueryResults(pages, terms, absPath) ==>
      exists i :: LastWrite(Filings(pages, Score(terms), ResultText(absPath, terms)), i) &&
        Filings(pages, Score(terms), ResultText(absPath, terms))[i] == e
  {
    var score, text := Score(terms), ResultText(absPath, terms);
    AssignedFilings(pages, score, text);
    assert QueryResults(pages, terms, absPath) == Assign(Filings(pages, score, text));
  }

  /** For any scoring and any text, the dict built from the filings holds
      exactly the last filing under each key, and a key for every page that
      scores. */
  lemma AssignedFilings(pages: seq<PageRecord>, score: PageRecord -> nat, text: PageRecord -> string)
    ensures forall e :: e in Assign(Filings(pages, score, text)) ==>
      exists i :: 0 <= i < |pages| && score(pages[i]) > 0 && e == Entry(text(pages[i]), score(pages[i]))
    ensures forall i :: 0 <= i < |pages| && score(pages[i]) > 0 ==>
      text(pages[i]) in KeySet(Assign(Filings(pages, score, text)))
    ensures forall e :: e in Assign(Filings(pages, score, text)) ==>
      exists i :: LastWrite(Filings(pages, score, text), i) && Filings(pages, score, text)[i] == e
  {
    var ws := Filings(pages, score, text);
    FilingsSpec(pages, score, text);
    AssignKeys(ws);
    AssignSound(ws);
    forall e | e in Assign(ws) ensures e in ws {
      var i :| LastWrite(ws, i) && ws[i] == e;
    }
    forall i | 0 <= i < |pages| && score(pages[i]) > 0 ensures text(pages[i]) in KeySet(Assign(ws)) {
      assert Entry(text(pages[i]), score(pages[i])) in ws;
    }
  }

  /** The dict is empty exactly when no page scores, that is when no term
      equals a lower-cased chunk of any page; in particular an empty query
      finds nothing. */
  lemma QueryResultsEmpty(pages: seq<PageRecord>, terms: seq<string>, absPath: string -> string)
    ensures QueryResults(pages, terms, absPath) == [] <==>
      forall i, t :: 0 <= i < |pages| && t in terms ==> t !in Chunks(pages[i].page)
    ensures terms == [] ==> QueryResults(pages, terms, absPath) == []
  {
    var score := Score(terms);
    var ws := Filings(pages, score, ResultText(absPath, terms));
    FilingsEmpty(pages, score, ResultText(absPath, terms));
    AssignEmpty(ws);
    forall i | 0 <= i < |pages| ensures score(pages[i]) == 0 <==> forall t :: t in terms ==> t !in Chunks(pages[i].page) {
      GetHitsZeroOrEleven(pages[i].page, terms);
    }
  }

  /** The outcome of one line of input. */
  datatype Outcome = Stopped | Shown(display: Display)

  /** Lists the elements of a set once each, in an order left open (the
      order in which Python iterates a set is not specified). */
  method Enumerate(items: set<string>) returns (order: seq<string>)
    ensures Distinct(order) && Elems(order) == items
  {
    order := [];
    var rest := items;
    while rest != {}
      invariant rest <= items && Elems(order) == items - rest
      invariant Distinct(order)
      decreases |rest|
    {
      var t :| t in rest;
      DistinctSnoc(order, t);
      order := order + [t];
      rest := rest - {t};
    }
  }

  lemma DistinctSnoc(s: seq<string>, x: string)
    requires Distinct(s) && x !in Elems(s)
    ensures Distinct(s + [x]) && Elems(s + [x]) == Elems(s) + {x}
  {
    var r := s + [x];
    forall i, j | 0 <= i < j < |r| ensures r[i] != r[j] {
      assert r[i] == s[i];
      if j == |s| {
        assert s[i] in Elems(s);
      } else {
        assert r[j] == s[j];
      }
    }
  }

  /** One round of start(): read the line, and unless it asks to quit, score
      the pages against its terms and show the results. The terms are
      enumerated in some order, as Python iterates a set. */
  method SearchOnce(line: string, pageData: seq<PageRecord>, tokenize: string -> seq<string>,
                    stopWords: set<string>, absPath: string -> string)
    returns (outcome: Outcome)
    ensures outcome == Stopped <==> ReadCommand(line) == Quit
    ensures outcome.Shown? ==> exists terms ::
      Distinct(terms) && Elems(terms) == SearchTerms(ReadCommand(line).query, tokenize, stopWords) &&
      DistinctKeys(QueryResults(pageData, terms, absPath)) &&
      outcome.display == DisplayResults(QueryResults(pageData, terms, absPath))
    ensures outcome.Shown? ==> (outcome.display == NoResults <==>
      forall i, t :: 0 <= i < |pageData| && t in SearchTerms(ReadCommand(line).query, tokenize, stopWords) ==>
        t !in Chunks(pageData[i].page))
  {
    var command := ReadCommand(line);
    if command.Quit? {
      return Stopped;
    }
    var terms := Enumerate(SearchTerms(command.query, tokenize, stopWords));
    var results := QueryPages(pageData, terms, absPath);
    outcome := Shown(DisplayResults(results));
    DisplayResultsSpec(results);
    QueryResultsEmpty(pageData, terms, absPath);
    assert forall t :: t in terms <==> t in Elems(terms);
  }
}
