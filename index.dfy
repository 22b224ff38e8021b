/**
 * The incremental index (load_page_data). The list of processed PDF paths
 * and the list of page records are loaded before the run and saved after
 * it; here they are the method's inputs and outputs. A path that was
 * processed before is skipped; a new one is recorded as processed and gets
 * one page record per page its text extractor returns. The extractor
 * (get_pages) is the parameter pagesOf.
 */
module Index {
  import opened Text
  import opened Paths

  /** One entry of the page store: {'filename': ..., 'page': ..., 'path': ...}. */
  datatype PageRecord = PageRecord(filename: string, page: string, path: string)

  /** The processed list and the page list together. */
  datatype Store = Store(processed: seq<string>, pageData: seq<PageRecord>)

  const PageSuffix := " - pg: "

  /** s[:-4]: the text without its last four characters (the ".pdf"). */
  function DropLastFour(s: string): string { if |s| >= 4 then s[..|s| - 4] else "" }

  /** basename(p)[:-4].replace('_', ' ').title() */
  function DisplayName(p: string): string
  {
    Title(ReplaceChar(DropLastFour(Basename(p)), '_', " "))
  }

  /** The record name of page n (counted from 1) of the PDF at p. */
  function PageName(p: string, n: nat): string { DisplayName(p) + PageSuffix + NatToString(n) }

  /** filename.split(':')[-1].strip(): the page anchor that a rendered result links to. */
  function PageAnchor(filename: string): string
  {
    var fields := Split(filename, ':');
    Strip(fields[|fields| - 1])
  }

  /** The display name holds no underscore and reads like the file name
      without its extension, up to case. */
  lemma DisplayNameSpec(p: string)
    ensures '_' !in DisplayName(p)
    ensures Lower(DisplayName(p)) == Lower(ReplaceChar(DropLastFour(Basename(p)), '_', " "))
  {
    var r := ReplaceChar(DropLastFour(Basename(p)), '_', " ");
    ReplaceCharSpec(DropLastFour(Basename(p)), '_', " ");
    TitleSpec(r);
    TitleKeepsUncased(r);
    var t := Title(r);
    forall i | 0 <= i < |t| ensures t[i] != '_' {
      if IsCased(r[i]) {
        assert IsCased(t[i]);
      } else {
        assert t[i] == r[i];
        assert r[i] in r;
      }
    }
  }

  /** The anchor read back from a record name is the page number it was built with. */
  lemma PageAnchorOfPageName(p: string, n: nat)
    ensures PageAnchor(PageName(p, n)) == NatToString(n)
  {
    var digits := NatToString(n);
    NatToStringDigits(n);
    assert ':' !in digits by {
      forall i | 0 <= i < |digits| ensures digits[i] != ':' { assert IsDigit(digits[i]); }
    }
    var front := DisplayName(p) + " - pg";
    assert PageName(p, n) == front + [':'] + (" " + digits);
    SplitAround(front, " " + digits, ':');
    SplitWithoutSep(" " + digits, ':');
    assert " " + digits == " " + digits + "";
    StripPadded(" ", digits, "");
  }

  /** The records for the pages of the PDF at p, in page order. */
  function Records(p: string, pages: seq<string>): seq<PageRecord>
  {
    seq(|pages|, i requires 0 <= i < |pages| => PageRecord(PageName(p, i + 1), pages[i], p))
  }

  /** One iteration of the loop over the PDF paths. */
  function Step(st: Store, p: string, pagesOf: string -> seq<string>): Store
  {
    if p in st.processed then st
    else Store(st.processed + [p], st.pageData + Records(p, pagesOf(p)))
  }

  /** The store after the loop has handled every path of pdfs in order. */
  function Merge(pdfs: seq<string>, st: Store, pagesOf: string -> seq<string>): Store
    decreases |pdfs|
  {
    if pdfs == [] then st
    else Step(Merge(pdfs[..|pdfs| - 1], st, pagesOf), pdfs[|pdfs| - 1], pagesOf)
  }

  /** load_page_data(pdfs), with the loaded processed list and page list as
      inputs and the lists it leaves behind as outputs. */
  method LoadPageData(pdfs: seq<string>, processed0: seq<string>, pageData0: seq<PageRecord>,
                      pagesOf: string -> seq<string>)
    returns (processed: seq<string>, pageData: seq<PageRecord>)
    ensures Store(processed, pageData) == Merge(pdfs, Store(processed0, pageData0), pagesOf)
    ensures processed0 <= processed && pageData0 <= pageData
  {
    processed, pageData := processed0, pageData0;
    var k := 0;
    while k < |pdfs|
      invariant 0 <= k <= |pdfs|
      invariant Store(processed, pageData) == Merge(pdfs[..k], Store(processed0, pageData0), pagesOf)
      invariant processed0 <= processed && pageData0 <= pageData
    {
      var p := pdfs[k];
      assert pdfs[..k + 1][..k] == pdfs[..k];
      if p !in processed {
        processed := processed + [p];
        var pages := pagesOf(p);
        ghost var before := pageData;
        var i := 0;
        while i < |pages|
          invariant 0 <= i <= |pages|
          invariant pageData == before + Records(p, pages[..i])
        {
          var filename := PageName(p, i + 1);
          pageData := pageData + [PageRecord(filename, pages[i], p)];
          assert Records(p, pages[..i + 1]) == Records(p, pages[..i]) + [PageRecord(filename, pages[i], p)];
          i := i + 1;
        }
        assert pages[..i] == pages;
      }
      k := k + 1;
    }
    assert pdfs[..k] == pdfs;
  }

  /** Each record built for a PDF names its page in page order, carries that
      page's text and the PDF's path, and its name ends in " - pg: <n>". */
  lemma RecordsSpec(p: string, pages: seq<string>)
    ensures |Records(p, pages)| == |pages|
    ensures forall i :: 0 <= i < |pages| ==>
      Records(p, pages)[i].page == pages[i] && Records(p, pages)[i].path == p &&
      EndsWith(Records(p, pages)[i].filename, PageSuffix + NatToString(i + 1)) &&
      PageAnchor(Records(p, pages)[i].filename) == NatToString(i + 1)
  {
    forall i | 0 <= i < |pages|
      ensures EndsWith(Records(p, pages)[i].filename, PageSuffix + NatToString(i + 1))
      ensures PageAnchor(Records(p, pages)[i].filename) == NatToString(i + 1)
    {
      var name := Records(p, pages)[i].filename;
      assert name == DisplayName(p) + (PageSuffix + NatToString(i + 1));
      PageAnchorOfPageName(p, i + 1);
    }
  }

  /** The loop only appends: both lists of the store are prefixes of what it returns. */
  lemma {:induction false} MergeAppendsOnly(pdfs: seq<string>, st: Store, pagesOf: string -> seq<string>)
    ensures st.processed <= Merge(pdfs, st, pagesOf).processed
    ensures st.pageData <= Merge(pdfs, st, pagesOf).pageData
    decreases |pdfs|
  {
    if pdfs != [] {
      MergeAppendsOnly(pdfs[..|pdfs| - 1], st, pagesOf);
    }
  }

  /** After the loop the processed list holds exactly the paths it held
      before and the paths of pdfs. */
  lemma {:induction false} MergeProcessedPaths(pdfs: seq<string>, st: Store, pagesOf: string -> seq<string>)
    ensures Elems(Merge(pdfs, st, pagesOf).processed) == Elems(st.processed) + Elems(pdfs)
    decreases |pdfs|
  {
    if pdfs != [] {
      var front := pdfs[..|pdfs| - 1];
      MergeProcessedPaths(front, st, pagesOf);
      var p := pdfs[|pdfs| - 1];
      var mid := Merge(front, st, pagesOf);
      assert pdfs == front + [p];
      assert Elems(pdfs) == Elems(front) + {p};
      assert Elems(mid.processed + [p]) == Elems(mid.processed) + {p};
    }
  }

  /** A path that is already processed is skipped: nothing is appended. */
  lemma {:induction false} MergeSkipsProcessed(pdfs: seq<string>, st: Store, pagesOf: string -> seq<string>)
    requires forall p :: p in pdfs ==> p in st.processed
    ensures Merge(pdfs, st, pagesOf) == st
    decreases |pdfs|
  {
    if pdfs != [] {
      MergeSkipsProcessed(pdfs[..|pdfs| - 1], st, pagesOf);
      assert pdfs[|pdfs| - 1] in pdfs;
    }
  }

  /** Running the loop again on the same PDF list and on the state it left
      changes nothing. */
  lemma MergeIdempotent(pdfs: seq<string>, st: Store, pagesOf: string -> seq<string>)
    ensures Merge(pdfs, Merge(pdfs, st, pagesOf), pagesOf) == Merge(pdfs, st, pagesOf)
  {
    var st' := Merge(pdfs, st, pagesOf);
    MergeProcessedPaths(pdfs, st, pagesOf);
    forall p | p in pdfs ensures p in st'.processed {
      assert p in Elems(pdfs);
    }
    MergeSkipsProcessed(pdfs, st', pagesOf);
  }

  /** The processed list stays free of duplicates, even when pdfs repeats a
      path: a path is recorded before the next path is looked up. */
  lemma {:induction false} MergeKeepsDistinct(pdfs: seq<string>, st: Store, pagesOf: string -> seq<string>)
    requires Distinct(st.processed)
    ensures Distinct(Merge(pdfs, st, pagesOf).processed)
    decreases |pdfs|
  {
    if pdfs != [] {
      MergeKeepsDistinct(pdfs[..|pdfs| - 1], st, pagesOf);
    }
  }

  /** The records of an appended part whose path is p, in order. */
  function OfPath(rs: seq<PageRecord>, p: string): seq<PageRecord>
    decreases |rs|
  {
    if rs == [] then [] else (if rs[0].path == p then [rs[0]] else []) + OfPath(rs[1..], p)
  }

  lemma {:induction false} OfPathAppend(a: seq<PageRecord>, b: seq<PageRecord>, p: string)
    ensures OfPath(a + b, p) == OfPath(a, p) + OfPath(b, p)
    decreases |a|
  {
    if a == [] {
      assert a + b == b;
    } else {
      var ab := a + b;
      OfPathAppend(a[1..], b, p);
      assert ab[0] == a[0] && ab[1..] == a[1..] + b;
      assert OfPath(ab, p) == (if a[0].path == p then [a[0]] else []) + OfPath(ab[1..], p);
    }
  }

  lemma {:induction false} OfPathRecords(q: string, pages: seq<string>, p: string)
    ensures OfPath(Records(q, pages), p) == if q == p then Records(q, pages) else []
    decreases |pages|
  {
    if pages != [] {
      var n := |pages| - 1;
      var last := PageRecord(PageName(q, n + 1), pages[n], q);
      OfPathRecords(q, pages[..n], p);
      RecordsSnoc(q, pages);
      OfPathAppend(Records(q, pages[..n]), [last], p);
      assert OfPath([last], p) == if q == p then [last] else [];
    }
  }

  /** The records of one more page are those before it and its own. */
  lemma RecordsSnoc(q: string, pages: seq<string>)
    requires pages != []
    ensures Records(q, pages) == Records(q, pages[..|pages| - 1]) + [PageRecord(PageName(q, |pages|), pages[|pages| - 1], q)]
  {
  }

  /** What the loop appends. */
  function Appended(pdfs: seq<string>, st: Store, pagesOf: string -> seq<string>): seq<PageRecord>
  {
    MergeAppendsOnly(pdfs, st, pagesOf);
    Merge(pdfs, st, pagesOf).pageData[|st.pageData|..]
  }

  /** Every appended record belongs to a path the processed list did not hold before. */
  lemma {:induction false} AppendedPaths(pdfs: seq<string>, st: Store, pagesOf: string -> seq<string>)
    ensures forall r :: r in Appended(pdfs, st, pagesOf) ==>
      r.path in Merge(pdfs, st, pagesOf).processed && r.path !in st.processed
    decreases |pdfs|
  {
    if pdfs != [] {
      var front := pdfs[..|pdfs| - 1];
      var p := pdfs[|pdfs| - 1];
      AppendedPaths(front, st, pagesOf);
      MergeAppendsOnly(front, st, pagesOf);
      var mid := Merge(front, st, pagesOf);
      if p !in mid.processed {
        var recs := Records(p, pagesOf(p));
        assert Appended(pdfs, st, pagesOf) == Appended(front, st, pagesOf) + recs;
        assert p !in st.processed;
      }
    }
  }

  /** For each path, the appended records with that path are exactly the
      records of its pages, in page order, when the path was new, and none
      otherwise. */
  lemma {:induction false} AppendedRecordsOfPath(pdfs: seq<string>, st: Store, pagesOf: string -> seq<string>, p: string)
    ensures OfPath(Appended(pdfs, st, pagesOf), p)
      == if p in pdfs && p !in st.processed then Records(p, pagesOf(p)) else []
    decreases |pdfs|
  {
    if pdfs == [] {
      assert Appended(pdfs, st, pagesOf) == [];
    } else {
      var front, q := pdfs[..|pdfs| - 1], pdfs[|pdfs| - 1];
      var isNew := q !in Merge(front, st, pagesOf).processed;
      var recs := if isNew then Records(q, pagesOf(q)) else [];
      AppendedRecordsOfPath(front, st, pagesOf, p);
      AppendedStep(pdfs, st, pagesOf);
      NewPathStep(pdfs, st, pagesOf, p);
      OfPathAppend(Appended(front, st, pagesOf), recs, p);
      OfPathRecords(q, pagesOf(q), p);
    }
  }

  /** A path is new to the whole list exactly when it is new to the front of
      the list, or it is the last path and was not processed by then. */
  lemma NewPathStep(pdfs: seq<string>, st: Store, pagesOf: string -> seq<string>, p: string)
    requires pdfs != []
    ensures var front, q := pdfs[..|pdfs| - 1], pdfs[|pdfs| - 1];
      (p in pdfs && p !in st.processed) <==>
      (p in front && p !in st.processed) || (p == q && q !in Merge(front, st, pagesOf).processed)
    ensures var front, q := pdfs[..|pdfs| - 1], pdfs[|pdfs| - 1];
      p == q && q !in Merge(front, st, pagesOf).processed ==> p !in front
  {
    var front, q := pdfs[..|pdfs| - 1], pdfs[|pdfs| - 1];
    MergeProcessedPaths(front, st, pagesOf);
    assert pdfs == front + [q];
    assert q in Merge(front, st, pagesOf).processed <==> q in Elems(Merge(front, st, pagesOf).processed);
  }

  /** What handling the last path of pdfs appends. */
  lemma AppendedStep(pdfs: seq<string>, st: Store, pagesOf: string -> seq<string>)
    requires pdfs != []
    ensures var front, q := pdfs[..|pdfs| - 1], pdfs[|pdfs| - 1];
      Appended(pdfs, st, pagesOf) == Appended(front, st, pagesOf) +
        if q in Merge(front, st, pagesOf).processed then [] else Records(q, pagesOf(q))
  {
    var front, q := pdfs[..|pdfs| - 1], pdfs[|pdfs| - 1];
    MergeAppendsOnly(front, st, pagesOf);
    var mid := Merge(front, st, pagesOf);
    if q !in mid.processed {
      var all := mid.pageData + Records(q, pagesOf(q));
      assert all[|st.pageData|..] == mid.pageData[|st.pageData|..] + Records(q, pagesOf(q));
    }
  }
}
