/**
 * Hit scoring (get_hits). A page is cut on single spaces, each chunk is
 * lower-cased, and every query term that equals at least one chunk adds
 * its number of occurrences plus a presence bonus of 10.
 *
 * The query's term set is given as a sequence: the order in which Python
 * iterates the set. The score does not depend on that order
 * (HitsDependOnlyOnTermSet).
 */
module Scoring {
  import opened Text

  const PresenceBonus := 10

  /** lower_page: the page split on ' ', each chunk lower-cased. */
  function Chunks(page: string): seq<string>
  {
    var parts := Split(page, ' ');
    seq(|parts|, i requires 0 <= i < |parts| => Lower(parts[i]))
  }

  /** lower_page.count(t) */
  function Count(chunks: seq<string>, t: string): nat { multiset(chunks)[t] }

  /** What one term adds to the score. */
  function TermScore(chunks: seq<string>, t: string): nat
  {
    if Count(chunks, t) > 0 then Count(chunks, t) + PresenceBonus else 0
  }

  function HitsOver(chunks: seq<string>, terms: seq<string>): nat
    decreases |terms|
  {
    if terms == [] then 0 else TermScore(chunks, terms[0]) + HitsOver(chunks, terms[1..])
  }

  /** get_hits(page, terms) */
  function GetHits(page: string, terms: seq<string>): nat { HitsOver(Chunks(page), terms) }

  /** How many chunks equal some term of ts. */
  function CountIn(chunks: seq<string>, ts: set<string>): nat
    decreases |chunks|
  {
    if chunks == [] then 0 else (if chunks[0] in ts then 1 else 0) + CountIn(chunks[1..], ts)
  }

  lemma {:induction false} HitsOverZero(chunks: seq<string>, terms: seq<string>)
    ensures HitsOver(chunks, terms) == 0 <==> forall t :: t in terms ==> t !in chunks
    ensures HitsOver(chunks, terms) != 0 ==> HitsOver(chunks, terms) >= PresenceBonus + 1
    decreases |terms|
  {
    if terms != [] {
      HitsOverZero(chunks, terms[1..]);
      assert terms[0] in chunks <==> Count(chunks, terms[0]) > 0;
      assert forall t :: t in terms ==> t == terms[0] || t in terms[1..];
    }
  }

  /** A page scores 0 exactly when no term equals any of its lower-cased
      chunks (so an empty term set scores 0); a page with a matching term
      scores at least 11. */
  lemma GetHitsZeroOrEleven(page: string, terms: seq<string>)
    ensures GetHits(page, terms) == 0 <==> forall t :: t in terms ==> t !in Chunks(page)
    ensures GetHits(page, terms) == 0 || GetHits(page, terms) >= 11
  {
    HitsOverZero(Chunks(page), terms);
  }

  lemma {:induction false} CountInAdd(chunks: seq<string>, ts: set<string>, t: string)
    requires t !in ts
    ensures CountIn(chunks, ts + {t}) == CountIn(chunks, ts) + Count(chunks, t)
    decreases |chunks|
  {
    if chunks != [] {
      CountInAdd(chunks[1..], ts, t);
      assert chunks == [chunks[0]] + chunks[1..];
      assert multiset(chunks) == multiset([chunks[0]]) + multiset(chunks[1..]);
    }
  }

  lemma {:induction false} HitsOverClosedForm(chunks: seq<string>, terms: seq<string>)
    requires Distinct(terms)
    ensures HitsOver(chunks, terms)
      == CountIn(chunks, Elems(terms)) + PresenceBonus * |Elems(terms) * Elems(chunks)|
    decreases |terms|
  {
    if terms == [] {
      assert Elems(terms) == {};
      CountInEmpty(chunks);
    } else {
      var t, rest := terms[0], terms[1..];
      var e, c := Elems(rest), Elems(chunks);
      DistinctCons(terms);
      HitsOverClosedForm(chunks, rest);
      CountInAdd(chunks, e, t);
      MatchedAddOne(e, c, t);
      assert t in c <==> Count(chunks, t) > 0;
    }
  }

  lemma DistinctCons(terms: seq<string>)
    requires Distinct(terms) && terms != []
    ensures Distinct(terms[1..])
    ensures Elems(terms) == Elems(terms[1..]) + {terms[0]}
    ensures terms[0] !in Elems(terms[1..])
  {
    var rest := terms[1..];
    assert terms == [terms[0]] + rest;
    forall j | 0 <= j < |rest| ensures rest[j] != terms[0] {
      assert rest[j] == terms[j + 1];
    }
  }

  lemma MatchedAddOne(e: set<string>, c: set<string>, t: string)
    requires t !in e
    ensures |(e + {t}) * c| == |e * c| + (if t in c then 1 else 0)
  {
    if t in c {
      assert (e + {t}) * c == e * c + {t};
    } else {
      assert (e + {t}) * c == e * c;
    }
  }

  lemma {:induction false} CountInEmpty(chunks: seq<string>)
    ensures CountIn(chunks, {}) == 0
    decreases |chunks|
  {
    if chunks != [] {
      CountInEmpty(chunks[1..]);
    }
  }

  /** Closed form of get_hits for a set of terms: the number of chunks that
      equal some term, plus 10 for every term that occurs. */
  lemma GetHitsClosedForm(page: string, terms: seq<string>)
    requires Distinct(terms)
    ensures GetHits(page, terms)
      == CountIn(Chunks(page), Elems(terms)) + PresenceBonus * |Elems(terms) * Elems(Chunks(page))|
  {
    HitsOverClosedForm(Chunks(page), terms);
  }

  /** The score is a function of the term set: any two enumerations of the
      same set score a page alike. */
  lemma HitsDependOnlyOnTermSet(page: string, a: seq<string>, b: seq<string>)
    requires Distinct(a) && Distinct(b) && Elems(a) == Elems(b)
    ensures GetHits(page, a) == GetHits(page, b)
  {
    GetHitsClosedForm(page, a);
    GetHitsClosedForm(page, b);
  }

  /** The page "cat cat dog" with the terms {cat, dog} scores (2 + 10) + (1 + 10) = 23. */
  lemma CatCatDog()
    ensures GetHits("cat cat dog", ["cat", "dog"]) == 23
  {
    var page := "cat cat dog";
    assert page == "cat" + [' '] + ("cat" + [' '] + "dog");
    ChunksThree("cat", "cat", "dog");
    CatCatDogChunks(Chunks(page));
  }

  /** The score of the chunks cat, cat, dog. */
  lemma CatCatDogChunks(chunks: seq<string>)
    requires chunks == ["cat", "cat", "dog"]
    ensures HitsOver(chunks, ["cat", "dog"]) == 23
  {
    assert multiset(chunks)["cat"] == 2;
    assert multiset(chunks)["dog"] == 1;
    assert ["cat", "dog"][1..] == ["dog"];
  }

  /** Three lower-case words separated by single spaces are the page's three chunks. */
  lemma ChunksThree(x: string, y: string, z: string)
    requires ' ' !in x && ' ' !in y && ' ' !in z
    requires Lower(x) == x && Lower(y) == y && Lower(z) == z
    ensures Chunks(x + [' '] + (y + [' '] + z)) == [x, y, z]
  {
    SplitAround(x, y + [' '] + z, ' ');
    SplitAround(y, z, ' ');
    SplitWithoutSep(x, ' ');
    SplitWithoutSep(y, ' ');
    SplitWithoutSep(z, ' ');
    assert Split(x + [' '] + (y + [' '] + z), ' ') == [x, y, z];
  }
}
