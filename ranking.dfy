/**
 * The results dictionary and its ranking (sort_results, display_results).
 * A Python dict keeps its keys unique and in insertion order, so it is a
 * sequence of entries with distinct keys here.
 */
module Ranking {
  import opened Text

  /** One item of the results dict: rendered result text -> hits. */
  datatype Entry = Entry(key: string, hits: int)

  /** What display_results does: report that nothing was found, or write the results file. */
  datatype Display = NoResults | ResultsFile(content: string)

  const Heading := "# Top Results"
  const Blank := "\n\n"

  function Keys(es: seq<Entry>): seq<string> { seq(|es|, i requires 0 <= i < |es| => es[i].key) }

  predicate DistinctKeys(es: seq<Entry>) { forall i, j :: 0 <= i < j < |es| ==> es[i].key != es[j].key }

  // ---------------------------------------------------------------- results[k] = v

  /** results[k] = v: the value of an existing key is replaced where the key
      stands; a new key goes at the end. */
  function Put(es: seq<Entry>, k: string, v: int): seq<Entry>
    decreases |es|
  {
    if es == [] then [Entry(k, v)]
    else if es[0].key == k then [Entry(k, v)] + es[1..]
    else [es[0]] + Put(es[1..], k, v)
  }

  /** After the assignment the dict holds Entry(k, v), and otherwise only
      entries it held before; every entry with another key is still there. */
  lemma {:induction false} PutMembers(es: seq<Entry>, k: string, v: int)
    ensures Entry(k, v) in Put(es, k, v)
    ensures forall e :: e in Put(es, k, v) ==> e == Entry(k, v) || e in es
    ensures forall e :: e in es && e.key != k ==> e in Put(es, k, v)
    decreases |es|
  {
    if es != [] {
      assert es == [es[0]] + es[1..];
      if es[0].key != k {
        PutMembers(es[1..], k, v);
      }
    }
  }

  /** Assignment keeps the keys of a dict distinct. */
  lemma {:induction false} PutDistinct(es: seq<Entry>, k: string, v: int)
    requires DistinctKeys(es)
    ensures DistinctKeys(Put(es, k, v))
    decreases |es|
  {
    if es != [] {
      var rest := es[1..];
      DistinctKeysTail(es);
      if es[0].key == k {
        DistinctKeysCons(Entry(k, v), rest);
      } else {
        PutDistinct(rest, k, v);
        PutKeySet(rest, k, v);
        DistinctKeysCons(es[0], Put(rest, k, v));
      }
    }
  }

  lemma DistinctKeysTail(es: seq<Entry>)
    requires DistinctKeys(es) && es != []
    ensures DistinctKeys(es[1..]) && es[0].key !in KeySet(es[1..])
  {
    forall e | e in es[1..] ensures e.key != es[0].key {
      var j :| 0 <= j < |es[1..]| && es[1..][j] == e;
      assert es[j + 1] == e;
    }
  }

  lemma DistinctKeysCons(x: Entry, p: seq<Entry>)
    requires DistinctKeys(p) && x.key !in KeySet(p)
    ensures DistinctKeys([x] + p)
  {
    var r := [x] + p;
    forall i, j | 0 <= i < j < |r| ensures r[i].key != r[j].key {
      assert r[j] == p[j - 1] && r[j] in p;
      if i > 0 {
        assert r[i] == p[i - 1];
      }
    }
  }

  /** Assigning to a key the dict holds replaces its entry where it stands. */
  lemma {:induction false} PutExisting(es: seq<Entry>, k: string, v: int, i: int)
    requires DistinctKeys(es) && 0 <= i < |es| && es[i].key == k
    ensures |Put(es, k, v)| == |es|
    ensures Put(es, k, v) == es[i := Entry(k, v)]
    decreases i
  {
    if i > 0 {
      assert es[0].key != k;
      PutExisting(es[1..], k, v, i - 1);
      assert es == [es[0]] + es[1..];
    } else {
      assert es == [es[0]] + es[1..];
    }
  }

  /** Assigning to a new key appends its entry. */
  lemma {:induction false} PutNew(es: seq<Entry>, k: string, v: int)
    requires forall i :: 0 <= i < |es| ==> es[i].key != k
    ensures Put(es, k, v) == es + [Entry(k, v)]
    decreases |es|
  {
    if es != [] {
      PutNew(es[1..], k, v);
      assert es == [es[0]] + es[1..];
    }
  }

  /** The dict after results[k] = v has been done for each write in turn,
      starting from an empty dict. */
  function Assign(writes: seq<Entry>): seq<Entry>
    decreases |writes|
  {
    if writes == [] then []
    else
      var w := writes[|writes| - 1];
      Put(Assign(writes[..|writes| - 1]), w.key, w.hits)
  }

  lemma AssignAppend(writes: seq<Entry>, w: Entry)
    ensures Assign(writes + [w]) == Put(Assign(writes), w.key, w.hits)
  {
    assert (writes + [w])[..|writes|] == writes;
  }

  /** Write i is the last one to its key. */
  ghost predicate LastWrite(writes: seq<Entry>, i: int)
  {
    0 <= i < |writes| && forall j :: i < j < |writes| ==> writes[j].key != writes[i].key
  }

  /** The keys present in a sequence of entries. */
  function KeySet(es: seq<Entry>): set<string> { set e | e in es :: e.key }

  /** Assignment adds its key to the keys of the dict. */
  lemma PutKeySet(es: seq<Entry>, k: string, v: int)
    ensures KeySet(Put(es, k, v)) == KeySet(es) + {k}
  {
    PutMembers(es, k, v);
    forall x | x in KeySet(es) + {k} ensures x in KeySet(Put(es, k, v)) {
      if x == k {
        assert Entry(k, v) in Put(es, k, v);
      } else {
        var e :| e in es && e.key == x;
        assert e in Put(es, k, v);
      }
    }
  }

  /** In a dict with distinct keys, the entry under the assigned key is the new one. */
  lemma PutOverwrites(es: seq<Entry>, k: string, v: int)
    requires DistinctKeys(es)
    ensures forall e :: e in Put(es, k, v) && e.key == k ==> e == Entry(k, v)
  {
    PutDistinct(es, k, v);
    PutMembers(es, k, v);
    var r := Put(es, k, v);
    forall e | e in r && e.key == k ensures e == Entry(k, v) {
      var a :| 0 <= a < |r| && r[a] == e;
      var b :| 0 <= b < |r| && r[b] == Entry(k, v);
      assert a == b;
    }
  }

  /** The dict has distinct keys, and these are exactly the keys written. */
  lemma {:induction false} AssignKeys(writes: seq<Entry>)
    ensures DistinctKeys(Assign(writes))
    ensures KeySet(Assign(writes)) == KeySet(writes)
    decreases |writes|
  {
    if writes != [] {
      var n := |writes| - 1;
      var front, w := writes[..n], writes[n];
      AssignKeys(front);
      PutDistinct(Assign(front), w.key, w.hits);
      PutKeySet(Assign(front), w.key, w.hits);
      assert writes == front + [w];
    }
  }

  /** The last write to a key is what the dict holds for it. */
  lemma {:induction false} AssignLastWins(writes: seq<Entry>, i: int)
    requires LastWrite(writes, i)
    ensures writes[i] in Assign(writes)
    decreases |writes|
  {
    var n := |writes| - 1;
    var front, w := writes[..n], writes[n];
    PutMembers(Assign(front), w.key, w.hits);
    if i < n {
      assert front[i] == writes[i];
      assert LastWrite(front, i);
      AssignLastWins(front, i);
    }
  }

  /** Every entry of the dict is the last write to its key. */
  lemma {:induction false} AssignSound(writes: seq<Entry>)
    ensures forall e :: e in Assign(writes) ==> exists i :: LastWrite(writes, i) && writes[i] == e
    decreases |writes|
  {
    if writes != [] {
      var n := |writes| - 1;
      var front, w := writes[..n], writes[n];
      AssignSound(front);
      var prev := Assign(front);
      AssignKeys(front);
      PutMembers(prev, w.key, w.hits);
      PutOverwrites(prev, w.key, w.hits);
      forall e | e in Assign(writes) ensures exists i :: LastWrite(writes, i) && writes[i] == e {
        if e == Entry(w.key, w.hits) {
          assert LastWrite(writes, n);
        } else {
          var i :| LastWrite(front, i) && front[i] == e;
          LastWriteExtend(writes, i);
        }
      }
    }
  }

  lemma LastWriteExtend(writes: seq<Entry>, i: int)
    requires writes != [] && LastWrite(writes[..|writes| - 1], i)
    requires writes[|writes| - 1].key != writes[i].key
    ensures LastWrite(writes, i)
  {
    var n := |writes| - 1;
    forall j | i < j < |writes| ensures writes[j].key != writes[i].key {
      if j < n {
        assert writes[j] == writes[..n][j];
      }
    }
  }

  /** The dict is empty exactly when nothing was written. */
  lemma AssignEmpty(writes: seq<Entry>)
    ensures Assign(writes) == [] <==> writes == []
  {
    if writes != [] {
      PutMembers(Assign(writes[..|writes| - 1]), writes[|writes| - 1].key, writes[|writes| - 1].hits);
    }
  }

  // ---------------------------------------------------------------- sorting

  /** Insert x before the first entry with at most as many hits. */
  function Insert(x: Entry, s: seq<Entry>): (r: seq<Entry>)
    ensures |r| == |s| + 1
    decreases |s|
  {
    if s == [] || s[0].hits <= x.hits then [x] + s else [s[0]] + Insert(x, s[1..])
  }

  /** sorted(results.items(), key=lambda x: x[1], reverse=True) */
  function SortDesc(s: seq<Entry>): (r: seq<Entry>)
    ensures |r| == |s|
    decreases |s|
  {
    if s == [] then [] else Insert(s[0], SortDesc(s[1..]))
  }

  predicate NonIncreasing(s: seq<Entry>) { forall i, j :: 0 <= i < j < |s| ==> s[i].hits >= s[j].hits }

  /** The entries with v hits, in order. */
  function WithHits(s: seq<Entry>, v: int): seq<Entry>
    decreases |s|
  {
    if s == [] then [] else (if s[0].hits == v then [s[0]] else []) + WithHits(s[1..], v)
  }

  lemma {:induction false} InsertMultiset(x: Entry, s: seq<Entry>)
    ensures multiset(Insert(x, s)) == multiset(s) + multiset{x}
    decreases |s|
  {
    if s != [] && s[0].hits > x.hits {
      InsertMultiset(x, s[1..]);
      assert s == [s[0]] + s[1..];
    }
  }

  lemma {:induction false} InsertSorted(x: Entry, s: seq<Entry>)
    requires NonIncreasing(s)
    ensures NonIncreasing(Insert(x, s))
    decreases |s|
  {
    if s != [] && s[0].hits > x.hits {
      var rest := s[1..];
      InsertSorted(x, rest);
      InsertMultiset(x, rest);
      var r := Insert(x, s);
      assert r == [s[0]] + Insert(x, rest);
      forall j | 1 <= j < |r| ensures r[0].hits >= r[j].hits {
        assert r[j] in multiset(Insert(x, rest));
        if r[j] != x {
          assert r[j] in rest;
        }
      }
    }
  }

  lemma {:induction false} InsertWithHits(x: Entry, s: seq<Entry>, v: int)
    ensures WithHits(Insert(x, s), v) == (if x.hits == v then [x] else []) + WithHits(s, v)
    decreases |s|
  {
    if s != [] && s[0].hits > x.hits {
      InsertWithHits(x, s[1..], v);
      WithHitsCons(s[0], Insert(x, s[1..]), v);
      WithHitsCons(s[0], s[1..], v);
      assert s == [s[0]] + s[1..];
    } else {
      WithHitsCons(x, s, v);
    }
  }

  lemma WithHitsCons(x: Entry, s: seq<Entry>, v: int)
    ensures WithHits([x] + s, v) == (if x.hits == v then [x] else []) + WithHits(s, v)
  {
    assert ([x] + s)[1..] == s;
  }

  /** The ranking is ordered by hits, highest first; it holds the same
      entries as the dict; and entries with equal hits keep their dict order
      (Python's sort is stable, also with reverse=True). */
  lemma {:induction false} SortDescSpec(s: seq<Entry>)
    ensures NonIncreasing(SortDesc(s))
    ensures multiset(SortDesc(s)) == multiset(s)
    ensures forall v :: WithHits(SortDesc(s), v) == WithHits(s, v)
    decreases |s|
  {
    if s != [] {
      SortDescSpec(s[1..]);
      InsertSorted(s[0], SortDesc(s[1..]));
      InsertMultiset(s[0], SortDesc(s[1..]));
      forall v ensures WithHits(SortDesc(s), v) == WithHits(s, v) {
        InsertWithHits(s[0], SortDesc(s[1..]), v);
      }
      assert s == [s[0]] + s[1..];
    }
  }

  // ---------------------------------------------------------------- sort_results

  /** How many entries sorted(...)[:num] keeps, num = -1 standing for all. */
  function SelectCount(n: nat, num: int): nat
  {
    if num == -1 then n
    else if num >= 0 then (if num <= n then num else n)
    else if n + num >= 0 then n + num else 0
  }

  /** The entries sort_results keeps: the ranking cut to its first SelectCount entries. */
  function Selected(results: seq<Entry>, num: int): seq<Entry>
  {
    SortDescSpec(results);
    SortDesc(results)[..SelectCount(|results|, num)]
  }

  /** sort_results(results, num): the keys of the selected entries. */
  function SortResults(results: seq<Entry>, num: int): seq<string>
    requires DistinctKeys(results)
  {
    Keys(Selected(results, num))
  }

  lemma {:induction false} WithHitsPrefix(s: seq<Entry>, n: nat, v: int)
    requires n <= |s|
    ensures WithHits(s[..n], v) <= WithHits(s, v)
    decreases n
  {
    if n > 0 {
      WithHitsPrefix(s[1..], n - 1, v);
      assert s[..n][1..] == s[1..][..n - 1];
    }
  }

  /** sort_results returns the keys of the dict, highest hits first: all of
      them for num = -1, otherwise as many as Python's slice [:num] keeps;
      every key it leaves out has no more hits than any key it returns; and
      among equal hits the earlier dict entries come first and are the ones
      kept. */
  lemma SortResultsSpec(results: seq<Entry>, num: int)
    requires DistinctKeys(results)
    ensures |SortResults(results, num)| == SelectCount(|results|, num)
    ensures num == -1 ==> |SortResults(results, num)| == |results|
    ensures num >= 0 ==> |SortResults(results, num)| == if num <= |results| then num else |results|
    ensures Keys(Selected(results, num)) == SortResults(results, num)
    ensures forall i :: 0 <= i < |Selected(results, num)| ==> Selected(results, num)[i] in results
    ensures NonIncreasing(Selected(results, num))
    ensures Distinct(SortResults(results, num))
    ensures forall e, i :: (e in results && e.key !in SortResults(results, num) &&
      0 <= i < |Selected(results, num)|) ==> e.hits <= Selected(results, num)[i].hits
    ensures forall v :: WithHits(Selected(results, num), v) <= WithHits(results, v)
  {
    SortDescSpec(results);
    SelectedFromResults(results, num);
    SelectedDistinct(results, num);
    SelectedIsTop(results, num);
    forall v ensures WithHits(Selected(results, num), v) <= WithHits(results, v) {
      WithHitsPrefix(SortDesc(results), SelectCount(|results|, num), v);
    }
  }

  lemma SelectedFromResults(results: seq<Entry>, num: int)
    ensures forall i :: 0 <= i < |Selected(results, num)| ==> Selected(results, num)[i] in results
  {
    SortDescSpec(results);
    var sel := Selected(results, num);
    forall i | 0 <= i < |sel| ensures sel[i] in results {
      assert sel[i] == SortDesc(results)[i];
      assert sel[i] in multiset(SortDesc(results));
    }
  }

  lemma SelectedDistinct(results: seq<Entry>, num: int)
    requires DistinctKeys(results)
    ensures Distinct(SortResults(results, num))
  {
    SortDescSpec(results);
    var r := SortResults(results, num);
    forall i, j | 0 <= i < j < |r| ensures r[i] != r[j] {
      DistinctInSorted(results, SortDesc(results), i, j);
    }
  }

  lemma SelectedIsTop(results: seq<Entry>, num: int)
    requires DistinctKeys(results)
    ensures forall e, i :: (e in results && e.key !in SortResults(results, num) &&
      0 <= i < |Selected(results, num)|) ==> e.hits <= Selected(results, num)[i].hits
  {
    var sorted := SortDesc(results);
    SortDescSpec(results);
    var n := SelectCount(|results|, num);
    var sel := Selected(results, num);
    var r := SortResults(results, num);
    assert forall m :: 0 <= m < n ==> r[m] == sorted[m].key;
    forall e, i | e in results && e.key !in r && 0 <= i < |sel| ensures e.hits <= sel[i].hits {
      assert e in multiset(sorted);
      var j :| 0 <= j < |sorted| && sorted[j] == e;
      assert sel[i] == sorted[i];
    }
  }

  /** Two places of the ranking hold different keys. */
  lemma DistinctInSorted(results: seq<Entry>, sorted: seq<Entry>, i: int, j: int)
    requires DistinctKeys(results) && multiset(sorted) == multiset(results)
    requires 0 <= i < j < |sorted|
    ensures sorted[i].key != sorted[j].key
  {
    assert sorted[i] in multiset(results) && sorted[j] in multiset(results);
    var a :| 0 <= a < |results| && results[a] == sorted[i];
    var b :| 0 <= b < |results| && results[b] == sorted[j];
    if a == b {
      var s := sorted;
      assert s == s[..i] + [s[i]] + s[i + 1..j] + [s[j]] + s[j + 1..];
      assert multiset(s)[s[i]] >= 2;
      MultiplicityOne(results, a);
    }
  }

  /** With distinct keys every entry occurs once. */
  lemma MultiplicityOne(es: seq<Entry>, a: int)
    requires DistinctKeys(es) && 0 <= a < |es|
    ensures multiset(es)[es[a]] == 1
  {
    assert es == es[..a] + [es[a]] + es[a + 1..];
    assert es[a] !in es[..a] by {
      forall m | 0 <= m < a ensures es[..a][m] != es[a] { assert es[m].key != es[a].key; }
    }
    assert es[a] !in es[a + 1..] by {
      forall m | a + 1 <= m < |es| ensures es[m] != es[a] { assert es[m].key != es[a].key; }
    }
  }

  // ---------------------------------------------------------------- display_results

  /** display_results(results): nothing is written for an empty dict;
      otherwise the file holds the heading and every ranked result, separated
      by blank lines. */
  function DisplayResults(results: seq<Entry>): Display
    requires DistinctKeys(results)
  {
    if |results| == 0 then NoResults else ResultsFile(Join([Heading] + SortResults(results, -1), Blank))
  }

  /** Nothing is written exactly when there are no results; a written file
      starts with the heading and contains every result of the ranking. */
  lemma DisplayResultsSpec(results: seq<Entry>)
    requires DistinctKeys(results)
    ensures DisplayResults(results) == NoResults <==> |results| == 0
    ensures DisplayResults(results).ResultsFile? ==>
      Heading <= DisplayResults(results).content &&
      forall k :: k in SortResults(results, -1) ==> IsInfix(k, DisplayResults(results).content)
  {
    if |results| > 0 {
      var parts := [Heading] + SortResults(results, -1);
      JoinHasParts(parts, Blank);
      forall k | k in SortResults(results, -1) ensures IsInfix(k, Join(parts, Blank)) {
        var i :| 0 <= i < |SortResults(results, -1)| && SortResults(results, -1)[i] == k;
        assert parts[i + 1] == k;
      }
    }
  }
}
