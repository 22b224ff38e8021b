/**
 * Discovery of the PDF files to index: the ".pdf" filter over one
 * directory listing (read_all_pdfs) and the walk over a root folder and its
 * immediate subfolders (retrieve_pdfs). The directory listing, the
 * directory test and the existence of the root are inputs.
 */
module Discovery {
  import opened Text
  import opened Paths

  const PdfSuffix := ".pdf"

  /** read_all_pdfs(dir): the listed names ending in ".pdf", joined onto dir, in listing order. */
  function ReadAllPdfs(dir: string, names: seq<string>): seq<string>
    decreases |names|
  {
    if names == [] then []
    else
      var here := if EndsWith(names[0], PdfSuffix) then [PathJoin(dir, names[0])] else [];
      here + ReadAllPdfs(dir, names[1..])
  }

  /** A path is reported exactly when it joins dir to a listed name ending in
      ".pdf"; listing order is kept; every reported path ends in ".pdf"; each
      listed name gives exactly one path when it is a PDF and none otherwise. */
  lemma ReadAllPdfsSpec(dir: string, names: seq<string>)
    ensures forall x :: x in ReadAllPdfs(dir, names) <==>
      exists f :: f in names && EndsWith(f, PdfSuffix) && x == PathJoin(dir, f)
    ensures forall x :: x in ReadAllPdfs(dir, names) ==> EndsWith(x, PdfSuffix)
    ensures forall more :: ReadAllPdfs(dir, names + more) == ReadAllPdfs(dir, names) + ReadAllPdfs(dir, more)
    ensures |ReadAllPdfs(dir, names)| <= |names|
    ensures forall f :: ReadAllPdfs(dir, [f]) == if EndsWith(f, PdfSuffix) then [PathJoin(dir, f)] else []
  {
    ReadAllPdfsMembers(dir, names);
    ReadAllPdfsLength(dir, names);
    forall f ensures ReadAllPdfs(dir, [f]) == if EndsWith(f, PdfSuffix) then [PathJoin(dir, f)] else [] {
      ReadAllPdfsOne(dir, f);
    }
  }

  lemma {:induction false} ReadAllPdfsMembers(dir: string, names: seq<string>)
    ensures forall x :: x in ReadAllPdfs(dir, names) <==>
      exists f :: f in names && EndsWith(f, PdfSuffix) && x == PathJoin(dir, f)
    ensures forall x :: x in ReadAllPdfs(dir, names) ==> EndsWith(x, PdfSuffix)
    ensures forall more :: ReadAllPdfs(dir, names + more) == ReadAllPdfs(dir, names) + ReadAllPdfs(dir, more)
    decreases |names|
  {
    if names != [] {
      ReadAllPdfsMembers(dir, names[1..]);
      if EndsWith(names[0], PdfSuffix) {
        JoinEndsWith(dir, names[0], PdfSuffix);
      }
      forall more ensures ReadAllPdfs(dir, names + more) == ReadAllPdfs(dir, names) + ReadAllPdfs(dir, more) {
        assert (names + more)[1..] == names[1..] + more;
      }
    } else {
      forall more ensures ReadAllPdfs(dir, names + more) == ReadAllPdfs(dir, names) + ReadAllPdfs(dir, more) {
        assert names + more == more;
      }
    }
  }

  /** No more paths than names. */
  lemma {:induction false} ReadAllPdfsLength(dir: string, names: seq<string>)
    ensures |ReadAllPdfs(dir, names)| <= |names|
    decreases |names|
  {
    if names != [] {
      ReadAllPdfsLength(dir, names[1..]);
    }
  }

  /** A single listed name gives its path when it is a PDF and nothing otherwise. */
  lemma ReadAllPdfsOne(dir: string, f: string)
    ensures ReadAllPdfs(dir, [f]) == if EndsWith(f, PdfSuffix) then [PathJoin(dir, f)] else []
  {
    assert [f][1..] == [];
  }

  lemma JoinEndsWith(dir: string, f: string, suffix: string)
    requires EndsWith(f, suffix)
    ensures EndsWith(PathJoin(dir, f), suffix)
  {
    var p := PathJoin(dir, f);
    assert p == p[..|p| - |f|] + f;
    assert p[|p| - |suffix|..] == f[|f| - |suffix|..];
  }

  /** The subfolders comprehension of retrieve_pdfs: listed names that are directories, joined onto root. */
  function Subfolders(root: string, names: seq<string>, isDir: string -> bool): seq<string>
    decreases |names|
  {
    if names == [] then []
    else
      var here := if isDir(PathJoin(root, names[0])) then [PathJoin(root, names[0])] else [];
      here + Subfolders(root, names[1..], isDir)
  }

  /** A folder is reported exactly when it joins root to a listed name that
      is a directory; the folders of concatenated listings are concatenated,
      and a single name gives its path when that is a directory and nothing
      otherwise, so the order is the listing order, once per listed name. */
  lemma SubfoldersSpec(root: string, names: seq<string>, isDir: string -> bool)
    ensures forall x :: x in Subfolders(root, names, isDir) <==>
      exists f :: f in names && x == PathJoin(root, f) && isDir(x)
    ensures |Subfolders(root, names, isDir)| <= |names|
    ensures forall more :: Subfolders(root, names + more, isDir) == Subfolders(root, names, isDir) + Subfolders(root, more, isDir)
    ensures forall f :: Subfolders(root, [f], isDir) == if isDir(PathJoin(root, f)) then [PathJoin(root, f)] else []
  {
    SubfoldersMembers(root, names, isDir);
    forall more ensures Subfolders(root, names + more, isDir) ==
      Subfolders(root, names, isDir) + Subfolders(root, more, isDir)
    {
      SubfoldersAppend(root, names, more, isDir);
    }
    forall f ensures Subfolders(root, [f], isDir) ==
      if isDir(PathJoin(root, f)) then [PathJoin(root, f)] else []
    {
      SubfoldersOne(root, f, isDir);
    }
  }

  lemma {:induction false} SubfoldersAppend(root: string, names: seq<string>, more: seq<string>, isDir: string -> bool)
    ensures Subfolders(root, names + more, isDir) == Subfolders(root, names, isDir) + Subfolders(root, more, isDir)
    decreases |names|
  {
    if names == [] {
      assert names + more == more;
    } else {
      SubfoldersAppend(root, names[1..], more, isDir);
      var p := PathJoin(root, names[0]);
      var here := if isDir(p) then [p] else [];
      assert (names + more)[0] == names[0] && (names + more)[1..] == names[1..] + more;
      assert Subfolders(root, names + more, isDir) == here + Subfolders(root, names[1..] + more, isDir);
      assert Subfolders(root, names, isDir) == here + Subfolders(root, names[1..], isDir);
      AppendAssoc(here, Subfolders(root, names[1..], isDir), Subfolders(root, more, isDir));
    }
  }

  lemma AppendAssoc(a: seq<string>, b: seq<string>, c: seq<string>)
    ensures a + (b + c) == (a + b) + c
  {
  }

  lemma SubfoldersOne(root: string, f: string, isDir: string -> bool)
    ensures Subfolders(root, [f], isDir) == if isDir(PathJoin(root, f)) then [PathJoin(root, f)] else []
  {
    assert [f][1..] == [];
  }

  lemma {:induction false} SubfoldersMembers(root: string, names: seq<string>, isDir: string -> bool)
    ensures forall x :: x in Subfolders(root, names, isDir) <==>
      exists f :: f in names && x == PathJoin(root, f) && isDir(x)
    ensures |Subfolders(root, names, isDir)| <= |names|
    decreases |names|
  {
    if names != [] {
      SubfoldersMembers(root, names[1..], isDir);
      forall x | x in Subfolders(root, names, isDir)
        ensures exists f :: f in names && x == PathJoin(root, f) && isDir(x)
      {
        if x != PathJoin(root, names[0]) || !isDir(x) {
          var f :| f in names[1..] && x == PathJoin(root, f) && isDir(x);
          assert f in names;
        }
      }
      forall x | exists f :: f in names && x == PathJoin(root, f) && isDir(x)
        ensures x in Subfolders(root, names, isDir)
      {
        var f :| f in names && x == PathJoin(root, f) && isDir(x);
        if f != names[0] {
          assert f in names[1..];
        }
      }
    }
  }

  /** The PDFs of a list of folders, folder after folder. */
  function Gather(folders: seq<string>, listDir: string -> seq<string>): seq<string>
    decreases |folders|
  {
    if folders == [] then []
    else
      var last := folders[|folders| - 1];
      Gather(folders[..|folders| - 1], listDir) + ReadAllPdfs(last, listDir(last))
  }

  /** Every gathered path is a ".pdf" name listed directly in one of the
      folders, and every such name of every folder is gathered. */
  lemma {:induction false} GatherSpec(folders: seq<string>, listDir: string -> seq<string>)
    ensures forall x :: x in Gather(folders, listDir) ==>
      EndsWith(x, PdfSuffix) &&
      exists d, f :: d in folders && f in listDir(d) && x == PathJoin(d, f)
    ensures forall d, f :: d in folders && f in listDir(d) && EndsWith(f, PdfSuffix) ==>
      PathJoin(d, f) in Gather(folders, listDir)
    decreases |folders|
  {
    if folders != [] {
      var d := folders[|folders| - 1];
      var front := folders[..|folders| - 1];
      GatherSpec(front, listDir);
      ReadAllPdfsMembers(d, listDir(d));
      forall d', f | d' in folders && f in listDir(d') && EndsWith(f, PdfSuffix)
        ensures PathJoin(d', f) in Gather(folders, listDir)
      {
        if d' == d {
          ReadAllPdfsMembers(d', listDir(d'));
          assert PathJoin(d', f) in ReadAllPdfs(d, listDir(d));
        } else {
          assert d' in front;
        }
      }
      forall x | x in Gather(folders, listDir)
        ensures EndsWith(x, PdfSuffix) && exists d, f :: d in folders && f in listDir(d) && x == PathJoin(d, f)
      {
        if x in Gather(front, listDir) {
          var d', f :| d' in front && f in listDir(d') && x == PathJoin(d', f);
          assert d' in folders;
        } else {
          assert x in ReadAllPdfs(d, listDir(d));
        }
      }
    }
  }

  /** retrieve_pdfs(root): nothing when the root does not exist (the
      directory is created instead); otherwise the PDFs listed in root, then
      those of each immediate subfolder, in listing order. Deeper folders
      are not walked. */
  method RetrievePdfs(root: string, rootExists: bool, listDir: string -> seq<string>, isDir: string -> bool)
    returns (pdfs: seq<string>)
    ensures !rootExists ==> pdfs == []
    ensures rootExists ==>
      pdfs == ReadAllPdfs(root, listDir(root)) + Gather(Subfolders(root, listDir(root), isDir), listDir)
    ensures forall x :: x in pdfs ==> EndsWith(x, PdfSuffix)
    ensures forall x :: x in pdfs ==> exists d, f ::
      d in [root] + Subfolders(root, listDir(root), isDir) && f in listDir(d) && x == PathJoin(d, f)
    ensures rootExists ==> forall d, f ::
      d in [root] + Subfolders(root, listDir(root), isDir) && f in listDir(d) && EndsWith(f, PdfSuffix) ==>
      PathJoin(d, f) in pdfs
  {
    if !rootExists {
      return [];
    }
    var subfolders := Subfolders(root, listDir(root), isDir);
    pdfs := ReadAllPdfs(root, listDir(root));
    ReadAllPdfsMembers(root, listDir(root));
    var k := 0;
    while k < |subfolders|
      invariant 0 <= k <= |subfolders|
      invariant pdfs == ReadAllPdfs(root, listDir(root)) + Gather(subfolders[..k], listDir)
    {
      assert subfolders[..k + 1][..k] == subfolders[..k];
      pdfs := pdfs + ReadAllPdfs(subfolders[k], listDir(subfolders[k]));
      k := k + 1;
    }
    assert subfolders[..k] == subfolders;
    GatherSpec(subfolders, listDir);
    forall x | x in pdfs
      ensures exists d, f :: d in [root] + subfolders && f in listDir(d) && x == PathJoin(d, f)
    {
      if x in ReadAllPdfs(root, listDir(root)) {
        var f :| f in listDir(root) && EndsWith(f, PdfSuffix) && x == PathJoin(root, f);
        assert root in [root] + subfolders;
      } else {
        var d, f :| d in subfolders && f in listDir(d) && x == PathJoin(d, f);
        assert d in [root] + subfolders;
      }
    }
    forall d, f | d in [root] + subfolders && f in listDir(d) && EndsWith(f, PdfSuffix)
      ensures PathJoin(d, f) in pdfs
    {
      if d != root {
        assert d in subfolders;
      }
    }
  }
}
