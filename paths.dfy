/**
 * os.path.basename and os.path.join as the Windows flavour of Python's
 * os.path computes them: both '/' and '\' separate path components, and
 * join inserts '\'. Drive prefixes such as "C:" get no special treatment.
 */
module Paths {
  import opened Text

  predicate IsSep(c: char) { c == '/' || c == '\\' }

  /** os.path.basename(p): the text after the last separator. */
  function Basename(p: string): string
    decreases |p|
  {
    if p == [] || IsSep(p[|p| - 1]) then "" else Basename(p[..|p| - 1]) + [p[|p| - 1]]
  }

  /** The basename is the longest suffix of the path without a separator. */
  lemma {:induction false} BasenameSpec(p: string)
    ensures EndsWith(p, Basename(p))
    ensures forall i :: 0 <= i < |Basename(p)| ==> !IsSep(Basename(p)[i])
    ensures |Basename(p)| == |p| || IsSep(p[|p| - |Basename(p)| - 1])
    decreases |p|
  {
    if p != [] && !IsSep(p[|p| - 1]) {
      var q := p[..|p| - 1];
      BasenameSpec(q);
      var b, c := Basename(q), p[|p| - 1];
      var b' := b + [c];
      assert Basename(p) == b';
      assert p == q + [c];
      assert p[|p| - |b'|..] == q[|q| - |b|..] + [c];
      forall i | 0 <= i < |b'| ensures !IsSep(b'[i]) {
        if i < |b| { assert b'[i] == b[i]; }
      }
      if |b'| < |p| {
        assert p[|p| - |b'| - 1] == q[|q| - |b| - 1];
      }
    }
  }

  /** os.path.join(dir, name) for a name that listdir returned. */
  function PathJoin(dir: string, name: string): string
  {
    if dir == "" then name
    else if IsSep(dir[|dir| - 1]) then dir + name
    else dir + "\\" + name
  }

  /** Joining a plain file name onto a directory gives a path whose basename is that name. */
  lemma JoinBasename(dir: string, name: string)
    requires forall i :: 0 <= i < |name| ==> !IsSep(name[i])
    ensures EndsWith(PathJoin(dir, name), name)
    ensures Basename(PathJoin(dir, name)) == name
  {
    var p := PathJoin(dir, name);
    var front := p[..|p| - |name|];
    assert p == front + name;
    assert front == [] || IsSep(front[|front| - 1]);
    BasenameOfJoin(front, name);
  }

  lemma {:induction false} BasenameOfJoin(front: string, name: string)
    requires front == [] || IsSep(front[|front| - 1])
    requires forall i :: 0 <= i < |name| ==> !IsSep(name[i])
    ensures Basename(front + name) == name
    decreases |name|
  {
    if name == [] {
      assert front + name == front;
    } else {
      var n' := name[..|name| - 1];
      BasenameOfJoin(front, n');
      assert (front + name)[..|front + name| - 1] == front + n';
      assert name == n' + [name[|name| - 1]];
    }
  }
}
