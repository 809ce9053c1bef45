/** Commits as the remote repository sees them.

    A commit is identified by what it contains, as a content hash identifies it when hashes do not
    collide, so commit ids are the commits themselves. */
module GitObjects {
  import opened JsText
  import opened Utf8

  type Files = map<string, JsString>

  /** `stamp` is the committer time the server adds; a root commit has no parents. */
  datatype Commit = Commit(parents: seq<Commit>, files: Files, message: string, stamp: nat)

  /** What a blob made of a text holds: blobs are UTF-8, so lone surrogates are replaced. */
  function Blob(content: JsString): JsString { Replaced(content) }

  /** A blob holds its text unchanged exactly if no surrogate stands alone in it. */
  lemma BlobKeepsExactly(content: JsString)
    ensures Blob(content) == content <==> WellFormedText(content)
    ensures WellFormedText(Blob(content))
  {
    ReplacedSame(content);
    ReplacedWellFormed(content);
  }

  /** The commit the worker builds: one parent, and the parent's tree with one path replaced. */
  function Edit(base: Commit, path: string, content: JsString, message: string, stamp: nat): Commit {
    Commit([base], base.files[path := Blob(content)], message, stamp)
  }

  /** `past` is `c` or an ancestor of `c`. */
  predicate Reaches(c: Commit, past: Commit) {
    c == past || exists i | 0 <= i < |c.parents| :: Reaches(c.parents[i], past)
  }

  lemma {:induction false} ReachesTransitive(a: Commit, b: Commit, c: Commit)
    requires Reaches(a, b) && Reaches(b, c)
    ensures Reaches(a, c)
    decreases a
  {
    if a != b {
      var i :| 0 <= i < |a.parents| && Reaches(a.parents[i], b);
      ReachesTransitive(a.parents[i], b, c);
    }
  }

  ghost function Height(c: Commit): nat {
    HeightAll(c.parents)
  }

  ghost function HeightAll(cs: seq<Commit>): nat {
    if cs == [] then 0
    else
      var first, rest := 1 + Height(cs[0]), HeightAll(cs[1..]);
      if first > rest then first else rest
  }

  lemma {:induction false} ParentIsLower(cs: seq<Commit>, i: nat)
    requires i < |cs|
    ensures Height(cs[i]) < HeightAll(cs)
  {
    if i > 0 { ParentIsLower(cs[1..], i - 1); }
  }

  /** A proper ancestor is strictly lower, so no two commits are ancestors of each other. */
  lemma {:induction false} ReachesIsLower(c: Commit, past: Commit)
    requires Reaches(c, past) && c != past
    ensures Height(past) < Height(c)
    decreases c
  {
    var i :| 0 <= i < |c.parents| && Reaches(c.parents[i], past);
    ParentIsLower(c.parents, i);
    if c.parents[i] != past { ReachesIsLower(c.parents[i], past); }
  }

  lemma ReachesAntisymmetric(a: Commit, b: Commit)
    requires Reaches(a, b) && Reaches(b, a)
    ensures a == b
  {
    if a != b {
      ReachesIsLower(a, b);
      ReachesIsLower(b, a);
    }
  }

  /** A commit never sits below its own parent. */
  lemma ParentDoesNotReachChild(base: Commit, c: Commit)
    requires c.parents == [base]
    ensures Reaches(c, base) && !Reaches(base, c)
  {
    assert Reaches(c.parents[0], base);
    ParentIsLower(c.parents, 0);
    if Reaches(base, c) {
      ReachesAntisymmetric(c, base);
    }
  }

  /** A fast-forward onto a one-parent commit built on `base`, from a branch that has already moved
      past `base`, leaves the branch no room: it is at `base`, or at the commit already. */
  lemma FastForwardIsCompareAndSwap(branch: Commit, base: Commit, c: Commit)
    requires c.parents == [base] && Reaches(branch, base) && Reaches(c, branch)
    ensures branch == base || branch == c
  {
    if branch != c {
      var i :| 0 <= i < |c.parents| && Reaches(c.parents[i], branch);
      ReachesAntisymmetric(branch, base);
    }
  }
}
