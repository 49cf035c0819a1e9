/**
 * The part of Node's synchronous file-system API the build script uses, over an abstract
 * tree: paths are sequences of names relative to the project root, and every entry is a
 * file with its text or a directory. Calls that would throw report failure instead, so
 * that a caller's try/catch is an ordinary branch.
 */
module FileSystem {
  import opened Wrappers

  type Path = seq<string>

  datatype Node = File(data: string) | Dir

  type Tree = map<Path, Node>

  /** p is q or one of q's ancestors. */
  predicate Under(p: Path, q: Path) {
    |p| <= |q| && q[..|p|] == p
  }

  /** Neither tree contains the other. */
  predicate Disjoint(a: Path, b: Path) {
    !Under(a, b) && !Under(b, a)
  }

  function Parent(q: Path): Path
    requires q != []
  {
    q[..|q| - 1]
  }

  /** The project root is a directory and every other entry sits in a directory. */
  ghost predicate WellFormed(fs: Tree) {
    [] in fs && fs[[]] == Dir &&
    forall q :: q in fs && q != [] ==> Parent(q) in fs && fs[Parent(q)] == Dir
  }

  /** No file stands where mkdirSync(p, {recursive: true}) needs a directory. */
  ghost predicate NoFileOn(fs: Tree, p: Path) {
    forall q :: Under(q, p) && q in fs ==> fs[q] == Dir
  }

  /** In a well-formed tree every ancestor of an entry is present and is a directory. */
  lemma {:induction false} AncestorsAreDirs(fs: Tree, q: Path, k: nat)
    requires WellFormed(fs) && q in fs && k < |q|
    ensures q[..k] in fs && fs[q[..k]] == Dir
    decreases |q| - k
  {
    if k + 1 < |q| {
      AncestorsAreDirs(fs, q, k + 1);
      assert Parent(q[..k + 1]) == q[..k];
    } else {
      assert Parent(q) == q[..k];
    }
  }

  /** An ancestor of a child of p is p's ancestor or the child itself. */
  lemma UnderChild(p: Path, n: string, q: Path)
    requires Under(q, p + [n])
    ensures Under(q, p) || q == p + [n]
  {
    if |q| <= |p| {
      assert q == (p + [n])[..|q|] == p[..|q|];
    }
  }

  /** A file may be written at p: its directory exists and p is not a directory. */
  predicate CanWrite(fs: Tree, p: Path) {
    p != [] && Parent(p) in fs && fs[Parent(p)] == Dir && !(p in fs && fs[p] == Dir)
  }

  /** mkdirSync's progress: the ancestors of p shorter than k are in place as directories. */
  ghost predicate MadeUpTo(fs0: Tree, fs: Tree, p: Path, k: nat) {
    WellFormed(fs) && NoFileOn(fs, p) &&
    (forall q :: q in fs <==> q in fs0 || (Under(q, p) && |q| < k)) &&
    (forall q :: q in fs0 ==> fs[q] == fs0[q]) &&
    (forall q :: Under(q, p) && |q| < k ==> q in fs)
  }

  lemma MakeDirsStep(fs0: Tree, fs: Tree, fs': Tree, p: Path, k: nat)
    requires k <= |p| && MadeUpTo(fs0, fs, p, k)
    requires fs' == if p[..k] in fs then fs else fs[p[..k] := Dir]
    ensures MadeUpTo(fs0, fs', p, k + 1)
  {
    if p[..k] !in fs && k > 0 {
      assert Under(p[..k - 1], p) && |p[..k - 1]| < k;
      assert Parent(p[..k]) == p[..k - 1];
    }
    forall q | Under(q, p) && |q| < k + 1
      ensures q in fs'
    {
      if |q| == k {
        assert q == p[..k];
      }
    }
    forall q | q in fs'
      ensures q in fs0 || (Under(q, p) && |q| < k + 1)
    {
      if q == p[..k] {
        assert Under(q, p);
      }
    }
  }

  /** The disk, as the build script sees it through the fs module. */
  class Disk {
    var fs: Tree

    constructor (fs: Tree)
      requires WellFormed(fs)
      ensures this.fs == fs
    {
      this.fs := fs;
    }

    /** existsSync: true for files and directories alike. */
    predicate Exists(p: Path)
      reads this
    {
      p in fs
    }

    /**
     * mkdirSync(p, {recursive: true}): creates p and every missing ancestor as directories
     * and leaves existing entries alone. It throws when a file stands on the way, which
     * the precondition rules out.
     */
    method MakeDirs(p: Path)
      requires WellFormed(fs) && NoFileOn(fs, p)
      modifies this
      ensures WellFormed(fs)
      ensures forall q :: q in fs <==> q in old(fs) || Under(q, p)
      ensures forall q :: q in old(fs) ==> fs[q] == old(fs)[q]
      ensures forall q :: Under(q, p) ==> q in fs && fs[q] == Dir
    {
      var k := 0;
      while k <= |p|
        invariant 0 <= k <= |p| + 1
        invariant MadeUpTo(old(fs), fs, p, k)
      {
        ghost var before := fs;
        if p[..k] !in fs {
          fs := fs[p[..k] := Dir];
        }
        MakeDirsStep(old(fs), before, fs, p, k);
        k := k + 1;
      }
    }


    /**
     * readdirSync(p): the names of p's children, each once, in an order the model leaves
     * open.
     */
    method ReadDir(p: Path) returns (names: seq<string>)
      requires p in fs && fs[p] == Dir
      ensures forall n :: n in names <==> p + [n] in fs
      ensures forall i, j :: 0 <= i < j < |names| ==> names[i] != names[j]
    {
      var children := set q | q in fs.Keys && |q| == |p| + 1 && q[..|p|] == p :: q[|p|];
      assert forall n :: n in children <==> p + [n] in fs by {
        forall n
          ensures n in children <==> p + [n] in fs
        {
          if p + [n] in fs {
            assert (p + [n])[..|p|] == p && (p + [n])[|p|] == n;
          }
          if n in children {
            var q :| q in fs.Keys && |q| == |p| + 1 && q[..|p|] == p && q[|p|] == n;
            assert q == p + [n];
          }
        }
      }
      names := [];
      while children != {}
        invariant forall n :: n in names || n in children <==> p + [n] in fs
        invariant forall n :: n in names ==> n !in children
        invariant forall i, j :: 0 <= i < j < |names| ==> names[i] != names[j]
        decreases |children|
      {
        var n :| n in children;
        names := names + [n];
        children := children - {n};
      }
    }

    /** readFileSync(p): the text of the file at p; None where it would throw. */
    method ReadFile(p: Path) returns (r: Option<string>)
      ensures r.Some? <==> p in fs && fs[p].File?
      ensures r.Some? ==> fs[p] == File(r.value)
    {
      if p in fs && fs[p].File? {
        r := Some(fs[p].data);
      } else {
        r := None;
      }
    }

    predicate Writable(p: Path)
      reads this
    {
      CanWrite(fs, p)
    }

    /** writeFileSync(p, data): creates or overwrites the file; false where it would throw. */
    method WriteFile(p: Path, data: string) returns (ok: bool)
      requires WellFormed(fs)
      modifies this
      ensures WellFormed(fs)
      ensures ok <==> old(Writable(p))
      ensures ok ==> fs == old(fs)[p := File(data)]
      ensures !ok ==> fs == old(fs)
    {
      ok := Writable(p);
      if ok {
        fs := fs[p := File(data)];
      }
    }

    /** copyFileSync(src, dest): dest becomes a copy of the file src; false where it would throw. */
    method CopyFile(src: Path, dest: Path) returns (ok: bool)
      requires WellFormed(fs)
      modifies this
      ensures WellFormed(fs)
      ensures ok <==> old(src in fs && fs[src].File? && Writable(dest))
      ensures ok ==> fs == old(fs)[dest := old(fs)[src]]
      ensures !ok ==> fs == old(fs)
    {
      var content := ReadFile(src);
      ok := false;
      if content.Some? {
        ok := WriteFile(dest, content.value);
      }
    }
  }
}
