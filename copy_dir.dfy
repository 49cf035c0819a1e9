/**
 * copyDir from build.js (build.js:86-102): mirrors a source tree into a destination tree,
 * creating the destination when it is missing, recursing into subdirectories and copying
 * files with copyFileSync.
 */
module CopyTrees {
  import opened FileSystem

  /** Where copyDir(src, dest) puts the entry q of the source tree. */
  function Moved(src: Path, dest: Path, q: Path): Path
    requires Under(src, q)
  {
    dest + q[|src|..]
  }

  /** The entries strictly below p. */
  ghost function Below(fs: Tree, p: Path): set<Path> {
    set q | q in fs.Keys && Under(p, q) && q != p
  }

  /** q holds the same entry, or is absent, in both trees. */
  ghost predicate Kept(before: Tree, after: Tree, q: Path) {
    (q in after <==> q in before) && (q in before ==> after[q] == before[q])
  }

  /** Outside dest, only dest's missing ancestors appear and nothing else changes. */
  ghost predicate OutsideKept(before: Tree, after: Tree, dest: Path) {
    forall q :: !Under(dest, q) ==>
      (q in after <==> q in before || Under(q, dest)) && (q in before ==> after[q] == before[q])
  }

  /** Every entry below src whose first name below src is in names has its copy below dest. */
  ghost predicate MirroredUnder(before: Tree, after: Tree, src: Path, dest: Path, names: set<string>) {
    forall q :: q in before && Under(src, q) && |q| > |src| && q[|src|] in names ==>
      Moved(src, dest, q) in after && after[Moved(src, dest, q)] == before[q]
  }

  /** Below dest, whatever is not the copy of an entry of src under a name in names is kept. */
  ghost predicate InsideKept(before: Tree, after: Tree, src: Path, dest: Path, names: set<string>) {
    forall q :: Under(dest, q) && |q| > |dest| && (q[|dest|] !in names || src + q[|dest|..] !in before) ==>
      Kept(before, after, q)
  }

  /**
   * copyDir(src, dest) can run without throwing: src is a directory, the two trees are
   * apart, no file stands on dest's path, and wherever src and dest both have an entry at
   * the same relative path, both are directories or both are files.
   */
  ghost predicate CanCopy(fs: Tree, src: Path, dest: Path) {
    WellFormed(fs) && src in fs && fs[src] == Dir && Disjoint(src, dest) && NoFileOn(fs, dest) &&
    forall q :: q in fs && Under(src, q) && Moved(src, dest, q) in fs ==>
      (fs[Moved(src, dest, q)] == Dir <==> fs[q] == Dir)
  }

  /**
   * after is before with src mirrored into dest: every entry of src has an identical copy
   * at the same relative path below dest (files with the same text, directories as
   * directories); outside dest only dest's missing ancestors were added; below dest, what
   * is not such a copy was left alone.
   */
  ghost predicate Copied(before: Tree, after: Tree, src: Path, dest: Path) {
    WellFormed(after) &&
    (forall q :: Under(q, dest) ==> q in after && after[q] == Dir) &&
    OutsideKept(before, after, dest) &&
    (forall q :: q in before && Under(src, q) ==>
      Moved(src, dest, q) in after && after[Moved(src, dest, q)] == before[q]) &&
    (forall q :: Under(dest, q) && |q| > |dest| && src + q[|dest|..] !in before ==> Kept(before, after, q))
  }

  /** Two paths below one of which the other lies are ancestor and descendant. */
  lemma UnderBoth(a: Path, b: Path, q: Path)
    requires Under(a, q) && Under(b, q)
    ensures Under(a, b) || Under(b, a)
  {
    if |a| <= |b| {
      assert b[..|a|] == q[..|a|];
    } else {
      assert a[..|b|] == q[..|b|];
    }
  }

  /** Children of apart trees are apart. */
  lemma ChildrenDisjoint(src: Path, dest: Path, n: string)
    requires Disjoint(src, dest)
    ensures Disjoint(src + [n], dest + [n])
  {
    UnderParent(src, dest, n);
    UnderParent(dest, src, n);
  }

  lemma UnderParent(a: Path, b: Path, n: string)
    ensures Under(a + [n], b + [n]) ==> Under(a, b)
  {
    if |a| <= |b| {
      assert (b + [n])[..|a|] == b[..|a|];
      assert (a + [n])[..|a|] == a;
    }
  }

  /** A move under a child is the move under the parent. */
  lemma MovedChild(src: Path, dest: Path, n: string, q: Path)
    requires Under(src + [n], q)
    ensures Under(src, q) && Moved(src + [n], dest + [n], q) == Moved(src, dest, q)
    ensures |q| > |src| && q[|src|] == n
  {
    assert q[..|src|] == (src + [n])[..|src|] == src;
    assert q[|src|] == (src + [n])[|src|];
    assert q[|src|..] == [n] + q[|src| + 1..];
  }

  /** The moved path lies below dest under the same first name. */
  lemma MovedShape(src: Path, dest: Path, q: Path)
    requires Under(src, q) && |q| > |src|
    ensures Under(dest, Moved(src, dest, q)) && |Moved(src, dest, q)| > |dest|
    ensures Moved(src, dest, q)[|dest|] == q[|src|]
    ensures src + Moved(src, dest, q)[|dest|..] == q
    ensures Under(dest + [q[|src|]], Moved(src, dest, q))
  {
    var m := Moved(src, dest, q);
    assert m[..|dest|] == dest;
    assert m[|dest|..] == q[|src|..];
    assert q == q[..|src|] + q[|src|..];
    assert m[..|dest| + 1] == dest + [q[|src|]];
  }

  /** A proper subset is smaller. */
  lemma {:induction false} SmallerSubset<T>(a: set<T>, b: set<T>, x: T)
    requires a <= b && x in b && x !in a
    ensures |a| < |b|
    decreases |b|
  {
    var y :| y in b;
    if y == x {
      assert a <= b - {x};
      SubsetNoLarger(a, b - {x});
    } else if y in a {
      SmallerSubset(a - {y}, b - {y}, x);
    } else {
      SmallerSubset(a, b - {y}, x);
    }
  }

  lemma {:induction false} SubsetNoLarger<T>(a: set<T>, b: set<T>)
    requires a <= b
    ensures |a| <= |b|
    decreases |b|
  {
    if a != {} {
      var y :| y in a;
      SubsetNoLarger(a - {y}, b - {y});
    }
  }

  /** The subtree of src is untouched by a change confined to dest's side. */
  lemma SourceKept(fs0: Tree, fs: Tree, src: Path, dest: Path, q: Path)
    requires OutsideKept(fs0, fs, dest) && Disjoint(src, dest) && Under(src, q)
    ensures Kept(fs0, fs, q)
  {
    if Under(dest, q) {
      UnderBoth(src, dest, q);
    }
  }

  /**
   * The state of copyDir(src, dest) after the children in done: dest and its ancestors are
   * directories, the children in done are mirrored, and nothing else has changed.
   */
  ghost predicate Copying(fs0: Tree, fs: Tree, src: Path, dest: Path, done: set<string>) {
    WellFormed(fs) &&
    (forall q :: Under(q, dest) ==> q in fs && fs[q] == Dir) &&
    OutsideKept(fs0, fs, dest) &&
    MirroredUnder(fs0, fs, src, dest, done) &&
    InsideKept(fs0, fs, src, dest, done)
  }

  /** An entry below dest under a name other than n is not below dest + [n], nor its ancestor. */
  lemma OtherName(dest: Path, n: string, q: Path)
    requires Under(dest, q) && |q| > |dest| && q[|dest|] != n
    ensures !Under(dest + [n], q) && !Under(q, dest + [n])
  {
  }

  /** Before a subdirectory is copied, copyDir can run on it. */
  lemma ChildCanCopy(fs0: Tree, fs: Tree, src: Path, dest: Path, done: set<string>, n: string)
    requires CanCopy(fs0, src, dest) && Copying(fs0, fs, src, dest, done)
    requires n !in done && src + [n] in fs0 && fs0[src + [n]] == Dir
    ensures CanCopy(fs, src + [n], dest + [n])
    ensures |Below(fs, src + [n])| < |Below(fs0, src)|
  {
    var s, d := src + [n], dest + [n];
    ChildrenDisjoint(src, dest, n);
    SourceKept(fs0, fs, src, dest, s);
    assert NoFileOn(fs, d) by {
      forall q | Under(q, d) && q in fs
        ensures fs[q] == Dir
      {
        UnderChild(dest, n, q);
        if q == d {
          assert (d)[|dest|] == n && d[..|dest|] == dest;
          assert Kept(fs0, fs, d);
          assert Under(src, s) && Moved(src, dest, s) == d;
        }
      }
    }
    forall q | q in fs && Under(s, q) && Moved(s, d, q) in fs
      ensures fs[Moved(s, d, q)] == Dir <==> fs[q] == Dir
    {
      MovedChild(src, dest, n, q);
      SourceKept(fs0, fs, src, dest, q);
      MovedShape(src, dest, q);
      assert Kept(fs0, fs, Moved(src, dest, q));
    }
    assert Below(fs, s) <= Below(fs0, src) by {
      forall q | q in Below(fs, s)
        ensures q in Below(fs0, src)
      {
        MovedChild(src, dest, n, q);
        SourceKept(fs0, fs, src, dest, q);
      }
    }
    SmallerSubset(Below(fs, s), Below(fs0, src), s);
  }

  /** A path below src whose first name below src is n is below src + [n]. */
  lemma ChildPrefix(src: Path, n: string, q: Path)
    requires Under(src, q) && |q| > |src| && q[|src|] == n
    ensures Under(src + [n], q) && q[|src|..] == [n] + q[|src| + 1..]
  {
    assert q[..|src| + 1] == q[..|src|] + [q[|src|]];
  }

  /** Copying a subdirectory moves the loop state on by one name. */
  lemma StepDir(fs0: Tree, fsA: Tree, fsB: Tree, src: Path, dest: Path, done: set<string>, n: string)
    requires CanCopy(fs0, src, dest) && Copying(fs0, fsA, src, dest, done)
    requires n !in done && src + [n] in fs0 && fs0[src + [n]] == Dir
    requires Copied(fsA, fsB, src + [n], dest + [n])
    ensures Copying(fs0, fsB, src, dest, done + {n})
  {
    var d := dest + [n];
    forall q | Under(q, dest)
      ensures q in fsB && fsB[q] == Dir
    {
      assert !Under(d, q);
    }
    StepDirOutside(fs0, fsA, fsB, src, dest, n);
    StepDirMirrored(fs0, fsA, fsB, src, dest, done, n);
    StepDirInside(fs0, fsA, fsB, src, dest, done, n);
  }

  lemma StepDirOutside(fs0: Tree, fsA: Tree, fsB: Tree, src: Path, dest: Path, n: string)
    requires OutsideKept(fs0, fsA, dest) && OutsideKept(fsA, fsB, dest + [n])
    requires forall q :: Under(q, dest) ==> q in fsA
    ensures OutsideKept(fs0, fsB, dest)
  {
    var d := dest + [n];
    forall q | !Under(dest, q)
      ensures (q in fsB <==> q in fs0 || Under(q, dest)) && (q in fs0 ==> fsB[q] == fs0[q])
    {
      UnderParentOf(dest, n, q);
      if Under(q, d) {
        UnderChild(dest, n, q);
      }
    }
  }

  /** What lies below dest + [n] lies below dest. */
  lemma UnderParentOf(dest: Path, n: string, q: Path)
    ensures Under(dest + [n], q) ==> Under(dest, q)
  {
    if Under(dest + [n], q) {
      assert q[..|dest|] == (dest + [n])[..|dest|];
    }
  }

  lemma StepDirMirrored(fs0: Tree, fsA: Tree, fsB: Tree, src: Path, dest: Path, done: set<string>, n: string)
    requires Disjoint(src, dest) && OutsideKept(fs0, fsA, dest)
    requires MirroredUnder(fs0, fsA, src, dest, done)
    requires Copied(fsA, fsB, src + [n], dest + [n])
    ensures MirroredUnder(fs0, fsB, src, dest, done + {n})
  {
    forall q | q in fs0 && Under(src, q) && |q| > |src| && q[|src|] in done + {n}
      ensures Moved(src, dest, q) in fsB && fsB[Moved(src, dest, q)] == fs0[q]
    {
      MovedShape(src, dest, q);
      var m := Moved(src, dest, q);
      if q[|src|] == n {
        ChildPrefix(src, n, q);
        MovedChild(src, dest, n, q);
        SourceKept(fs0, fsA, src, dest, q);
      } else {
        OtherName(dest, n, m);
      }
    }
  }

  lemma StepDirInside(fs0: Tree, fsA: Tree, fsB: Tree, src: Path, dest: Path, done: set<string>, n: string)
    requires Disjoint(src, dest) && OutsideKept(fs0, fsA, dest) && src + [n] in fs0
    requires InsideKept(fs0, fsA, src, dest, done) && n !in done
    requires Copied(fsA, fsB, src + [n], dest + [n])
    ensures InsideKept(fs0, fsB, src, dest, done + {n})
  {
    forall q | Under(dest, q) && |q| > |dest| && (q[|dest|] !in done + {n} || src + q[|dest|..] !in fs0)
      ensures Kept(fs0, fsB, q)
    {
      if q[|dest|] != n {
        OtherName(dest, n, q);
      } else {
        SourceKept(fs0, fsA, src, dest, src + q[|dest|..]);
        InsideSameName(fs0, fsA, fsB, src, dest, n, q);
      }
    }
  }

  /** An entry below dest + [n] that is not the copy of an entry of src survives the copy. */
  lemma InsideSameName(fs0: Tree, fsA: Tree, fsB: Tree, src: Path, dest: Path, n: string, q: Path)
    requires Under(dest, q) && |q| > |dest| && q[|dest|] == n
    requires src + [n] in fs0 && src + q[|dest|..] !in fs0
    requires Kept(fs0, fsA, q) && Kept(fs0, fsA, src + q[|dest|..])
    requires forall x :: Under(dest + [n], x) && |x| > |dest + [n]| && (src + [n]) + x[|dest + [n]|..] !in fsA ==>
      Kept(fsA, fsB, x)
    ensures Kept(fs0, fsB, q)
  {
    var s, d := src + [n], dest + [n];
    ChildPrefix(dest, n, q);
    var r := q[|dest|..];
    assert r == [n] + q[|d|..];
    assert |q| != |d| by {
      assert |q| == |d| ==> r == [n];
    }
    assert s + q[|d|..] == src + r;
  }

  /** Copying a file moves the loop state on by one name. */
  lemma StepFile(fs0: Tree, fsA: Tree, fsB: Tree, src: Path, dest: Path, done: set<string>, n: string)
    requires CanCopy(fs0, src, dest) && Copying(fs0, fsA, src, dest, done)
    requires n !in done && src + [n] in fs0 && fs0[src + [n]].File?
    requires WellFormed(fsB) && fsB == fsA[dest + [n] := fs0[src + [n]]]
    ensures Copying(fs0, fsB, src, dest, done + {n})
  {
    var s, d := src + [n], dest + [n];
    assert OutsideKept(fs0, fsB, dest) by {
      forall q | !Under(dest, q)
        ensures (q in fsB <==> q in fs0 || Under(q, dest)) && (q in fs0 ==> fsB[q] == fs0[q])
      {
        assert q != d;
      }
    }
    assert MirroredUnder(fs0, fsB, src, dest, done + {n}) by {
      forall q | q in fs0 && Under(src, q) && |q| > |src| && q[|src|] in done + {n}
        ensures Moved(src, dest, q) in fsB && fsB[Moved(src, dest, q)] == fs0[q]
      {
        MovedShape(src, dest, q);
        var m := Moved(src, dest, q);
        if q[|src|] == n {
          ChildPrefix(src, n, q);
          if |q| > |s| {
            AncestorsAreDirs(fs0, q, |s|);
            assert false;
          }
          assert q == s;
        } else {
          OtherName(dest, n, m);
        }
      }
    }
    assert InsideKept(fs0, fsB, src, dest, done + {n}) by {
      forall q | Under(dest, q) && |q| > |dest| && (q[|dest|] !in done + {n} || src + q[|dest|..] !in fs0)
        ensures Kept(fs0, fsB, q)
      {
        if q[|dest|] != n {
          OtherName(dest, n, q);
        } else {
          ChildPrefix(dest, n, q);
        }
      }
    }
  }

  /** An existing destination already has its ancestors in place, as directories. */
  lemma DestPathReady(fs: Tree, dest: Path)
    requires WellFormed(fs) && NoFileOn(fs, dest) && dest in fs
    ensures forall q :: Under(q, dest) ==> q in fs && fs[q] == Dir
  {
    forall q | Under(q, dest)
      ensures q in fs && fs[q] == Dir
    {
      if |q| < |dest| {
        AncestorsAreDirs(fs, dest, |q|);
      } else {
        assert q == dest;
      }
    }
  }

  /** Once dest is in place the copy starts with no child done. */
  lemma CopyStart(fs0: Tree, fs1: Tree, src: Path, dest: Path)
    requires CanCopy(fs0, src, dest) && WellFormed(fs1)
    requires forall q :: q in fs1 <==> q in fs0 || Under(q, dest)
    requires forall q :: q in fs0 ==> fs1[q] == fs0[q]
    requires forall q :: Under(q, dest) ==> q in fs1 && fs1[q] == Dir
    ensures Copying(fs0, fs1, src, dest, {})
  {
  }

  /** With every child done, the copy is complete. */
  lemma CopyEnd(fs0: Tree, fs: Tree, src: Path, dest: Path, done: set<string>)
    requires CanCopy(fs0, src, dest) && Copying(fs0, fs, src, dest, done)
    requires forall n :: src + [n] in fs0 ==> n in done
    ensures Copied(fs0, fs, src, dest)
  {
    forall q | q in fs0 && Under(src, q)
      ensures Moved(src, dest, q) in fs && fs[Moved(src, dest, q)] == fs0[q]
    {
      MirrorOne(fs0, fs, src, dest, done, q);
    }
  }

  lemma MirrorOne(fs0: Tree, fs: Tree, src: Path, dest: Path, done: set<string>, q: Path)
    requires WellFormed(fs0) && src in fs0 && fs0[src] == Dir
    requires forall x :: Under(x, dest) ==> x in fs && fs[x] == Dir
    requires MirroredUnder(fs0, fs, src, dest, done)
    requires forall n :: src + [n] in fs0 ==> n in done
    requires q in fs0 && Under(src, q)
    ensures Moved(src, dest, q) in fs && fs[Moved(src, dest, q)] == fs0[q]
  {
    if |q| == |src| {
      assert q == src && Moved(src, dest, q) == dest;
      assert Under(dest, dest);
    } else {
      var n := q[|src|];
      ChildPrefix(src, n, q);
      assert q[..|src| + 1] == src + [n];
      if |q| > |src| + 1 {
        AncestorsAreDirs(fs0, q, |src| + 1);
      } else {
        assert q == q[..|src| + 1];
      }
      assert n in done;
    }
  }

  /**
   * copyDir(src, dest) (build.js:86-102): creates dest (with its missing ancestors) unless
   * it exists, then handles every entry of src in turn. Afterwards dest mirrors src and
   * nothing outside the copy has changed.
   */
  method CopyDir(disk: Disk, src: Path, dest: Path)
    requires CanCopy(disk.fs, src, dest)
    modifies disk
    ensures Copied(old(disk.fs), disk.fs, src, dest)
    decreases |Below(disk.fs, src)|, 1
  {
    ghost var fs0 := disk.fs;
    if !disk.Exists(dest) {
      disk.MakeDirs(dest);
    } else {
      DestPathReady(disk.fs, dest);
    }
    CopyStart(fs0, disk.fs, src, dest);
    SourceKept(fs0, disk.fs, src, dest, src);
    ghost var fs1 := disk.fs;
    var entries := disk.ReadDir(src);
    ghost var done: set<string> := {};
    var i := 0;
    while i < |entries|
      invariant 0 <= i <= |entries|
      invariant forall k :: 0 <= k < |entries| ==> (entries[k] in done <==> k < i)
      invariant Copying(fs0, disk.fs, src, dest, done)
    {
      var name := entries[i];
      assert name !in done;
      SourceKept(fs0, fs1, src, dest, src + [name]);
      CopyEntry(disk, src, dest, name, fs0, done, |Below(fs0, src)|);
      NextDone(entries, done, i);
      done := done + {name};
      i := i + 1;
    }
    forall n | src + [n] in fs0
      ensures n in done
    {
      SourceKept(fs0, fs1, src, dest, src + [n]);
      var k :| 0 <= k < |entries| && entries[k] == n;
    }
    CopyEnd(fs0, disk.fs, src, dest, done);
  }

  /**
   * One entry of copyDir's loop (build.js:92-101): a subdirectory is copied by recursion,
   * a file by copyFileSync.
   */
  method CopyEntry(disk: Disk, src: Path, dest: Path, name: string, ghost fs0: Tree, ghost done: set<string>, ghost bound: nat)
    requires CanCopy(fs0, src, dest) && Copying(fs0, disk.fs, src, dest, done)
    requires name !in done && src + [name] in fs0 && bound == |Below(fs0, src)|
    modifies disk
    ensures Copying(fs0, disk.fs, src, dest, done + {name})
    decreases bound, 0
  {
    var srcPath := src + [name];
    var destPath := dest + [name];
    SourceKept(fs0, disk.fs, src, dest, srcPath);
    ghost var fsA := disk.fs;
    if disk.fs[srcPath] == Dir {
      ChildCanCopy(fs0, disk.fs, src, dest, done, name);
      CopyDir(disk, srcPath, destPath);
      StepDir(fs0, fsA, disk.fs, src, dest, done, name);
    } else {
      assert destPath !in fsA || fsA[destPath] != Dir by {
        assert Under(src, srcPath) && Moved(src, dest, srcPath) == destPath;
        OtherNameFree(fs0, fsA, src, dest, done, name);
      }
      var ok := disk.CopyFile(srcPath, destPath);
      assert ok;
      StepFile(fs0, fsA, disk.fs, src, dest, done, name);
    }
  }

  /** Handling the next of a list of distinct names. */
  lemma NextDone(entries: seq<string>, done: set<string>, i: nat)
    requires i < |entries| && forall j, k :: 0 <= j < k < |entries| ==> entries[j] != entries[k]
    requires forall k :: 0 <= k < |entries| ==> (entries[k] in done <==> k < i)
    ensures forall k :: 0 <= k < |entries| ==> (entries[k] in done + {entries[i]} <==> k < i + 1)
  {
  }

  /** dest + [n] is untouched while n is not done. */
  lemma OtherNameFree(fs0: Tree, fs: Tree, src: Path, dest: Path, done: set<string>, n: string)
    requires InsideKept(fs0, fs, src, dest, done) && n !in done
    ensures Kept(fs0, fs, dest + [n])
  {
    var d := dest + [n];
    assert Under(dest, d) && |d| > |dest| && d[|dest|] == n;
  }
}
