/**
 * The disk as Command.java sees it, and the operations of Command.java that
 * walk it: `copyFileStream`, the recursive overlay `copyFile` behind
 * `replaceResource`, and the recursive `deleteFile`.
 *
 * A path is the sequence of its names; the empty path is the root. The disk
 * maps each existing path to a regular file with its contents or to a
 * directory; a real disk never has an entry whose parent is missing or is a
 * file, which `WellFormed` states.
 */
module FileTree {

  type Path = seq<string>

  datatype Entry = File(contents: string) | Dir

  type Disk = map<Path, Entry>

  function Parent(p: Path): Path
    requires |p| > 0
  {
    p[..|p| - 1]
  }

  predicate IsPrefix(r: Path, p: Path)
  {
    |r| <= |p| && p[..|r|] == r
  }

  /** Neither path lies inside the other. */
  predicate Apart(a: Path, b: Path)
  {
    !IsPrefix(a, b) && !IsPrefix(b, a)
  }

  ghost predicate WellFormed(fs: Disk)
  {
    forall p :: p in fs && |p| > 0 ==> Parent(p) in fs && fs[Parent(p)].Dir?
  }

  /** The names `listFiles()` returns for the directory `p`. */
  function ChildNames(fs: Disk, p: Path): (names: set<string>)
    ensures forall n :: n in names <==> p + [n] in fs
  {
    var names := set q | q in fs && |q| == |p| + 1 && q[..|p|] == p :: q[|p|];
    assert forall n :: n in names ==> p + [n] in fs by {
      forall n | n in names ensures p + [n] in fs {
        var q :| q in fs && |q| == |p| + 1 && q[..|p|] == p && q[|p|] == n;
        assert q == p + [n];
      }
    }
    assert forall n :: p + [n] in fs ==> n in names by {
      forall n | p + [n] in fs ensures n in names {
        var q := p + [n];
        assert q[..|p|] == p && q[|p|] == n;
      }
    }
    names
  }

  /** `getName().startsWith(".")`: the entries `copyFile` skips. */
  predicate Hidden(name: string)
  {
    |name| > 0 && name[0] == '.'
  }

  predicate NoHidden(rel: Path)
  {
    forall i :: 0 <= i < |rel| ==> !Hidden(rel[i])
  }

  /** All existing paths at or below `r`. */
  function Subtree(keys: set<Path>, r: Path): set<Path>
  {
    set p | p in keys && IsPrefix(r, p)
  }

  /** Same paths, and each one still a file or still a directory. */
  ghost predicate SameShape(a: Disk, b: Disk)
  {
    a.Keys == b.Keys && forall p :: p in a ==> a[p].Dir? == b[p].Dir?
  }

  // ---------------------------------------------------------------------------
  // What the overlay does to one path

  /**
   * What the overlay of `src` onto `dst` leaves at `p`: an existing file
   * `dst + rel` receives the contents of the file `src + rel` when that exists
   * and no name in `rel` is hidden; a file copied onto itself is truncated,
   * because the output stream is opened before the length is taken.
   */
  function OverlayAt(fs: Disk, src: Path, dst: Path, p: Path): Entry
    requires p in fs
  {
    if fs[p].File? && IsPrefix(dst, p) then
      var rel := p[|dst|..];
      var q := src + rel;
      if q in fs && fs[q].File? && NoHidden(rel) then File(if q == p then "" else fs[q].contents)
      else fs[p]
    else fs[p]
  }

  ghost function Overlay(fs: Disk, src: Path, dst: Path): (r: Disk)
    ensures r.Keys == fs.Keys
    ensures forall p :: p in r ==> r[p] == OverlayAt(fs, src, dst, p)
  {
    map p | p in fs :: OverlayAt(fs, src, dst, p)
  }

  /** The overlay result when only the children in `done` have been visited. */
  function PartialOverlay(fs: Disk, src: Path, dst: Path, done: set<string>, p: Path): Entry
    requires p in fs
  {
    if IsPrefix(dst, p) && |p| > |dst| && p[|dst|] in done then OverlayAt(fs, src, dst, p) else fs[p]
  }

  /** The disk with `p` and everything below it gone: what `deleteFile(p)` leaves. */
  function Pruned(fs: Disk, p: Path): (r: Disk)
    ensures r.Keys <= fs.Keys
  {
    map q | q in fs && !IsPrefix(p, q) :: fs[q]
  }

  /** The disk with the subtrees of the children `done` of `p` gone. */
  function PrunedBelow(fs: Disk, p: Path, done: set<string>): Disk
  {
    map q | q in fs && !(IsPrefix(p, q) && |q| > |p| && q[|p|] in done) :: fs[q]
  }

  // ---------------------------------------------------------------------------
  // Path lemmas

  lemma PrefixOfChild(r: Path, n: string, p: Path)
    ensures IsPrefix(r + [n], p) <==> IsPrefix(r, p) && |p| > |r| && p[|r|] == n
  {
    if IsPrefix(r + [n], p) {
      assert p[..|r|] == p[..|r| + 1][..|r|];
    }
    if IsPrefix(r, p) && |p| > |r| && p[|r|] == n {
      assert p[..|r| + 1] == p[..|r|] + [p[|r|]];
    }
  }

  /** Two prefixes of one path are comparable. */
  lemma PrefixesComparable(a: Path, b: Path, c: Path)
    requires IsPrefix(a, c) && IsPrefix(b, c)
    ensures IsPrefix(a, b) || IsPrefix(b, a)
  {
    if |a| <= |b| {
      assert b[..|a|] == c[..|b|][..|a|];
    } else {
      assert a[..|b|] == c[..|a|][..|b|];
    }
  }

  lemma ChildrenApart(src: Path, dst: Path, n: string)
    requires src == dst || Apart(src, dst)
    ensures src + [n] == dst + [n] || Apart(src + [n], dst + [n])
  {
    if src != dst {
      PrefixOfChild(src, n, dst + [n]);
      PrefixOfChild(dst, n, src + [n]);
      assert |src| <= |dst| ==> (dst + [n])[..|src|] == dst[..|src|];
      assert |dst| <= |src| ==> (src + [n])[..|dst|] == src[..|dst|];
    }
  }

  /** In a well-formed disk every proper prefix of an existing path is a directory. */
  lemma {:induction false} AncestorsAreDirs(fs: Disk, q: Path, r: Path)
    requires WellFormed(fs)
    requires q in fs && IsPrefix(r, q) && |r| < |q|
    ensures r in fs && fs[r].Dir?
    decreases |q|
  {
    var up := Parent(q);
    assert up in fs && fs[up].Dir?;
    if |r| < |up| {
      assert up[..|r|] == q[..|r|];
      AncestorsAreDirs(fs, up, r);
    } else {
      assert r == up;
    }
  }

  lemma SubtreeShrinks(keys: set<Path>, p: Path, n: string)
    requires p in keys
    ensures Subtree(keys, p + [n]) < Subtree(keys, p)
  {
    forall q | q in Subtree(keys, p + [n]) ensures q in Subtree(keys, p) {
      PrefixOfChild(p, n, q);
    }
    assert p in Subtree(keys, p) && p !in Subtree(keys, p + [n]);
  }

  lemma SameShapeWellFormed(a: Disk, b: Disk)
    requires WellFormed(a) && SameShape(a, b)
    ensures WellFormed(b)
  {
  }

  /** Rewriting the contents of an existing file keeps the disk well formed. */
  lemma OverwriteWellFormed(fs: Disk, p: Path, contents: string)
    requires WellFormed(fs) && p in fs && fs[p].File?
    ensures WellFormed(fs[p := File(contents)])
  {
    SameShapeWellFormed(fs, fs[p := File(contents)]);
  }

  // ---------------------------------------------------------------------------
  // Properties of the overlay

  /** One step of the walk: overlaying a child pair agrees with the whole overlay below that child. */
  lemma OverlayChild(fs: Disk, cur: Disk, src: Path, dst: Path, n: string, p: Path)
    requires src == dst || Apart(src, dst)
    requires !Hidden(n)
    requires SameShape(fs, cur)
    requires p in fs && IsPrefix(dst + [n], p)
    requires cur[p] == fs[p]
    requires forall q :: q in fs && IsPrefix(src + [n], q) ==> cur[q] == fs[q]
    ensures OverlayAt(cur, src + [n], dst + [n], p) == OverlayAt(fs, src, dst, p)
  {
    PrefixOfChild(dst, n, p);
    var rel := p[|dst|..];
    var rel' := p[|dst| + 1..];
    assert rel == [n] + rel';
    assert src + rel == src + [n] + rel';
    var q := src + rel;
    assert IsPrefix(src + [n], q) by {
      assert q[..|src| + 1] == src + [n];
    }
    assert NoHidden(rel) <==> NoHidden(rel') by {
      assert forall i :: 0 <= i < |rel'| ==> rel'[i] == rel[i + 1];
    }
    assert (dst + [n])[..] == dst + [n];
    assert p[|dst + [n]|..] == rel';
  }

  /** The overlay changes only files: nothing is created, removed or turned into a directory. */
  lemma OverlayShape(fs: Disk, src: Path, dst: Path)
    ensures SameShape(fs, Overlay(fs, src, dst))
  {
  }

  /** A source path never lies inside a destination it is apart from. */
  lemma SourceOutsideDestination(src: Path, dst: Path, q: Path)
    requires Apart(src, dst) && IsPrefix(src, q)
    ensures !IsPrefix(dst, q)
  {
    if IsPrefix(dst, q) {
      PrefixesComparable(src, dst, q);
    }
  }

  /**
   * Replacing resources twice is the same as replacing them once: the source
   * side is left as it was (or, copied onto itself, truncated already).
   */
  lemma OverlayIdempotent(fs: Disk, src: Path, dst: Path, p: Path)
    requires src == dst || Apart(src, dst)
    requires p in fs
    ensures OverlayAt(Overlay(fs, src, dst), src, dst, p) == OverlayAt(fs, src, dst, p)
  {
    var once := Overlay(fs, src, dst);
    if fs[p].File? && IsPrefix(dst, p) {
      var rel := p[|dst|..];
      var q := src + rel;
      assert IsPrefix(src, q) by { assert q[..|src|] == src; }
      if q in fs && src != dst {
        SourceOutsideDestination(src, dst, q);
        assert once[q] == fs[q];
      }
      if q in fs && src == dst {
        assert q == p;
      }
    }
  }

  /** The overlay of a missing source changes nothing. */
  lemma MissingSourceNoOp(fs: Disk, src: Path, dst: Path, p: Path)
    requires WellFormed(fs) && src !in fs && p in fs
    ensures OverlayAt(fs, src, dst, p) == fs[p]
  {
    if fs[p].File? && IsPrefix(dst, p) {
      var rel := p[|dst|..];
      var q := src + rel;
      assert IsPrefix(src, q) by { assert q[..|src|] == src; }
      if |rel| == 0 {
        assert q == src;
      } else if q in fs {
        AncestorsAreDirs(fs, q, src);
        assert false;
      }
    }
  }

  /** A source entry that is a hidden file or directory contributes nothing anywhere. */
  lemma HiddenSourceIgnored(fs: Disk, src: Path, dst: Path, rel: Path, i: nat, p: Path)
    requires i < |rel| && Hidden(rel[i])
    requires p in fs && p == dst + rel
    ensures OverlayAt(fs, src, dst, p) == fs[p]
  {
    assert p[|dst|..] == rel;
  }

  // ---------------------------------------------------------------------------
  // Steps of the two recursive walks

  /** After the walk into child `n`, the disk outside `dst` is still the starting disk. */
  lemma CopyFrameStep(start: Disk, before: Disk, after: Disk, dst: Path, n: string)
    requires SameShape(start, before) && SameShape(before, after)
    requires forall p :: p in before && !IsPrefix(dst, p) ==> before[p] == start[p]
    requires forall p :: p in after && !IsPrefix(dst + [n], p) ==> after[p] == before[p]
    ensures forall p :: p in after && !IsPrefix(dst, p) ==> after[p] == start[p]
  {
    forall p | p in after && !IsPrefix(dst, p) ensures after[p] == start[p] {
      PrefixOfChild(dst, n, p);
    }
  }

  /** After the walk into child `n`, the disk is the overlay restricted to the children visited. */
  lemma CopyChildStep(start: Disk, before: Disk, after: Disk, src: Path, dst: Path, n: string, done: set<string>)
    requires src == dst || Apart(src, dst)
    requires !Hidden(n) && n !in done
    requires SameShape(start, before) && SameShape(before, after)
    requires forall p :: p in before && !IsPrefix(dst, p) ==> before[p] == start[p]
    requires forall p :: p in before ==> before[p] == PartialOverlay(start, src, dst, done, p)
    requires forall p :: p in after ==> after[p] == OverlayAt(before, src + [n], dst + [n], p)
    ensures forall p :: p in after ==> after[p] == PartialOverlay(start, src, dst, done + {n}, p)
  {
    ChildrenApart(src, dst, n);
    forall p | p in after ensures after[p] == PartialOverlay(start, src, dst, done + {n}, p) {
      PrefixOfChild(dst, n, p);
      if IsPrefix(dst + [n], p) {
        forall q | q in start && IsPrefix(src + [n], q) ensures before[q] == start[q] {
          PrefixOfChild(src, n, q);
          if src != dst {
            SourceOutsideDestination(src, dst, q);
          }
        }
        OverlayChild(start, before, src, dst, n, p);
      }
    }
  }

  /** Once every non-hidden child of the source directory is visited the overlay is complete. */
  lemma CopyDirDone(fs: Disk, src: Path, dst: Path, names: set<string>, p: Path)
    requires WellFormed(fs) && src in fs && fs[src].Dir? && p in fs
    requires forall n :: n in names <==> src + [n] in fs && !Hidden(n)
    ensures PartialOverlay(fs, src, dst, names, p) == OverlayAt(fs, src, dst, p)
  {
    if IsPrefix(dst, p) && fs[p].File? {
      var rel := p[|dst|..];
      var q := src + rel;
      if |rel| == 0 {
        assert q == src;
      } else if q in fs && fs[q].File? && NoHidden(rel) {
        assert IsPrefix(src + [rel[0]], q) by {
          assert q[..|src| + 1] == src + [rel[0]];
        }
        if |q| > |src| + 1 {
          AncestorsAreDirs(fs, q, src + [rel[0]]);
        } else {
          assert q == q[..|src| + 1];
        }
        assert !Hidden(rel[0]);
        assert rel[0] in names;
        assert p[|dst|] == rel[0];
      }
    }
  }

  /**
   * What a finished walk of `copyFile(src, dst)` promises about the disk it
   * turned from `fs` into `cur`: nothing is created, removed or changes kind,
   * nothing outside `dst` changes, and when source and destination are equal
   * or apart every path holds what `OverlayAt` says.
   */
  ghost predicate CopyDone(fs: Disk, cur: Disk, src: Path, dst: Path)
  {
    && SameShape(fs, cur)
    && (forall p :: p in cur && !IsPrefix(dst, p) ==> cur[p] == fs[p])
    && (src == dst || Apart(src, dst) ==> forall p :: p in cur ==> cur[p] == OverlayAt(fs, src, dst, p))
  }

  /** The same, midway through a directory whose children `done` have been walked. */
  ghost predicate CopyPartial(fs: Disk, cur: Disk, src: Path, dst: Path, done: set<string>)
  {
    && SameShape(fs, cur)
    && (forall p :: p in cur && !IsPrefix(dst, p) ==> cur[p] == fs[p])
    && (src == dst || Apart(src, dst) ==> forall p :: p in cur ==> cur[p] == PartialOverlay(fs, src, dst, done, p))
  }

  lemma CopyStart(fs: Disk, src: Path, dst: Path)
    ensures CopyPartial(fs, fs, src, dst, {})
  {
  }

  lemma CopyStep(start: Disk, before: Disk, after: Disk, src: Path, dst: Path, n: string, done: set<string>)
    requires !Hidden(n) && n !in done
    requires CopyPartial(start, before, src, dst, done)
    requires CopyDone(before, after, src + [n], dst + [n])
    ensures CopyPartial(start, after, src, dst, done + {n})
  {
    CopyFrameStep(start, before, after, dst, n);
    if src == dst || Apart(src, dst) {
      ChildrenApart(src, dst, n);
      CopyChildStep(start, before, after, src, dst, n, done);
    }
  }

  lemma CopyFinish(fs: Disk, cur: Disk, src: Path, dst: Path, names: set<string>)
    requires WellFormed(fs) && src in fs && fs[src].Dir?
    requires forall n :: n in names <==> src + [n] in fs && !Hidden(n)
    requires CopyPartial(fs, cur, src, dst, names)
    ensures CopyDone(fs, cur, src, dst)
  {
    if src == dst || Apart(src, dst) {
      forall p | p in cur ensures cur[p] == OverlayAt(fs, src, dst, p) {
        CopyDirDone(fs, src, dst, names, p);
      }
    }
  }

  lemma CopyMissing(fs: Disk, src: Path, dst: Path)
    requires WellFormed(fs) && src !in fs
    ensures CopyDone(fs, fs, src, dst)
  {
    forall p | p in fs ensures fs[p] == OverlayAt(fs, src, dst, p) {
      MissingSourceNoOp(fs, src, dst, p);
    }
  }

  lemma CopyFileCase(fs: Disk, cur: Disk, src: Path, dst: Path)
    requires WellFormed(fs) && src in fs && fs[src].File?
    requires cur == if dst in fs && fs[dst].File? then fs[dst := File(if src == dst then "" else fs[src].contents)] else fs
    ensures CopyDone(fs, cur, src, dst)
  {
    forall p | p in cur ensures cur[p] == OverlayAt(fs, src, dst, p) {
      FileSourceOverlay(fs, src, dst, p);
    }
  }

  /** Deleting child `n` extends the pruned region by the subtree of `n`. */
  lemma PruneChildStep(start: Disk, p: Path, n: string, done: set<string>)
    ensures Pruned(PrunedBelow(start, p, done), p + [n]) == PrunedBelow(start, p, done + {n})
  {
    forall q ensures IsPrefix(p + [n], q) <==> IsPrefix(p, q) && |q| > |p| && q[|p|] == n {
      PrefixOfChild(p, n, q);
    }
  }

  /** Once every child is pruned, removing the directory itself prunes it whole. */
  lemma PruneDirDone(fs: Disk, p: Path, names: set<string>)
    requires WellFormed(fs)
    requires forall n :: n in names <==> p + [n] in fs
    ensures PrunedBelow(fs, p, names) - {p} == Pruned(fs, p)
  {
    forall q | q in fs && IsPrefix(p, q) && q != p
      ensures |q| > |p| && q[|p|] in names
    {
      assert |q| > |p| by {
        assert q[..|q|] == q;
      }
      var child := p + [q[|p|]];
      PrefixOfChild(p, q[|p|], q);
      if |q| > |child| {
        AncestorsAreDirs(fs, q, child);
      } else {
        assert q == q[..|child|];
      }
      assert child in fs;
    }
  }

  /** Pruning a subtree never orphans an entry. */
  lemma PrunedWellFormed(fs: Disk, p: Path)
    requires WellFormed(fs)
    ensures WellFormed(Pruned(fs, p))
  {
    var r := Pruned(fs, p);
    forall q | q in r && |q| > 0 ensures Parent(q) in r && r[Parent(q)].Dir? {
      var up := Parent(q);
      assert IsPrefix(p, up) ==> IsPrefix(p, q) by {
        assert forall k :: 0 <= k <= |up| ==> q[..k] == up[..k];
      }
    }
  }

  /** A pruned disk keeps the other entries as they were and nothing at or below `p`. */
  lemma PrunedContents(fs: Disk, p: Path)
    ensures Pruned(fs, p).Keys == fs.Keys - Subtree(fs.Keys, p)
    ensures forall q :: q in Pruned(fs, p) ==> Pruned(fs, p)[q] == fs[q]
    ensures forall q :: IsPrefix(p, q) ==> q !in Pruned(fs, p)
  {
  }

  /** With a regular file as source only the destination path itself can change. */
  lemma FileSourceOverlay(fs: Disk, src: Path, dst: Path, p: Path)
    requires WellFormed(fs) && src in fs && fs[src].File? && p in fs
    ensures OverlayAt(fs, src, dst, p)
         == if p == dst && fs[p].File? then File(if src == dst then "" else fs[src].contents) else fs[p]
  {
    if fs[p].File? && IsPrefix(dst, p) {
      var rel := p[|dst|..];
      var q := src + rel;
      if |rel| == 0 {
        assert p == dst && q == src;
      } else {
        assert IsPrefix(src, q) && |q| > |src| by {
          assert q[..|src|] == src;
        }
        if q in fs {
          AncestorsAreDirs(fs, q, src);
          assert false;
        }
      }
    }
  }

  /** Nothing lies below a path that does not exist. */
  lemma MissingPruned(fs: Disk, p: Path)
    requires WellFormed(fs) && p !in fs
    ensures Pruned(fs, p) == fs
  {
    forall q | q in fs ensures !IsPrefix(p, q) {
      assert q[..|q|] == q;
      if IsPrefix(p, q) && |q| > |p| {
        AncestorsAreDirs(fs, q, p);
      }
    }
  }

  /** A file has nothing below it. */
  lemma FilePruned(fs: Disk, p: Path)
    requires WellFormed(fs) && p in fs && fs[p].File?
    ensures Pruned(fs, p) == fs - {p}
  {
    forall q | q in fs && IsPrefix(p, q) ensures q == p {
      if |q| > |p| {
        AncestorsAreDirs(fs, q, p);
      } else {
        assert q == q[..|p|];
      }
    }
    assert p[..|p|] == p;
    assert Pruned(fs, p).Keys == (fs - {p}).Keys;
  }

  /** Moving one name from the pending to the visited children. */
  lemma VisitOne(names: set<string>, todo: set<string>, done: set<string>, n: string)
    requires todo <= names && done == names - todo && n in todo
    ensures todo - {n} <= names && done + {n} == names - (todo - {n})
  {
  }

  // ---------------------------------------------------------------------------
  // The disk and the operations on it

  class FileSystem {
    var entries: Disk

    ghost predicate Valid()
      reads this
    {
      WellFormed(entries)
    }

    constructor (initial: Disk)
      requires WellFormed(initial)
      ensures Valid() && entries == initial
    {
      entries := initial;
    }

    /**
     * `copyFileStream(in, out)`: opening `in` fails unless it is a regular
     * file; opening `out` for writing fails when it is a directory or its
     * parent directory is missing, and otherwise creates or truncates it; the
     * copy then transfers as many bytes as `in` holds at that moment.
     */
    method CopyFileStream(src: Path, dst: Path) returns (ok: bool)
      requires Valid()
      modifies this
      ensures Valid()
      ensures ok <==> src in old(entries) && old(entries)[src].File?
                      && (if dst in old(entries) then old(entries)[dst].File?
                          else |dst| > 0 && Parent(dst) in old(entries) && old(entries)[Parent(dst)].Dir?)
      ensures ok ==> entries == old(entries)[dst := File(if src == dst then "" else old(entries)[src].contents)]
      ensures !ok ==> entries == old(entries)
    {
      if src !in entries || entries[src].Dir? {
        return false;
      }
      if dst in entries {
        if entries[dst].Dir? {
          return false;
        }
      } else if |dst| == 0 || Parent(dst) !in entries || entries[Parent(dst)].File? {
        return false;
      }
      var data := if src == dst then "" else entries[src].contents;
      entries := entries[dst := File(data)];
      ok := true;
    }

    /**
     * `copyFile(inputFile, outputFile)`: overlays the tree at `src` onto the
     * tree at `dst`, visiting the directory's non-hidden children in whatever
     * order `listFiles` returns them and copying a file only onto a file that
     * already exists. When source and destination are equal or apart the
     * result is `Overlay`; when one lies inside the other the result depends
     * on the listing order and only the frame conditions are promised.
     */
    method CopyTree(src: Path, dst: Path)
      requires Valid()
      modifies this
      decreases Subtree(entries.Keys, src)
      ensures Valid() && CopyDone(old(entries), entries, src, dst)
    {
      if src !in entries {
        CopyMissing(entries, src, dst);
        return;
      }
      if entries[src].File? {
        ghost var start := entries;
        if dst in entries {
          var _ := CopyFileStream(src, dst);
        }
        CopyFileCase(start, entries, src, dst);
        return;
      }
      var names := set n | n in ChildNames(entries, src) && !Hidden(n);
      var todo := names;
      ghost var done: set<string> := {};
      ghost var start := entries;
      CopyStart(start, src, dst);
      while todo != {}
        invariant todo <= names && done == names - todo
        invariant Valid() && entries.Keys == start.Keys
        invariant CopyPartial(start, entries, src, dst, done)
        decreases todo
      {
        var n :| n in todo;
        SubtreeShrinks(entries.Keys, src, n);
        ghost var before := entries;
        CopyTree(src + [n], dst + [n]);
        CopyStep(start, before, entries, src, dst, n, done);
        VisitOne(names, todo, done, n);
        todo := todo - {n};
        done := done + {n};
      }
      CopyFinish(start, entries, src, dst, names);
    }

    /** `replaceResource(replaceResourceFolder, appFolderName)`. */
    method ReplaceResource(replaceFolder: Path, appFolder: Path)
      requires Valid()
      modifies this
      ensures Valid()
      ensures SameShape(old(entries), entries)
      ensures forall p :: p in entries && !IsPrefix(appFolder, p) ==> entries[p] == old(entries)[p]
      ensures replaceFolder == appFolder || Apart(replaceFolder, appFolder) ==>
                forall p :: p in entries ==> entries[p] == OverlayAt(old(entries), replaceFolder, appFolder, p)
    {
      CopyTree(replaceFolder, appFolder);
    }

    /**
     * `deleteFile(file)`: a regular file is removed; a directory has each of
     * its entries deleted first and is then removed. For a missing path
     * `listFiles()` returns null and the loop throws, which `ok == false`
     * stands for; the disk is then unchanged.
     */
    method Delete(p: Path) returns (ok: bool)
      requires Valid()
      modifies this
      decreases Subtree(entries.Keys, p)
      ensures Valid()
      ensures ok <==> p in old(entries)
      ensures entries == Pruned(old(entries), p)
    {
      if p !in entries {
        MissingPruned(entries, p);
        return false;
      }
      if entries[p].File? {
        FilePruned(entries, p);
        entries := entries - {p};
        return true;
      }
      var names := ChildNames(entries, p);
      var todo := names;
      ghost var done: set<string> := {};
      ghost var start := entries;
      while todo != {}
        invariant todo <= names && done == names - todo
        invariant Valid()
        invariant entries == PrunedBelow(start, p, done)
        decreases todo
      {
        var n :| n in todo;
        assert p + [n] in entries by {
          assert (p + [n])[|p|] == n;
        }
        assert Subtree(entries.Keys, p + [n]) < Subtree(start.Keys, p) by {
          SubtreeShrinks(start.Keys, p, n);
          assert Subtree(entries.Keys, p + [n]) <= Subtree(start.Keys, p + [n]);
        }
        PruneChildStep(start, p, n, done);
        var _ := Delete(p + [n]);
        VisitOne(names, todo, done, n);
        todo := todo - {n};
        done := done + {n};
      }
      PruneDirDone(start, p, names);
      PrunedWellFormed(start, p);
      entries := entries - {p};
      ok := true;
    }
  }
}
