/** Recursive deletion of a remote tree (libcli/clideltree.c), on top of the
    paged listing. */
module DelTree {
  import opened CStrings
  import opened ClientList

  datatype Attr = Attr(isDirectory: bool, isReadOnly: bool)

  type Files = map<CString, Attr>

  datatype Status = Ok | NotFound | Denied

  /** `k` is `p` itself or lies somewhere below it. */
  predicate Under(p: CString, k: CString) {
    k == p || StrictlyUnder(p, k)
  }

  predicate StrictlyUnder(p: CString, k: CString) {
    p + [BACKSLASH] <= k
  }

  /** Path of entry `name` in directory `p`. */
  function ChildPath(p: CString, name: CString): CString {
    p + [BACKSLASH] + name
  }

  predicate ProperName(name: CString) {
    name != "" && name != "." && name != ".." && BACKSLASH !in name
  }

  /** `k` is an entry of directory `p`. */
  predicate IsChild(p: CString, k: CString) {
    StrictlyUnder(p, k) && BACKSLASH !in k[|p| + 1..]
  }

  /** Every proper prefix of the path that ends at a separator is a directory. */
  predicate ParentsExist(files: Files, k: CString) {
    forall i :: 0 < i < |k| && k[i] == BACKSLASH ==> k[..i] in files && files[k[..i]].isDirectory
  }

  ghost predicate NamedProperly(k: CString) {
    forall p :: IsChild(p, k) ==> ProperName(k[|p| + 1..])
  }

  /** A file system: paths with all their parents and with proper names. */
  ghost predicate WellFormed(files: Files) {
    "" !in files && forall k :: k in files ==> ParentsExist(files, k) && NamedProperly(k)
  }

  /** The file system without the tree at `p`. */
  function Without(files: Files, p: CString): Files {
    map k | k in files && !Under(p, k) :: files[k]
  }

  /** The file system without what lies below `p`. */
  function WithoutBelow(files: Files, p: CString): Files {
    map k | k in files && !StrictlyUnder(p, k) :: files[k]
  }

  /** The file system without the trees at `gone`. */
  ghost function WithoutAll(files: Files, gone: set<CString>): Files {
    map k | k in files && !(exists c :: c in gone && Under(c, k)) :: files[k]
  }

  // ---- facts about paths ----

  lemma UnderTransitive(a: CString, b: CString, c: CString)
    requires Under(a, b) && Under(b, c)
    ensures Under(a, c)
    ensures StrictlyUnder(a, b) ==> StrictlyUnder(a, c)
  {
    if StrictlyUnder(a, b) && StrictlyUnder(b, c) {
      assert c[..|a| + 1] == b[..|a| + 1];
    }
  }

  lemma StrictlyUnderMeans(p: CString, k: CString)
    ensures StrictlyUnder(p, k) <==> |p| < |k| && k[|p|] == BACKSLASH && k[..|p|] == p
  {
    if |p| < |k| && k[|p|] == BACKSLASH && k[..|p|] == p {
      assert k[..|p| + 1] == p + [BACKSLASH];
    }
  }

  lemma ChildIsBelow(p: CString, name: CString)
    requires BACKSLASH !in name
    ensures IsChild(p, ChildPath(p, name)) && ChildPath(p, name)[|p| + 1..] == name
  {
  }

  /** Position of the first backslash of `k` at or after `from`, or its end. */
  function NextSeparator(k: CString, from: nat): (j: nat)
    requires from <= |k|
    ensures from <= j <= |k| && BACKSLASH !in k[from..j]
    ensures j < |k| ==> k[j] == BACKSLASH
    decreases |k| - from
  {
    if from == |k| || k[from] == BACKSLASH then from
    else
      var j := NextSeparator(k, from + 1);
      assert k[from..j] == [k[from]] + k[from + 1..j];
      j
  }

  lemma ParentAt(files: Files, k: CString, j: nat)
    requires WellFormed(files) && k in files && 0 < j < |k| && k[j] == BACKSLASH
    ensures k[..j] in files
  {
    assert ParentsExist(files, k);
  }

  /** Cutting a path below `p` at its next separator gives an entry of `p`. */
  lemma CutAtSeparator(p: CString, k: CString, j: nat)
    requires StrictlyUnder(p, k) && |p| + 1 <= j <= |k|
    requires BACKSLASH !in k[|p| + 1..j] && (j < |k| ==> k[j] == BACKSLASH)
    ensures IsChild(p, k[..j]) && Under(k[..j], k)
  {
    assert k[..j][|p| + 1..] == k[|p| + 1..j];
    assert k[..j][..|p| + 1] == k[..|p| + 1] == p + [BACKSLASH];
    if j == |k| {
      assert k[..j] == k;
    } else {
      assert k[..j + 1] == k[..j] + [BACKSLASH];
    }
  }

  /** What lies below a directory lies in the tree of one of its entries. */
  lemma ThroughAChild(files: Files, p: CString, k: CString) returns (c: CString)
    requires WellFormed(files) && k in files && StrictlyUnder(p, k)
    ensures c in files && IsChild(p, c) && Under(c, k)
  {
    hide WellFormed, IsChild, Under;
    var j := NextSeparator(k, |p| + 1);
    c := k[..j];
    CutAtSeparator(p, k, j);
    if j < |k| {
      ParentAt(files, k, j);
    } else {
      assert c == k;
    }
  }

  /** Trees of different entries of one directory do not meet. */
  lemma SiblingsApart(p: CString, a: CString, b: CString, k: CString)
    requires IsChild(p, a) && IsChild(p, b)
    requires Under(a, k) && Under(b, k)
    ensures a == b
  {
    NoShorterSibling(p, a, b, k);
    NoShorterSibling(p, b, a, k);
    assert a == k[..|a|] && b == k[..|b|];
  }

  lemma NoShorterSibling(p: CString, a: CString, b: CString, k: CString)
    requires IsChild(p, a) && IsChild(p, b)
    requires Under(a, k) && Under(b, k)
    ensures |b| <= |a|
  {
    assert a == k[..|a|] && b == k[..|b|];
    assert |a| < |k| ==> k[|a|] == BACKSLASH;
    assert forall i :: |p| + 1 <= i < |b| ==> b[i] == b[|p| + 1..][i - |p| - 1] != BACKSLASH;
  }

  lemma NothingBelowFile(files: Files, p: CString)
    requires WellFormed(files) && p in files && !files[p].isDirectory
    ensures WithoutBelow(files, p) == files
  {
    forall k | k in files
      ensures !StrictlyUnder(p, k)
    {
      assert ParentsExist(files, k);
      StrictlyUnderMeans(p, k);
    }
  }

  lemma WithoutWellFormed(files: Files, files': Files)
    requires WellFormed(files)
    requires forall k :: k in files' ==> k in files && files'[k].isDirectory == files[k].isDirectory
    requires forall k, j :: k in files' && j in files && Under(j, k) ==> j in files'
    ensures WellFormed(files')
  {
    forall k | k in files'
      ensures ParentsExist(files', k)
    {
      assert ParentsExist(files, k);
      forall i | 0 < i < |k| && k[i] == BACKSLASH
        ensures k[..i] in files' && files'[k[..i]].isDirectory
      {
        assert k[..i + 1] == k[..i] + [BACKSLASH];
        assert Under(k[..i], k);
      }
    }
  }

  // ---- the server ----

  /** `reliable` marks a server that grants every operation that the file
      system allows; any other may refuse. `eager` marks one whose wildcard
      deletion takes all that it may; any other may leave some. */
  class FileServer {
    var files: Files
    const reliable: bool
    const eager: bool

    /** How many files the wildcard deletions have removed. */
    ghost var swept: nat

    constructor (files: Files, reliable: bool, eager: bool)
      ensures this.files == files && this.reliable == reliable && this.eager == eager && swept == 0
    {
      this.files, this.reliable, this.eager, swept := files, reliable, eager, 0;
    }

    /** smbcli_unlink of one path: a file that is not read-only. */
    method Unlink(path: CString) returns (status: Status)
      modifies this`files
      ensures status == NotFound <==> path !in old(files)
      ensures status == Ok ==> Deletable(old(files), path)
      ensures reliable && Deletable(old(files), path) ==> status == Ok
      ensures files == if status == Ok then old(files) - {path} else old(files)
    {
      if path !in files {
        return NotFound;
      }
      if !Deletable(files, path) {
        return Denied;
      }
      if !reliable {
        if * {
          return Denied;
        }
      }
      files := files - {path};
      return Ok;
    }

    /** smbcli_unlink of a wildcard: any of the deletable files of a directory, or
        all of them. */
    method UnlinkWild(mask: CString)
      requires |mask| >= 2
      modifies this`files, this`swept
      ensures old(swept) <= swept && swept + |files| == old(swept) + |old(files)|
      ensures swept + |Writable(files)| == old(swept) + |Writable(old(files))|
      ensures eager ==> forall k :: k in files && IsChild(mask[..|mask| - 2], k) ==> !Deletable(files, k)
      ensures forall k :: k in files ==> k in old(files) && files[k] == old(files)[k]
      ensures forall k :: k in old(files) && k !in files ==>
                IsChild(mask[..|mask| - 2], k) && Deletable(old(files), k)
    {
      var p := mask[..|mask| - 2];
      var deletable := set k | k in files && IsChild(p, k) && Deletable(files, k);
      assert deletable <= deletable && (eager ==> deletable == deletable);
      var gone: set<CString> :| gone <= deletable && (eager ==> gone == deletable);
      KeysRemoved(files, gone);
      WritableRemoved(files, gone);
      swept := swept + |gone|;
      files := files - gone;
    }

    /** smbcli_setatr to normal attributes. */
    method ClearAttributes(path: CString) returns (status: Status)
      modifies this`files
      ensures status == Ok ==> path in old(files)
                               && files == old(files)[path := old(files)[path].(isReadOnly := false)]
      ensures status != Ok ==> files == old(files)
      ensures reliable && path in old(files) ==> status == Ok
    {
      if path !in files {
        return NotFound;
      }
      if !reliable {
        if * {
          return Denied;
        }
      }
      files := files[path := files[path].(isReadOnly := false)];
      return Ok;
    }

    /** smbcli_rmdir: an empty directory that is not read-only. */
    method Rmdir(path: CString) returns (status: Status)
      modifies this`files
      ensures status == Ok ==> Removable(old(files), path)
      ensures reliable && Removable(old(files), path) ==> status == Ok
      ensures files == if status == Ok then old(files) - {path} else old(files)
    {
      if path !in files {
        return NotFound;
      }
      if !Removable(files, path) {
        return Denied;
      }
      if !reliable {
        if * {
          return Denied;
        }
      }
      files := files - {path};
      return Ok;
    }

    /** What a search for everything in a directory finds: its entries in some
        order, each with its attributes, and the two dot entries. */
    method Search(mask: CString, ghost p: CString) returns (found: seq<Found>)
      requires WellFormed(files) && mask == p + [BACKSLASH, '*']
      ensures Resumable(found)
      ensures forall i :: 0 <= i < |found| ==> Truthful(files, p, found[i].info)
      ensures forall k :: k in files && IsChild(p, k) ==> Lists(found, k[|p| + 1..])
    {
      var p := mask[..|mask| - 2];
      hide WellFormed, NamedProperly, ProperName, Listed, IsChild, StrictlyUnder, ChildPath;
      found := [Found(FileInfo(".", true, false, false, 0, 0), 0), Found(FileInfo("..", true, false, false, 0, 0), 1)];
      var children := set k | k in files && IsChild(p, k);
      var rest := children;
      ListedDots(files, p, found);
      while rest != {}
        invariant rest <= children && rest !! Listed(p, found) && children - rest <= Listed(p, found)
        invariant forall i :: 0 <= i < |found| ==> Truthful(files, p, found[i].info) && found[i].id == i
        invariant forall i, j :: 0 <= i < j < |found| ==> found[i].info.name != found[j].info.name
      {
        var k: CString :| k in rest;
        ChildIsLonger(p, k);
        var name := k[|p| + 1..];
        var f := FileInfo(name, files[k].isDirectory, files[k].isReadOnly, false, 0, 0);
        ListedChild(files, p, k, found, Found(f, |found|));
        found := found + [Found(f, |found|)];
        rest := rest - {k};
      }
      ListedMeans(files, p, found);
    }
  }

  lemma ChildIsLonger(p: CString, k: CString)
    requires IsChild(p, k)
    ensures |p| + 1 <= |k|
  {
  }

  lemma ListedMeans(files: Files, p: CString, found: seq<Found>)
    requires forall k :: k in files && IsChild(p, k) ==> k in Listed(p, found)
    ensures forall k :: k in files && IsChild(p, k) ==> Lists(found, k[|p| + 1..])
  {
    forall k | k in files && IsChild(p, k)
      ensures Lists(found, k[|p| + 1..])
    {
      assert k in Listed(p, found);
      var i :| 0 <= i < |found| && ChildPath(p, found[i].info.name) == k;
      assert found[i].info.name == k[|p| + 1..];
    }
  }

  function Listed(p: CString, found: seq<Found>): set<CString> {
    set i | 0 <= i < |found| :: ChildPath(p, found[i].info.name)
  }

  lemma ListedDots(files: Files, p: CString, found: seq<Found>)
    requires WellFormed(files)
    requires |found| == 2 && found[0].info.name == "." && found[1].info.name == ".."
    ensures forall k :: k in files && IsChild(p, k) ==> k !in Listed(p, found)
  {
    hide WellFormed, NamedProperly;
    assert Listed(p, found) <= {ChildPath(p, "."), ChildPath(p, "..")};
    forall k | k in files && IsChild(p, k)
      ensures k !in Listed(p, found)
    {
      ProperChild(files, p, k);
      assert k == ChildPath(p, k[|p| + 1..]);
      assert ChildPath(p, ".")[|p| + 1..] == "." && ChildPath(p, "..")[|p| + 1..] == "..";
    }
  }

  lemma ProperChild(files: Files, p: CString, k: CString)
    requires WellFormed(files) && k in files && IsChild(p, k)
    ensures ProperName(k[|p| + 1..])
  {
    assert NamedProperly(k);
  }

  lemma ListedChild(files: Files, p: CString, k: CString, found: seq<Found>, x: Found)
    requires WellFormed(files) && k in files && IsChild(p, k) && k !in Listed(p, found)
    requires x.info.name == k[|p| + 1..] && files[k] == Attr(x.info.isDirectory, x.info.isReadOnly)
    ensures Truthful(files, p, x.info)
    ensures Listed(p, found + [x]) == Listed(p, found) + {k}
    ensures forall i :: 0 <= i < |found| ==> found[i].info.name != x.info.name
  {
    hide WellFormed, IsChild, ChildPath, ProperName;
    ProperChild(files, p, k);
    ListedSnoc(p, found, x);
    ChildPathOf(p, k);
    forall i | 0 <= i < |found|
      ensures found[i].info.name != x.info.name
    {
      assert ChildPath(p, found[i].info.name) in Listed(p, found);
    }
  }

  lemma ChildPathOf(p: CString, k: CString)
    requires IsChild(p, k)
    ensures ChildPath(p, k[|p| + 1..]) == k
  {
  }

  lemma ListedSnoc(p: CString, found: seq<Found>, x: Found)
    ensures Listed(p, found + [x]) == Listed(p, found) + {ChildPath(p, x.info.name)}
  {
    hide ChildPath;
    var all := found + [x];
    assert forall i :: 0 <= i < |found| ==> all[i] == found[i];
    assert all[|found|] == x;
    forall c | c in Listed(p, found) + {ChildPath(p, x.info.name)}
      ensures c in Listed(p, all)
    {
      if c in Listed(p, found) {
        var i :| 0 <= i < |found| && ChildPath(p, found[i].info.name) == c;
        assert all[i] == found[i];
      } else {
        assert ChildPath(p, all[|found|].info.name) in Listed(p, all);
      }
    }
  }

  predicate Deletable(files: Files, path: CString) {
    path in files && !files[path].isDirectory && !files[path].isReadOnly
  }

  /** The files that are not read-only. */
  function Writable(files: Files): set<CString> {
    set k | k in files && Deletable(files, k)
  }

  lemma WritableRemoved(files: Files, gone: set<CString>)
    requires forall k :: k in gone ==> Deletable(files, k)
    ensures |Writable(files - gone)| + |gone| == |Writable(files)|
  {
    assert Writable(files - gone) == Writable(files) - gone;
    assert gone <= Writable(files);
  }

  lemma OthersRemoved(files: Files, s: CString)
    requires s in files && !Deletable(files, s)
    ensures Writable(files - {s}) == Writable(files)
  {
  }

  predicate Removable(files: Files, path: CString) {
    && path in files && files[path].isDirectory && !files[path].isReadOnly
    && forall k :: k in files ==> !StrictlyUnder(path, k)
  }

  /** A listed entry is a dot entry or an entry of the directory as it is. */
  predicate Truthful(files: Files, p: CString, f: FileInfo) {
    || f.name == "." || f.name == ".."
    || (&& ProperName(f.name) && ChildPath(p, f.name) in files
        && files[ChildPath(p, f.name)] == Attr(f.isDirectory, f.isReadOnly))
  }

  predicate Lists(found: seq<Found>, name: CString) {
    exists i :: 0 <= i < |found| && found[i].info.name == name
  }

  lemma KeysRemoved(files: Files, gone: set<CString>)
    requires gone <= files.Keys
    ensures |files - gone| + |gone| == |files|
  {
    assert (files - gone).Keys == files.Keys - gone;
    assert |files.Keys - gone| + |gone| == |files.Keys|;
  }

  // ---- what deletions leave behind ----

  lemma SweptWellFormed(files: Files, files': Files)
    requires WellFormed(files)
    requires forall k :: k in files' ==> k in files && files'[k] == files[k]
    requires forall k :: k in files && k !in files' ==> !files[k].isDirectory
    ensures WellFormed(files')
  {
    forall k, j | k in files' && j in files && Under(j, k)
      ensures j in files'
    {
      if !files[j].isDirectory {
        NothingBelowFile(files, j);
        assert k == j || k !in WithoutBelow(files, j);
      }
    }
    WithoutWellFormed(files, files');
  }

  /** Taking away a path with nothing below it leaves a file system. */
  lemma LeafWellFormed(files: Files, s: CString)
    requires WellFormed(files) && s in files
    requires forall k :: k in files ==> !StrictlyUnder(s, k)
    ensures WellFormed(files - {s}) && |files - {s}| + 1 == |files|
  {
    WithoutWellFormed(files, files - {s});
    KeysRemoved(files, {s});
  }

  lemma WithoutCommutes(files: Files, gone: set<CString>, c: CString)
    ensures Without(WithoutAll(files, gone), c) == WithoutAll(files, gone + {c})
    ensures WithoutAll(Without(files, c), gone) == WithoutAll(files, gone + {c})
  {
    hide Under;
    forall k | k in files
      ensures (exists d :: d in gone + {c} && Under(d, k)) <==> (exists d :: d in gone && Under(d, k)) || Under(c, k)
    {
      if exists d :: d in gone && Under(d, k) {
        var d :| d in gone && Under(d, k);
        assert d in gone + {c};
      }
      if Under(c, k) {
        assert c in gone + {c};
      }
    }
  }

  /** Deleting at `gone` has turned `files` into `files'`: nothing else changed,
      and with a reliable server nothing of it is left. */
  ghost predicate Deleted(files: Files, files': Files, gone: set<CString>, reliable: bool) {
    && WithoutAll(files', gone) == WithoutAll(files, gone)
    && (reliable ==> files' == WithoutAll(files, gone))
  }

  lemma DeletedStep(files: Files, files1: Files, files2: Files, gone: set<CString>, c: CString, reliable: bool)
    requires Deleted(files, files1, gone, reliable)
    requires Without(files2, c) == Without(files1, c)
    requires reliable ==> files2 == Without(files1, c)
    ensures Deleted(files, files2, gone + {c}, reliable)
  {
    hide WithoutAll, Without;
    WithoutCommutes(files, gone, c);
    WithoutCommutes(files1, gone, c);
    WithoutCommutes(files2, gone, c);
  }

  /** An entry whose siblings are being deleted is not affected. */
  lemma SiblingStays(files: Files, files': Files, p: CString, gone: set<CString>,
                     infos: seq<FileInfo>, i: nat, reliable: bool)
    requires Processed(p, infos, i, gone) && i < |infos|
    requires Truthful(files, p, infos[i])
    requires Deleted(files, files', gone, reliable)
    ensures Truthful(files', p, infos[i])
  {
    var f := infos[i];
    if !IsDot(f) {
      var k := ChildPath(p, f.name);
      ChildIsBelow(p, f.name);
      forall c | c in gone
        ensures !Under(c, k)
      {
        if Under(c, k) {
          SiblingsApart(p, c, k, k);
        }
      }
      assert k in WithoutAll(files, gone);
      assert k in WithoutAll(files', gone) && files'[k] == files[k];
    }
  }

  lemma DeletedNothing(files: Files, reliable: bool)
    ensures Deleted(files, files, {}, reliable)
  {
    assert WithoutAll(files, {}) == files;
  }

  /** Nothing outside the directory changes when only entries of it do. */
  lemma OutsideKept(original: Files, files: Files, files': Files, p: CString, gone: set<CString>)
    requires forall k :: k in files ==> k in original && files[k] == original[k]
    requires forall k :: k in original && k !in files ==> IsChild(p, k)
    requires forall c :: c in gone ==> IsChild(p, c)
    requires WithoutAll(files', gone) == WithoutAll(files, gone)
    ensures WithoutBelow(files', p) == WithoutBelow(original, p)
  {
    forall k: CString | !StrictlyUnder(p, k)
      ensures k in files' <==> k in original
      ensures k in files' ==> files'[k] == original[k]
    {
      forall c | c in gone
        ensures !Under(c, k)
      {
        if Under(c, k) {
          UnderTransitive(p, c, k);
        }
      }
      assert k in files <==> k in WithoutAll(files, gone);
      assert k in files' <==> k in WithoutAll(files', gone);
    }
  }

  /** Once the tree of every entry is gone, nothing is left below. */
  lemma AllGone(files: Files, p: CString, gone: set<CString>)
    requires WellFormed(files)
    requires forall k :: k in files && IsChild(p, k) ==> k in gone
    ensures WithoutBelow(WithoutAll(files, gone), p) == WithoutAll(files, gone)
  {
    forall k | k in WithoutAll(files, gone)
      ensures !StrictlyUnder(p, k)
    {
      if StrictlyUnder(p, k) {
        var c := ThroughAChild(files, p, k);
      }
    }
  }

  /** What was deleted, seen from the directory. */
  lemma ContentsDeleted(original: Files, files: Files, files': Files, p: CString,
                        infos: seq<FileInfo>, i: nat, gone: set<CString>, reliable: bool)
    requires WellFormed(files)
    requires forall k :: k in files ==> k in original && files[k] == original[k]
    requires forall k :: k in original && k !in files ==> IsChild(p, k)
    requires Processed(p, infos, i, gone)
    requires reliable ==> forall k :: k in files && IsChild(p, k) ==> k in gone
    requires Deleted(files, files', gone, reliable)
    ensures WithoutBelow(files', p) == WithoutBelow(original, p)
    ensures reliable ==> files' == WithoutBelow(original, p)
  {
    hide WellFormed, IsChild, WithoutAll, WithoutBelow;
    OutsideKept(original, files, files', p, gone);
    if reliable {
      AllGone(files, p, gone);
    }
  }

  // ---- the deletion ----

  /** delete_state */
  class DeleteState {
    var totalDeleted: nat
    var failed: bool

    constructor ()
      ensures totalDeleted == 0 && !failed
    {
      totalDeleted, failed := 0, false;
    }
  }

  ghost predicate Bounded(files: Files, bound: nat) {
    forall k :: k in files ==> |k| <= bound
  }

  /** The dot entries are passed over. */
  predicate IsDot(f: FileInfo) {
    f.name == "." || f.name == ".."
  }

  /** The books of a deletion: paths deleted one by one, paths deleted by
      wildcard, paths left, writable files left, and whether any deletion failed. */
  datatype Books = Books(deleted: nat, swept: nat, left: nat, writable: nat, failed: bool)

  ghost function BooksOf(server: FileServer, state: DeleteState): Books
    reads server, state
  {
    Books(state.totalDeleted, server.swept, |server.files|, |Writable(server.files)|, state.failed)
  }

  /** Every deletion that did not fail is counted, one by one or by wildcard; a
      failure is remembered, and a reliable server causes none. */
  ghost predicate Balanced(a: Books, b: Books, reliable: bool) {
    && (a.failed ==> b.failed)
    && (reliable ==> b.failed == a.failed)
    && (!b.failed ==> b.deleted + b.swept + b.left == a.deleted + a.swept + a.left)
  }

  /** Only writable files that went can have been swept; if `exact`, all of them. */
  ghost predicate SweptWritable(a: Books, b: Books, exact: bool) {
    && a.swept <= b.swept
    && (!b.failed ==>
      && b.swept + b.writable <= a.swept + a.writable
      && (exact ==> b.swept + b.writable == a.swept + a.writable))
  }

  lemma SweptTransitive(a: Books, b: Books, c: Books, reliable: bool, exact: bool)
    requires SweptWritable(a, b, exact) && SweptWritable(b, c, exact) && Balanced(b, c, reliable)
    ensures SweptWritable(a, c, exact)
  {
  }

  /** Balanced, but for one deleted path that has yet to be counted. */
  ghost predicate BalancedButOne(a: Books, b: Books, deleted: bool, reliable: bool) {
    && (a.failed ==> b.failed)
    && (reliable ==> b.failed == a.failed)
    && (!b.failed ==>
          b.deleted + b.swept + b.left + (if deleted then 1 else 0) == a.deleted + a.swept + a.left)
  }

  lemma BalancedTransitive(a: Books, b: Books, c: Books, reliable: bool)
    requires Balanced(a, b, reliable) && Balanced(b, c, reliable)
    ensures Balanced(a, c, reliable)
  {
  }

  /** The first `i` listed entries have been dealt with, the others not yet. */
  ghost predicate Processed(p: CString, infos: seq<FileInfo>, i: nat, gone: set<CString>) {
    && (forall c :: c in gone ==> IsChild(p, c))
    && (forall j :: 0 <= j < i && j < |infos| && !IsDot(infos[j]) ==> ChildPath(p, infos[j].name) in gone)
    && (forall j :: i <= j < |infos| && !IsDot(infos[j]) ==> ChildPath(p, infos[j].name) !in gone)
  }

  lemma ProcessedStep(files: Files, p: CString, found: seq<Found>, infos: seq<FileInfo>, i: nat, gone: set<CString>)
    requires Processed(p, infos, i, gone)
    requires i < |infos| && infos == Infos(found) && Resumable(found) && Truthful(files, p, infos[i])
    ensures IsDot(infos[i]) ==> Processed(p, infos, i + 1, gone)
    ensures !IsDot(infos[i]) ==> Processed(p, infos, i + 1, gone + {ChildPath(p, infos[i].name)})
  {
    if !IsDot(infos[i]) {
      TruthfulChild(files, p, infos[i]);
      NamesApart(p, found, i);
    }
  }

  /** Wildcard deletion of the files of a directory, then delete_fn on whatever
      the listing still shows in it. */
  method DeleteContents(server: FileServer, mask: CString, state: DeleteState, protocol: Protocol,
                        ghost p: CString, ghost bound: nat)
    requires mask == p + [BACKSLASH, '*']
    requires WellFormed(server.files) && Bounded(server.files, bound) && |p| <= bound
    modifies server, state
    // only what lies below is touched, and with a reliable server all of it goes
    ensures WithoutBelow(server.files, p) == WithoutBelow(old(server.files), p)
    ensures server.reliable ==> server.files == WithoutBelow(old(server.files), p)
    ensures WellFormed(server.files) && Bounded(server.files, bound)
    ensures Balanced(old(BooksOf(server, state)), BooksOf(server, state), server.reliable)
    ensures SweptWritable(old(BooksOf(server, state)), BooksOf(server, state), server.eager)
    // a failure leaves something behind
    ensures state.failed && !old(state.failed) ==> exists k :: k in server.files && StrictlyUnder(p, k)
    decreases bound - |p|, 2
  {
    hide WellFormed, Truthful, IsChild, Resumable, WithoutAll, WithoutBelow, Deleted, Processed, Balanced;
    hide SweptWritable, Writable;
    assert mask[..|mask| - 2] == p;
    server.UnlinkWild(mask);
    SweptBalanced(old(BooksOf(server, state)), BooksOf(server, state), server.reliable, server.eager);
    ghost var files := server.files;
    SweptWellFormed(old(server.files), files);
    hide Deletable;
    var found := server.Search(mask, p);
    var search := new SearchServer(found, server.reliable, false);
    var ret, infos := List(search, protocol);
    ghost var books := BooksOf(server, state);
    ghost var gone := DeleteEntries(server, mask, state, protocol, p, bound, found, infos);
    BalancedTransitive(old(BooksOf(server, state)), books, BooksOf(server, state), server.reliable);
    SweptTransitive(old(BooksOf(server, state)), books, BooksOf(server, state), server.reliable, server.eager);
    if server.reliable {
      ListedAreGone(files, p, found, infos, gone);
    }
    GoneAreBelow(p, infos, |infos|, gone);
    ContentsDeleted(old(server.files), files, server.files, p, infos, |infos|, gone, server.reliable);
  }

  /** delete_fn on every listed entry of a directory, in order. */
  method DeleteEntries(server: FileServer, mask: CString, state: DeleteState, protocol: Protocol,
                       ghost p: CString, ghost bound: nat, ghost found: seq<Found>, infos: seq<FileInfo>)
    returns (ghost gone: set<CString>)
    requires mask == p + [BACKSLASH, '*']
    requires WellFormed(server.files) && Bounded(server.files, bound) && |p| <= bound
    requires Resumable(found) && (infos == Infos(found) || infos == [])
    requires forall i :: 0 <= i < |infos| ==> Truthful(server.files, p, infos[i])
    requires server.eager ==> forall k :: k in server.files && IsChild(p, k) ==> !Deletable(server.files, k)
    modifies server, state
    ensures Deleted(old(server.files), server.files, gone, server.reliable) && Processed(p, infos, |infos|, gone)
    ensures WellFormed(server.files) && Bounded(server.files, bound)
    ensures Balanced(old(BooksOf(server, state)), BooksOf(server, state), server.reliable)
    ensures SweptWritable(old(BooksOf(server, state)), BooksOf(server, state), server.eager)
    ensures state.failed && !old(state.failed) ==> gone * server.files.Keys != {}
    decreases bound - |p|, 1
  {
    hide WellFormed, Truthful, IsChild, Resumable, WithoutAll, Deleted, Processed, Balanced;
    hide SweptWritable, Writable, Deletable;
    ghost var files := server.files;
    gone := {};
    DeletedNothing(files, server.reliable);
    NothingProcessed(p, infos);
    NoChange(BooksOf(server, state), server.reliable, server.eager);
    for i := 0 to |infos|
      invariant Deleted(files, server.files, gone, server.reliable)
      invariant WellFormed(server.files) && Bounded(server.files, bound)
      invariant Processed(p, infos, i, gone)
      invariant Balanced(old(BooksOf(server, state)), BooksOf(server, state), server.reliable)
      invariant SweptWritable(old(BooksOf(server, state)), BooksOf(server, state), server.eager)
      invariant state.failed && !old(state.failed) ==> gone * server.files.Keys != {}
    {
      var f := infos[i];
      SiblingStays(files, server.files, p, gone, infos, i, server.reliable);
      ProcessedStep(files, p, found, infos, i, gone);
      ghost var before, books := server.files, BooksOf(server, state);
      DeleteFn(server, f, mask, state, protocol, p, bound);
      BalancedTransitive(old(BooksOf(server, state)), books, BooksOf(server, state), server.reliable);
      NotSwept(files, p, f, server.eager);
      SweptTransitive(old(BooksOf(server, state)), books, BooksOf(server, state), server.reliable, server.eager);
      if !IsDot(f) {
        StayBeside(p, infos, i, gone, before, server.files);
        DeletedStep(files, before, server.files, gone, ChildPath(p, f.name), server.reliable);
        gone := gone + {ChildPath(p, f.name)};
      }
    }
  }

  lemma NoChange(a: Books, reliable: bool, exact: bool)
    ensures Balanced(a, a, reliable) && SweptWritable(a, a, exact)
  {
  }

  lemma SweptBalanced(a: Books, b: Books, reliable: bool, eager: bool)
    requires a.failed == b.failed && a.deleted == b.deleted && a.swept + a.left == b.swept + b.left
    requires a.swept + a.writable == b.swept + b.writable && a.swept <= b.swept
    ensures Balanced(a, b, reliable) && SweptWritable(a, b, eager)
  {
  }

  /** A listed entry that an eager server has left is no writable file. */
  lemma NotSwept(files: Files, p: CString, f: FileInfo, eager: bool)
    requires Truthful(files, p, f)
    requires eager ==> forall k :: k in files && IsChild(p, k) ==> !Deletable(files, k)
    ensures eager ==> OneByOne(f)
  {
    if eager && !IsDot(f) {
      TruthfulChild(files, p, f);
    }
  }

  /** Entries that no wildcard deletion can take. */
  predicate OneByOne(f: FileInfo) {
    IsDot(f) || f.isDirectory || f.isReadOnly
  }

  lemma GoneAreBelow(p: CString, infos: seq<FileInfo>, i: nat, gone: set<CString>)
    requires Processed(p, infos, i, gone)
    ensures forall k :: k in gone ==> StrictlyUnder(p, k)
  {
  }

  /** Deleting an entry leaves the entries beside it alone. */
  lemma StayBeside(p: CString, infos: seq<FileInfo>, i: nat, gone: set<CString>, files: Files, files': Files)
    requires Processed(p, infos, i, gone) && i < |infos| && !IsDot(infos[i]) && Truthful(files, p, infos[i])
    requires Without(files', ChildPath(p, infos[i].name)) == Without(files, ChildPath(p, infos[i].name))
    ensures gone * files.Keys != {} ==> gone * files'.Keys != {}
  {
    if gone * files.Keys != {} {
      var c: CString :| c in gone * files.Keys;
      var child := ChildPath(p, infos[i].name);
      TruthfulChild(files, p, infos[i]);
      if Under(child, c) {
        SiblingsApart(p, child, c, c);
      }
      assert c in Without(files, child);
      assert c in gone * files'.Keys;
    }
  }

  lemma NothingProcessed(p: CString, infos: seq<FileInfo>)
    ensures Processed(p, infos, 0, {})
  {
  }

  lemma TruthfulChild(files: Files, p: CString, f: FileInfo)
    requires Truthful(files, p, f) && !IsDot(f)
    ensures IsChild(p, ChildPath(p, f.name)) && ChildPath(p, f.name) in files && ProperName(f.name)
  {
    ChildIsBelow(p, f.name);
  }

  lemma NamesApart(p: CString, found: seq<Found>, i: nat)
    requires Resumable(found) && i < |found|
    ensures forall j :: 0 <= j < |found| && j != i ==>
              ChildPath(p, Infos(found)[j].name) != ChildPath(p, Infos(found)[i].name)
  {
    forall j | 0 <= j < |found| && j != i
      ensures ChildPath(p, Infos(found)[j].name) != ChildPath(p, Infos(found)[i].name)
    {
      assert found[j].info.name != found[i].info.name;
      assert ChildPath(p, found[j].info.name)[|p| + 1..] == found[j].info.name;
      assert ChildPath(p, found[i].info.name)[|p| + 1..] == found[i].info.name;
    }
  }

  lemma ListedAreGone(files: Files, p: CString, found: seq<Found>, infos: seq<FileInfo>, gone: set<CString>)
    requires WellFormed(files) && infos == Infos(found)
    requires forall k :: k in files && IsChild(p, k) ==> Lists(found, k[|p| + 1..])
    requires Processed(p, infos, |infos|, gone)
    ensures forall k :: k in files && IsChild(p, k) ==> k in gone
  {
    forall k | k in files && IsChild(p, k)
      ensures k in gone
    {
      ProperChild(files, p, k);
      var j :| 0 <= j < |found| && found[j].info.name == k[|p| + 1..];
      assert infos[j] == found[j].info;
      assert ChildPath(p, infos[j].name) == k;
    }
  }

  /** Delete what is in directory `s`, then the directory: the common part of
      delete_fn and smbcli_deltree. */
  method DeleteDirectory(server: FileServer, s: CString, state: DeleteState, protocol: Protocol, ghost bound: nat)
    returns (status: Status)
    requires WellFormed(server.files) && Bounded(server.files, bound) && s in server.files
    modifies server, state
    ensures Without(server.files, s) == Without(old(server.files), s)
    ensures status == Ok ==> server.files == Without(old(server.files), s) && old(server.files)[s].isDirectory
    ensures status == Ok ==> state.failed == old(state.failed)
    ensures status != Ok ==> s in server.files
    ensures server.reliable && old(server.files)[s].isDirectory && !old(server.files)[s].isReadOnly ==> status == Ok
    ensures old(server.files)[s].isReadOnly ==>
              status != Ok && (server.reliable ==> server.files == WithoutBelow(old(server.files), s))
    ensures WellFormed(server.files) && Bounded(server.files, bound)
    ensures BalancedButOne(old(BooksOf(server, state)), BooksOf(server, state), status == Ok, server.reliable)
    ensures SweptWritable(old(BooksOf(server, state)), BooksOf(server, state), server.eager)
    decreases bound - |s|, 3
  {
    hide WellFormed, WithoutBelow, Without, Under, StrictlyUnder, Writable;
    DeleteContents(server, s + [BACKSLASH, '*'], state, protocol, s, bound);
    BelowThenWithout(old(server.files), s, server.files);
    ghost var emptied := server.files;
    status := server.Rmdir(s);
    if status == Ok {
      EmptyBelow(emptied, s);
      LeafRemoved(emptied, s);
      OthersRemoved(emptied, s);
      BelowThenWithout(emptied, s, emptied);
    }
  }

  /** delete_fn: delete one listed entry of the directory behind `mask`. */
  method DeleteFn(server: FileServer, finfo: FileInfo, mask: CString, state: DeleteState, protocol: Protocol,
                  ghost p: CString, ghost bound: nat)
    requires mask == p + [BACKSLASH, '*']
    requires WellFormed(server.files) && Bounded(server.files, bound) && |p| <= bound
    requires Truthful(server.files, p, finfo)
    modifies server, state
    ensures IsDot(finfo) ==> server.files == old(server.files)
    ensures !IsDot(finfo) ==>
              && Without(server.files, ChildPath(p, finfo.name)) == Without(old(server.files), ChildPath(p, finfo.name))
              && (server.reliable ==> server.files == Without(old(server.files), ChildPath(p, finfo.name)))
    ensures WellFormed(server.files) && Bounded(server.files, bound)
    ensures Balanced(old(BooksOf(server, state)), BooksOf(server, state), server.reliable)
    ensures SweptWritable(old(BooksOf(server, state)), BooksOf(server, state), server.eager && OneByOne(finfo))
    ensures state.failed && !old(state.failed) ==> !IsDot(finfo) && ChildPath(p, finfo.name) in server.files
    decreases bound - |p|, 0
  {
    if finfo.name == "." || finfo.name == ".." {
      return;
    }
    var n := mask[..|mask| - 1];
    var s := n + finfo.name;
    assert s == ChildPath(p, finfo.name);
    hide WellFormed, Without, Balanced, SweptWritable, Writable;
    DeleteEntry(server, s, finfo.isDirectory, finfo.isReadOnly, state, protocol, bound);
  }

  /** The part of delete_fn after the path of the entry has been put together. */
  method DeleteEntry(server: FileServer, s: CString, isDirectory: bool, isReadOnly: bool,
                     state: DeleteState, protocol: Protocol, ghost bound: nat)
    requires WellFormed(server.files) && Bounded(server.files, bound)
    requires s in server.files && server.files[s] == Attr(isDirectory, isReadOnly)
    modifies server, state
    ensures Without(server.files, s) == Without(old(server.files), s)
    ensures server.reliable ==> server.files == Without(old(server.files), s)
    ensures WellFormed(server.files) && Bounded(server.files, bound)
    ensures Balanced(old(BooksOf(server, state)), BooksOf(server, state), server.reliable)
    ensures SweptWritable(old(BooksOf(server, state)), BooksOf(server, state),
                          server.eager && (isDirectory || isReadOnly))
    ensures state.failed && !old(state.failed) ==> s in server.files
    decreases bound - |s|, 4
  {
    hide WellFormed, WithoutBelow, Without, Balanced, BalancedButOne, Writable;
    var status;
    if isReadOnly {
      status := server.ClearAttributes(s);
    }
    ClearedMeans(old(server.files), s, server.files);
    ClearedWritable(old(server.files), s, server.files);
    ghost var books := BooksOf(server, state);
    assert books.(writable := old(BooksOf(server, state)).writable) == old(BooksOf(server, state));
    if isDirectory {
      status := DeleteDirectory(server, s, state, protocol, bound);
    } else {
      status := DeleteFile(server, s, state, bound);
    }
    ghost var done := BooksOf(server, state);
    if status != Ok {
      state.failed := true;
    }
    state.totalDeleted := state.totalDeleted + 1;
    BooksClosed(books, done, BooksOf(server, state), status == Ok, server.reliable);
    SameBooks(old(BooksOf(server, state)), books, BooksOf(server, state), server.reliable);
  }

  /** What is writable does not matter to the balance. */
  lemma SameBooks(a: Books, a': Books, b: Books, reliable: bool)
    requires a'.(writable := a.writable) == a && Balanced(a', b, reliable)
    ensures Balanced(a, b, reliable)
  {
  }

  /** A deletion is counted whether or not it succeeded; if not, it is marked. */
  lemma BooksClosed(a: Books, b: Books, c: Books, ok: bool, reliable: bool)
    requires BalancedButOne(a, b, ok, reliable)
    requires reliable ==> ok
    requires c == Books(b.deleted + 1, b.swept, b.left, b.writable, b.failed || !ok)
    ensures Balanced(a, c, reliable)
  {
  }

  /** The file branch of delete_fn. */
  method DeleteFile(server: FileServer, s: CString, ghost state: DeleteState, ghost bound: nat) returns (status: Status)
    requires WellFormed(server.files) && Bounded(server.files, bound)
    requires s in server.files && !server.files[s].isDirectory
    modifies server
    ensures Without(server.files, s) == Without(old(server.files), s)
    ensures status == Ok ==> server.files == Without(old(server.files), s)
    ensures server.reliable && !old(server.files)[s].isReadOnly ==> status == Ok
    ensures WellFormed(server.files) && Bounded(server.files, bound)
    ensures BalancedButOne(old(BooksOf(server, state)), BooksOf(server, state), status == Ok, server.reliable)
    ensures server.swept == old(server.swept)
    ensures status != Ok ==> s in server.files
    ensures status == Ok ==> Deletable(old(server.files), s)
                             && |Writable(server.files)| + 1 == |Writable(old(server.files))|
  {
    hide WellFormed, WithoutBelow, Without, Under, StrictlyUnder, Writable;
    status := server.Unlink(s);
    if status == Ok {
      WritableRemoved(old(server.files), {s});
      NothingBelowFile(old(server.files), s);
      LeafRemoved(old(server.files), s);
      BelowThenWithout(old(server.files), s, old(server.files));
    }
  }

  lemma ClearedWritable(files: Files, s: CString, files': Files)
    requires s in files
    requires files' == files || files' == files[s := files[s].(isReadOnly := false)]
    ensures |Writable(files')| == |Writable(files)| + if files' != files && !files[s].isDirectory then 1 else 0
  {
    if files' != files && !files[s].isDirectory {
      assert files[s].isReadOnly;
      assert Writable(files') == Writable(files) + {s};
    } else {
      assert Writable(files') == Writable(files);
    }
  }

  lemma ClearedMeans(files: Files, s: CString, files': Files)
    requires WellFormed(files) && s in files
    requires files' == files || files' == files[s := files[s].(isReadOnly := false)]
    ensures WellFormed(files') && |files'| == |files| && Without(files', s) == Without(files, s)
  {
    WithoutWellFormed(files, files');
    assert files'.Keys == files.Keys;
  }

  /** What is left of a path when nothing else than the part below it changed. */
  lemma BelowThenWithout(files: Files, s: CString, files': Files)
    requires s in files
    requires WithoutBelow(files', s) == WithoutBelow(files, s)
    ensures Without(files', s) == Without(files, s)
    ensures s in files' && files'[s] == files[s]
    ensures files' == WithoutBelow(files, s) ==>
              (forall k :: k in files' ==> !StrictlyUnder(s, k)) && files' - {s} == Without(files, s)
  {
    assert s in WithoutBelow(files, s);
    assert s in WithoutBelow(files', s);
    forall k: CString | !Under(s, k)
      ensures k in files <==> k in files'
      ensures k in files ==> files[k] == files'[k]
    {
      assert k in WithoutBelow(files, s) <==> k in files;
      assert k in WithoutBelow(files', s) <==> k in files';
    }
  }

  lemma LeafRemoved(files: Files, s: CString)
    requires WellFormed(files) && s in files && WithoutBelow(files, s) == files
    ensures WellFormed(files - {s}) && Without(files - {s}, s) == Without(files, s)
    ensures |files - {s}| + 1 == |files|
  {
    forall k | k in files
      ensures !StrictlyUnder(s, k)
    {
      assert k in WithoutBelow(files, s);
    }
    LeafWellFormed(files, s);
  }

  // ---- the count ----

  /** The tree at a path. */
  function TreeAt(files: Files, p: CString): set<CString> {
    set k | k in files && Under(p, k)
  }

  /** What is counted in any case: directories and read-only files. */
  function Counted(files: Files, p: CString): set<CString> {
    set k | k in files && Under(p, k) && !Deletable(files, k)
  }

  /** No file that a wildcard deletion could take. */
  predicate NothingToSweep(files: Files, p: CString) {
    forall k :: k in files && StrictlyUnder(p, k) ==> !Deletable(files, k)
  }

  /** Taking away a tree takes away its paths, and those of them that are writable. */
  lemma TreeRemoved(files: Files, p: CString)
    ensures |files| == |Without(files, p)| + |TreeAt(files, p)|
    ensures |Writable(files)| - |Writable(Without(files, p))| == |TreeAt(files, p)| - |Counted(files, p)|
  {
    var rest, tree, counted := Without(files, p), TreeAt(files, p), Counted(files, p);
    TreeApart(files, p);
    hide Without, TreeAt, Counted, Writable;
    assert |rest.Keys + tree| == |rest.Keys| + |tree|;
    assert |Writable(rest) + (tree - counted)| == |Writable(rest)| + |tree - counted|;
    assert |tree - counted| == |tree| - |counted|;
  }

  lemma TreeApart(files: Files, p: CString)
    ensures var rest, tree, counted := Without(files, p), TreeAt(files, p), Counted(files, p);
            && files.Keys == rest.Keys + tree && rest.Keys !! tree && counted <= tree
            && Writable(files) == Writable(rest) + (tree - counted) && Writable(rest) !! tree - counted
  {
    hide Under;
  }

  /** All of a tree is counted exactly if nothing of it can be swept. */
  lemma AllCounted(files: Files, p: CString)
    requires p in files && !Deletable(files, p)
    ensures |Counted(files, p)| <= |TreeAt(files, p)|
    ensures |Counted(files, p)| == |TreeAt(files, p)| <==> NothingToSweep(files, p)
  {
    var tree, counted := TreeAt(files, p), Counted(files, p);
    assert counted <= tree;
    assert |tree - counted| == |tree| - |counted|;
    if NothingToSweep(files, p) {
      assert counted == tree;
    } else {
      var k :| k in files && StrictlyUnder(p, k) && Deletable(files, k);
      assert k in tree - counted;
    }
  }

  lemma FileIsItsTree(files: Files, p: CString)
    requires WellFormed(files) && Deletable(files, p)
    ensures TreeAt(files, p) == {p} && Counted(files, p) == {}
  {
    NothingBelowFile(files, p);
    forall k | k in TreeAt(files, p)
      ensures k == p
    {
      assert k in WithoutBelow(files, p);
    }
  }

  /** smbcli_deltree. */
  method DelTree(server: FileServer, dname: CString, protocol: Protocol) returns (ret: int)
    requires WellFormed(server.files)
    modifies server
    // nothing outside the tree is ever touched
    ensures Without(server.files, dname) == Without(old(server.files), dname)
    ensures dname !in old(server.files) <==> ret == 0
    ensures forall k :: k != dname && !(dname + [BACKSLASH] <= k) ==>
              && (k in server.files <==> k in old(server.files))
              && (k in server.files ==> server.files[k] == old(server.files)[k])
    // success is reported exactly when the whole tree is gone
    ensures ret >= 1 ==> server.files == Without(old(server.files), dname)
    ensures ret >= 1 ==> forall k :: k in server.files ==> k != dname && !(dname + [BACKSLASH] <= k)
    ensures ret >= 1 || ret == 0 || ret == -1
    ensures ret == -1 <==> dname in server.files
    // the count is that of the tree, less the writable files that went by wildcard
    ensures ret >= 1 ==> ret + (server.swept - old(server.swept)) == |TreeAt(old(server.files), dname)|
    ensures ret >= 1 ==> |Counted(old(server.files), dname)| <= ret <= |TreeAt(old(server.files), dname)|
    ensures ret >= 1 && NothingToSweep(old(server.files), dname) ==> ret == |TreeAt(old(server.files), dname)|
    // if all of these go by wildcard, none of them is counted
    ensures ret >= 1 && server.eager && old(server.files)[dname].isDirectory ==>
              && ret == |Counted(old(server.files), dname)|
              && (ret == |TreeAt(old(server.files), dname)| <==> NothingToSweep(old(server.files), dname))
    // with a reliable server the tree goes, read-only entries inside it included,
    // exactly when the top of the tree is not itself read-only
    ensures server.reliable && dname in old(server.files) ==>
              if old(server.files)[dname].isReadOnly
              then ret == -1 && server.files == WithoutBelow(old(server.files), dname)
              else ret >= 1
  {
    hide WellFormed, WithoutBelow, Without, Under, StrictlyUnder, Writable, TreeAt, Counted, NothingToSweep;
    ghost var files := server.files;
    var state := new DeleteState();
    var status := server.Unlink(dname);
    TreeRemoved(files, dname);
    WithoutWrittenOut(files, dname);
    if status == Ok {
      NothingBelowFile(files, dname);
      LeafRemoved(files, dname);
      BelowThenWithout(files, dname, files);
      FileIsItsTree(files, dname);
      return 1;
    }
    if status == NotFound {
      return 0;
    }
    ghost var bound := Bound(files);
    ghost var books := BooksOf(server, state);
    status := DeleteDirectory(server, dname, state, protocol, bound);
    SameOutside(files, server.files, dname);
    if status != Ok {
      return -1;
    }
    AllCounted(files, dname);
    state.totalDeleted := state.totalDeleted + 1;
    if state.failed {
      return -1;
    }
    return state.totalDeleted;
  }

  lemma WithoutWrittenOut(files: Files, p: CString)
    ensures forall k :: k in Without(files, p) <==> k in files && k != p && !(p + [BACKSLASH] <= k)
    ensures forall k :: k in Without(files, p) ==> Without(files, p)[k] == files[k]
  {
  }

  lemma SameOutside(files: Files, files': Files, p: CString)
    requires Without(files', p) == Without(files, p)
    ensures forall k :: k != p && !(p + [BACKSLASH] <= k) ==>
              (k in files' <==> k in files) && (k in files' ==> files'[k] == files[k])
  {
    hide Without;
    WithoutWrittenOut(files, p);
    WithoutWrittenOut(files', p);
    forall k: CString | k != p && !(p + [BACKSLASH] <= k)
      ensures (k in files' <==> k in files) && (k in files' ==> files'[k] == files[k])
    {
      assert k in Without(files, p) <==> k in files;
      assert k in Without(files', p) <==> k in files';
    }
  }

  /** A directory with one writable file: two paths go, one is counted. */
  method Miscount(protocol: Protocol) returns (server: FileServer, ret: int)
    ensures ret == 1 && server.files == map[]
  {
    var d: CString, f: CString := "d", ['d', BACKSLASH, 'f'];
    var files: Files := map[d := Attr(true, false), f := Attr(false, false)];
    SmallTree(files, d, f);
    SmallTreeCount(files, d, f);
    hide WellFormed, Without, WithoutBelow, Counted, TreeAt, NothingToSweep;
    server := new FileServer(files, true, true);
    ret := DelTree(server, d, protocol);
  }

  lemma SmallTreeCount(files: Files, d: CString, f: CString)
    requires d != f && Under(d, f) && files == map[d := Attr(true, false), f := Attr(false, false)]
    ensures Without(files, d) == map[] && |Counted(files, d)| == 1
  {
    assert Under(d, d);
    hide Under;
    assert Counted(files, d) == {d};
  }

  lemma SmallTree(files: Files, d: CString, f: CString)
    requires d == "d" && f == ['d', BACKSLASH, 'f']
    requires files == map[d := Attr(true, false), f := Attr(false, false)]
    ensures WellFormed(files) && Under(d, f)
  {
    assert d + [BACKSLASH] <= f;
    forall k | k in files
      ensures ParentsExist(files, k) && NamedProperly(k)
    {
      forall p | IsChild(p, k)
        ensures ProperName(k[|p| + 1..])
      {
        assert k[|p|] == BACKSLASH;
        assert k == f && |p| == 1;
        assert k[2..] == ['f'];
      }
      assert f[..1] == d;
    }
  }

  lemma EmptyBelow(files: Files, s: CString)
    requires forall k :: k in files ==> !StrictlyUnder(s, k)
    ensures WithoutBelow(files, s) == files
  {
  }

  /** The length of the longest path. */
  lemma Bound(files: Files) returns (bound: nat)
    ensures Bounded(files, bound) && forall k :: k in files ==> |k| <= bound
  {
    var rest := files.Keys;
    bound := 0;
    while rest != {}
      invariant rest <= files.Keys
      invariant forall k :: k in files.Keys - rest ==> |k| <= bound
    {
      var k: CString :| k in rest;
      if |k| > bound {
        bound := |k|;
      }
      rest := rest - {k};
    }
  }
}
