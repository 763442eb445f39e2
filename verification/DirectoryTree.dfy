/** The remote directory tree that a recursive listing walks, and the order in
    which it does so (client/client.c). */
module DirectoryTree {
  import opened CStrings
  import opened ClientList
  import opened Options

  /** A listed entry; `children` is what the server lists inside a directory. */
  datatype Entry = Entry(info: FileInfo, children: seq<Entry>)

  /** The user's file selection; `matches` is mask_match. */
  datatype Filter = Filter(selection: Option<CString>, matches: (CString, CString) -> bool,
                           newerThan: nat, archiveLevel: int)

  /** do_this_one */
  predicate DoThisOne(ctx: Filter, f: FileInfo) {
    || f.isDirectory
    || (&& (ctx.selection.Some? ==> ctx.matches(f.name, ctx.selection.value))
        && (ctx.newerThan != 0 ==> f.mtime >= ctx.newerThan)
        && (ctx.archiveLevel == 1 || ctx.archiveLevel == 2 ==> f.isArchive))
  }

  /** The entries that the caller's function is applied to. */
  predicate Accepts(ctx: Filter, dirs: bool, f: FileInfo) {
    (f.isDirectory ==> dirs) && DoThisOne(ctx, f)
  }

  /** The entries whose contents are listed in turn. */
  predicate Descends(f: FileInfo) {
    f.isDirectory && f.name != "." && f.name != ".."
  }

  /** Position after the last backslash of a mask; 0 if there is none. */
  function DirPart(mask: CString): (n: nat)
    ensures n <= |mask|
    ensures n > 0 ==> mask[n - 1] == BACKSLASH
    ensures BACKSLASH !in mask[n..]
  {
    if mask == "" then 0
    else if mask[|mask| - 1] == BACKSLASH then |mask|
    else
      var n := DirPart(mask[..|mask| - 1]);
      assert mask[n..] == mask[..|mask| - 1][n..] + [mask[|mask| - 1]];
      n
  }

  /** The mask that lists the contents of `name` in the directory of `mask`. */
  function ChildMask(mask: CString, name: CString): CString {
    mask[..DirPart(mask)] + name + [BACKSLASH, '*']
  }

  /** A directory to list: its mask and what the server will answer. */
  datatype Dir = Dir(mask: CString, forest: seq<Entry>)

  function SubDirs(mask: CString, forest: seq<Entry>): seq<Dir> {
    if forest == [] || DirPart(mask) == 0 then []
    else if Descends(forest[0].info)
    then [Dir(ChildMask(mask, forest[0].info.name), forest[0].children)] + SubDirs(mask, forest[1..])
    else SubDirs(mask, forest[1..])
  }

  function EntryInfos(forest: seq<Entry>): seq<FileInfo> {
    seq(|forest|, i requires 0 <= i < |forest| => forest[i].info)
  }

  /** The server answers `mask`, and every mask below it, from the tree. */
  ghost predicate Serves(search: CString -> Results, mask: CString, forest: seq<Entry>)
    decreases forest
  {
    && Infos(search(mask)) == EntryInfos(forest)
    && (DirPart(mask) != 0 ==>
          forall i :: 0 <= i < |forest| && Descends(forest[i].info) ==>
            Serves(search, ChildMask(mask, forest[i].info.name), forest[i].children))
  }

  // ---- searches that fail ----

  /** The tree as far as it can be seen when the searches for some masks fail:
      what is inside those directories is missing. */
  function Prune(fails: CString -> bool, mask: CString, forest: seq<Entry>): seq<Entry>
    decreases forest, 1
  {
    if fails(mask) then [] else PruneEntries(fails, mask, forest)
  }

  function PruneEntries(fails: CString -> bool, mask: CString, forest: seq<Entry>): (pruned: seq<Entry>)
    ensures |pruned| == |forest|
    ensures forall i :: 0 <= i < |forest| ==> pruned[i].info == forest[i].info
    decreases forest, 0
  {
    if forest == [] then []
    else
      var e := forest[0];
      [if Descends(e.info) then Entry(e.info, Prune(fails, ChildMask(mask, e.info.name), e.children)) else e]
      + PruneEntries(fails, mask, forest[1..])
  }

  lemma {:induction false} PruneEntriesAt(fails: CString -> bool, mask: CString, forest: seq<Entry>, i: nat)
    requires i < |forest|
    ensures var e := forest[i];
            PruneEntries(fails, mask, forest)[i]
            == if Descends(e.info) then Entry(e.info, Prune(fails, ChildMask(mask, e.info.name), e.children)) else e
  {
    if i > 0 {
      PruneEntriesAt(fails, mask, forest[1..], i - 1);
    }
  }

  /** Nothing is missing when no search fails. */
  lemma {:induction false} PruneNothing(fails: CString -> bool, mask: CString, forest: seq<Entry>)
    requires forall m :: !fails(m)
    ensures Prune(fails, mask, forest) == forest
    decreases forest
  {
    if forest != [] {
      PruneNothing(fails, ChildMask(mask, forest[0].info.name), forest[0].children);
      PruneNothing(fails, mask, forest[1..]);
    }
  }

  /** What a server answers when some of its searches fail. */
  function Answered(search: CString -> Results, fails: CString -> bool): CString -> Results {
    m => if fails(m) then [] else search(m)
  }

  /** A server with failing searches serves the tree that is left. */
  lemma {:induction false} ServesPruned(search: CString -> Results, fails: CString -> bool,
                                        mask: CString, forest: seq<Entry>)
    requires Serves(search, mask, forest)
    ensures Serves(Answered(search, fails), mask, Prune(fails, mask, forest))
    decreases forest
  {
    var pruned := Prune(fails, mask, forest);
    if fails(mask) {
      assert Infos([]) == EntryInfos([]);
    } else {
      assert EntryInfos(pruned) == EntryInfos(forest);
      forall i | 0 <= i < |pruned| && DirPart(mask) != 0 && Descends(pruned[i].info)
        ensures Serves(Answered(search, fails), ChildMask(mask, pruned[i].info.name), pruned[i].children)
      {
        PruneEntriesAt(fails, mask, forest, i);
        ServesPruned(search, fails, ChildMask(mask, forest[i].info.name), forest[i].children);
      }
    }
  }

  // ---- size of the work ahead ----

  function ForestSize(forest: seq<Entry>): nat {
    if forest == [] then 0 else 1 + ForestSize(forest[0].children) + ForestSize(forest[1..])
  }

  function Weight(q: seq<Dir>): nat {
    if q == [] then 0 else 1 + ForestSize(q[0].forest) + Weight(q[1..])
  }

  lemma {:induction false} WeightConcat(a: seq<Dir>, b: seq<Dir>)
    ensures Weight(a + b) == Weight(a) + Weight(b)
  {
    if a == [] {
      assert a + b == b;
    } else {
      assert (a + b)[1..] == a[1..] + b;
      WeightConcat(a[1..], b);
    }
  }

  lemma {:induction false} SubDirsWeight(mask: CString, forest: seq<Entry>)
    ensures Weight(SubDirs(mask, forest)) <= ForestSize(forest)
  {
    if forest != [] && DirPart(mask) != 0 {
      SubDirsWeight(mask, forest[1..]);
      if Descends(forest[0].info) {
        var d := [Dir(ChildMask(mask, forest[0].info.name), forest[0].children)];
        WeightConcat(d, SubDirs(mask, forest[1..]));
        assert d[1..] == [];
      }
    }
  }

  lemma VisitDecreases(q: seq<Dir>)
    requires q != []
    ensures Weight(q[1..] + SubDirs(q[0].mask, q[0].forest)) < Weight(q)
  {
    WeightConcat(q[1..], SubDirs(q[0].mask, q[0].forest));
    SubDirsWeight(q[0].mask, q[0].forest);
  }

  // ---- the order of the walk ----

  /** The directories in the order a FIFO work queue visits them. */
  function Visit(q: seq<Dir>): seq<Dir>
    decreases Weight(q)
  {
    if q == [] then [] else
    VisitDecreases(q);
    [q[0]] + Visit(q[1..] + SubDirs(q[0].mask, q[0].forest))
  }

  /** All subdirectories of a level, left to right. */
  function NextLevel(q: seq<Dir>): seq<Dir> {
    if q == [] then [] else SubDirs(q[0].mask, q[0].forest) + NextLevel(q[1..])
  }

  lemma {:induction false} NextLevelWeight(q: seq<Dir>)
    ensures Weight(NextLevel(q)) + |q| <= Weight(q)
  {
    if q != [] {
      WeightConcat(SubDirs(q[0].mask, q[0].forest), NextLevel(q[1..]));
      SubDirsWeight(q[0].mask, q[0].forest);
      NextLevelWeight(q[1..]);
    }
  }

  /** The directories level by level. */
  function Levels(q: seq<Dir>): seq<Dir>
    decreases Weight(q)
  {
    if q == [] then [] else
    NextLevelWeight(q);
    q + Levels(NextLevel(q))
  }

  lemma VisitUnfolds(q: seq<Dir>)
    requires q != []
    ensures Visit(q) == [q[0]] + Visit(q[1..] + SubDirs(q[0].mask, q[0].forest))
    ensures NextLevel(q) == SubDirs(q[0].mask, q[0].forest) + NextLevel(q[1..])
  {
  }

  lemma NextLevelNothing()
    ensures NextLevel([]) == []
  {
  }

  lemma {:induction false} VisitLevel(a: seq<Dir>, b: seq<Dir>)
    ensures Visit(a + b) == a + Visit(b + NextLevel(a))
    decreases |a|
  {
    hide Visit, SubDirs, NextLevel;
    if a == [] {
      NextLevelNothing();
      assert a + b == b && b + [] == b;
    } else {
      var ab, sub, next := a + b, SubDirs(a[0].mask, a[0].forest), NextLevel(a[1..]);
      VisitUnfolds(ab);
      VisitUnfolds(a);
      assert ab[0] == a[0] && ab[1..] + sub == a[1..] + (b + sub);
      VisitLevel(a[1..], b + sub);
      assert (b + sub) + next == b + (sub + next);
      assert [a[0]] + (a[1..] + Visit(b + NextLevel(a))) == a + Visit(b + NextLevel(a));
    }
  }

  /** The work queue visits the tree breadth first. */
  lemma {:induction false} VisitIsBreadthFirst(q: seq<Dir>)
    ensures Visit(q) == Levels(q)
    decreases Weight(q)
  {
    if q != [] {
      assert q + [] == q && [] + NextLevel(q) == NextLevel(q);
      VisitLevel(q, []);
      NextLevelWeight(q);
      VisitIsBreadthFirst(NextLevel(q));
    }
  }

  // ---- where the directories come from ----

  /** `d` is the contents of a directory that is listed in `parent` under a name
      other than the two dot names. */
  ghost predicate ListedIn(parent: Dir, d: Dir) {
    exists i :: && 0 <= i < |parent.forest| && IsContents(parent.mask, parent.forest[i], d)
  }

  /** It was listed in a directory that was visited before. */
  ghost predicate WasListed(visited: seq<Dir>, k: nat)
    requires k < |visited|
  {
    exists j :: 0 <= j < k && ListedIn(visited[j], visited[k])
  }

  /** It is visited later. */
  ghost predicate IsVisited(visited: seq<Dir>, j: nat, d: Dir) {
    exists k :: j < k < |visited| && visited[k] == d
  }

  predicate IsContents(mask: CString, e: Entry, d: Dir) {
    && DirPart(mask) > 0 && e.info.isDirectory && e.info.name != "." && e.info.name != ".."
    && d.mask == mask[..DirPart(mask)] + e.info.name + [BACKSLASH, '*'] && d.forest == e.children
  }

  lemma {:induction false} SubDirsAre(mask: CString, forest: seq<Entry>, d: Dir)
    ensures d in SubDirs(mask, forest) <==> ListedIn(Dir(mask, forest), d)
  {
    if forest != [] && DirPart(mask) != 0 {
      SubDirsAre(mask, forest[1..], d);
      var sub := SubDirs(mask, forest[1..]);
      if Descends(forest[0].info) {
        var first := Dir(ChildMask(mask, forest[0].info.name), forest[0].children);
        assert SubDirs(mask, forest) == [first] + sub;
        assert d in SubDirs(mask, forest) <==> d == first || d in sub;
      }
      if ListedIn(Dir(mask, forest[1..]), d) {
        var i :| 0 <= i < |forest[1..]| && IsContents(mask, forest[1..][i], d);
        assert IsContents(mask, forest[i + 1], d);
      }
      if ListedIn(Dir(mask, forest), d) {
        var i :| 0 <= i < |forest| && IsContents(mask, forest[i], d);
        assert i > 0 ==> IsContents(mask, forest[1..][i - 1], d);
      }
    }
  }

  lemma VisitStarts(q: seq<Dir>, k: nat)
    requires k < |q|
    ensures |q| <= |Visit(q)| && Visit(q)[k] == q[k]
  {
    VisitLevel(q, []);
    assert q + [] == q;
  }

  /** A directory that was not there at the start was listed in an earlier one. */
  lemma {:induction false} ComesFrom(q: seq<Dir>, k: nat) returns (j: nat)
    requires |q| <= k < |Visit(q)|
    ensures j < k && ListedIn(Visit(q)[j], Visit(q)[k])
    decreases k
  {
    hide Visit, SubDirs, ListedIn;
    NothingFromNothing(q);
    var sub := SubDirs(q[0].mask, q[0].forest);
    var next := q[1..] + sub;
    VisitUnfolds(q);
    if k - 1 < |next| {
      VisitStarts(next, k - 1);
      assert Visit(q)[k] == next[k - 1] == sub[k - |q|];
      SubDirsAre(q[0].mask, q[0].forest, Visit(q)[k]);
      j := 0;
    } else {
      j := ComesFrom(next, k - 1);
      j := j + 1;
    }
  }

  lemma NothingFromNothing(q: seq<Dir>)
    ensures q == [] ==> Visit(q) == []
  {
  }

  /** Every directory that is listed in one is visited after it. */
  lemma {:induction false} GoesTo(q: seq<Dir>, j: nat, d: Dir) returns (k: nat)
    requires j < |Visit(q)| && ListedIn(Visit(q)[j], d)
    ensures j < k < |Visit(q)| && Visit(q)[k] == d
    decreases j
  {
    hide Visit, SubDirs, ListedIn;
    NothingFromNothing(q);
    var sub := SubDirs(q[0].mask, q[0].forest);
    var next := q[1..] + sub;
    VisitUnfolds(q);
    if j == 0 {
      SubDirsAre(q[0].mask, q[0].forest, d);
      var i :| 0 <= i < |sub| && sub[i] == d;
      assert next[|q| - 1 + i] == d;
      VisitStarts(next, |q| - 1 + i);
      k := |q| + i;
    } else {
      k := GoesTo(next, j - 1, d);
      k := k + 1;
    }
  }

  // ---- dot entries ----

  /** The tree without its dot entries. */
  function Strip(forest: seq<Entry>): seq<Entry> {
    if forest == [] then []
    else if forest[0].info.name == "." || forest[0].info.name == ".." then Strip(forest[1..])
    else [Entry(forest[0].info, Strip(forest[0].children))] + Strip(forest[1..])
  }

  function StripAll(q: seq<Dir>): (stripped: seq<Dir>)
    ensures |stripped| == |q|
    ensures forall i :: 0 <= i < |q| ==> stripped[i].mask == q[i].mask
  {
    if q == [] then [] else [Dir(q[0].mask, Strip(q[0].forest))] + StripAll(q[1..])
  }

  lemma {:induction false} StripAllConcat(a: seq<Dir>, b: seq<Dir>)
    ensures StripAll(a + b) == StripAll(a) + StripAll(b)
  {
    if a == [] {
      assert a + b == b;
    } else {
      assert (a + b)[1..] == a[1..] + b;
      StripAllConcat(a[1..], b);
    }
  }

  lemma {:induction false} SubDirsStrip(mask: CString, forest: seq<Entry>)
    ensures SubDirs(mask, Strip(forest)) == StripAll(SubDirs(mask, forest))
  {
    if forest != [] && DirPart(mask) != 0 {
      var e := forest[0];
      SubDirsStrip(mask, forest[1..]);
      if e.info.name != "." && e.info.name != ".." {
        assert Strip(forest)[0].info == e.info && Strip(forest)[1..] == Strip(forest[1..]);
      }
      if Descends(e.info) {
        var d := Dir(ChildMask(mask, e.info.name), e.children);
        assert SubDirs(mask, forest)[1..] == SubDirs(mask, forest[1..]);
      }
    }
  }

  /** The dot entries make no difference to the walk. */
  lemma {:induction false} VisitStrip(q: seq<Dir>)
    ensures Visit(StripAll(q)) == StripAll(Visit(q))
    decreases Weight(q)
  {
    if q != [] {
      var d, sub := q[0], SubDirs(q[0].mask, q[0].forest);
      VisitDecreases(q);
      VisitStrip(q[1..] + sub);
      StripAllConcat(q[1..], sub);
      SubDirsStrip(d.mask, d.forest);
      assert StripAll(q)[1..] == StripAll(q[1..]);
      assert Visit(q)[1..] == Visit(q[1..] + sub);
    }
  }

  // ---- each directory once ----

  /** The directories of a tree by structural recursion, parents first. */
  function Preorder(mask: CString, forest: seq<Entry>): seq<Dir>
    decreases forest, 1
  {
    [Dir(mask, forest)] + PreorderBelow(mask, forest)
  }

  function PreorderBelow(mask: CString, forest: seq<Entry>): seq<Dir>
    decreases forest, 0
  {
    if forest == [] || DirPart(mask) == 0 then []
    else if Descends(forest[0].info)
    then Preorder(ChildMask(mask, forest[0].info.name), forest[0].children) + PreorderBelow(mask, forest[1..])
    else PreorderBelow(mask, forest[1..])
  }

  function PreorderAll(q: seq<Dir>): seq<Dir> {
    if q == [] then [] else Preorder(q[0].mask, q[0].forest) + PreorderAll(q[1..])
  }

  lemma {:induction false} PreorderAllConcat(a: seq<Dir>, b: seq<Dir>)
    ensures PreorderAll(a + b) == PreorderAll(a) + PreorderAll(b)
  {
    if a == [] {
      assert a + b == b;
    } else {
      assert (a + b)[1..] == a[1..] + b;
      PreorderAllConcat(a[1..], b);
    }
  }

  lemma {:induction false} PreorderSubDirs(mask: CString, forest: seq<Entry>)
    ensures PreorderAll(SubDirs(mask, forest)) == PreorderBelow(mask, forest)
  {
    if forest != [] && DirPart(mask) != 0 {
      PreorderSubDirs(mask, forest[1..]);
      if Descends(forest[0].info) {
        var d := [Dir(ChildMask(mask, forest[0].info.name), forest[0].children)];
        PreorderAllConcat(d, SubDirs(mask, forest[1..]));
        assert d[1..] == [];
        assert PreorderAll(d) == Preorder(d[0].mask, d[0].forest) + [];
      }
    }
  }

  /** The walk visits exactly the directories of the tree, each as often as it
      occurs there. */
  lemma {:induction false} VisitIsComplete(q: seq<Dir>)
    ensures multiset(Visit(q)) == multiset(PreorderAll(q))
    decreases Weight(q)
  {
    if q != [] {
      var d, sub := q[0], SubDirs(q[0].mask, q[0].forest);
      VisitDecreases(q);
      VisitIsComplete(q[1..] + sub);
      PreorderAllConcat(q[1..], sub);
      PreorderSubDirs(d.mask, d.forest);
      calc {
        multiset(Visit(q));
        multiset([d]) + multiset(Visit(q[1..] + sub));
        multiset([d]) + (multiset(PreorderAll(q[1..])) + multiset(PreorderBelow(d.mask, d.forest)));
        multiset([d] + PreorderBelow(d.mask, d.forest)) + multiset(PreorderAll(q[1..]));
        multiset(PreorderAll(q));
      }
    }
  }

  // ---- the entries that are acted on ----

  /** The accepted entries of one listing, in order. */
  function AcceptedOf(ctx: Filter, dirs: bool, infos: seq<FileInfo>): seq<FileInfo> {
    if infos == [] then []
    else (if Accepts(ctx, dirs, infos[0]) then [infos[0]] else []) + AcceptedOf(ctx, dirs, infos[1..])
  }

  lemma {:induction false} AcceptedSnoc(ctx: Filter, dirs: bool, infos: seq<FileInfo>, f: FileInfo)
    ensures AcceptedOf(ctx, dirs, infos + [f])
            == AcceptedOf(ctx, dirs, infos) + (if Accepts(ctx, dirs, f) then [f] else [])
    ensures Accepts(ctx, dirs, f) <==>
            if f.isDirectory then dirs
            else && (ctx.selection.None? || ctx.matches(f.name, ctx.selection.value))
                 && (ctx.newerThan == 0 || ctx.newerThan <= f.mtime)
                 && (f.isArchive || (ctx.archiveLevel != 1 && ctx.archiveLevel != 2))
  {
    if infos == [] {
      assert ([] + [f])[1..] == [];
    } else {
      assert (infos + [f])[1..] == infos[1..] + [f];
      AcceptedSnoc(ctx, dirs, infos[1..], f);
    }
  }

  /** The accepted entries of a sequence of listings. */
  function AcceptedAll(ctx: Filter, dirs: bool, visited: seq<Dir>): seq<FileInfo> {
    if visited == [] then []
    else AcceptedOf(ctx, dirs, EntryInfos(visited[0].forest)) + AcceptedAll(ctx, dirs, visited[1..])
  }

  lemma {:induction false} AcceptedAllConcat(ctx: Filter, dirs: bool, a: seq<Dir>, b: seq<Dir>)
    ensures AcceptedAll(ctx, dirs, a + b) == AcceptedAll(ctx, dirs, a) + AcceptedAll(ctx, dirs, b)
  {
    if a == [] {
      assert a + b == b;
    } else {
      assert (a + b)[1..] == a[1..] + b;
      AcceptedAllConcat(ctx, dirs, a[1..], b);
    }
  }

  function SumSizes(infos: seq<FileInfo>): nat {
    if infos == [] then 0 else infos[0].size + SumSizes(infos[1..])
  }

  lemma {:induction false} SumSizesConcat(a: seq<FileInfo>, b: seq<FileInfo>)
    ensures SumSizes(a + b) == SumSizes(a) + SumSizes(b)
  {
    if a == [] {
      assert a + b == b;
    } else {
      assert (a + b)[1..] == a[1..] + b;
      SumSizesConcat(a[1..], b);
    }
  }

  /** The sizes of all accepted entries of a tree, by structural recursion on
      the tree: `deep` says whether its directories are entered. */
  function TreeTotal(ctx: Filter, dirs: bool, forest: seq<Entry>, deep: bool): nat {
    if forest == [] then 0
    else (if Accepts(ctx, dirs, forest[0].info) then forest[0].info.size else 0)
         + (if deep && Descends(forest[0].info) then TreeTotal(ctx, dirs, forest[0].children, true) else 0)
         + TreeTotal(ctx, dirs, forest[1..], deep)
  }

  function QueueTotal(ctx: Filter, dirs: bool, q: seq<Dir>): nat {
    if q == [] then 0
    else TreeTotal(ctx, dirs, q[0].forest, DirPart(q[0].mask) != 0) + QueueTotal(ctx, dirs, q[1..])
  }

  lemma {:induction false} QueueTotalConcat(ctx: Filter, dirs: bool, a: seq<Dir>, b: seq<Dir>)
    ensures QueueTotal(ctx, dirs, a + b) == QueueTotal(ctx, dirs, a) + QueueTotal(ctx, dirs, b)
  {
    if a == [] {
      assert a + b == b;
    } else {
      assert (a + b)[1..] == a[1..] + b;
      QueueTotalConcat(ctx, dirs, a[1..], b);
    }
  }

  lemma DirPartOfChild(mask: CString, name: CString)
    ensures DirPart(ChildMask(mask, name)) == |ChildMask(mask, name)| - 1
  {
    var c := ChildMask(mask, name);
    assert c[..|c| - 1][|c| - 2] == BACKSLASH;
  }

  /** A tree's total is that of its own entries and those of its directories. */
  lemma {:induction false} TreeTotalSplits(ctx: Filter, dirs: bool, mask: CString, forest: seq<Entry>)
    ensures TreeTotal(ctx, dirs, forest, DirPart(mask) != 0)
            == SumSizes(AcceptedOf(ctx, dirs, EntryInfos(forest))) + QueueTotal(ctx, dirs, SubDirs(mask, forest))
  {
    if forest != [] {
      var e := forest[0];
      TreeTotalSplits(ctx, dirs, mask, forest[1..]);
      assert EntryInfos(forest)[1..] == EntryInfos(forest[1..]);
      SumSizesConcat(if Accepts(ctx, dirs, e.info) then [e.info] else [],
                     AcceptedOf(ctx, dirs, EntryInfos(forest[1..])));
      assert [e.info][1..] == [];
      if DirPart(mask) != 0 && Descends(e.info) {
        var d := [Dir(ChildMask(mask, e.info.name), e.children)];
        QueueTotalConcat(ctx, dirs, d, SubDirs(mask, forest[1..]));
        assert d[1..] == [];
        DirPartOfChild(mask, e.info.name);
      }
    }
  }

  /** The sum over the walk, in whatever order it visits, is the sum over the
      tree. */
  lemma {:induction false} VisitTotal(ctx: Filter, dirs: bool, q: seq<Dir>)
    ensures SumSizes(AcceptedAll(ctx, dirs, Visit(q))) == QueueTotal(ctx, dirs, q)
    decreases Weight(q)
  {
    if q != [] {
      var d, sub := q[0], SubDirs(q[0].mask, q[0].forest);
      VisitDecreases(q);
      VisitTotal(ctx, dirs, q[1..] + sub);
      QueueTotalConcat(ctx, dirs, q[1..], sub);
      TreeTotalSplits(ctx, dirs, d.mask, d.forest);
      assert Visit(q)[1..] == Visit(q[1..] + sub);
      SumSizesConcat(AcceptedOf(ctx, dirs, EntryInfos(d.forest)), AcceptedAll(ctx, dirs, Visit(q[1..] + sub)));
    }
  }

  lemma RemoveAt(s: seq<Dir>, k: nat)
    requires k < |s|
    ensures multiset(s[..k] + s[k + 1..]) == multiset(s) - multiset{s[k]}
  {
    assert s == s[..k] + ([s[k]] + s[k + 1..]);
  }

  lemma AcceptedRemoveAt(ctx: Filter, dirs: bool, s: seq<Dir>, k: nat)
    requires k < |s|
    ensures multiset(AcceptedAll(ctx, dirs, s))
            == multiset(AcceptedAll(ctx, dirs, [s[k]])) + multiset(AcceptedAll(ctx, dirs, s[..k] + s[k + 1..]))
  {
    hide AcceptedAll;
    assert s == s[..k] + ([s[k]] + s[k + 1..]);
    AcceptedAllConcat(ctx, dirs, s[..k], [s[k]] + s[k + 1..]);
    AcceptedAllConcat(ctx, dirs, [s[k]], s[k + 1..]);
    AcceptedAllConcat(ctx, dirs, s[..k], s[k + 1..]);
  }

  /** The function is applied to exactly the accepted entries of the tree, to
      each as often as it is listed there: nothing depends on the order. */
  lemma {:induction false} AcceptedPermutes(ctx: Filter, dirs: bool, a: seq<Dir>, b: seq<Dir>)
    requires multiset(a) == multiset(b)
    ensures multiset(AcceptedAll(ctx, dirs, a)) == multiset(AcceptedAll(ctx, dirs, b))
    decreases |a|
  {
    hide AcceptedAll;
    if a == [] {
      assert |multiset(b)| == 0;
    } else {
      assert a[0] in multiset(a);
      assert a[0] in b;
      var k :| 0 <= k < |b| && b[k] == a[0];
      var a', b' := a[..0] + a[1..], b[..k] + b[k + 1..];
      RemoveAt(a, 0);
      RemoveAt(b, k);
      AcceptedPermutes(ctx, dirs, a', b');
      AcceptedRemoveAt(ctx, dirs, a, 0);
      AcceptedRemoveAt(ctx, dirs, b, k);
    }
  }

  // ---- no mask twice ----

  /** Names as a file system has them: no backslash, and no two directories of
      one name side by side. */
  ghost predicate WellNamed(forest: seq<Entry>) {
    && (forall i :: 0 <= i < |forest| && Descends(forest[i].info) ==>
          BACKSLASH !in forest[i].info.name && WellNamed(forest[i].children))
    && (forall i, j :: 0 <= i < j < |forest| && Descends(forest[i].info) && Descends(forest[j].info) ==>
          forest[i].info.name != forest[j].info.name)
  }

  lemma {:induction false} PruneWellNamed(fails: CString -> bool, mask: CString, forest: seq<Entry>)
    requires WellNamed(forest)
    ensures WellNamed(Prune(fails, mask, forest))
    decreases forest
  {
    var pruned := Prune(fails, mask, forest);
    if !fails(mask) {
      forall i | 0 <= i < |pruned| && Descends(pruned[i].info)
        ensures WellNamed(pruned[i].children)
      {
        PruneEntriesAt(fails, mask, forest, i);
        PruneWellNamed(fails, ChildMask(mask, forest[i].info.name), forest[i].children);
      }
    }
  }

  ghost predicate DistinctMasks(ds: seq<Dir>) {
    forall i, j :: 0 <= i < j < |ds| ==> ds[i].mask != ds[j].mask
  }

  /** What precedes every mask inside directory `name` of `mask`. */
  function Below(mask: CString, name: CString): CString {
    mask[..DirPart(mask)] + name + [BACKSLASH]
  }

  lemma BelowIsChildDir(mask: CString, name: CString)
    ensures ChildMask(mask, name)[..DirPart(ChildMask(mask, name))] == Below(mask, name)
  {
    DirPartOfChild(mask, name);
  }

  lemma BelowClash(mask: CString, a: CString, b: CString, s: CString)
    requires BACKSLASH !in a && BACKSLASH !in b
    requires Below(mask, a) <= s && Below(mask, b) <= s
    ensures a == b
  {
    var p := DirPart(mask);
    assert s[p + |a|] == BACKSLASH && s[p + |b|] == BACKSLASH;
    assert forall i :: 0 <= i < |a| ==> s[p + i] == Below(mask, a)[p + i] == a[i];
    assert forall i :: 0 <= i < |b| ==> s[p + i] == Below(mask, b)[p + i] == b[i];
    assert |a| == |b|;
  }

  lemma {:induction false} PreorderPrefix(mask: CString, forest: seq<Entry>, k: nat)
    requires k < |Preorder(mask, forest)|
    ensures mask[..DirPart(mask)] <= Preorder(mask, forest)[k].mask
    decreases forest, 1
  {
    if k > 0 {
      var i := PreorderBelowPrefix(mask, forest, k - 1);
      assert mask[..DirPart(mask)] <= Below(mask, forest[i].info.name);
    }
  }

  lemma {:induction false} PreorderBelowPrefix(mask: CString, forest: seq<Entry>, k: nat) returns (i: nat)
    requires k < |PreorderBelow(mask, forest)|
    ensures i < |forest| && Descends(forest[i].info)
    ensures Below(mask, forest[i].info.name) <= PreorderBelow(mask, forest)[k].mask
    decreases forest, 0
  {
    var e := forest[0];
    if Descends(e.info) {
      var first := Preorder(ChildMask(mask, e.info.name), e.children);
      if k < |first| {
        PreorderPrefix(ChildMask(mask, e.info.name), e.children, k);
        BelowIsChildDir(mask, e.info.name);
        return 0;
      }
      i := PreorderBelowPrefix(mask, forest[1..], k - |first|);
    } else {
      i := PreorderBelowPrefix(mask, forest[1..], k);
    }
    i := i + 1;
  }

  /** In a well-named tree every directory has a mask of its own, so that a walk
      that visits each once never sends the same search twice. */
  lemma {:induction false} PreorderDistinct(mask: CString, forest: seq<Entry>)
    requires WellNamed(forest)
    ensures DistinctMasks(Preorder(mask, forest))
    decreases forest, 1
  {
    PreorderBelowDistinct(mask, forest);
    var below := PreorderBelow(mask, forest);
    forall k | 0 <= k < |below|
      ensures below[k].mask != mask
    {
      var i := PreorderBelowPrefix(mask, forest, k);
      var name, p := forest[i].info.name, DirPart(mask);
      assert below[k].mask[p + |name|] == Below(mask, name)[p + |name|] == BACKSLASH;
      assert |mask| <= p + |name| || mask[p..][|name|] != BACKSLASH;
    }
  }

  lemma {:induction false} PreorderBelowDistinct(mask: CString, forest: seq<Entry>)
    requires WellNamed(forest)
    ensures DistinctMasks(PreorderBelow(mask, forest))
    decreases forest, 0
  {
    if forest != [] && DirPart(mask) != 0 {
      var e, rest := forest[0], forest[1..];
      PreorderBelowDistinct(mask, rest);
      if Descends(e.info) {
        var child := ChildMask(mask, e.info.name);
        PreorderDistinct(child, e.children);
        BelowIsChildDir(mask, e.info.name);
        var first, others := Preorder(child, e.children), PreorderBelow(mask, rest);
        forall i, j | 0 <= i < |first| && 0 <= j < |others|
          ensures first[i].mask != others[j].mask
        {
          PreorderPrefix(child, e.children, i);
          var k := PreorderBelowPrefix(mask, rest, j);
          assert forest[k + 1] == rest[k];
          if first[i].mask == others[j].mask {
            BelowClash(mask, e.info.name, rest[k].info.name, first[i].mask);
          }
        }
        DistinctConcat(first, others);
      }
    }
  }

  lemma DistinctConcat(a: seq<Dir>, b: seq<Dir>)
    requires DistinctMasks(a) && DistinctMasks(b)
    requires forall i, j :: 0 <= i < |a| && 0 <= j < |b| ==> a[i].mask != b[j].mask
    ensures DistinctMasks(a + b)
  {
  }

  /** A walk over a well-named tree never visits a directory twice. */
  lemma VisitsOnce(mask: CString, forest: seq<Entry>)
    requires WellNamed(forest)
    ensures DistinctMasks(Visit([Dir(mask, forest)]))
  {
    var root := [Dir(mask, forest)];
    VisitIsComplete(root);
    assert root[1..] == [] && PreorderAll(root) == Preorder(mask, forest) + [];
    PreorderDistinct(mask, forest);
    DistinctPermutes(Preorder(mask, forest), Visit(root));
  }

  lemma DistinctPermutes(p: seq<Dir>, v: seq<Dir>)
    requires multiset(p) == multiset(v) && DistinctMasks(p)
    ensures DistinctMasks(v)
  {
    forall i, j | 0 <= i < j < |v|
      ensures v[i].mask != v[j].mask
    {
      assert v[i] in multiset(v) && v[j] in multiset(v);
      var a :| 0 <= a < |p| && p[a] == v[i];
      var b :| 0 <= b < |p| && p[b] == v[j];
      if v[i].mask == v[j].mask {
        assert a == b;
        OccursTwice(v, i, j);
        OccursOnce(p, v[i]);
      }
    }
  }

  lemma OccursTwice(s: seq<Dir>, i: nat, j: nat)
    requires i < j < |s| && s[i] == s[j]
    ensures multiset(s)[s[i]] >= 2
  {
    assert s == s[..j] + ([s[j]] + s[j + 1..]);
    assert s[i] == s[..j][i];
  }

  lemma {:induction false} OccursOnce(s: seq<Dir>, d: Dir)
    requires DistinctMasks(s)
    ensures multiset(s)[d] <= 1
  {
    if s != [] {
      assert s == [s[0]] + s[1..];
      OccursOnce(s[1..], d);
      if s[0] == d {
        assert d !in s[1..];
      }
    }
  }

  // ---- a server for every tree ----

  /** No two entries of one name side by side, as resuming by name requires. */
  ghost predicate DistinctNames(forest: seq<Entry>) {
    && (forall i, j :: 0 <= i < j < |forest| ==> forest[i].info.name != forest[j].info.name)
    && (forall i :: 0 <= i < |forest| && Descends(forest[i].info) ==> DistinctNames(forest[i].children))
  }

  function Numbered(forest: seq<Entry>): (found: seq<Found>)
    ensures |found| == |forest|
    ensures Infos(found) == EntryInfos(forest)
  {
    seq(|forest|, i requires 0 <= i < |forest| => Found(forest[i].info, i))
  }

  /** The answer to a mask: what is in the directory that has it. */
  ghost function AnswerTo(dirs: seq<Dir>, mask: CString): Results {
    if dirs == [] then []
    else if dirs[0].mask == mask && Resumable(Numbered(dirs[0].forest)) then Numbered(dirs[0].forest)
    else AnswerTo(dirs[1..], mask)
  }

  lemma {:induction false} AnswerAt(dirs: seq<Dir>, k: nat)
    requires DistinctMasks(dirs) && k < |dirs| && DistinctNames(dirs[k].forest)
    ensures AnswerTo(dirs, dirs[k].mask) == Numbered(dirs[k].forest)
  {
    if k == 0 {
      assert Resumable(Numbered(dirs[0].forest));
    } else {
      assert dirs[0].mask != dirs[k].mask;
      AnswerAt(dirs[1..], k - 1);
    }
  }

  /** The directories of a tree are among those that a list holds. */
  ghost predicate AllIn(some: seq<Dir>, dirs: seq<Dir>) {
    forall d :: d in some ==> d in dirs
  }

  lemma {:induction false} AnswersServe(dirs: seq<Dir>, mask: CString, forest: seq<Entry>)
    requires DistinctMasks(dirs) && DistinctNames(forest) && AllIn(Preorder(mask, forest), dirs)
    ensures Serves(m => AnswerTo(dirs, m), mask, forest)
    decreases forest
  {
    assert Dir(mask, forest) in Preorder(mask, forest);
    var k :| 0 <= k < |dirs| && dirs[k] == Dir(mask, forest);
    AnswerAt(dirs, k);
    forall i | 0 <= i < |forest| && DirPart(mask) != 0 && Descends(forest[i].info)
      ensures Serves(m => AnswerTo(dirs, m), ChildMask(mask, forest[i].info.name), forest[i].children)
    {
      ChildIsBelow(mask, forest, i);
      AnswersServe(dirs, ChildMask(mask, forest[i].info.name), forest[i].children);
    }
  }

  lemma {:induction false} ChildIsBelow(mask: CString, forest: seq<Entry>, i: nat)
    requires i < |forest| && DirPart(mask) != 0 && Descends(forest[i].info)
    ensures AllIn(Preorder(ChildMask(mask, forest[i].info.name), forest[i].children), PreorderBelow(mask, forest))
  {
    if i > 0 {
      ChildIsBelow(mask, forest[1..], i - 1);
    }
  }

  /** Every tree with distinct names is served by some search. */
  lemma ServerExists(mask: CString, forest: seq<Entry>) returns (search: CString -> Results)
    requires WellNamed(forest) && DistinctNames(forest)
    ensures Serves(search, mask, forest)
  {
    var dirs := Preorder(mask, forest);
    PreorderDistinct(mask, forest);
    AnswersServe(dirs, mask, forest);
    search := m => AnswerTo(dirs, m);
  }
}
