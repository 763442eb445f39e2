/** smbclient's recursive listing: do_list over the packed queue, with do_du as
    the function that is applied (client/client.c). */
module DirectoryWalk {
  import opened CStrings
  import opened DirectoryTree
  import ClientList
  import ListQueue

  function Masks(q: seq<Dir>): (masks: seq<CString>)
    ensures |masks| == |q|
  {
    seq(|q|, i requires 0 <= i < |q| => q[i].mask)
  }

  lemma {:induction false} SubDirsSnoc(mask: CString, forest: seq<Entry>, e: Entry)
    ensures SubDirs(mask, forest + [e])
            == SubDirs(mask, forest)
               + if DirPart(mask) != 0 && Descends(e.info)
                 then [Dir(ChildMask(mask, e.info.name), e.children)] else []
  {
    if forest == [] {
      assert ([] + [e])[1..] == [];
    } else {
      assert (forest + [e])[1..] == forest[1..] + [e];
      SubDirsSnoc(mask, forest[1..], e);
    }
  }

  ghost predicate AllServed(search: CString -> ClientList.Results, q: seq<Dir>) {
    forall k :: 0 <= k < |q| ==> Serves(search, q[k].mask, q[k].forest)
  }

  lemma {:induction false} SubDirsServed(search: CString -> ClientList.Results, mask: CString, forest: seq<Entry>)
    requires DirPart(mask) != 0 ==>
               forall i :: 0 <= i < |forest| && Descends(forest[i].info) ==>
                 Serves(search, ChildMask(mask, forest[i].info.name), forest[i].children)
    ensures AllServed(search, SubDirs(mask, forest))
  {
    if forest != [] {
      SubDirsServed(search, mask, forest[1..]);
    }
  }

  class Walker {
    const ctx: Filter
    const search: CString -> ClientList.Results
    const fails: CString -> bool
    const protocol: ClientList.Protocol

    /** Masks searched for, and entries the function was applied to, in order. */
    var searches: seq<CString>
    var calls: seq<ClientList.FileInfo>

    /** dir_total */
    var dirTotal: nat

    /** `search` is what the server finds for a mask, unless the search `fails`. */
    constructor (ctx: Filter, search: CString -> ClientList.Results, fails: CString -> bool,
                 protocol: ClientList.Protocol)
      ensures this.ctx == ctx && this.search == search && this.fails == fails && this.protocol == protocol
      ensures searches == [] && calls == [] && dirTotal == 0
    {
      this.ctx, this.search, this.fails, this.protocol := ctx, search, fails, protocol;
      searches, calls, dirTotal := [], [], 0;
    }

    /** do_du */
    method Du(f: ClientList.FileInfo)
      modifies this`calls, this`dirTotal
      ensures calls == old(calls) + [f]
      ensures dirTotal == old(dirTotal) + if DoThisOne(ctx, f) then f.size else 0
    {
      calls := calls + [f];
      if DoThisOne(ctx, f) {
        dirTotal := dirTotal + f.size;
      }
    }

    /** do_list_helper: apply the function if the entry is accepted; queue the
        directories to be listed later. */
    method Helper(f: ClientList.FileInfo, mask: CString, queue: ListQueue.Queue, recurse: bool, dirs: bool)
      requires queue.Valid() && queue.Proper()
      modifies this`calls, this`dirTotal, queue, queue.buf
      ensures queue.Valid() && queue.Proper() && (queue.buf == old(queue.buf) || fresh(queue.buf))
      ensures calls == old(calls) + if Accepts(ctx, dirs, f) then [f] else []
      ensures dirTotal == old(dirTotal) + if Accepts(ctx, dirs, f) then f.size else 0
      ensures queue.entries == old(queue.entries)
                               + if recurse && Descends(f) && DirPart(mask) != 0
                                 then [ChildMask(mask, f.name)] else []
      ensures queue.end == old(queue.end)
                           + if recurse && Descends(f) && DirPart(mask) != 0 then |ChildMask(mask, f.name)| + 1 else 0
      ensures queue.start == old(queue.start) && (queue.buf == old(queue.buf) ==> queue.size == old(queue.size))
      ensures queue.buf == old(queue.buf) <==> queue.end <= old(queue.size)
      // the same, written out
      ensures queue.entries == old(queue.entries)
                               + if recurse && f.isDirectory && f.name != "." && f.name != ".." && DirPart(mask) > 0
                                 then [mask[..DirPart(mask)] + f.name + [BACKSLASH, '*']] else []
      ensures calls == old(calls)
                       + if if f.isDirectory then dirs
                            else && (ctx.selection.None? || ctx.matches(f.name, ctx.selection.value))
                                 && (ctx.newerThan == 0 || ctx.newerThan <= f.mtime)
                                 && (f.isArchive || (ctx.archiveLevel != 1 && ctx.archiveLevel != 2))
                         then [f] else []
    {
      queue.Fits();
      hide ListQueue.Queue.Valid, ListQueue.Queue.Proper;
      if f.isDirectory {
        if dirs && DoThisOne(ctx, f) {
          Du(f);
        }
        if recurse && f.name != "." && f.name != ".." {
          var p := DirPart(mask);
          if p == 0 {
            return;
          }
          queue.Add(mask[..p] + f.name + [BACKSLASH, '*']);
        }
        return;
      }
      if DoThisOne(ctx, f) {
        Du(f);
      }
    }

    /** What a search passes on: all that is found, or nothing if it fails. */
    method Found(mask: CString) returns (infos: seq<ClientList.FileInfo>)
      ensures infos == ClientList.Infos(Answered(search, fails)(mask))
    {
      var server := new ClientList.SearchServer(search(mask), !fails(mask), fails(mask));
      var ret;
      ret, infos := ClientList.List(server, protocol);
    }

    /** One search and the helper on each of its results. */
    method ListOne(mask: CString, queue: ListQueue.Queue, recurse: bool, dirs: bool, ghost forest: seq<Entry>)
      requires queue.Valid() && queue.Proper()
      requires Serves(Answered(search, fails), mask, forest)
      modifies this, queue, queue.buf
      ensures queue.Valid() && queue.Proper() && (queue.buf == old(queue.buf) || fresh(queue.buf))
      ensures searches == old(searches) + [mask]
      ensures calls == old(calls) + AcceptedOf(ctx, dirs, EntryInfos(forest))
      ensures dirTotal == old(dirTotal) + SumSizes(AcceptedOf(ctx, dirs, EntryInfos(forest)))
      ensures queue.entries == old(queue.entries) + if recurse then Masks(SubDirs(mask, forest)) else []
      // what is queued: the masks of all listed directories but the two dot entries
      ensures recurse ==>
                forall e :: e in queue.entries[|old(queue.entries)|..] <==>
                  exists d :: ListedIn(Dir(mask, forest), d) && d.mask == e
      // the head stays where it was exactly as long as the new masks fit the buffer
      ensures queue.start == old(queue.start)
      ensures queue.end == old(queue.end) + if recurse then |ListQueue.Pack(Masks(SubDirs(mask, forest)))| else 0
      ensures queue.buf == old(queue.buf) <==> queue.end <= old(queue.size)
    {
      hide ListQueue.Queue.Valid, ListQueue.Queue.Proper;
      hide Accepts, AcceptedOf, Descends, SumSizes, SubDirs, DirPart, ListQueue.Pack;
      queue.Fits();
      searches := searches + [mask];
      var infos := Found(mask);
      ghost var before := queue.entries;
      NothingListed(ctx, dirs, mask);
      assert EntryInfos(forest)[..0] == [] && forest[..0] == [];
      for i := 0 to |infos|
        invariant queue.Valid() && queue.Proper() && (queue.buf == old(queue.buf) || fresh(queue.buf))
        invariant searches == old(searches) + [mask]
        invariant calls == old(calls) + AcceptedOf(ctx, dirs, EntryInfos(forest)[..i])
        invariant dirTotal == old(dirTotal) + SumSizes(AcceptedOf(ctx, dirs, EntryInfos(forest)[..i]))
        invariant queue.entries == before + if recurse then Masks(SubDirs(mask, forest[..i])) else []
        invariant queue.start == old(queue.start) && (queue.buf == old(queue.buf) ==> queue.size == old(queue.size))
        invariant queue.end == old(queue.end)
                               + if recurse then |ListQueue.Pack(Masks(SubDirs(mask, forest[..i])))| else 0
        invariant queue.buf == old(queue.buf) <==> queue.end <= old(queue.size)
      {
        Helper(infos[i], mask, queue, recurse, dirs);
        OneListed(ctx, dirs, mask, forest, i);
      }
      assert EntryInfos(forest)[..|infos|] == EntryInfos(forest) && forest[..|infos|] == forest;
      if recurse {
        assert queue.entries[|before|..] == Masks(SubDirs(mask, forest));
        QueuedMasks(mask, forest);
      }
    }

    /** do_list, applied to the tree `forest` that the server has under `mask`. A
        search that fails is passed over, so that the walk is that of the tree
        without what is inside the directories concerned. */
    method DoList(mask: CString, rec: bool, dirs: bool, ghost forest: seq<Entry>)
      returns (ghost seen: seq<Entry>, ghost visited: seq<Dir>)
      requires Serves(search, mask, forest)
      modifies this
      ensures seen == Prune(fails, mask, forest)
      ensures visited == if !rec then [Dir(mask, seen)]
                         else if mask == "" then []
                         else Levels([Dir(mask, seen)])
      ensures searches == old(searches) + Masks(visited)
      ensures calls == old(calls) + AcceptedAll(ctx, dirs, visited)
      ensures rec && mask != "" ==>
                && dirTotal == old(dirTotal) + TreeTotal(ctx, dirs, seen, DirPart(mask) != 0)
                && multiset(visited) == multiset(Preorder(mask, seen))
                && multiset(AcceptedAll(ctx, dirs, visited))
                   == multiset(AcceptedAll(ctx, dirs, Preorder(mask, seen)))
                && (WellNamed(forest) ==> DistinctMasks(visited))
      // every search but the first is for a directory that was listed before, and for every such directory
      // there is one; the dot entries are never searched
      ensures rec && mask != "" ==>
                && (forall k :: 0 < k < |visited| ==> WasListed(visited, k))
                && (forall j, d :: 0 <= j < |visited| && ListedIn(visited[j], d) ==> IsVisited(visited, j, d))
                && Masks(visited) == Masks(Levels([Dir(mask, Strip(seen))]))
      ensures (forall m :: !fails(m)) ==> seen == forest
    {
      hide ListQueue.Queue.Valid, ListQueue.Queue.Proper;
      var queue := new ListQueue.Queue();
      seen := Prune(fails, mask, forest);
      ServesPruned(search, fails, mask, forest);
      if forall m :: !fails(m) {
        PruneNothing(fails, mask, forest);
      }
      if WellNamed(forest) {
        PruneWellNamed(fails, mask, forest);
      }
      hide Serves, Prune, WellNamed, Levels, AcceptedOf, AcceptedAll, TreeTotal, Preorder, DirPart, SubDirs, Masks;
      hide WasListed, IsVisited, ListedIn, Strip;
      if !rec {
        ListOne(mask, queue, false, dirs, seen);
        visited := [Dir(mask, seen)];
        OneVisited(ctx, dirs, mask, seen);
        MasksOne(mask, seen);
        return;
      }
      visited := Walk(mask, queue, dirs, seen);
      if mask != "" {
        WalkMeans(ctx, dirs, mask, seen);
      }
    }

    /** One round of the loop of do_list: list the head of the queue, then drop
        it; its directories have queued up behind the others. */
    method VisitHead(queue: ListQueue.Queue, dirs: bool, ghost todo: seq<Dir>)
      requires queue.Valid() && queue.Proper()
      requires todo != [] && queue.entries == Masks(todo) && AllServed(Answered(search, fails), todo)
      modifies this, queue, queue.buf
      ensures queue.Valid() && queue.Proper() && (queue.buf == old(queue.buf) || fresh(queue.buf))
      ensures queue.entries == Masks(todo[1..] + SubDirs(todo[0].mask, todo[0].forest))
      ensures AllServed(Answered(search, fails), todo[1..] + SubDirs(todo[0].mask, todo[0].forest))
      ensures searches == old(searches) + [todo[0].mask]
      ensures calls == old(calls) + AcceptedOf(ctx, dirs, EntryInfos(todo[0].forest))
      ensures dirTotal == old(dirTotal) + SumSizes(AcceptedOf(ctx, dirs, EntryInfos(todo[0].forest)))
    {
      hide ListQueue.Queue.Valid, ListQueue.Queue.Proper;
      hide Serves, AllServed, AcceptedOf, SumSizes, SubDirs, EntryInfos, Masks;
      var head := queue.Head();
      TodoMasks(todo, SubDirs(todo[0].mask, todo[0].forest));
      TodoServed(Answered(search, fails), todo);
      ListOne(head, queue, true, dirs, todo[0].forest);
      queue.RemoveHead();
    }

    /** The loop of do_list over the work queue. */
    method Walk(mask: CString, queue: ListQueue.Queue, dirs: bool, ghost forest: seq<Entry>)
      returns (ghost visited: seq<Dir>)
      requires queue.Valid() && queue.Proper() && queue.entries == []
      requires Serves(Answered(search, fails), mask, forest)
      modifies this, queue, queue.buf
      ensures visited == if mask == "" then [] else Visit([Dir(mask, forest)])
      ensures searches == old(searches) + Masks(visited)
      ensures calls == old(calls) + AcceptedAll(ctx, dirs, visited)
      ensures dirTotal == old(dirTotal) + SumSizes(AcceptedAll(ctx, dirs, visited))
    {
      hide ListQueue.Queue.Valid, ListQueue.Queue.Proper;
      hide Serves, AllServed, Visit, AcceptedOf, AcceptedAll, SumSizes, SubDirs, EntryInfos, Weight, Masks;
      queue.Add(mask);
      visited := [];
      NothingVisited(ctx, dirs);
      var empty := queue.IsEmpty();
      if mask == "" {
        return;
      }
      ghost var todo := [Dir(mask, forest)];
      MasksOne(mask, forest);
      OneServed(Answered(search, fails), mask, forest);
      while !empty
        invariant queue.Valid() && queue.Proper() && (queue.buf == old(queue.buf) || fresh(queue.buf))
        invariant empty <==> queue.entries == []
        invariant queue.entries == Masks(todo) && AllServed(Answered(search, fails), todo)
        invariant visited + Visit(todo) == Visit([Dir(mask, forest)])
        invariant searches == old(searches) + Masks(visited)
        invariant calls == old(calls) + AcceptedAll(ctx, dirs, visited)
        invariant dirTotal == old(dirTotal) + SumSizes(AcceptedAll(ctx, dirs, visited))
        decreases Weight(todo)
      {
        ghost var d := todo[0];
        VisitHead(queue, dirs, todo);
        empty := queue.IsEmpty();
        VisitedStep(ctx, dirs, visited, d);
        VisitUnfolds(todo);
        VisitDecreases(todo);
        assert visited + ([d] + Visit(todo[1..] + SubDirs(d.mask, d.forest)))
            == (visited + [d]) + Visit(todo[1..] + SubDirs(d.mask, d.forest));
        visited := visited + [d];
        todo := todo[1..] + SubDirs(d.mask, d.forest);
      }
      NothingLeft(todo);
    }
  }

  lemma NothingListed(ctx: Filter, dirs: bool, mask: CString)
    ensures AcceptedOf(ctx, dirs, []) == [] && SumSizes([]) == 0
    ensures Masks(SubDirs(mask, [])) == [] && ListQueue.Pack([]) == ""
  {
  }

  /** What one more listed entry adds. */
  lemma OneListed(ctx: Filter, dirs: bool, mask: CString, forest: seq<Entry>, i: nat)
    requires i < |forest|
    ensures var f := forest[i].info;
            && EntryInfos(forest)[i] == f
            && AcceptedOf(ctx, dirs, EntryInfos(forest)[..i + 1])
               == AcceptedOf(ctx, dirs, EntryInfos(forest)[..i]) + (if Accepts(ctx, dirs, f) then [f] else [])
            && SumSizes(AcceptedOf(ctx, dirs, EntryInfos(forest)[..i + 1]))
               == SumSizes(AcceptedOf(ctx, dirs, EntryInfos(forest)[..i]))
                  + (if Accepts(ctx, dirs, f) then f.size else 0)
            && Masks(SubDirs(mask, forest[..i + 1]))
               == Masks(SubDirs(mask, forest[..i]))
                  + (if Descends(f) && DirPart(mask) != 0 then [ChildMask(mask, f.name)] else [])
            && |ListQueue.Pack(Masks(SubDirs(mask, forest[..i + 1])))|
               == |ListQueue.Pack(Masks(SubDirs(mask, forest[..i])))|
                  + (if Descends(f) && DirPart(mask) != 0 then |ChildMask(mask, f.name)| + 1 else 0)
  {
    var f := forest[i].info;
    assert EntryInfos(forest)[..i + 1] == EntryInfos(forest)[..i] + [f];
    assert forest[..i + 1] == forest[..i] + [forest[i]];
    AcceptedSnoc(ctx, dirs, EntryInfos(forest)[..i], f);
    SumSizesConcat(AcceptedOf(ctx, dirs, EntryInfos(forest)[..i]), if Accepts(ctx, dirs, f) then [f] else []);
    assert [f][1..] == [];
    SubDirsSnoc(mask, forest[..i], forest[i]);
    var before, after := Masks(SubDirs(mask, forest[..i])), Masks(SubDirs(mask, forest[..i + 1]));
    if Descends(f) && DirPart(mask) != 0 {
      assert after == before + [ChildMask(mask, f.name)];
      ListQueue.PackSnoc(before, ChildMask(mask, f.name));
    } else {
      assert after == before;
    }
  }

  lemma NothingVisited(ctx: Filter, dirs: bool)
    ensures AcceptedAll(ctx, dirs, []) == [] && SumSizes([]) == 0 && Masks([]) == []
  {
  }

  lemma OneVisited(ctx: Filter, dirs: bool, mask: CString, forest: seq<Entry>)
    ensures AcceptedAll(ctx, dirs, [Dir(mask, forest)]) == AcceptedOf(ctx, dirs, EntryInfos(forest))
  {
    assert AcceptedAll(ctx, dirs, []) == [];
  }

  lemma MasksOne(mask: CString, forest: seq<Entry>)
    ensures Masks([Dir(mask, forest)]) == [mask]
  {
  }

  lemma OneServed(search: CString -> ClientList.Results, mask: CString, forest: seq<Entry>)
    requires Serves(search, mask, forest)
    ensures AllServed(search, [Dir(mask, forest)])
  {
  }

  lemma NothingLeft(todo: seq<Dir>)
    ensures todo == [] ==> Visit(todo) == []
  {
  }

  /** One step of the work queue: the head is visited, its directories queue up. */
  lemma TodoMasks(todo: seq<Dir>, sub: seq<Dir>)
    requires todo != []
    ensures Masks(todo)[0] == todo[0].mask
    ensures (Masks(todo) + Masks(sub))[1..] == Masks(todo[1..] + sub)
  {
  }

  lemma TodoServed(search: CString -> ClientList.Results, todo: seq<Dir>)
    requires todo != [] && AllServed(search, todo)
    ensures Serves(search, todo[0].mask, todo[0].forest)
    ensures AllServed(search, todo[1..] + SubDirs(todo[0].mask, todo[0].forest))
  {
    SubDirsServed(search, todo[0].mask, todo[0].forest);
    hide Serves, SubDirs;
    var sub := SubDirs(todo[0].mask, todo[0].forest);
    forall k | 0 <= k < |todo[1..] + sub|
      ensures Serves(search, (todo[1..] + sub)[k].mask, (todo[1..] + sub)[k].forest)
    {
      if k < |todo| - 1 {
        assert (todo[1..] + sub)[k] == todo[k + 1];
      } else {
        assert (todo[1..] + sub)[k] == sub[k - (|todo| - 1)];
      }
    }
  }

  lemma VisitedStep(ctx: Filter, dirs: bool, visited: seq<Dir>, d: Dir)
    ensures && AcceptedAll(ctx, dirs, visited + [d])
               == AcceptedAll(ctx, dirs, visited) + AcceptedOf(ctx, dirs, EntryInfos(d.forest))
            && SumSizes(AcceptedAll(ctx, dirs, visited + [d]))
               == SumSizes(AcceptedAll(ctx, dirs, visited)) + SumSizes(AcceptedOf(ctx, dirs, EntryInfos(d.forest)))
            && Masks(visited + [d]) == Masks(visited) + [d.mask]
  {
    AcceptedAllConcat(ctx, dirs, visited, [d]);
    assert [d][1..] == [] && AcceptedAll(ctx, dirs, [d]) == AcceptedOf(ctx, dirs, EntryInfos(d.forest)) + [];
    SumSizesConcat(AcceptedAll(ctx, dirs, visited), AcceptedOf(ctx, dirs, EntryInfos(d.forest)));
  }

  lemma OneTree(ctx: Filter, dirs: bool, mask: CString, forest: seq<Entry>)
    ensures PreorderAll([Dir(mask, forest)]) == Preorder(mask, forest)
    ensures QueueTotal(ctx, dirs, [Dir(mask, forest)]) == TreeTotal(ctx, dirs, forest, DirPart(mask) != 0)
  {
    hide Preorder, TreeTotal, DirPart;
    var root := [Dir(mask, forest)];
    assert root[1..] == [];
    assert PreorderAll(root) == Preorder(mask, forest) + [];
  }

  /** What a complete walk amounts to, in terms of the tree alone. */
  lemma WalkMeans(ctx: Filter, dirs: bool, mask: CString, forest: seq<Entry>)
    ensures var visited := Visit([Dir(mask, forest)]);
            && visited == Levels([Dir(mask, forest)])
            && SumSizes(AcceptedAll(ctx, dirs, visited)) == TreeTotal(ctx, dirs, forest, DirPart(mask) != 0)
            && multiset(visited) == multiset(Preorder(mask, forest))
            && multiset(AcceptedAll(ctx, dirs, visited))
               == multiset(AcceptedAll(ctx, dirs, Preorder(mask, forest)))
            && (WellNamed(forest) ==> DistinctMasks(visited))
            && (forall k :: 0 < k < |visited| ==> WasListed(visited, k))
            && (forall j, d :: 0 <= j < |visited| && ListedIn(visited[j], d) ==> IsVisited(visited, j, d))
            && Masks(visited) == Masks(Levels([Dir(mask, Strip(forest))]))
  {
    hide Visit, Levels, AcceptedAll, Preorder, PreorderAll, SumSizes, TreeTotal, QueueTotal, DirPart, WellNamed;
    hide WasListed, IsVisited, ListedIn, Strip;
    var root := [Dir(mask, forest)];
    VisitIsBreadthFirst(root);
    VisitTotal(ctx, dirs, root);
    VisitIsComplete(root);
    OneTree(ctx, dirs, mask, forest);
    AcceptedPermutes(ctx, dirs, Visit(root), Preorder(mask, forest));
    if WellNamed(forest) {
      VisitsOnce(mask, forest);
    }
    WalkConnects(mask, forest);
    WalkStrips(mask, forest);
  }

  lemma WalkConnects(mask: CString, forest: seq<Entry>)
    ensures var visited := Visit([Dir(mask, forest)]);
            && (forall k :: 0 < k < |visited| ==> WasListed(visited, k))
            && (forall j, d :: 0 <= j < |visited| && ListedIn(visited[j], d) ==> IsVisited(visited, j, d))
  {
    hide Visit, ListedIn;
    var root := [Dir(mask, forest)];
    var visited := Visit(root);
    forall k | 0 < k < |visited|
      ensures WasListed(visited, k)
    {
      var j := ComesFrom(root, k);
      assert ListedIn(visited[j], visited[k]);
    }
    forall j, d | 0 <= j < |visited| && ListedIn(visited[j], d)
      ensures IsVisited(visited, j, d)
    {
      var k := GoesTo(root, j, d);
      assert visited[k] == d;
    }
  }

  lemma WalkStrips(mask: CString, forest: seq<Entry>)
    ensures Masks(Visit([Dir(mask, forest)])) == Masks(Levels([Dir(mask, Strip(forest))]))
  {
    hide Visit, Levels, Strip;
    var root := [Dir(mask, forest)];
    assert root[1..] == [] && StripAll([]) == [];
    assert StripAll(root) == [Dir(mask, Strip(forest))];
    VisitStrip(root);
    VisitIsBreadthFirst(StripAll(root));
  }

  lemma QueuedMasks(mask: CString, forest: seq<Entry>)
    ensures forall e :: e in Masks(SubDirs(mask, forest)) <==>
              exists d :: ListedIn(Dir(mask, forest), d) && d.mask == e
  {
    hide ListedIn, SubDirs;
    var sub := SubDirs(mask, forest);
    forall e
      ensures e in Masks(sub) <==> exists d :: ListedIn(Dir(mask, forest), d) && d.mask == e
    {
      if e in Masks(sub) {
        var i :| 0 <= i < |sub| && Masks(sub)[i] == e;
        SubDirsAre(mask, forest, sub[i]);
        assert ListedIn(Dir(mask, forest), sub[i]) && sub[i].mask == e;
      }
      if d :| ListedIn(Dir(mask, forest), d) && d.mask == e {
        SubDirsAre(mask, forest, d);
        var i :| 0 <= i < |sub| && sub[i] == d;
        assert Masks(sub)[i] == e;
      }
    }
  }

  /** A listing after which the buffer of the queue is not the one any more that
      the head was in: one directory with a long name is enough. */
  method HeadMoves(ctx: Filter, name: CString) returns (queue: ListQueue.Queue, before: array<char>)
    requires ListQueue.INITIAL_SIZE <= |name|
    ensures queue.buf != before
  {
    var mask: CString := [BACKSLASH, '*'];
    var info := ClientList.FileInfo(name, true, false, false, 0, 0);
    var search := OneDirectory(mask, info);
    var walker := new Walker(ctx, search, _ => false, ClientList.NT1);
    ghost var forest := [Entry(info, [])];
    queue := new ListQueue.Queue();
    queue.Add(mask);
    before := queue.buf;
    OneDirectoryServes(search, _ => false, mask, info);
    hide ListQueue.Queue.Valid, ListQueue.Queue.Proper, Serves;
    walker.ListOne(mask, queue, true, false, forest);
  }

  function OneDirectory(mask: CString, info: ClientList.FileInfo): CString -> ClientList.Results {
    m => if m == mask then [ClientList.Found(info, 0)] else []
  }

  lemma OneDirectoryServes(search: CString -> ClientList.Results, fails: CString -> bool,
                           mask: CString, info: ClientList.FileInfo)
    requires search == OneDirectory(mask, info) && mask == [BACKSLASH, '*'] && |info.name| >= 3 && info.isDirectory
    requires forall m :: !fails(m)
    ensures var forest := [Entry(info, [])];
            && Serves(Answered(search, fails), mask, forest)
            && |ListQueue.Pack(Masks(SubDirs(mask, forest)))| > |info.name|
  {
    var forest := [Entry(info, [])];
    var child := ChildMask(mask, info.name);
    assert DirPart(mask) == 1 by { assert mask[..1] == [BACKSLASH]; }
    assert |child| == |info.name| + 3;
    assert Serves(Answered(search, fails), child, []);
    assert ClientList.Infos([ClientList.Found(info, 0)]) == EntryInfos(forest);
    assert forest[1..] == [];
    assert SubDirs(mask, forest) == [Dir(child, [])];
    assert Masks([Dir(child, [])]) == [child];
    assert [child][1..] == [];
    assert ListQueue.Pack([child]) == child + [NUL] + ListQueue.Pack([]);
  }
}
