/** Pulling one directory partition from a domain controller: the reply lists
    are spliced into one heap list, and each request carries the watermark of
    the reply before it (libnet/libnet_become_dc.c; IDL_DRSGetNCChanges,
    section 4.1.10 of MS-DRSR). */
module Replication {

  datatype DirObject = DirObject(dn: string, usn: nat)

  /** DsReplicaHighWaterMark: more is to come while tmpHighestUsn is ahead. */
  datatype Watermark = Watermark(tmpHighestUsn: nat, highestUsn: nat)

  const ZERO_MARK := Watermark(0, 0)

  /** DsReplicaObjectListItemEx */
  class Item {
    const entry: DirObject
    var next: Item?

    constructor (entry: DirObject, next: Item?)
      ensures this.entry == entry && this.next == next
    {
      this.entry, this.next := entry, next;
    }
  }

  /** `items` is the linked list that starts at its first element. */
  ghost predicate Linked(items: seq<Item>)
    reads items
  {
    && (forall i {:trigger items[i].next} :: 0 <= i < |items| - 1 ==> items[i].next == items[i + 1])
    && (items != [] ==> items[|items| - 1].next == null)
    && (forall i, j :: 0 <= i < j < |items| ==> items[i] != items[j])
  }

  lemma LinkedConcat(a: seq<Item>, b: seq<Item>)
    requires forall i {:trigger a[i].next} :: 0 <= i < |a| - 1 ==> a[i].next == a[i + 1]
    requires forall i, j :: 0 <= i < j < |a| ==> a[i] != a[j]
    requires Linked(b) && b != []
    requires a != [] ==> a[|a| - 1].next == b[0]
    requires forall x :: x in b ==> x !in a
    ensures Linked(a + b)
  {
    var all := a + b;
    forall i {:trigger all[i].next} | 0 <= i < |all| - 1
      ensures all[i].next == all[i + 1]
    {
      if i >= |a| {
        assert all[i] == b[i - |a|] && all[i + 1] == b[i - |a| + 1];
      } else {
        assert all[i] == a[i];
      }
    }
    assert all[|all| - 1] == b[|b| - 1];
    forall i, j | 0 <= i < j < |all|
      ensures all[i] != all[j]
    {
      if i < |a| <= j {
        assert all[j] in b && all[i] in a;
      } else if i >= |a| {
        assert all[i] == b[i - |a|] && all[j] == b[j - |a|];
      }
    }
  }

  /** Point the last link of one list at the head of another. */
  method Link(last: Item, first: Item, ghost a: seq<Item>, ghost b: seq<Item>)
    requires a != [] && b != [] && Linked(a) && Linked(b)
    requires last == a[|a| - 1] && first == b[0]
    requires forall x :: x in b ==> x !in a
    modifies last`next
    ensures Linked(a + b)
  {
    assert last in a;
    forall i | 0 <= i < |b|
      ensures b[i] != last
    {
      assert b[i] in b;
    }
    last.next := first;
    LinkedConcat(a, b);
  }

  ghost function Objects(items: seq<Item>): (objects: seq<DirObject>)
    ensures |objects| == |items|
  {
    seq(|items|, i requires 0 <= i < |items| => items[i].entry)
  }

  lemma ObjectsNothing()
    ensures Objects([]) == []
  {
  }

  lemma ObjectsConcat(a: seq<Item>, b: seq<Item>)
    ensures Objects(a + b) == Objects(a) + Objects(b)
  {
  }

  /** NullDereference is no code of the wire: the process ends there. */
  datatype WError = WerrOk | WerrBadNetResp | WerrOther(code: nat) | NullDereference

  /** DsGetNCChangesCtr1 and Ctr6, as far as the client looks at them. */
  datatype Ctr = Ctr(sourceDsaGuid: nat, invocationId: nat, watermark: Watermark, first: Item?)

  /** The levels at which a reply may come; level 7 wraps another level. */
  datatype Body = Level1(ctr: Ctr) | Level2(ctr: Ctr) | Level6(ctr: Ctr)
                | Level7(innerLevel: nat, mszip: bool, ctr: Ctr) | OtherLevel

  datatype Reply = Reply(result: WError, body: Body)

  /** What becomeDC_drsuapi_pull_partition_recv makes of a reply. The search for
      the tail of the reply list follows a null pointer if there is no object. */
  function Status(r: Reply): WError {
    if r.result != WerrOk then r.result
    else match r.body
      case Level1(ctr) => ListStatus(ctr)
      case Level2(ctr) => ListStatus(ctr)
      case Level6(ctr) => ListStatus(ctr)
      case Level7(inner, mszip, ctr) => if inner == 6 && mszip then ListStatus(ctr) else WerrBadNetResp
      case OtherLevel => WerrBadNetResp
  }

  function ListStatus(ctr: Ctr): WError {
    if ctr.first == null then NullDereference else WerrOk
  }

  /** One answered request: its new watermark and its objects. */
  datatype Chunk = Chunk(watermark: Watermark, objects: seq<DirObject>)

  ghost function AllObjects(chunks: seq<Chunk>): seq<DirObject> {
    if chunks == [] then [] else AllObjects(chunks[..|chunks| - 1]) + chunks[|chunks| - 1].objects
  }

  /** The watermark after the first `n` replies. */
  ghost function MarkAfter(chunks: seq<Chunk>, n: nat): Watermark
    requires n <= |chunks|
  {
    if n == 0 then ZERO_MARK else chunks[n - 1].watermark
  }

  /** becomeDC_partition */
  class Partition {
    var watermark: Watermark
    var sourceDsaGuid: nat
    var invocationId: nat
    var firstObject: Item?
    var lastObject: Item?

    /** The watermarks of the requests sent so far. */
    var requests: seq<Watermark>

    ghost var items: seq<Item>
    ghost var nodes: set<Item>
    ghost var replies: seq<Chunk>

    ghost predicate ListValid()
      reads this, nodes
    {
      && nodes == (set x | x in items)
      && Linked(items)
      && (items == [] <==> firstObject == null)
      && (items != [] ==> firstObject == items[0] && lastObject == items[|items| - 1])
    }

    /** The list is all replies in order; every request continues where the
        reply before it ended. */
    ghost predicate HistoryValid()
      reads this
    {
      && Objects(items) == AllObjects(replies)
      && watermark == MarkAfter(replies, |replies|)
      && |replies| <= |requests| <= |replies| + 1
      && forall i :: 0 <= i < |requests| ==> requests[i] == MarkAfter(replies, i)
    }

    ghost predicate Valid()
      reads this, nodes
    {
      ListValid() && HistoryValid()
    }

    constructor ()
      ensures Valid() && items == [] && nodes == {} && requests == [] && replies == []
    {
      watermark, sourceDsaGuid, invocationId := ZERO_MARK, 0, 0;
      firstObject, lastObject := null, null;
      requests, items, nodes, replies := [], [], {}, [];
    }

    /** becomeDC_drsuapi_pull_partition_send */
    method PullSend()
      requires Valid() && |requests| == |replies|
      modifies this`requests
      ensures Valid() && requests == old(requests) + [watermark]
    {
      requests := requests + [watermark];
    }

    /** The search for the tail of a reply list. */
    static method Tail(first: Item, ghost chain: seq<Item>) returns (cur: Item)
      requires chain != [] && chain[0] == first && Linked(chain)
      ensures cur == chain[|chain| - 1]
    {
      cur := first;
      ghost var k := 0;
      while cur.next != null
        invariant 0 <= k < |chain| && cur == chain[k]
        decreases |chain| - k
      {
        assert k < |chain| - 1;
        cur := cur.next;
        k := k + 1;
      }
      assert k == |chain| - 1;
    }

    /** Hang the reply list onto the end of the partition's list. */
    method Splice(first: Item, ghost chain: seq<Item>)
      requires ListValid() && Linked(chain) && chain != [] && chain[0] == first
      requires forall x :: x in chain ==> x !in nodes
      modifies this`firstObject, this`lastObject, this`items, this`nodes, nodes
      ensures ListValid() && items == old(items) + chain && nodes == old(nodes) + (set x | x in chain)
    {
      hide Linked;
      var tail := Tail(first, chain);
      if firstObject == null {
        firstObject := first;
        assert items + chain == chain;
      } else {
        Link(lastObject, first, items, chain);
        assert (items + chain)[0] == items[0];
        assert (items + chain)[|items + chain| - 1] == chain[|chain| - 1];
      }
      lastObject := tail;
      items := items + chain;
      nodes := nodes + (set x | x in chain);
    }

    /** becomeDC_drsuapi_pull_partition_recv. `chain` is the list that an
        acceptable reply brings along. */
    method PullRecv(r: Reply, ghost chain: seq<Item>) returns (status: WError)
      requires Valid() && |requests| == |replies| + 1
      requires Status(r) == WerrOk ==> chain != [] && chain[0] == r.body.ctr.first && Linked(chain)
      requires forall x :: x in chain ==> x !in nodes
      modifies this, nodes
      ensures status == Status(r) && requests == old(requests)
      // which replies are acceptable: those at level 1, 2 or 6, or a compressed level 6 at level 7
      ensures r.result != WerrOk ==> status == r.result
      ensures r.result == WerrOk ==>
                (status == WerrBadNetResp <==>
                   r.body.OtherLevel? || (r.body.Level7? && !(r.body.innerLevel == 6 && r.body.mszip)))
      ensures r.result == WerrOk && status != WerrBadNetResp ==>
                && (status == WerrOk <==> r.body.ctr.first != null)
                && (status == NullDereference <==> r.body.ctr.first == null)
      ensures Valid()
      ensures status != WerrOk ==> items == old(items) && nodes == old(nodes) && replies == old(replies)
      ensures status == WerrOk ==>
                && items == old(items) + chain && nodes == old(nodes) + (set x | x in chain)
                && replies == old(replies) + [Chunk(r.body.ctr.watermark, Objects(chain))]
                && watermark == r.body.ctr.watermark
                && sourceDsaGuid == r.body.ctr.sourceDsaGuid && invocationId == r.body.ctr.invocationId
    {
      if r.result != WerrOk {
        return r.result;
      }
      if r.body.OtherLevel? {
        return WerrBadNetResp;
      }
      if r.body.Level7? && (r.body.innerLevel != 6 || !r.body.mszip) {
        return WerrBadNetResp;
      }
      var ctr := r.body.ctr;
      if ctr.first == null {
        return NullDereference;
      }
      status := WerrOk;
      hide Linked, Objects, AllObjects, MarkAfter, Status;
      watermark := ctr.watermark;
      sourceDsaGuid := ctr.sourceDsaGuid;
      invocationId := ctr.invocationId;
      ghost var before := items;
      Splice(ctr.first, chain);
      HistoryStep(before, chain, replies, requests, ctr.watermark);
      replies := replies + [Chunk(ctr.watermark, Objects(chain))];
    }
  }

  lemma HistoryStep(items: seq<Item>, chain: seq<Item>, replies: seq<Chunk>, requests: seq<Watermark>, mark: Watermark)
    requires Objects(items) == AllObjects(replies)
    requires |requests| == |replies| + 1
    requires forall i :: 0 <= i < |requests| ==> requests[i] == MarkAfter(replies, i)
    ensures var done := replies + [Chunk(mark, Objects(chain))];
            && Objects(items + chain) == AllObjects(done)
            && MarkAfter(done, |done|) == mark
            && forall i :: 0 <= i < |requests| ==> requests[i] == MarkAfter(done, i)
  {
    var done := replies + [Chunk(mark, Objects(chain))];
    ObjectsConcat(items, chain);
    assert done[..|done| - 1] == replies;
    forall i | 0 <= i < |requests|
      ensures requests[i] == MarkAfter(done, i)
    {
      assert requests[i] == MarkAfter(replies, i);
    }
  }

  // ---- a server that answers from the watermark ----

  const MAX_OBJECT_COUNT: nat := 133

  /** A naming context in the order of its update sequence numbers. */
  ghost predicate Ordered(objects: seq<DirObject>) {
    && (forall i :: 0 <= i < |objects| ==> 0 < objects[i].usn)
    && (forall i, j :: 0 <= i < j < |objects| ==> objects[i].usn < objects[j].usn)
  }

  class Source {
    const objects: seq<DirObject>

    constructor (objects: seq<DirObject>)
      requires objects != [] && Ordered(objects)
      ensures this.objects == objects
    {
      this.objects := objects;
    }

    /** The list of `os` in fresh memory. */
    static method BuildList(os: seq<DirObject>) returns (first: Item?, ghost chain: seq<Item>)
      ensures fresh(chain) && Linked(chain) && Objects(chain) == os
      ensures if os == [] then first == null else first == chain[0]
    {
      first, chain := null, [];
      var n := |os|;
      while n > 0
        invariant 0 <= n <= |os|
        invariant fresh(chain) && Linked(chain) && Objects(chain) == os[n..]
        invariant if n == |os| then first == null else first == chain[0]
      {
        n := n - 1;
        first := new Item(os[n], first);
        ghost var longer := [first] + chain;
        forall i {:trigger longer[i].next} | 0 <= i < |longer| - 1
          ensures longer[i].next == longer[i + 1]
        {
          if i > 0 {
            assert longer[i] == chain[i - 1];
          }
        }
        assert forall i :: 0 < i < |longer| ==> longer[i] == chain[i - 1];
        assert Objects(longer) == [os[n]] + Objects(chain);
        chain := longer;
      }
    }

    /** Answer a request: some of the objects beyond its watermark, at least one
        and at most the requested maximum, at any level the client knows. */
    method GetNCChanges(mark: Watermark, ghost from: nat) returns (r: Reply, ghost chain: seq<Item>)
      requires Ordered(objects) && from < |objects|
      requires forall i :: 0 <= i < |objects| ==> (objects[i].usn <= mark.highestUsn <==> i < from)
      ensures fresh(chain) && Linked(chain) && 1 <= |chain| <= MAX_OBJECT_COUNT && from + |chain| <= |objects|
      ensures Status(r) == WerrOk && chain[0] == r.body.ctr.first
      ensures Objects(chain) == objects[from..from + |chain|]
      ensures r.body.ctr.watermark.highestUsn == objects[from + |chain| - 1].usn
      ensures r.body.ctr.watermark.tmpHighestUsn > r.body.ctr.watermark.highestUsn <==> from + |chain| < |objects|
    {
      var pos := 0;
      while objects[pos].usn <= mark.highestUsn
        invariant 0 <= pos <= from
        decreases from - pos
      {
        pos := pos + 1;
      }
      var most: nat := if |objects| - pos <= MAX_OBJECT_COUNT then |objects| - pos else MAX_OBJECT_COUNT;
      assert 1 <= most <= most;
      var n: nat :| 1 <= n <= most;
      var first;
      first, chain := BuildList(objects[pos..pos + n]);
      var newMark := Watermark(objects[|objects| - 1].usn, objects[pos + n - 1].usn);
      var ctr := Ctr(1, 2, newMark, first);
      var body := Level1(ctr);
      if * {
        body := Level2(ctr);
      }
      if * {
        body := Level6(ctr);
      }
      if * {
        body := Level7(6, true, ctr);
      }
      r := Reply(WerrOk, body);
    }
  }

  /** One request, its answer and its splicing, against such a server. */
  method PullOnce(source: Source, p: Partition, ghost n: nat) returns (more: bool, ghost n': nat)
    requires Ordered(source.objects) && n < |source.objects|
    requires p.Valid() && |p.requests| == |p.replies| && Objects(p.items) == source.objects[..n]
    requires p.watermark.highestUsn == if n == 0 then 0 else source.objects[n - 1].usn
    modifies p, p.nodes
    ensures p.Valid() && |p.requests| == |p.replies| && fresh(p.nodes - old(p.nodes))
    ensures n < n' <= |source.objects| && Objects(p.items) == source.objects[..n']
    ensures p.watermark.highestUsn == source.objects[n' - 1].usn
    ensures more <==> n' < |source.objects|
  {
    hide Linked, Objects, Partition.Valid;
    p.PullSend();
    var r;
    ghost var chain;
    r, chain := source.GetNCChanges(p.watermark, n);
    ghost var before := p.items;
    var status := p.PullRecv(r, chain);
    ObjectsConcat(before, chain);
    n' := n + |chain|;
    assert source.objects[..n] + source.objects[n..n'] == source.objects[..n'];
    more := p.watermark.tmpHighestUsn > p.watermark.highestUsn;
  }

  /** One of the three pull loops, against such a server: request, splice, and
      ask again while the watermark says that more is to come. The partition
      ends up with the whole naming context, without gap or duplicate. */
  method PullAll(source: Source, p: Partition)
    requires Ordered(source.objects) && source.objects != []
    requires p.Valid() && p.items == [] && p.nodes == {} && p.requests == [] && p.replies == []
    modifies p
    ensures p.Valid() && fresh(p.nodes)
    ensures Objects(p.items) == source.objects
    ensures |p.requests| == |p.replies|
  {
    assert p.watermark == ZERO_MARK;
    hide Linked, Objects, Partition.Valid, Ordered;
    ObjectsNothing();
    ghost var n := 0;
    var more := true;
    while more
      invariant p.Valid() && fresh(p.nodes) && |p.requests| == |p.replies|
      invariant 0 <= n <= |source.objects| && Objects(p.items) == source.objects[..n]
      invariant p.watermark.highestUsn == if n == 0 then 0 else source.objects[n - 1].usn
      invariant more <==> n < |source.objects|
      decreases |source.objects| - n
    {
      more, n := PullOnce(source, p, n);
    }
    assert source.objects[..n] == source.objects;
  }
}
