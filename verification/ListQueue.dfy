/** The queue of directory masks behind smbclient's recursive listing: a FIFO of
    C strings packed, NUL-terminated, into one growing and sliding character
    buffer (client/client.c). */
module ListQueue {
  import opened CStrings

  const INITIAL_SIZE: nat := 1024

  /** The bytes of a list of strings, each with its terminator. */
  function Pack(entries: seq<CString>): string {
    if entries == [] then "" else entries[0] + [NUL] + Pack(entries[1..])
  }

  lemma {:induction false} PackSnoc(entries: seq<CString>, e: CString)
    ensures Pack(entries + [e]) == Pack(entries) + e + [NUL]
  {
    if entries == [] {
      assert entries + [e] == [e];
      assert [e][1..] == [];
    } else {
      assert (entries + [e])[1..] == entries[1..] + [e];
      PackSnoc(entries[1..], e);
    }
  }

  /** The packed form determines the strings: nothing is lost by packing. */
  lemma {:induction false} PackInjective(a: seq<CString>, b: seq<CString>)
    requires Pack(a) == Pack(b)
    ensures a == b
  {
    if a != [] && b != [] {
      HeadLength(a);
      HeadLength(b);
      assert a[0] == Pack(a)[..|a[0]|];
      assert b[0] == Pack(b)[..|b[0]|];
      assert |a[0]| == |b[0]|;
      assert Pack(a)[|a[0]| + 1..] == Pack(a[1..]);
      assert Pack(b)[|b[0]| + 1..] == Pack(b[1..]);
      PackInjective(a[1..], b[1..]);
      assert a == [a[0]] + a[1..] && b == [b[0]] + b[1..];
    }
  }

  /** The first NUL of a packed list ends its first string. */
  lemma HeadLength(entries: seq<CString>)
    requires entries != []
    ensures |entries[0]| < |Pack(entries)|
    ensures Pack(entries)[|entries[0]|] == NUL
    ensures Pack(entries)[..|entries[0]|] == entries[0]
  {
  }

  /** safe_strcpy: copy `src` and its terminator, cut to `maxLength` characters. */
  method SafeStrcpy(buf: array<char>, at: nat, src: CString, maxLength: nat)
    requires at + maxLength < buf.Length
    modifies buf
    ensures var len := if |src| > maxLength then maxLength else |src|;
            buf[..] == old(buf[..at]) + src[..len] + [NUL] + old(buf[at + len + 1..])
  {
    var len := |src|;
    if len > maxLength {
      len := maxLength;
    }
    forall i | 0 <= i < len {
      buf[at + i] := src[i];
    }
    buf[at + len] := NUL;
  }

  /** realloc to twice the size, with the new half cleared. */
  method Doubled(buf: array<char>) returns (bigger: array<char>)
    ensures fresh(bigger) && bigger.Length == 2 * buf.Length
    ensures bigger[..buf.Length] == buf[..]
    ensures forall i :: buf.Length <= i < bigger.Length ==> bigger[i] == NUL
  {
    bigger := new char[2 * buf.Length](_ => NUL);
    forall i | 0 <= i < buf.Length {
      bigger[i] := buf[i];
    }
  }

  // ---- what a caller can tell from the operations alone ----

  datatype Op = Push(entry: CString) | Pop

  /** The strings, the layout of the buffer and the string at byte 0. */
  datatype State = State(entries: seq<CString>, size: nat, start: int, end: int, anchor: CString)

  const INITIAL: State := State([], INITIAL_SIZE, 0, 0, "")

  /** The size after doubling until `newEnd` fits. */
  function Grown(size: nat, newEnd: nat): (r: nat)
    requires 0 < size
    ensures size <= r && newEnd <= r && (size < r ==> r < 2 * newEnd)
    decreases newEnd - size
  {
    if newEnd <= size then size else Grown(2 * size, newEnd)
  }

  function Step(s: State, op: Op): (t: State)
    ensures t.entries == match op
                         case Push(e) => s.entries + [e]
                         case Pop => if s.entries == [] then [] else s.entries[1..]
  {
    match op
    case Push(e) =>
      var end := s.end + |e| + 1;
      State(s.entries + [e], if 0 < s.size && 0 <= end then Grown(s.size, end) else s.size, s.start, end,
            if s.entries == [] then e else s.anchor)
    case Pop =>
      if s.entries == [] then s
      else
        var rest, start := s.entries[1..], s.start + |s.entries[0]| + 1;
        if rest == [] then State(rest, s.size, 0, 0, s.anchor)
        else if start > s.size / 2 then State(rest, s.size, 0, s.end - start, rest[0])
        else State(rest, s.size, start, s.end, s.anchor)
  }

  /** The state after any sequence of operations on a new queue. */
  function After(ops: seq<Op>): State {
    if ops == [] then INITIAL else Step(After(ops[..|ops| - 1]), ops[|ops| - 1])
  }

  /** As long as no empty string is added, none is ever at byte 0 of a queue that
      has entries. */
  lemma {:induction false} AnchorOfStrings(ops: seq<Op>)
    requires forall i :: 0 <= i < |ops| ==> ops[i] != Push("")
    ensures var s := After(ops);
            (s.entries != [] ==> s.anchor != "") && forall i :: 0 <= i < |s.entries| ==> s.entries[i] != ""
  {
    if ops != [] {
      AnchorOfStrings(ops[..|ops| - 1]);
    }
  }

  class Queue {
    var buf: array<char>
    var size: nat
    var start: nat
    var end: nat

    /** The strings in the queue. */
    ghost var entries: seq<CString>

    /** The string whose bytes were last laid down at byte 0 of the buffer. */
    ghost var anchor: CString

    ghost predicate Valid()
      reads this, buf
    {
      && 0 < size == buf.Length
      && start <= end <= size && start <= size / 2
      && buf[start..end] == Pack(entries)
      && (entries == [] ==> start == end == 0 && buf[0] == NUL)
      && (entries != [] ==> buf[0] == if anchor == "" then NUL else anchor[0])
    }

    /** The emptiness test looks at byte 0, which the head has left behind. It is
        right as long as no empty string was laid down there. */
    ghost predicate Proper()
      reads this
    {
      (entries != [] ==> anchor != "") && forall i :: 0 <= i < |entries| ==> entries[i] != ""
    }

    /** All that the operations depend on. */
    ghost function Now(): State
      reads this
    {
      State(entries, size, start, end, anchor)
    }

    /** init_do_list_queue */
    constructor ()
      ensures Valid() && Proper() && fresh(buf) && entries == []
      ensures Now() == INITIAL
    {
      size := INITIAL_SIZE;
      buf := new char[INITIAL_SIZE](_ => NUL);
      start, end := 0, 0;
      entries, anchor := [], "";
    }

    /** adjust_do_list_queue: rewind an empty queue; slide a queue that starts
        beyond the middle of the buffer back to its beginning. */
    method Adjust()
      requires 0 < size == buf.Length && start <= end <= size
      requires buf[start..end] == Pack(entries)
      requires entries != [] ==> buf[0] == if anchor == "" then NUL else anchor[0]
      modifies this`start, this`end, this`anchor, buf
      ensures Valid() && buf[start..end] == old(buf[start..end])
      ensures anchor == if entries != [] && old(start) > size / 2 then entries[0] else old(anchor)
      ensures start == if entries == [] || old(start) > size / 2 then 0 else old(start)
      ensures end - start == old(end) - old(start)
    {
      if entries != [] {
        HeadLength(entries);
      }
      if start == end {
        start, end := 0, 0;
        buf[0] := NUL;
      } else if start > size / 2 {
        ghost var content := buf[start..end];
        forall i | 0 <= i < end - start {
          buf[i] := buf[start + i];
        }
        assert buf[..end - start] == content;
        end := end - start;
        start := 0;
        anchor := entries[0];
        assert buf[0] == content[0];
      }
    }

    /** One round of the enlarging loop. */
    method Double()
      requires Valid()
      modifies this`buf, this`size
      ensures Valid() && size == 2 * old(size) && fresh(buf)
      ensures buf[start..end] == old(buf[start..end])
    {
      hide Pack;
      var bigger := Doubled(buf);
      assert forall i :: 0 <= i < size ==> bigger[i] == bigger[..size][i] == buf[i];
      assert bigger[start..end] == buf[start..end];
      buf := bigger;
      size := size * 2;
    }

    /** The enlarging loop of add_to_do_list_queue: double until `newEnd` fits. */
    method Enlarge(newEnd: nat)
      requires Valid()
      modifies this`buf, this`size
      ensures Valid() && newEnd <= size && old(size) <= size
      ensures size == Grown(old(size), newEnd)
      ensures buf == old(buf) || fresh(buf)
      // the head is where it was, unless the buffer had to be replaced
      ensures buf == old(buf) <==> newEnd <= old(size)
      ensures buf[start..end] == old(buf[start..end])
    {
      hide Pack;
      while newEnd > size
        invariant Valid() && old(size) <= size
        invariant Grown(size, newEnd) == Grown(old(size), newEnd)
        invariant old(size) < size ==> old(size) < newEnd
        invariant if size == old(size) then buf == old(buf) else fresh(buf)
        invariant buf[start..end] == old(buf[start..end])
        decreases newEnd - size
      {
        Double();
      }
    }

    /** add_to_do_list_queue */
    method Add(entry: CString)
      requires Valid()
      modifies this, buf
      ensures Valid() && (buf == old(buf) || fresh(buf))
      ensures entries == old(entries) + [entry]
      ensures anchor == if old(entries) == [] then entry else old(anchor)
      ensures start == old(start) && end == old(end) + |entry| + 1
      ensures buf == old(buf) <==> end <= old(size)
      ensures buf == old(buf) ==> size == old(size)
      ensures Now() == Step(old(Now()), Push(entry))
      ensures old(Proper()) && entry != "" ==> Proper()
    {
      Fits();
      hide Queue.Valid;
      Append(entry);
    }

    lemma Fits()
      requires Valid()
      ensures 0 < size && end <= size
    {
    }

    /** Enlarge the buffer if need be, and put the entry behind the others. */
    method Append(entry: CString)
      requires Valid()
      modifies this, buf
      ensures Valid() && (buf == old(buf) || fresh(buf))
      ensures entries == old(entries) + [entry] && anchor == if old(entries) == [] then entry else old(anchor)
      ensures start == old(start) && end == old(end) + |entry| + 1 && size == Grown(old(size), end)
      ensures buf == old(buf) <==> end <= old(size)
    {
      hide Grown;
      var newEnd := end + |entry| + 1;
      Enlarge(newEnd);
      PackSnoc(entries, entry);
      hide Pack;
      CopyIn(entry);
      end := newEnd;
      if entries == [] {
        anchor := entry;
      }
      entries := entries + [entry];
    }

    /** Copy a string and its terminator behind the entries. */
    method CopyIn(entry: CString)
      requires Valid() && end + |entry| + 1 <= size
      modifies buf
      ensures buf[start..end + |entry| + 1] == old(buf[start..end]) + entry + [NUL]
      ensures buf[0] == if end == 0 then (entry + [NUL])[0] else old(buf[0])
    {
      hide Pack;
      ghost var content := buf[start..end];
      SafeStrcpy(buf, end, entry, size - end - 1);
      assert entry[..|entry|] == entry;
      assert buf[start..end + |entry| + 1] == content + entry + [NUL];
    }

    /** do_list_queue_head, as a copied value; the caller has seen that the
        queue is not empty. */
    method Head() returns (head: CString)
      requires Valid() && entries != []
      ensures head == entries[0]
    {
      HeadLength(entries);
      var n := HeadLen();
      head := buf[start..start + n];
    }

    method HeadLen() returns (n: nat)
      requires Valid() && entries != []
      ensures n == |entries[0]| && start + n < end && buf[start..start + n] == entries[0]
    {
      HeadLength(entries);
      ghost var k := |entries[0]|;
      ghost var content := buf[start..end];
      assert content[k] == buf[start + k] == NUL;
      assert content[..k] == buf[start..start + k];
      n := Strlen(buf, start, start + k);
      assert n == k;
    }

    /** remove_do_list_queue_head: a no-op on an empty queue. */
    method RemoveHead()
      requires Valid()
      modifies this`start, this`end, this`anchor, this`entries, buf
      ensures Valid()
      ensures old(entries) == [] ==> entries == []
      ensures old(entries) != [] ==> entries == old(entries)[1..]
      // the queue starts in the first half of its buffer
      ensures start <= size / 2 && start <= end <= size && size == old(size)
      // what lies at byte 0 changes only when the queue slides
      ensures entries != [] ==>
                anchor == if old(start) + |old(entries)[0]| + 1 > size / 2 then entries[0] else old(anchor)
      ensures Now() == Step(old(Now()), Pop)
      ensures old(Proper()) ==> Proper()
    {
      if entries != [] {
        HeadLength(entries);
      }
      if end > start {
        var n := HeadLen();
        ghost var content := buf[start..end];
        assert content[n + 1..] == Pack(entries[1..]);
        assert content[n + 1..] == buf[start + n + 1..end];
        start := start + n + 1;
        entries := entries[1..];
        Adjust();
      }
    }

    /** do_list_queue_empty: the test on byte 0. */
    method IsEmpty() returns (empty: bool)
      requires Valid()
      ensures empty <==> entries == [] || anchor == ""
      ensures Proper() ==> (empty <==> entries == [])
    {
      empty := buf[0] == NUL;
    }
  }

  /** Any sequence of operations on a new queue, and then the emptiness test. Its
      result is known from the operations, and right for non-empty strings. */
  method Execute(ops: seq<Op>) returns (q: Queue, empty: bool)
    ensures fresh(q) && q.Valid() && q.entries == After(ops).entries
    ensures empty <==> After(ops).entries == [] || After(ops).anchor == ""
    ensures (forall i :: 0 <= i < |ops| ==> ops[i] != Push("")) ==> (empty <==> q.entries == [])
  {
    hide Pack, Step, Queue.Valid;
    q := new Queue();
    for i := 0 to |ops|
      invariant fresh(q) && fresh(q.buf) && q.Valid() && q.Now() == After(ops[..i])
    {
      match ops[i] {
        case Push(entry) => q.Add(entry);
        case Pop => q.RemoveHead();
      }
      assert ops[..i + 1][..i] == ops[..i];
    }
    assert ops[..|ops|] == ops;
    if forall i :: 0 <= i < |ops| ==> ops[i] != Push("") {
      AnchorOfStrings(ops);
    }
    empty := q.IsEmpty();
  }

  /** Without that, the test is wrong: it can report an empty queue although an
      entry is waiting. */
  method EmptyStringIsLost() returns (q: Queue, empty: bool)
    ensures q.entries == [""] && empty
  {
    q := new Queue();
    q.Add("");
    empty := q.IsEmpty();
  }

  /** An empty string behind another one is found as long as the queue has not
      slid: the test still sees the string that came first. */
  method EmptyStringIsFound() returns (q: Queue, empty: bool)
    ensures q.entries == [""] && !empty
  {
    q := new Queue();
    q.Add("a");
    q.Add("");
    q.RemoveHead();
    empty := q.IsEmpty();
  }
}
