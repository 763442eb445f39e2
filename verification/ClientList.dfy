/** Paged directory listing over both SMB dialects (libcli/clilist.c). */
module ClientList {
  import opened CStrings

  /** clilist_file_info, with the attribute bits that its users look at. */
  datatype FileInfo = FileInfo(name: CString, isDirectory: bool, isReadOnly: bool, isArchive: bool,
                               size: nat, mtime: nat)

  /** A search result on the wire: the file and its old-style resume id. */
  datatype Found = Found(info: FileInfo, id: int)

  datatype SearchStatus = SearchOk | NoMoreFiles | SearchError

  datatype Protocol = Core | LanMan1 | LanMan2 | NT1

  function Infos(found: seq<Found>): (infos: seq<FileInfo>)
    ensures |infos| == |found|
  {
    seq(|found|, i requires 0 <= i < |found| => found[i].info)
  }

  /** Every entry can be resumed from, by name and by id. */
  ghost predicate Resumable(found: seq<Found>) {
    forall i, j :: 0 <= i < j < |found| ==> found[i].info.name != found[j].info.name && found[i].id != found[j].id
  }

  /** What one search finds. */
  type Results = found: seq<Found> | Resumable(found) witness []

  /** A server that answers one search, in pages of its own choosing, and
      resumes right after the entry it is given. `reliable` marks one that
      never fails, `failing` one that fails before it has told that it is at
      the end; any other may fail at any page. */
  class SearchServer {
    const found: seq<Found>
    const reliable: bool
    const failing: bool

    constructor (found: seq<Found>, reliable: bool, failing: bool)
      requires Resumable(found) && !(reliable && failing)
      ensures this.found == found && this.reliable == reliable && this.failing == failing && Valid()
    {
      this.found, this.reliable, this.failing := found, reliable, failing;
    }

    ghost predicate Valid()
      reads this
    {
      Resumable(found) && !(reliable && failing)
    }

    /** A page starting at `from`: empty only when nothing is left. */
    method Page(from: nat, maxCount: nat) returns (status: SearchStatus, page: seq<Found>, endOfSearch: bool)
      requires Valid() && from <= |found| && 0 < maxCount
      ensures |page| <= maxCount && from + |page| <= |found| && page == found[from..from + |page|]
      ensures status == SearchOk ==> (page == [] ==> from == |found|)
      ensures status == NoMoreFiles ==> from == |found|
      ensures status != SearchOk ==> page == []
      ensures reliable ==> status != SearchError
      ensures failing ==> !endOfSearch && (from == |found| ==> status == SearchError)
      ensures endOfSearch ==> from + |page| == |found|
    {
      page, endOfSearch := [], false;
      assert found[from..from] == [];
      if !reliable {
        if * {
          return SearchError, page, endOfSearch;
        }
      }
      if failing && from == |found| {
        return SearchError, page, endOfSearch;
      }
      if from == |found| {
        if * {
          return NoMoreFiles, page, endOfSearch;
        }
      }
      status := SearchOk;
      var most: nat := if |found| - from <= maxCount then |found| - from else maxCount;
      assert most <= most && (most > 0 ==> most > 0);
      var n: nat :| n <= most && (most > 0 ==> n > 0);
      page := found[from..from + n];
      if from + n == |found| && !failing {
        endOfSearch := *;
      }
    }

    method First(maxCount: nat) returns (status: SearchStatus, page: seq<Found>, endOfSearch: bool)
      requires Valid() && 0 < maxCount
      ensures |page| <= |found| && page == found[..|page|]
      ensures status == SearchOk && page == [] ==> found == []
      ensures status == NoMoreFiles ==> found == []
      ensures status != SearchOk ==> page == []
      ensures reliable ==> status == SearchOk
      ensures failing ==> !endOfSearch && (status == SearchOk ==> page != [])
      ensures endOfSearch ==> |page| == |found|
    {
      status, page, endOfSearch := Page(0, maxCount);
      if status == NoMoreFiles {
        status := SearchOk;
      }
    }

    /** Resume after the entry with the given name. */
    method NextByName(lastName: CString, maxCount: nat)
      returns (status: SearchStatus, page: seq<Found>, endOfSearch: bool)
      requires Valid() && 0 < maxCount
      ensures forall k :: 0 <= k < |found| && found[k].info.name == lastName ==>
                && k + 1 + |page| <= |found| && page == found[k + 1..k + 1 + |page|]
                && (status == SearchOk && page == [] ==> k + 1 == |found|)
                && (endOfSearch ==> k + 1 + |page| == |found|)
                && (failing ==> !endOfSearch && (status == SearchOk ==> page != []))
                && (reliable ==> status == SearchOk)
    {
      var i := 0;
      while i < |found| && found[i].info.name != lastName
        invariant 0 <= i <= |found|
        invariant forall j :: 0 <= j < i ==> found[j].info.name != lastName
      {
        i := i + 1;
      }
      if i == |found| {
        return SearchError, [], false;
      }
      status, page, endOfSearch := Page(i + 1, maxCount);
      if status == NoMoreFiles {
        status := SearchOk;
      }
    }

    /** Resume after the entry with the given id. */
    method NextById(id: int, maxCount: nat) returns (status: SearchStatus, page: seq<Found>)
      requires Valid() && 0 < maxCount
      ensures forall k :: 0 <= k < |found| && found[k].id == id ==>
                && k + 1 + |page| <= |found| && page == found[k + 1..k + 1 + |page|]
                && (status != SearchError && page == [] ==> k + 1 == |found|)
                && (status == NoMoreFiles ==> page == [])
                && (failing ==> status == SearchError || page != [])
                && (reliable ==> status != SearchError)
    {
      var i := 0;
      while i < |found| && found[i].id != id
        invariant 0 <= i <= |found|
        invariant forall j :: 0 <= j < i ==> found[j].id != id
      {
        i := i + 1;
      }
      if i == |found| {
        return SearchError, [];
      }
      var endOfSearch;
      status, page, endOfSearch := Page(i + 1, maxCount);
    }
  }

  /** search_private: what the callbacks accumulate during one search. */
  class SearchState {
    var dirlist: seq<FileInfo>
    var totalReceived: nat
    var lastName: CString
    var id: int

    constructor ()
      ensures dirlist == [] && totalReceived == 0
    {
      dirlist, totalReceived, lastName, id := [], 0, "", 0;
    }

    /** smbcli_list_new_callback and smbcli_list_old_callback on one entry. */
    method Callback(file: Found)
      requires totalReceived == |dirlist|
      modifies this
      ensures dirlist == old(dirlist) + [file.info] && totalReceived == |dirlist|
      ensures lastName == file.info.name && id == file.id
    {
      dirlist := dirlist + [file.info];
      lastName := dirlist[totalReceived].name;
      totalReceived := totalReceived + 1;
      id := file.id;
    }

    /** The transport runs the callback on every entry of a page, in order. */
    method Deliver(page: seq<Found>)
      requires totalReceived == |dirlist|
      modifies this
      ensures dirlist == old(dirlist) + Infos(page) && totalReceived == |dirlist|
      ensures page != [] ==> lastName == page[|page| - 1].info.name && id == page[|page| - 1].id
    {
      for i := 0 to |page|
        invariant dirlist == old(dirlist) + Infos(page)[..i] && totalReceived == |dirlist|
        invariant i > 0 ==> lastName == page[i - 1].info.name && id == page[i - 1].id
      {
        Callback(page[i]);
      }
    }
  }

  lemma InfosNothing()
    ensures Infos([]) == []
  {
  }

  lemma InfosConcat(a: seq<Found>, b: seq<Found>)
    ensures Infos(a + b) == Infos(a) + Infos(b)
  {
  }

  /** smbcli_list_new: collect every page of a trans2 search, resuming by the
      last name received; then run the caller's function on the collected
      entries. `calls` is the sequence of those runs. */
  method ListNew(server: SearchServer) returns (ret: int, calls: seq<FileInfo>)
    requires server.Valid()
    ensures ret == -1 ==> calls == []
    ensures ret != -1 ==> calls == Infos(server.found) && ret == |server.found|
    ensures server.reliable ==> ret != -1
    ensures server.failing ==> ret == -1
  {
    hide Infos, Resumable;
    calls := [];
    InfosNothing();
    assert server.found[..0] == [];
    var state := new SearchState();
    var first := true;
    ghost var n: nat := 0;
    while true
      invariant fresh(state) && state.totalReceived == |state.dirlist| == n <= |server.found|
      invariant state.dirlist == Infos(server.found[..n])
      invariant first <==> n == 0
      invariant n > 0 ==> state.lastName == server.found[n - 1].info.name
      decreases |server.found| - n, first
    {
      var status, page, endOfSearch;
      if first {
        status, page, endOfSearch := server.First(512);
        if status != SearchOk {
          return -1, [];
        }
      } else {
        status, page, endOfSearch := server.NextByName(state.lastName, 512);
        if status != SearchOk {
          return -1, [];
        }
      }
      state.Deliver(page);
      InfosConcat(server.found[..n], page);
      assert server.found[..n] + page == server.found[..n + |page|];
      n := n + |page|;
      if |page| <= 0 {
        break;
      }
      if endOfSearch {
        break;
      }
      first := false;
    }
    assert server.found[..n] == server.found;
    var i := 0;
    while i < state.totalReceived
      invariant i <= state.totalReceived == |state.dirlist|
      invariant state.dirlist == Infos(server.found)
      invariant calls == state.dirlist[..i]
    {
      calls := calls + [state.dirlist[i]];
      i := i + 1;
    }
    ret := state.totalReceived;
  }

  /** smbcli_list_old: the same over the core search, resuming by id. */
  method ListOld(server: SearchServer) returns (ret: int, calls: seq<FileInfo>)
    requires server.Valid()
    ensures ret == -1 ==> calls == []
    ensures ret != -1 ==> calls == Infos(server.found) && ret == |server.found|
    ensures server.reliable ==> ret != -1
    ensures server.failing ==> ret == -1
  {
    hide Infos, Resumable;
    calls := [];
    InfosNothing();
    assert server.found[..0] == [];
    var state := new SearchState();
    var first := true;
    ghost var n: nat := 0;
    while true
      invariant fresh(state) && state.totalReceived == |state.dirlist| == n <= |server.found|
      invariant state.dirlist == Infos(server.found[..n])
      invariant first <==> n == 0
      invariant n > 0 ==> state.id == server.found[n - 1].id
      decreases |server.found| - n, first
    {
      var status, page;
      if first {
        var endOfSearch;
        status, page, endOfSearch := server.First(500);
        if status != SearchOk {
          return -1, [];
        }
      } else {
        status, page := server.NextById(state.id, 500);
        if status == NoMoreFiles {
          break;
        }
        if status != SearchOk {
          return -1, [];
        }
      }
      state.Deliver(page);
      InfosConcat(server.found[..n], page);
      assert server.found[..n] + page == server.found[..n + |page|];
      n := n + |page|;
      if |page| <= 0 {
        break;
      }
      first := false;
    }
    assert server.found[..n] == server.found;
    var i := 0;
    while i < state.totalReceived
      invariant i <= state.totalReceived == |state.dirlist|
      invariant state.dirlist == Infos(server.found)
      invariant calls == state.dirlist[..i]
    {
      calls := calls + [state.dirlist[i]];
      i := i + 1;
    }
    ret := state.totalReceived;
  }

  lemma InfosAre(found: seq<Found>)
    ensures forall i :: 0 <= i < |found| ==> Infos(found)[i] == found[i].info
  {
  }

  /** smbcli_list: dialects up to LANMAN1 use the old search. */
  method List(server: SearchServer, protocol: Protocol) returns (ret: int, calls: seq<FileInfo>)
    requires server.Valid()
    ensures ret == -1 ==> calls == []
    ensures ret != -1 ==> calls == Infos(server.found) && ret == |server.found|
    ensures ret != -1 ==> |calls| == ret && forall i :: 0 <= i < |calls| ==> calls[i] == server.found[i].info
    ensures server.reliable ==> ret != -1
    ensures server.failing ==> ret == -1
  {
    InfosAre(server.found);
    hide Infos;
    if protocol.Core? || protocol.LanMan1? {
      ret, calls := ListOld(server);
    } else {
      ret, calls := ListNew(server);
    }
  }
}
