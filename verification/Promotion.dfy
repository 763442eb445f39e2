/** Order of the steps that make a server a domain controller: a chain of
    callbacks over one state, ending early on any error
    (libnet/libnet_become_dc.c). */
module Promotion {
  import opened Replication
  import opened Options

  datatype Which = Schema | Config | Domain

  /** What the other side gets to see, and the milestones in between. */
  datatype Event =
    | NameChecked                 // the server object, if any, is not another machine's
    | ServerDn(dn: string)        // server_dn_str has been set
    | ServerAdd(dn: string)
    | ServerModify(dn: string)
    | AddEntry(dn: string)
    | Request(part: Which, mark: Watermark)
    | Pulled(part: Which)
    | AccountModify(dn: string)
    | AccountMove(dn: string)
    | AccountReady                // account flags and place are as a DC needs them
    | UpdateRefs(part: Which)

  /** Changes to the directory of the existing domain controller. */
  predicate IsWrite(e: Event) {
    e.ServerAdd? || e.ServerModify? || e.AddEntry? || e.AccountModify? || e.AccountMove? || e.UpdateRefs?
  }

  /** What must have happened before an event may happen. */
  ghost predicate Allowed(past: seq<Event>, e: Event) {
    match e
    case NameChecked => forall i :: 0 <= i < |past| ==> !IsWrite(past[i])
    case ServerDn(_) => NameChecked in past
    case ServerAdd(_) => NameChecked in past
    case ServerModify(dn) => NameChecked in past && ServerDn(dn) in past
    case AddEntry(dn) => ServerModify(dn) in past
    case Request(p, _) => Pulled(p) !in past && StartOf(p, past)
    case Pulled(p) => Pulled(p) !in past && StartOf(p, past)
    case AccountModify(_) => Pulled(Config) in past && AccountReady !in past
    case AccountMove(_) => Pulled(Config) in past && AccountReady !in past
    case AccountReady => Pulled(Config) in past && AccountReady !in past
    case UpdateRefs(p) =>
      && Pulled(Domain) in past
      && (p != Schema ==> UpdateRefs(Schema) in past) && (p == Domain ==> UpdateRefs(Config) in past)
  }

  /** The watermarks of the requests for a partition, in order. */
  function RequestsIn(log: seq<Event>, which: Which): seq<Watermark> {
    if log == [] then []
    else RequestsIn(log[..|log| - 1], which) + RequestOf(log[|log| - 1], which)
  }

  function RequestOf(e: Event, which: Which): seq<Watermark> {
    if e.Request? && e.part == which then [e.mark] else []
  }

  lemma RequestsSnoc(log: seq<Event>, e: Event)
    ensures forall w :: RequestsIn(log + [e], w) == RequestsIn(log, w) + RequestOf(e, w)
  {
    assert (log + [e])[..|log|] == log;
  }

  /** Other events do not matter to the requests. */
  lemma {:induction false} RequestsSkip(log0: seq<Event>, log: seq<Event>, which: Which)
    requires log0 <= log && forall i :: |log0| <= i < |log| ==> !log[i].Request?
    ensures RequestsIn(log, which) == RequestsIn(log0, which)
    decreases |log|
  {
    if |log0| < |log| {
      RequestsSkip(log0, log[..|log| - 1], which);
    } else {
      assert log == log0;
    }
  }

  /** What must have happened before a partition is asked for. */
  ghost predicate StartOf(p: Which, past: seq<Event>) {
    match p
    case Schema => exists dn :: AddEntry(dn) in past
    case Config => Pulled(Schema) in past
    case Domain => AccountReady in past
  }

  ghost predicate InOrder(log: seq<Event>) {
    forall i :: 0 <= i < |log| ==> Allowed(log[..i], log[i])
  }

  lemma InOrderSnoc(log: seq<Event>, e: Event)
    requires InOrder(log) && Allowed(log, e)
    ensures InOrder(log + [e])
  {
    hide Allowed;
    forall i | 0 <= i < |log + [e]|
      ensures Allowed((log + [e])[..i], (log + [e])[i])
    {
      if i < |log| {
        assert (log + [e])[..i] == log[..i];
      } else {
        assert (log + [e])[..i] == log;
      }
    }
  }

  lemma InOrderNothing()
    ensures InOrder([])
  {
  }

  /** In an ordered log, anything that mentions `a` as a precondition of the
      event at `k` finds an earlier occurrence. */
  lemma Earlier(log: seq<Event>, k: nat, a: Event) returns (j: nat)
    requires k < |log| && a in log[..k]
    ensures j < k && log[j] == a
  {
    j :| 0 <= j < k && log[..k][j] == a;
  }

  lemma AllowedAt(log: seq<Event>, k: nat)
    requires InOrder(log) && k < |log|
    ensures Allowed(log[..k], log[k])
  {
  }

  /** The whole chain behind an update-refs call: name check, server object,
      directory entry, schema, configuration, account, domain, in that order. */
  lemma ChainBehindUpdateRefs(log: seq<Event>, k: nat)
    returns (name: nat, dn: string, known: nat, changed: nat, add: nat,
             schema: nat, config: nat, account: nat, domain: nat)
    requires InOrder(log) && k < |log| && log[k].UpdateRefs?
    ensures name < changed && known < changed < add < schema < config < account < domain < k
    ensures log[name] == NameChecked && log[known] == ServerDn(dn) && log[changed] == ServerModify(dn)
    ensures log[add] == AddEntry(dn) && log[schema] == Pulled(Schema) && log[config] == Pulled(Config)
    ensures log[account] == AccountReady && log[domain] == Pulled(Domain)
  {
    hide InOrder, RequestsIn;
    AllowedAt(log, k);
    domain := Earlier(log, k, Pulled(Domain));
    AllowedAt(log, domain);
    account := Earlier(log, domain, AccountReady);
    AllowedAt(log, account);
    config := Earlier(log, account, Pulled(Config));
    schema, dn, add, changed, known, name := ChainBehindConfig(log, config);
  }

  /** The part of that chain behind the pulled configuration. */
  lemma ChainBehindConfig(log: seq<Event>, config: nat)
    returns (schema: nat, dn: string, add: nat, changed: nat, known: nat, name: nat)
    requires InOrder(log) && config < |log| && log[config] == Pulled(Config)
    ensures name < changed && known < changed < add < schema < config
    ensures log[name] == NameChecked && log[known] == ServerDn(dn) && log[changed] == ServerModify(dn)
    ensures log[add] == AddEntry(dn) && log[schema] == Pulled(Schema)
  {
    hide InOrder, RequestsIn;
    AllowedAt(log, config);
    schema := Earlier(log, config, Pulled(Schema));
    AllowedAt(log, schema);
    dn :| AddEntry(dn) in log[..schema];
    add := Earlier(log, schema, AddEntry(dn));
    AllowedAt(log, add);
    changed := Earlier(log, add, ServerModify(dn));
    AllowedAt(log, changed);
    known := Earlier(log, changed, ServerDn(dn));
    name := Earlier(log, changed, NameChecked);
  }

  /** No change to the directory before the check for a name collision. */
  lemma {:induction false} NoWriteBeforeNameCheck(log: seq<Event>, k: nat) returns (j: nat)
    requires InOrder(log) && k < |log| && IsWrite(log[k])
    ensures j < k && log[j] == NameChecked
    decreases k
  {
    assert Allowed(log[..k], log[k]);
    match log[k]
    case ServerAdd(_) =>
      j := Earlier(log, k, NameChecked);
    case ServerModify(_) =>
      j := Earlier(log, k, NameChecked);
    case AddEntry(dn) =>
      var m := Earlier(log, k, ServerModify(dn));
      j := NoWriteBeforeNameCheck(log, m);
    case AccountModify(_) =>
      j := NameCheckBeforePull(log, k);
    case AccountMove(_) =>
      j := NameCheckBeforePull(log, k);
    case UpdateRefs(_) =>
      var name, dn, known, changed, add, schema, config, account, domain := ChainBehindUpdateRefs(log, k);
      j := name;
  }

  lemma NameCheckBeforePull(log: seq<Event>, k: nat) returns (j: nat)
    requires InOrder(log) && k < |log| && Pulled(Config) in log[..k]
    ensures j < k && log[j] == NameChecked
  {
    var config := Earlier(log, k, Pulled(Config));
    var schema, dn, add, changed, known, name := ChainBehindConfig(log, config);
    j := name;
  }

  /** A partition is never asked for again once it has been pulled. */
  lemma NoRequestAfterPulled(log: seq<Event>, i: nat, j: nat, p: Which)
    requires InOrder(log) && i < j < |log| && log[i] == Pulled(p)
    ensures !(log[j].Request? && log[j].part == p)
  {
    assert log[..j][i] == Pulled(p);
    assert Allowed(log[..j], log[j]);
  }

  // ---- the callbacks ----

  datatype NtStatus = NtOk | NameCollision | InvalidNetworkResponse | LdapError | NetworkError
                    | RpcError | PullError(error: WError) | NotImplemented

  /** Which reply the promotion is waiting for. */
  datatype Stage =
    | AwaitCldap | AwaitConnect1 | AwaitBind1 | AwaitAddEntry | AwaitConnect2 | AwaitBind2 | AwaitConnect3
    | Pulling(part: Which) | AwaitRefs(part: Which) | Finished(status: NtStatus)

  /** Answer to the lookup of the server object under its expected name. */
  datatype Lookup1 = NoSuchObject | LookupFailed | WrongCount | Found(reference: Option<string>, dn: Option<string>)

  /** Answer to the lookup of the computer object's back link. */
  datatype Lookup2 = BackLinkFailed | BackLinkWrongCount | BackLink(dn: Option<string>)

  datatype ModifyResult = Modified | ValueExists | ModifyFailed

  /** Answer to a lookup of one object with its attributes. */
  datatype Search = SearchOk | SearchFailed | SearchMalformed

  function SearchStatus(s: Search): NtStatus {
    match s
    case SearchOk => NtOk
    case SearchFailed => LdapError
    case SearchMalformed => InvalidNetworkResponse
  }

  /** The lookups that becomeDC_connect_ldap1 begins with, in order. */
  datatype Lookups = Lookups(rootDse: Search, configVersion: Search, domainVersion: Search, schemaVersion: Search,
                             updateRevision: Search, infrastructureFsmo: Search, ridManagerFsmo: Search,
                             site: Search, computer: Search)
  {
    function All(): seq<Search> {
      [rootDse, configVersion, domainVersion, schemaVersion, updateRevision, infrastructureFsmo, ridManagerFsmo,
       site, computer]
    }
  }

  /** The status of the first lookup that does not succeed. */
  function FirstFailure(searches: seq<Search>): (st: NtStatus)
    ensures st == NtOk <==> forall i :: 0 <= i < |searches| ==> searches[i] == SearchOk
    ensures st == NtOk || st == LdapError || st == InvalidNetworkResponse
  {
    if searches == [] then NtOk
    else if searches[0] != SearchOk then SearchStatus(searches[0])
    else FirstFailure(searches[1..])
  }

  lemma {:induction false} FirstFailureAt(searches: seq<Search>, k: nat)
    requires k < |searches| && searches[k] != SearchOk && forall i :: 0 <= i < k ==> searches[i] == SearchOk
    ensures FirstFailure(searches) == SearchStatus(searches[k])
  {
    if k > 0 {
      FirstFailureAt(searches[1..], k - 1);
    }
  }

  /** The lookups one after the other, up to the first failure. */
  method LookUp(l: Lookups) returns (st: NtStatus)
    ensures st == FirstFailure(l.All())
  {
    hide FirstFailure;
    ghost var k := if l.rootDse != SearchOk then 0 else if l.configVersion != SearchOk then 1
                   else if l.domainVersion != SearchOk then 2 else if l.schemaVersion != SearchOk then 3
                   else if l.updateRevision != SearchOk then 4 else if l.infrastructureFsmo != SearchOk then 5
                   else if l.ridManagerFsmo != SearchOk then 6 else if l.site != SearchOk then 7
                   else if l.computer != SearchOk then 8 else 9;
    if k < 9 {
      FirstFailureAt(l.All(), k);
    }
    st := SearchStatus(l.rootDse);
    if st != NtOk {
      return;
    }
    st := SearchStatus(l.configVersion);
    if st != NtOk {
      return;
    }
    st := SearchStatus(l.domainVersion);
    if st != NtOk {
      return;
    }
    st := SearchStatus(l.schemaVersion);
    if st != NtOk {
      return;
    }
    st := SearchStatus(l.updateRevision);
    if st != NtOk {
      return;
    }
    st := SearchStatus(l.infrastructureFsmo);
    if st != NtOk {
      return;
    }
    st := SearchStatus(l.ridManagerFsmo);
    if st != NtOk {
      return;
    }
    st := SearchStatus(l.site);
    if st != NtOk {
      return;
    }
    st := SearchStatus(l.computer);
  }

  /** All that the directory answers while becomeDC_connect_ldap1 runs. */
  datatype Ldap1 = Ldap1(connectOk: bool, lookups: Lookups, computerDn: Option<string>, accountControl: nat,
                         server1: Lookup1, server2: Lookup2, newServerDn: string, addOk: bool,
                         add: ModifyResult, replaceOk: bool)

  /** All that the directory answers while becomeDC_connect_ldap2 runs. */
  datatype Ldap2 = Ldap2(connectOk: bool, modifyOk: bool, placeOk: bool, newDn: string, renameOk: bool)

  /** UF_SERVER_TRUST_ACCOUNT | UF_TRUSTED_FOR_DELEGATION */
  const WANTED_ACCOUNT_CONTROL: nat := 0x2000 + 0x80000

  /** Milestones that the log must show at a stage, and must not show yet. */
  ghost predicate Reached(stage: Stage, serverDn: Option<string>, log: seq<Event>) {
    match stage
    case AwaitCldap => log == [] && serverDn == None
    case AwaitConnect1 => serverDn.Some? && ServerModify(serverDn.value) in log && Quiet(log)
    case AwaitBind1 => serverDn.Some? && ServerModify(serverDn.value) in log && Quiet(log)
    case AwaitAddEntry => serverDn.Some? && AddEntry(serverDn.value) in log && Quiet(log)
    case AwaitConnect2 => serverDn.Some? && AddEntry(serverDn.value) in log && Quiet(log)
    case AwaitBind2 => serverDn.Some? && AddEntry(serverDn.value) in log && Quiet(log)
    case AwaitConnect3 => serverDn.Some? && AddEntry(serverDn.value) in log && Quiet(log)
    case Pulling(p) =>
      && StartOf(p, log) && Pulled(p) !in log
      && (p != Domain ==> Pulled(Domain) !in log && AccountReady !in log)
      && (p == Schema ==> Pulled(Config) !in log)
    case AwaitRefs(p) => Pulled(Domain) in log && UpdateRefs(p) in log && (p != Schema ==> UpdateRefs(Schema) in log)
    case Finished(status) => status != NtOk && (status == NotImplemented ==> UpdateRefs(Domain) in log)
  }

  /** The configuration has been pulled and the account is not done yet. */
  ghost predicate AccountOpen(log: seq<Event>) {
    Pulled(Config) in log && AccountReady !in log
  }

  /** Nothing has been pulled and the account has not been touched. */
  ghost predicate Quiet(log: seq<Event>) {
    Pulled(Schema) !in log && Pulled(Config) !in log && Pulled(Domain) !in log && AccountReady !in log
  }

  predicate More(w: Watermark) {
    w.tmpHighestUsn > w.highestUsn
  }

  /** Ended by an error, that is, elsewhere than in the last callback. */
  predicate Failed(stage: Stage) {
    stage.Finished? && stage.status != NotImplemented && stage.status != NtOk
  }

  /** The watermark of an acceptable reply. */
  function MarkOf(r: Reply): Watermark {
    if Status(r) == WerrOk then r.body.ctr.watermark else ZERO_MARK
  }

  /** What a reply adds to the list of its partition, and to its replies. */
  ghost function Gain(r: Reply, chain: seq<Item>): seq<Item> {
    if Status(r) == WerrOk then chain else []
  }

  ghost function GainChunks(r: Reply, chain: seq<Item>): seq<Chunk> {
    if Status(r) == WerrOk then [Chunk(MarkOf(r), Objects(chain))] else []
  }

  /** Something for each of the three partitions. */
  datatype Three<T> = Three(schema: seq<T>, config: seq<T>, domain: seq<T>) {
    function Of(w: Which): seq<T> {
      match w case Schema => schema case Config => config case Domain => domain
    }

    /** More of it for one partition. */
    function Extended(w: Which, more: seq<T>): Three<T> {
      match w
      case Schema => this.(schema := schema + more)
      case Config => this.(config := config + more)
      case Domain => this.(domain := domain + more)
    }
  }

  class BecomeDc {
    var stage: Stage
    var serverDn: Option<string>
    var computerDn: string
    var accountControl: nat
    var log: seq<Event>

    const schema: Partition
    const config: Partition
    const domain: Partition

    ghost predicate ApartParts() {
      schema != config && schema != domain && config != domain
    }

    ghost predicate Apart()
      reads schema`nodes, config`nodes, domain`nodes
    {
      schema.nodes !! config.nodes && schema.nodes !! domain.nodes && config.nodes !! domain.nodes
    }

    /** The memory that the three lists occupy. */
    ghost function Nodes(): set<Item>
      reads schema`nodes, config`nodes, domain`nodes
    {
      schema.nodes + config.nodes + domain.nodes
    }

    /** Partitions are pulled one after the other; a pulled one is complete. */
    ghost predicate PartsValid()
      reads this, schema, config, domain, schema.nodes, config.nodes, domain.nodes
    {
      && ApartParts() && Apart()
      && schema.Valid() && config.Valid() && domain.Valid()
      && PartAt(|schema.requests|, |schema.replies|, schema.watermark, Schema, stage, log)
      && PartAt(|config.requests|, |config.replies|, config.watermark, Config, stage, log)
      && PartAt(|domain.requests|, |domain.replies|, domain.watermark, Domain, stage, log)
    }

    /** The requests in the log are those of the partitions. */
    ghost predicate Tied()
      reads this, schema, config, domain
    {
      && RequestsIn(log, Schema) == schema.requests
      && RequestsIn(log, Config) == config.requests
      && RequestsIn(log, Domain) == domain.requests
    }

    ghost predicate Valid()
      reads this, schema, config, domain, schema.nodes, config.nodes, domain.nodes
    {
      PartsValid() && InOrder(log) && Reached(stage, serverDn, log) && Tied()
    }

    /** The heap list of a partition. */
    ghost function Items(which: Which): seq<Item>
      reads schema, config, domain
    {
      PartOf(which).items
    }

    ghost function Lists(): Three<Item>
      reads schema, config, domain
    {
      Three(schema.items, config.items, domain.items)
    }

    ghost function History(): Three<Chunk>
      reads schema, config, domain
    {
      Three(schema.replies, config.replies, domain.replies)
    }

    /** The replies that have been spliced into a partition. */
    ghost function Replies(which: Which): seq<Chunk>
      reads schema, config, domain
    {
      PartOf(which).replies
    }

    constructor ()
      ensures Valid() && stage == AwaitCldap && log == [] && Nodes() == {}
      ensures forall w :: Replies(w) == []
      ensures fresh(schema) && fresh(config) && fresh(domain)
    {
      hide Partition.Valid, InOrder, RequestsIn, PartAt;
      stage, serverDn, computerDn, accountControl, log := AwaitCldap, None, "", 0, [];
      schema := new Partition();
      config := new Partition();
      domain := new Partition();
      InOrderNothing();
      AtTheStart();
    }

    /** Where the promotion stands, and what the account looks like. */
    ghost function Now(): Progress
      reads this
    {
      Progress(stage, serverDn, accountControl, computerDn)
    }

    method Fail(status: NtStatus)
      requires Valid() && status != NtOk && (status == NotImplemented ==> UpdateRefs(Domain) in log)
      modifies this`stage
      ensures Valid() && stage == Finished(status)
    {
      hide Partition.Valid, InOrder, RequestsIn, Apart;
      stage := Finished(status);
    }

    method Emit(e: Event)
      requires InOrder(log) && Allowed(log, e)
      modifies this`log
      ensures InOrder(log) && log == old(log) + [e]
      ensures forall w :: RequestsIn(log, w) == RequestsIn(old(log), w) + RequestOf(e, w)
    {
      hide RequestsIn;
      InOrderSnoc(log, e);
      RequestsSnoc(log, e);
      log := log + [e];
    }

    /** becomeDC_ldap1_server_object_1: is the name taken by another machine? */
    method ServerObject1(a: Ldap1) returns (st: NtStatus)
      requires log == [] && serverDn == None
      modifies this`log, this`serverDn
      ensures InOrder(log) && OnlyServerEvents(log)
      ensures st == NtOk ==> NameChecked in log && (serverDn.Some? ==> ServerDn(serverDn.value) in log)
      ensures st == NameCollision <==>
                a.server1.Found? && a.server1.reference.Some? && a.server1.reference.value != computerDn
      ensures st == NameCollision ==> log == []
      ensures st == NtOk <==> Check1Ok(a, computerDn)
      ensures st == match a.server1
                    case NoSuchObject => NtOk
                    case LookupFailed => LdapError
                    case WrongCount => InvalidNetworkResponse
                    case Found(reference, dn) =>
                      if reference.Some? && reference.value != computerDn then NameCollision
                      else if dn.None? then InvalidNetworkResponse else NtOk
      ensures log == if st == NtOk && a.server1.Found? then [NameChecked, ServerDn(a.server1.dn.value)]
                     else if st == NtOk || (a.server1.Found? && st == InvalidNetworkResponse) then [NameChecked] else []
      ensures st == NtOk ==> serverDn == if a.server1.Found? then a.server1.dn else None
    {
      InOrderNothing();
      hide InOrder, RequestsIn;
      match a.server1 {
        case NoSuchObject =>
          Emit(NameChecked);
          return NtOk;
        case LookupFailed =>
          return LdapError;
        case WrongCount =>
          return InvalidNetworkResponse;
        case Found(reference, dn) =>
          if reference.Some? && reference.value != computerDn {
            return NameCollision;
          }
          Emit(NameChecked);
          if dn.None? {
            return InvalidNetworkResponse;
          }
          serverDn := dn;
          Emit(ServerDn(dn.value));
          return NtOk;
      }
    }

    /** becomeDC_ldap1_server_object_2: else, a server object by back link? */
    method ServerObject2(a: Ldap1) returns (st: NtStatus)
      requires EarlyValid()
      modifies this`log, this`serverDn
      ensures EarlyValid() && old(log) <= log
      ensures old(serverDn).Some? ==> st == NtOk && serverDn == old(serverDn) && log == old(log)
      ensures old(serverDn).None? ==> st == match a.server2
                                            case BackLinkFailed => LdapError
                                            case BackLinkWrongCount => InvalidNetworkResponse
                                            case BackLink(_) => NtOk
      ensures old(serverDn).None? && st == NtOk ==>
                && serverDn == a.server2.dn
                && log == old(log) + if a.server2.dn.Some? then [ServerDn(a.server2.dn.value)] else []
      ensures st != NtOk ==> log == old(log)
    {
      hide InOrder, RequestsIn;
      if serverDn.Some? {
        return NtOk;
      }
      match a.server2 {
        case BackLinkFailed =>
          return LdapError;
        case BackLinkWrongCount =>
          return InvalidNetworkResponse;
        case BackLink(dn) =>
          if dn.None? {
            return NtOk;
          }
          serverDn := dn;
          Emit(ServerDn(dn.value));
          return NtOk;
      }
    }

    /** becomeDC_ldap1_server_object_add: else, create it. */
    method ServerObjectAdd(a: Ldap1) returns (st: NtStatus)
      requires EarlyValid()
      modifies this`log, this`serverDn
      ensures EarlyValid() && old(log) <= log
      ensures st == NtOk || st == LdapError
      ensures st == NtOk ==> serverDn.Some?
      ensures old(serverDn).Some? ==> st == NtOk && serverDn == old(serverDn) && log == old(log)
      ensures old(serverDn).None? ==>
                && (st == NtOk <==> a.addOk) && (a.addOk ==> serverDn == Some(a.newServerDn))
                && log == old(log) + if a.addOk then [ServerAdd(a.newServerDn), ServerDn(a.newServerDn)]
                                     else [ServerAdd(a.newServerDn)]
    {
      hide InOrder, RequestsIn;
      if serverDn.Some? {
        return NtOk;
      }
      Emit(ServerAdd(a.newServerDn));
      if !a.addOk {
        return LdapError;
      }
      Emit(ServerDn(a.newServerDn));
      serverDn := Some(a.newServerDn);
      return NtOk;
    }

    /** becomeDC_ldap1_server_object_modify: add the reference, or replace it. */
    method ServerObjectModify(a: Ldap1) returns (st: NtStatus)
      requires EarlyValid() && serverDn.Some?
      modifies this`log
      ensures EarlyValid() && ServerModify(serverDn.value) in log
      ensures var change := ServerModify(serverDn.value);
              log == old(log) + if a.add == ValueExists then [change, change] else [change]
      ensures st == if a.add == Modified || (a.add == ValueExists && a.replaceOk) then NtOk else LdapError
    {
      hide InOrder, RequestsIn;
      Emit(ServerModify(serverDn.value));
      if a.add == Modified {
        return NtOk;
      } else if a.add == ModifyFailed {
        return LdapError;
      }
      Emit(ServerModify(serverDn.value));
      if !a.replaceOk {
        return LdapError;
      }
      return NtOk;
    }

    /** The log while the server object is being sorted out. */
    ghost predicate EarlyValid()
      reads this
    {
      && InOrder(log) && OnlyServerEvents(log)
      && NameChecked in log && (serverDn.Some? ==> ServerDn(serverDn.value) in log)
    }

    /** becomeDC_connect_ldap1, entered when the CLDAP answer is in. */
    method ConnectLdap1(a: Ldap1) returns (st: NtStatus)
      requires log == [] && serverDn == None
      modifies this`log, this`serverDn, this`computerDn, this`accountControl
      ensures InOrder(log) && OnlyServerEvents(log)
      ensures st == NtOk ==> serverDn.Some? && ServerModify(serverDn.value) in log
      ensures st == NtOk <==> Ldap1Ok(a)
      ensures st == Ldap1Status(a) && log == ServerEvents(a)
      ensures st == NtOk ==> serverDn == Some(ServerDnOf(a))
      ensures st == NtOk ==> accountControl == a.accountControl && computerDn == a.computerDn.value
      ensures st == NameCollision <==> Collides(a)
      ensures Collides(a) ==> log == []
      // the first lookup that fails ends it, with its status and before anything has been written
      ensures a.connectOk && FirstFailure(a.lookups.All()) != NtOk ==> st == FirstFailure(a.lookups.All()) && log == []
    {
      InOrderNothing();
      Ldap1OkIs(a);
      hide InOrder, RequestsIn, OnlyServerEvents, FirstFailure, ObjectEvents, ObjectStatus, Ldap1Ok, Collides;
      if !a.connectOk {
        return NetworkError;
      }
      st := LookUp(a.lookups);
      if st != NtOk {
        return;
      }
      if a.computerDn.None? {
        return InvalidNetworkResponse;
      }
      computerDn := a.computerDn.value;
      accountControl := a.accountControl;
      st := ServerObjects(a);
    }

    /** The steps of becomeDC_connect_ldap1 that are about the server object. */
    method ServerObjects(a: Ldap1) returns (st: NtStatus)
      requires log == [] && serverDn == None && a.computerDn == Some(computerDn)
      modifies this`log, this`serverDn
      ensures InOrder(log) && OnlyServerEvents(log)
      ensures st == ObjectStatus(a) && log == ObjectEvents(a)
      ensures st == NtOk ==> serverDn == Some(ServerDnOf(a)) && ServerModify(serverDn.value) in log
    {
      st := ServerObject1(a);
      if st != NtOk {
        return;
      }
      hide InOrder, RequestsIn, OnlyServerEvents;
      st := ServerObject2(a);
      if st != NtOk {
        return;
      }
      ghost var dn, before := serverDn, log;
      st := ServerObjectAdd(a);
      assert dn.None? ==> before == [NameChecked];
      assert dn.Some? ==> before == [NameChecked, ServerDn(dn.value)];
      if st != NtOk {
        return;
      }
      hide ModifyEvents;
      assert log == if dn.Some? then [NameChecked, ServerDn(dn.value)]
                    else [NameChecked, ServerAdd(a.newServerDn), ServerDn(a.newServerDn)];
      ModifyEventsAre(serverDn.value, a);
      st := ServerObjectModify(a);
    }

    /** becomeDC_recv_cldap */
    method OnCldap(ok: bool, a: Ldap1)
      requires Valid() && stage == AwaitCldap
      modifies this
      ensures Valid()
      // a name taken by another machine ends it before anything has been written
      ensures CldapTo(ok, a, Now()) && old(log) <= log
      ensures log == if ok then ServerEvents(a) else []
      ensures ok && Collides(a) ==> log == []
    {
      hide Partition.Valid, InOrder, RequestsIn;
      if !ok {
        Fail(NetworkError);
        return;
      }
      var st := ConnectLdap1(a);
      ServerEventsAreQuiet(log);
      hide OnlyServerEvents;
      if st != NtOk {
        stage := Finished(st);
        return;
      }
      stage := AwaitConnect1;
    }

    /** dcerpc_pipe_connect_b_recv on each of the three pipes */
    method OnConnect(ok: bool)
      requires Valid() && (stage == AwaitConnect1 || stage == AwaitConnect2 || stage == AwaitConnect3)
      modifies this`stage, this`log, schema`requests
      ensures Valid()
      ensures !ok ==> stage == Finished(NetworkError) && log == old(log)
      ensures ok ==> stage == match old(stage)
                              case AwaitConnect1 => AwaitBind1
                              case AwaitConnect2 => AwaitBind2
                              case _ => Pulling(Schema)
      ensures ok ==> log == old(log) + if old(stage) == AwaitConnect3 then [Request(Schema, ZERO_MARK)] else []
    {
      hide Partition.Valid, InOrder, RequestsIn;
      if !ok {
        Fail(NetworkError);
      } else if stage == AwaitConnect1 {
        stage := AwaitBind1;
      } else if stage == AwaitConnect2 {
        stage := AwaitBind2;
      } else {
        FirstMark(schema);
        SendPull(Schema, schema);
      }
    }

    /** becomeDC_drsuapi1_bind_recv and becomeDC_drsuapi2_bind_recv */
    method OnBind(ok: bool)
      requires Valid() && (stage == AwaitBind1 || stage == AwaitBind2)
      modifies this`stage, this`log
      ensures Valid()
      ensures !ok ==> stage == Finished(RpcError) && log == old(log)
      ensures ok && old(stage) == AwaitBind2 ==> stage == AwaitConnect3 && log == old(log)
      ensures ok && old(stage) == AwaitBind1 ==>
                stage == AwaitAddEntry && old(serverDn).Some? && log == old(log) + [AddEntry(old(serverDn).value)]
    {
      hide Partition.Valid, InOrder, RequestsIn;
      if !ok {
        Fail(RpcError);
      } else if stage == AwaitBind2 {
        stage := AwaitConnect3;
      } else {
        Emit(AddEntry(serverDn.value));
        stage := AwaitAddEntry;
      }
    }

    /** becomeDC_drsuapi1_add_entry_recv */
    method OnAddEntry(ok: bool)
      requires Valid() && stage == AwaitAddEntry
      modifies this`stage
      ensures Valid() && stage == if ok then AwaitConnect2 else Finished(RpcError)
    {
      stage := if ok then AwaitConnect2 else Finished(RpcError);
    }

    /** All partitions but one are where the given stage and log have them. */
    ghost predicate OthersAt(which: Which, stage0: Stage, log0: seq<Event>)
      reads schema, config, domain
    {
      && (which != Schema ==> PartAt(|schema.requests|, |schema.replies|, schema.watermark, Schema, stage0, log0))
      && (which != Config ==> PartAt(|config.requests|, |config.replies|, config.watermark, Config, stage0, log0))
      && (which != Domain ==> PartAt(|domain.requests|, |domain.replies|, domain.watermark, Domain, stage0, log0))
    }

    /** All is ready for a request. */
    ghost predicate Asking(which: Which)
      reads this, schema, config, domain, schema.nodes, config.nodes, domain.nodes
    {
      && ApartParts() && Apart() && schema.Valid() && config.Valid() && domain.Valid()
      && InOrder(log) && Tied() && Reached(Pulling(which), serverDn, log)
      && |PartOf(which).requests| == |PartOf(which).replies|
      && OthersAt(which, Pulling(which), log)
    }

    /** The next request for a partition. */
    method SendPull(which: Which, part: Partition)
      requires part == PartOf(which) && Asking(which)
      modifies this`log, this`stage, part`requests
      ensures Valid() && stage == Pulling(which) && log == old(log) + [Request(which, old(part.watermark))]
    {
      hide Partition.Valid, InOrder, RequestsIn, Allowed, Reached, StartOf, PartAt, Apart;
      part.PullSend();
      RequestKeeps(log, which, part.watermark, serverDn);
      ghost var log0 := log;
      Emit(Request(which, part.requests[|part.requests| - 1]));
      stage := Pulling(which);
      PartPulling(|part.requests|, |part.replies|, part.watermark, which, log);
      if which != Schema {
        PartAtKept(|schema.requests|, |schema.replies|, schema.watermark, Schema, stage, log0, stage, log);
      }
      if which != Config {
        PartAtKept(|config.requests|, |config.replies|, config.watermark, Config, stage, log0, stage, log);
      }
      if which != Domain {
        PartAtKept(|domain.requests|, |domain.replies|, domain.watermark, Domain, stage, log0, stage, log);
      }
    }

    /** becomeDC_ldap2_modify_computer: nothing to do if the flags are right. */
    method ModifyComputer(l2: Ldap2) returns (st: NtStatus)
      requires InOrder(log) && AccountOpen(log)
      modifies this`log, this`accountControl
      ensures InOrder(log) && AccountOpen(log)
      ensures log == old(log)
                     + if old(accountControl) != WANTED_ACCOUNT_CONTROL then [AccountModify(computerDn)] else []
      ensures st == NtOk <==> old(accountControl) == WANTED_ACCOUNT_CONTROL || l2.modifyOk
      ensures st == NtOk || st == LdapError
      ensures accountControl == if st == NtOk then 0x82000 else old(accountControl)
    {
      hide InOrder, RequestsIn;
      if accountControl == WANTED_ACCOUNT_CONTROL {
        return NtOk;
      }
      Emit(AccountModify(computerDn));
      if !l2.modifyOk {
        return LdapError;
      }
      accountControl := WANTED_ACCOUNT_CONTROL;
      return NtOk;
    }

    /** becomeDC_ldap2_move_computer: nothing to do if the place is right. */
    method MoveComputer(l2: Ldap2) returns (st: NtStatus)
      requires InOrder(log) && AccountOpen(log)
      modifies this`log, this`computerDn
      ensures InOrder(log) && AccountOpen(log)
      ensures log == old(log) + if l2.placeOk && old(computerDn) != l2.newDn then [AccountMove(old(computerDn))] else []
      ensures st == NtOk <==> l2.placeOk && (old(computerDn) == l2.newDn || l2.renameOk)
      ensures st == NtOk || st == LdapError
      ensures computerDn == if st == NtOk then l2.newDn else old(computerDn)
    {
      hide InOrder, RequestsIn;
      if !l2.placeOk {
        return LdapError;
      }
      if computerDn == l2.newDn {
        return NtOk;
      }
      Emit(AccountMove(computerDn));
      if !l2.renameOk {
        return LdapError;
      }
      computerDn := l2.newDn;
      return NtOk;
    }

    /** becomeDC_connect_ldap2, up to the request for the domain */
    method ConnectLdap2(l2: Ldap2) returns (st: NtStatus)
      requires InOrder(log) && AccountOpen(log)
      modifies this`log, this`computerDn, this`accountControl
      ensures InOrder(log) && old(log) <= log
      ensures forall i :: |old(log)| <= i < |log| ==>
                log[i].AccountModify? || log[i].AccountMove? || log[i].AccountReady?
      ensures st == if Ldap2Ok(l2, old(accountControl), old(computerDn)) then NtOk
                    else if l2.connectOk then LdapError else NetworkError
      ensures st == NtOk ==> accountControl == WANTED_ACCOUNT_CONTROL && computerDn == l2.newDn
      // the account is changed if its flags are not right, and moved if its place is not
      ensures st == NtOk ==>
                var dn := old(computerDn);
                log == old(log)
                       + (if old(accountControl) != WANTED_ACCOUNT_CONTROL then [AccountModify(dn)] else [])
                       + (if dn != l2.newDn then [AccountMove(dn)] else [])
                       + [AccountReady]
      ensures log == old(log) + AccountEvents(l2, old(accountControl), old(computerDn))
    {
      hide InOrder, RequestsIn;
      if !l2.connectOk {
        return NetworkError;
      }
      st := ModifyComputer(l2);
      if st != NtOk {
        return;
      }
      ghost var changes := if old(accountControl) != WANTED_ACCOUNT_CONTROL then [AccountModify(computerDn)] else [];
      assert log == old(log) + changes;
      st := MoveComputer(l2);
      ghost var moves := if l2.placeOk && old(computerDn) != l2.newDn then [AccountMove(old(computerDn))] else [];
      assert log == old(log) + changes + moves;
      Regroup(old(log), changes, moves, []);
      if st != NtOk {
        return;
      }
      Emit(AccountReady);
      Regroup(old(log), changes, moves, [AccountReady]);
    }

    /** All is valid, but for the account of the partition that is being pulled:
        a reply has come, and what is to happen next has not. */
    ghost predicate Between(which: Which)
      reads this, schema, config, domain, schema.nodes, config.nodes, domain.nodes
    {
      && ApartParts() && Apart() && schema.Valid() && config.Valid() && domain.Valid()
      && stage == Pulling(which) && InOrder(log) && Tied() && Reached(stage, serverDn, log)
      && OthersAt(which, stage, log)
    }

    /** Splice a reply into the partition that is being pulled. */
    method Receive(which: Which, part: Partition, r: Reply, ghost chain: seq<Item>) returns (status: WError)
      requires Valid() && stage == Pulling(which) && part == PartOf(which)
      requires Status(r) == WerrOk ==> chain != [] && chain[0] == r.body.ctr.first && Linked(chain)
      requires forall x :: x in chain ==> x !in schema.nodes && x !in config.nodes && x !in domain.nodes
      modifies part, part.nodes
      ensures Between(which) && ApartParts()
      ensures status == Status(r) && Nodes() <= old(Nodes()) + (set x | x in chain)
      ensures Lists() == old(Lists()).Extended(which, Gain(r, chain))
      ensures History() == old(History()).Extended(which, GainChunks(r, chain))
      ensures |part.requests| == |part.replies| + if status == WerrOk then 0 else 1
      ensures status == WerrOk ==> part.replies != [] && part.watermark == MarkOf(r)
    {
      hide Partition.Valid, Linked, InOrder, RequestsIn, Reached, Status, PartAt;
      PartIsPulling(|part.requests|, |part.replies|, part.watermark, which, log);
      status := part.PullRecv(r, chain);
    }

    /** A reply to a pull request: splice it in, and ask for more as long as its
        watermark says so; else go on to whatever comes next. */
    method OnPull(r: Reply, ghost chain: seq<Item>, l2: Ldap2)
      requires Valid() && stage.Pulling?
      requires Status(r) == WerrOk ==> chain != [] && chain[0] == r.body.ctr.first && Linked(chain)
      requires forall x :: x in chain ==> x !in schema.nodes && x !in config.nodes && x !in domain.nodes
      modifies this, schema, config, domain, schema.nodes, config.nodes, domain.nodes
      ensures Valid() && old(log) <= log && Nodes() <= old(Nodes()) + (set x | x in chain)
      ensures PullTo(old(Now()), true, Status(r), More(MarkOf(r)), l2, Now())
      ensures log == old(log) + PullEvents(old(Now()), Status(r), More(MarkOf(r)), MarkOf(r), l2)
      // only the partition being pulled gains anything, and only from an acceptable reply
      ensures Status(r) == WerrOk ==> PartOf(old(stage).part).watermark == MarkOf(r)
      ensures Lists() == old(Lists()).Extended(old(stage).part, Gain(r, chain))
      ensures History() == old(History()).Extended(old(stage).part, GainChunks(r, chain))
    {
      hide BecomeDc.Between, BecomeDc.Valid, Partition.Valid, Apart, Reached, PartAt, InOrder, RequestsIn;
      hide Linked, Status, MarkOf, Gain, GainChunks, PullEvents;
      var which := stage.part;
      var part := match which case Schema => schema case Config => config case Domain => domain;
      var status := Receive(which, part, r, chain);
      if status != WerrOk {
        FailPull(which, part, status);
        NoPullEvents(old(Now()), status, More(MarkOf(r)), MarkOf(r), l2);
      } else {
        GoOn(which, part, l2);
      }
    }

    /** After a reply that has been spliced in. */
    method GoOn(which: Which, part: Partition, l2: Ldap2)
      requires part == PartOf(which) && Between(which)
      requires |part.requests| == |part.replies| && part.replies != []
      modifies this, schema`requests, config`requests, domain`requests
      ensures Valid() && old(log) <= log
      ensures PullTo(old(Now()), true, WerrOk, More(part.watermark), l2, Now())
      ensures Lists() == old(Lists()) && History() == old(History())
      ensures log == old(log) + PullEvents(old(Now()), WerrOk, More(part.watermark), part.watermark, l2)
    {
      hide Partition.Valid, InOrder, RequestsIn, Reached, PartAt, Apart, AccountEvents, Ldap2Ok, BecomeDc.Valid;
      if More(part.watermark) {
        SendPull(which, part);
      } else if which == Schema {
        SchemaPulled();
        Regroup(old(log), [Pulled(Schema)], [], [Request(Config, ZERO_MARK)]);
      } else if which == Config {
        ConfigPulled(l2);
        Regroup(old(log), [Pulled(Config)], AccountEvents(l2, old(accountControl), old(computerDn)),
                if stage == Pulling(Domain) then [Request(Domain, ZERO_MARK)] else []);
      } else {
        DomainPulled();
        Regroup(old(log), [Pulled(Domain)], [], [UpdateRefs(Schema)]);
      }
    }

    method FailPull(which: Which, part: Partition, status: WError)
      requires part == PartOf(which) && Between(which)
      modifies this`stage
      ensures Valid() && stage == Finished(PullError(status))
    {
      hide Partition.Valid, InOrder, RequestsIn;
      stage := Finished(PullError(status));
    }

    /** becomeDC_drsuapi3_pull_schema_recv, when the schema is complete */
    method SchemaPulled()
      requires Between(Schema)
      requires |schema.requests| == |schema.replies| && schema.replies != [] && !More(schema.watermark)
      modifies this`stage, this`log, config`requests
      ensures Valid() && stage == Pulling(Config)
      ensures log == old(log) + [Pulled(Schema)] + [Request(Config, ZERO_MARK)]
    {
      hide Partition.Valid, InOrder, RequestsIn, Apart, Allowed, Reached, PartAt;
      PullStep(Schema, log, serverDn);
      NotStarted(config, Config, stage, log);
      ghost var log0 := log;
      Emit(Pulled(Schema));
      PartDone(|schema.requests|, |schema.replies|, schema.watermark, Schema, Pulling(Config), log);
      PartAtKept(|domain.requests|, |domain.replies|, domain.watermark, Domain, stage, log0, Pulling(Config), log);
      SendPull(Config, config);
    }

    /** becomeDC_drsuapi3_pull_config_recv, when the configuration is complete */
    method ConfigPulled(l2: Ldap2)
      requires Between(Config)
      requires |config.requests| == |config.replies| && config.replies != [] && !More(config.watermark)
      modifies this, domain`requests
      ensures Valid() && ConfigTo(old(Now()), l2, Now())
      ensures stage == Pulling(Domain) <==> Ldap2Ok(l2, old(accountControl), old(computerDn))
      ensures log == old(log) + [Pulled(Config)] + AccountEvents(l2, old(accountControl), old(computerDn))
                     + if stage == Pulling(Domain) then [Request(Domain, ZERO_MARK)] else []
    {
      hide BecomeDc.Between, BecomeDc.Asking, BecomeDc.Ended, BecomeDc.Valid, AccountEvents, Ldap2Ok;
      var st := ChangeAccount(l2);
      if st != NtOk {
        End(st);
      } else {
        FirstMark(domain);
        SendPull(Domain, domain);
      }
    }

    /** The configuration is complete: change the account. */
    method ChangeAccount(l2: Ldap2) returns (st: NtStatus)
      requires Between(Config)
      requires |config.requests| == |config.replies| && config.replies != [] && !More(config.watermark)
      modifies this`log, this`computerDn, this`accountControl
      ensures log == old(log) + [Pulled(Config)] + AccountEvents(l2, old(accountControl), old(computerDn))
      ensures st == if Ldap2Ok(l2, old(accountControl), old(computerDn)) then NtOk
                    else if l2.connectOk then LdapError else NetworkError
      ensures st == NtOk ==> accountControl == WANTED_ACCOUNT_CONTROL && computerDn == l2.newDn
      ensures if st == NtOk then Asking(Domain) && domain.Valid() && domain.replies == [] else Ended(st)
    {
      hide Partition.Valid, InOrder, RequestsIn, Apart, Allowed, Reached, PartAt, AccountEvents, Ldap2Ok;
      PullStep(Config, log, serverDn);
      NotStarted(domain, Domain, stage, log);
      ghost var log0 := log;
      Emit(Pulled(Config));
      ghost var log1 := log;
      st := ConnectLdap2(l2);
      AccountKeeps(log1, log, serverDn);
      ghost var stage' := if st == NtOk then Pulling(Domain) else Finished(st);
      PartAtKept(|schema.requests|, |schema.replies|, schema.watermark, Schema, stage, log0, stage', log);
      PartDone(|config.requests|, |config.replies|, config.watermark, Config, stage', log);
      if st != NtOk {
        PartAtKept(|domain.requests|, |domain.replies|, domain.watermark, Domain, stage, log0, stage', log);
        ReachedEnd(st, serverDn, log);
      } else {
        assert log[|log| - 1] == AccountReady;
      }
    }

    /** All is valid, but for the stage. */
    ghost predicate Ended(st: NtStatus)
      reads this, schema, config, domain, schema.nodes, config.nodes, domain.nodes
    {
      && ApartParts() && Apart() && schema.Valid() && config.Valid() && domain.Valid()
      && InOrder(log) && Tied() && Reached(Finished(st), serverDn, log)
      && PartAt(|schema.requests|, |schema.replies|, schema.watermark, Schema, Finished(st), log)
      && PartAt(|config.requests|, |config.replies|, config.watermark, Config, Finished(st), log)
      && PartAt(|domain.requests|, |domain.replies|, domain.watermark, Domain, Finished(st), log)
    }

    method End(st: NtStatus)
      requires Ended(st)
      modifies this`stage
      ensures Valid() && stage == Finished(st)
    {
      hide Partition.Valid, InOrder, RequestsIn, Apart, Reached, PartAt;
      stage := Finished(st);
    }

    /** becomeDC_drsuapi3_pull_domain_recv, when the domain is complete */
    method DomainPulled()
      requires Between(Domain)
      requires |domain.requests| == |domain.replies| && domain.replies != [] && !More(domain.watermark)
      modifies this`stage, this`log
      ensures Valid() && stage == AwaitRefs(Schema)
      ensures log == old(log) + [Pulled(Domain)] + [UpdateRefs(Schema)]
    {
      hide Partition.Valid, InOrder, RequestsIn, Apart, Allowed, Reached, PartAt;
      PullStep(Domain, log, serverDn);
      ghost var log0, stage' := log, AwaitRefs(Schema);
      Emit(Pulled(Domain));
      Emit(UpdateRefs(Schema));
      PartAtKept(|schema.requests|, |schema.replies|, schema.watermark, Schema, stage, log0, stage', log);
      PartAtKept(|config.requests|, |config.replies|, config.watermark, Config, stage, log0, stage', log);
      PartDone(|domain.requests|, |domain.replies|, domain.watermark, Domain, stage', log);
      stage := AwaitRefs(Schema);
    }

    /** becomeDC_drsuapi2_update_refs_*_recv: the last one ends the promotion
        with the status "not implemented". */
    method OnRefs(ok: bool)
      requires Valid() && stage.AwaitRefs?
      modifies this`stage, this`log
      ensures Valid()
      ensures !ok ==> stage == Finished(RpcError) && log == old(log)
      ensures ok && old(stage) == AwaitRefs(Schema) ==>
                stage == AwaitRefs(Config) && log == old(log) + [UpdateRefs(Config)]
      ensures ok && old(stage) == AwaitRefs(Config) ==>
                stage == AwaitRefs(Domain) && log == old(log) + [UpdateRefs(Domain)]
      ensures ok && old(stage) == AwaitRefs(Domain) ==> stage == Finished(NotImplemented) && log == old(log)
    {
      hide Partition.Valid, InOrder, RequestsIn;
      if !ok {
        Fail(RpcError);
      } else if stage.part == Schema {
        Emit(UpdateRefs(Config));
        stage := AwaitRefs(Config);
      } else if stage.part == Config {
        Emit(UpdateRefs(Domain));
        stage := AwaitRefs(Domain);
      } else {
        Fail(NotImplemented);
      }
    }

    ghost function PartOf(which: Which): Partition {
      match which
      case Schema => schema
      case Config => config
      case Domain => domain
    }
  }

  /** The server object is absent, or is this machine's and has a name. */
  predicate Check1Ok(a: Ldap1, computerDn: string) {
    match a.server1
    case NoSuchObject => true
    case LookupFailed => false
    case WrongCount => false
    case Found(reference, dn) => (reference.Some? ==> reference.value == computerDn) && dn.Some?
  }

  /** Everything that has to go well before the first pipe is opened: a server
      object that is found by name, or by back link, or else can be created, and
      a reference that can be added or replaced. */
  predicate Ldap1Ok(a: Ldap1) {
    && a.connectOk && FirstFailure(a.lookups.All()) == NtOk && a.computerDn.Some? && Check1Ok(a, a.computerDn.value)
    && (a.server1.NoSuchObject? ==> a.server2.BackLink? && (a.server2.dn.None? ==> a.addOk))
    && (a.add == Modified || (a.add == ValueExists && a.replaceOk))
  }

  /** Everything that has to go well before the domain is pulled. */
  predicate Ldap2Ok(l2: Ldap2, accountControl: nat, computerDn: string) {
    && l2.connectOk && (accountControl == WANTED_ACCOUNT_CONTROL || l2.modifyOk)
    && l2.placeOk && (computerDn == l2.newDn || l2.renameOk)
  }

  /** How far a promotion has come, the server object, and the account as last known. */
  datatype Progress = Progress(stage: Stage, serverDn: Option<string>, accountControl: nat, computerDn: string)

  /** The status of becomeDC_connect_ldap1. */
  function Ldap1Status(a: Ldap1): NtStatus {
    if !a.connectOk then NetworkError
    else if FirstFailure(a.lookups.All()) != NtOk then FirstFailure(a.lookups.All())
    else if a.computerDn.None? then InvalidNetworkResponse
    else ObjectStatus(a)
  }

  function ObjectStatus(a: Ldap1): NtStatus {
    match a.server1
    case LookupFailed => LdapError
    case WrongCount => InvalidNetworkResponse
    case Found(reference, dn) =>
      if reference.Some? && reference != a.computerDn then NameCollision
      else if dn.None? then InvalidNetworkResponse
      else ModifyStatus(a)
    case NoSuchObject =>
      match a.server2
      case BackLinkFailed => LdapError
      case BackLinkWrongCount => InvalidNetworkResponse
      case BackLink(dn) => if dn.None? && !a.addOk then LdapError else ModifyStatus(a)
  }

  function ModifyStatus(a: Ldap1): NtStatus {
    if a.add == Modified || (a.add == ValueExists && a.replaceOk) then NtOk else LdapError
  }

  /** The name of the server object: found by name or by back link, or new. */
  function ServerDnOf(a: Ldap1): string {
    if a.server1.Found? && a.server1.dn.Some? then a.server1.dn.value
    else if a.server2.BackLink? && a.server2.dn.Some? then a.server2.dn.value
    else a.newServerDn
  }

  /** The events of becomeDC_connect_ldap1. */
  function ServerEvents(a: Ldap1): seq<Event> {
    if !a.connectOk || FirstFailure(a.lookups.All()) != NtOk || a.computerDn.None? then [] else ObjectEvents(a)
  }

  function ObjectEvents(a: Ldap1): seq<Event> {
    match a.server1
    case LookupFailed => []
    case WrongCount => []
    case Found(reference, dn) =>
      if reference.Some? && reference != a.computerDn then []
      else if dn.None? then [NameChecked]
      else [NameChecked, ServerDn(dn.value)] + ModifyEvents(dn.value, a)
    case NoSuchObject =>
      if !a.server2.BackLink? then [NameChecked]
      else if a.server2.dn.Some? then [NameChecked, ServerDn(a.server2.dn.value)] + ModifyEvents(a.server2.dn.value, a)
      else if !a.addOk then [NameChecked, ServerAdd(a.newServerDn)]
      else [NameChecked, ServerAdd(a.newServerDn), ServerDn(a.newServerDn)] + ModifyEvents(a.newServerDn, a)
  }

  function ModifyEvents(dn: string, a: Ldap1): seq<Event> {
    if a.add == ValueExists then [ServerModify(dn), ServerModify(dn)] else [ServerModify(dn)]
  }

  /** The status in terms of what has to go well. */
  lemma Ldap1OkIs(a: Ldap1)
    ensures Ldap1Status(a) == NtOk <==> Ldap1Ok(a)
    ensures Ldap1Status(a) == NameCollision <==> Collides(a)
    ensures Collides(a) ==> ServerEvents(a) == []
    ensures OnlyServerEvents([])
  {
    hide FirstFailure;
  }

  lemma ModifyEventsAre(dn: string, a: Ldap1)
    ensures ModifyEvents(dn, a)
            == if a.add == ValueExists then [ServerModify(dn), ServerModify(dn)] else [ServerModify(dn)]
  {
  }

  /** The events of becomeDC_connect_ldap2. */
  function AccountEvents(l2: Ldap2, accountControl: nat, computerDn: string): seq<Event> {
    var changes := if accountControl != WANTED_ACCOUNT_CONTROL then [AccountModify(computerDn)] else [];
    if !l2.connectOk then []
    else if (accountControl != WANTED_ACCOUNT_CONTROL && !l2.modifyOk) || !l2.placeOk then changes
    else if computerDn == l2.newDn then changes + [AccountReady]
    else if !l2.renameOk then changes + [AccountMove(computerDn)]
    else changes + [AccountMove(computerDn)] + [AccountReady]
  }

  /** The events of a pull answer. */
  function PullEvents(before: Progress, status: WError, more: bool, mark: Watermark, l2: Ldap2): seq<Event>
    requires before.stage.Pulling?
  {
    if status != WerrOk then []
    else if more then [Request(before.stage.part, mark)]
    else match before.stage.part
      case Schema => [Pulled(Schema)] + [Request(Config, ZERO_MARK)]
      case Config =>
        [Pulled(Config)] + AccountEvents(l2, before.accountControl, before.computerDn)
        + (if Ldap2Ok(l2, before.accountControl, before.computerDn) then [Request(Domain, ZERO_MARK)] else [])
      case Domain => [Pulled(Domain)] + [UpdateRefs(Schema)]
  }

  lemma NoPullEvents(before: Progress, status: WError, more: bool, mark: Watermark, l2: Ldap2)
    requires before.stage.Pulling? && status != WerrOk
    ensures PullEvents(before, status, more, mark, l2) == []
  {
  }

  lemma Regroup(log: seq<Event>, a: seq<Event>, b: seq<Event>, c: seq<Event>)
    ensures log + a + b + c == log + (a + b + c)
    ensures b == [] ==> log + a + c == log + (a + c)
  {
  }

  /** What the CLDAP answer and the first LDAP connection lead to. */
  predicate CldapTo(ok: bool, a: Ldap1, after: Progress) {
    && (after.stage == AwaitConnect1 <==> ok && Ldap1Ok(a))
    && (after.stage == if !ok then Finished(NetworkError)
                       else if Ldap1Status(a) == NtOk then AwaitConnect1 else Finished(Ldap1Status(a)))
    && (after.stage == AwaitConnect1 ==>
          && after.serverDn == Some(ServerDnOf(a))
          && after.accountControl == a.accountControl && a.computerDn == Some(after.computerDn))
    && (after.stage == Finished(NameCollision) <==> ok && Collides(a))
  }

  /** What a complete configuration and the second LDAP connection lead to. */
  predicate ConfigTo(before: Progress, l2: Ldap2, after: Progress) {
    && after.serverDn == before.serverDn
    && if Ldap2Ok(l2, before.accountControl, before.computerDn)
       then after == Progress(Pulling(Domain), before.serverDn, WANTED_ACCOUNT_CONTROL, l2.newDn)
       else after.stage == Finished(if l2.connectOk then LdapError else NetworkError)
  }

  /** What the answer to a pull request leads to. */
  predicate PullTo(before: Progress, rpcOk: bool, status: WError, more: bool, l2: Ldap2, after: Progress)
    requires before.stage.Pulling?
  {
    if !rpcOk then after == before.(stage := Finished(RpcError))
    else if status != WerrOk then after == before.(stage := Finished(PullError(status)))
    else if more then after == before
    else match before.stage.part
      case Schema => after == before.(stage := Pulling(Config))
      case Config => ConfigTo(before, l2, after)
      case Domain => after == before.(stage := AwaitRefs(Schema))
  }

  /** The server object is found and refers to another computer. */
  predicate Collides(a: Ldap1) {
    && a.connectOk && FirstFailure(a.lookups.All()) == NtOk && a.computerDn.Some?
    && a.server1.Found? && a.server1.reference.Some? && a.server1.reference.value != a.computerDn.value
  }

  /** A request adds no milestone. */
  lemma RequestKeeps(log: seq<Event>, which: Which, mark: Watermark, serverDn: Option<string>)
    requires Reached(Pulling(which), serverDn, log)
    ensures Allowed(log, Request(which, mark))
    ensures Reached(Pulling(which), serverDn, log + [Request(which, mark)])
    ensures Pulled(which) !in log + [Request(which, mark)]
    ensures forall w :: Pulled(w) in log + [Request(which, mark)] <==> Pulled(w) in log
  {
    if which == Schema {
      var dn :| AddEntry(dn) in log;
      assert AddEntry(dn) in log + [Request(which, mark)];
    }
  }

  /** What completing a partition makes possible. */
  lemma PullStep(which: Which, log: seq<Event>, serverDn: Option<string>)
    requires Reached(Pulling(which), serverDn, log)
    ensures Allowed(log, Pulled(which))
    ensures which == Schema ==> Pulled(Config) !in log
    ensures which == Config ==> Pulled(Domain) !in log
    ensures var log' := log + [Pulled(which)];
            && (forall w :: w != which ==> (Pulled(w) in log' <==> Pulled(w) in log))
            && (which == Schema ==> Reached(Pulling(Config), serverDn, log'))
            && (which == Config ==> AccountReady !in log' && Pulled(Domain) !in log' && Pulled(Config) in log')
            && (which == Domain ==>
                  && Allowed(log', UpdateRefs(Schema))
                  && Reached(AwaitRefs(Schema), serverDn, log' + [UpdateRefs(Schema)])
                  && (forall w :: w != which ==> (Pulled(w) in log' + [UpdateRefs(Schema)] <==> Pulled(w) in log)))
  {
  }

  /** Events about the account do not touch what has been pulled. */
  lemma AccountKeeps(log0: seq<Event>, log: seq<Event>, serverDn: Option<string>)
    requires log0 <= log && Pulled(Domain) !in log0
    requires forall i :: |log0| <= i < |log| ==> log[i].AccountModify? || log[i].AccountMove? || log[i].AccountReady?
    ensures forall w :: Pulled(w) in log <==> Pulled(w) in log0
    ensures forall w :: RequestsIn(log, w) == RequestsIn(log0, w)
    ensures AccountReady in log ==> Reached(Pulling(Domain), serverDn, log)
  {
    forall w: Which
      ensures RequestsIn(log, w) == RequestsIn(log0, w)
    {
      RequestsSkip(log0, log, w);
    }
    assert log == log0 + log[|log0|..];
  }

  lemma ReachedEnd(st: NtStatus, serverDn: Option<string>, log: seq<Event>)
    requires st != NotImplemented && st != NtOk
    ensures Reached(Finished(st), serverDn, log)
  {
  }

  /** Only the events of sorting out the server object. */
  predicate OnlyServerEvents(log: seq<Event>) {
    forall i :: 0 <= i < |log| ==>
      log[i].NameChecked? || log[i].ServerDn? || log[i].ServerAdd? || log[i].ServerModify?
  }

  lemma ServerEventsAreQuiet(log: seq<Event>)
    requires OnlyServerEvents(log)
    ensures Quiet(log)
    ensures forall w :: RequestsIn(log, w) == []
  {
    forall w: Which
      ensures RequestsIn(log, w) == []
    {
      RequestsSkip([], log, w);
    }
  }

  /** How far a partition with so many requests, so many replies and the given
      watermark has come, as the stage and the log have it. */
  ghost predicate PartAt(requests: nat, replies: nat, mark: Watermark, which: Which, stage: Stage, log: seq<Event>) {
    && (Pulled(which) in log ==> requests == replies && 0 < replies && !More(mark))
    && (stage == Pulling(which) ==> requests == replies + 1)
    && (Pulled(which) !in log && stage != Pulling(which) && !stage.Finished? ==> requests == 0 && replies == 0)
  }

  /** No partition has been asked for when nothing has happened. */
  lemma AtTheStart()
    ensures forall w :: RequestsIn([], w) == []
    ensures forall w, mark :: PartAt(0, 0, mark, w, AwaitCldap, [])
  {
  }

  lemma PartIsPulling(requests: nat, replies: nat, mark: Watermark, which: Which, log: seq<Event>)
    requires PartAt(requests, replies, mark, which, Pulling(which), log)
    ensures requests == replies + 1
  {
  }

  lemma PartDone(requests: nat, replies: nat, mark: Watermark, which: Which, stage: Stage, log: seq<Event>)
    requires requests == replies && 0 < replies && !More(mark) && Pulled(which) in log && stage != Pulling(which)
    ensures PartAt(requests, replies, mark, which, stage, log)
  {
  }

  /** A partition whose turn has not come has its initial watermark. */
  lemma NotStarted(p: Partition, which: Which, stage: Stage, log: seq<Event>)
    requires p.Valid() && PartAt(|p.requests|, |p.replies|, p.watermark, which, stage, log)
    requires Pulled(which) !in log && stage != Pulling(which) && !stage.Finished?
    ensures p.requests == [] && p.replies == [] && p.watermark == ZERO_MARK
  {
  }

  lemma FirstMark(p: Partition)
    requires p.Valid() && p.replies == []
    ensures p.watermark == ZERO_MARK
  {
  }

  lemma PartPulling(requests: nat, replies: nat, mark: Watermark, which: Which, log: seq<Event>)
    requires requests == replies + 1 && Pulled(which) !in log
    ensures PartAt(requests, replies, mark, which, Pulling(which), log)
  {
  }

  /** Partitions that a step is not about stay as they are. */
  lemma PartAtKept(requests: nat, replies: nat, mark: Watermark, which: Which,
                   stage: Stage, log: seq<Event>, stage': Stage, log': seq<Event>)
    requires PartAt(requests, replies, mark, which, stage, log)
    requires Pulled(which) in log <==> Pulled(which) in log'
    requires stage' != Pulling(which)
    requires stage'.Finished? || (stage != Pulling(which) && !stage.Finished?)
    ensures PartAt(requests, replies, mark, which, stage', log')
  {
  }
}
