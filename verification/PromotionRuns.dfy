/** Whole runs of becoming a domain controller: any sequence of answers from the
    network, and what it leaves behind (libnet/libnet_become_dc.c). */
module PromotionRuns {
  import opened Options
  import opened Replication
  import opened Promotion

  /** An answer from the network. */
  datatype Answer =
    | CldapAnswer(ok: bool, ldap1: Ldap1)
    | ConnectAnswer(ok: bool)
    | BindAnswer(ok: bool)
    | AddEntryAnswer(ok: bool)
    | PullAnswer(ok: bool, result: WError, known: bool, mark: Watermark, objects: seq<DirObject>, ldap2: Ldap2)
    | RefsAnswer(ok: bool)

  /** What the client makes of a pull answer that has arrived. */
  function PullStatus(result: WError, known: bool, objects: seq<DirObject>): WError {
    if result != WerrOk then result
    else if !known then WerrBadNetResp
    else if objects == [] then NullDereference
    else WerrOk
  }

  /** What an answer adds to the replies of a partition. */
  function ChunkOf(stage: Stage, a: Answer, which: Which): seq<Chunk> {
    if stage == Pulling(which) && a.PullAnswer? && a.ok && PullStatus(a.result, a.known, a.objects) == WerrOk
    then [Chunk(a.mark, a.objects)] else []
  }

  /** The replies that the first `n` answers make for a partition: those of the
      acceptable answers that come while it is being pulled. */
  ghost function Accepted(trace: seq<Progress>, answers: seq<Answer>, which: Which, n: nat): seq<Chunk>
    requires n <= |answers| && n <= |trace|
  {
    if n == 0 then []
    else Accepted(trace, answers, which, n - 1) + ChunkOf(trace[n - 1].stage, answers[n - 1], which)
  }

  /** What an answer leads to. One that nobody waits for changes nothing. */
  ghost predicate Step(before: Progress, answer: Answer, after: Progress) {
    var stage := before.stage;
    match answer
    case CldapAnswer(ok, ldap1) =>
      if stage == AwaitCldap then CldapTo(ok, ldap1, after) else after == before
    case ConnectAnswer(ok) =>
      after == before.(stage := if !stage.AwaitConnect1? && !stage.AwaitConnect2? && !stage.AwaitConnect3? then stage
                                else if !ok then Finished(NetworkError)
                                else if stage == AwaitConnect1 then AwaitBind1
                                else if stage == AwaitConnect2 then AwaitBind2
                                else Pulling(Schema))
    case BindAnswer(ok) =>
      after == before.(stage := if !stage.AwaitBind1? && !stage.AwaitBind2? then stage
                                else if !ok then Finished(RpcError)
                                else if stage == AwaitBind1 then AwaitAddEntry
                                else AwaitConnect3)
    case AddEntryAnswer(ok) =>
      after == before.(stage := if !stage.AwaitAddEntry? then stage
                                else if ok then AwaitConnect2 else Finished(RpcError))
    case PullAnswer(ok, result, known, mark, objects, ldap2) =>
      if !stage.Pulling? then after == before
      else PullTo(before, ok, PullStatus(result, known, objects), More(mark), ldap2, after)
    case RefsAnswer(ok) =>
      after == before.(stage := if !stage.AwaitRefs? then stage
                                else if !ok then Finished(RpcError)
                                else if stage.part == Schema then AwaitRefs(Config)
                                else if stage.part == Config then AwaitRefs(Domain)
                                else Finished(NotImplemented))
  }

  /** The events of an answer. */
  function EventsOf(p: Progress, a: Answer): seq<Event> {
    match a
    case CldapAnswer(ok, ldap1) => if p.stage == AwaitCldap && ok then ServerEvents(ldap1) else []
    case ConnectAnswer(ok) => if p.stage == AwaitConnect3 && ok then [Request(Schema, ZERO_MARK)] else []
    case BindAnswer(ok) =>
      if p.stage == AwaitBind1 && ok && p.serverDn.Some? then [AddEntry(p.serverDn.value)] else []
    case AddEntryAnswer(ok) => []
    case PullAnswer(ok, result, known, mark, objects, ldap2) =>
      if p.stage.Pulling? && ok
      then PullEvents(p, PullStatus(result, known, objects), More(mark), mark, ldap2) else []
    case RefsAnswer(ok) =>
      if p.stage == AwaitRefs(Schema) && ok then [UpdateRefs(Config)]
      else if p.stage == AwaitRefs(Config) && ok then [UpdateRefs(Domain)]
      else []
  }

  /** The events of the first `n` answers. */
  function Events(trace: seq<Progress>, answers: seq<Answer>, n: nat): seq<Event>
    requires n <= |answers| && n <= |trace|
  {
    if n == 0 then [] else Events(trace, answers, n - 1) + EventsOf(trace[n - 1], answers[n - 1])
  }

  /** A promotion driven by the answers, from its start. */
  ghost predicate Trace(trace: seq<Progress>, answers: seq<Answer>) {
    && |trace| == |answers| + 1 && trace[0].stage == AwaitCldap
    && forall i :: 0 <= i < |answers| ==> Step(trace[i], answers[i], trace[i + 1])
  }

  /** The place of a stage in the sequence of stages. */
  function Rank(stage: Stage): nat {
    match stage
    case AwaitCldap => 0
    case AwaitConnect1 => 1
    case AwaitBind1 => 2
    case AwaitAddEntry => 3
    case AwaitConnect2 => 4
    case AwaitBind2 => 5
    case AwaitConnect3 => 6
    case Pulling(p) => 7 + Position(p)
    case AwaitRefs(p) => 10 + Position(p)
    case Finished(_) => 13
  }

  function Position(p: Which): nat {
    match p case Schema => 0 case Config => 1 case Domain => 2
  }

  /** An answer moves a promotion to the very next stage or ends it; if it moves
      nothing, nobody waited for it, or more of a partition is to come. */
  lemma StepRank(before: Progress, answer: Answer, after: Progress)
    requires Step(before, answer, after)
    ensures after == before || Rank(after.stage) == Rank(before.stage) + 1 || Failed(after.stage)
    ensures before.stage.Finished? ==> after == before
    ensures after.stage == Finished(NtOk) ==> before == after
  {
  }

  /** No stage comes back, and an ended promotion stays as it is. */
  lemma {:induction false} OnlyForward(trace: seq<Progress>, answers: seq<Answer>, i: nat, j: nat)
    requires Trace(trace, answers) && i <= j < |trace|
    ensures Rank(trace[i].stage) <= Rank(trace[j].stage)
    ensures trace[i].stage.Finished? ==> trace[j] == trace[i]
    decreases j
  {
    if i < j {
      hide Step, Rank;
      OnlyForward(trace, answers, i, j - 1);
      StepRank(trace[j - 1], answers[j - 1], trace[j]);
      RankOfEnd(trace[j].stage);
      RankOfEnd(trace[j - 1].stage);
    }
  }

  /** No promotion ends with success: it fails, or it gets to the last callback. */
  lemma {:induction false} NeverOk(trace: seq<Progress>, answers: seq<Answer>, j: nat)
    requires Trace(trace, answers) && j < |trace|
    ensures trace[j].stage != Finished(NtOk)
  {
    if j > 0 {
      hide Step;
      NeverOk(trace, answers, j - 1);
      StepRank(trace[j - 1], answers[j - 1], trace[j]);
    }
  }

  lemma RankOfEnd(stage: Stage)
    ensures Rank(stage) <= 13 && (stage.Finished? <==> Rank(stage) == 13)
  {
  }

  /** A promotion that gets to its last callback has been through every stage. */
  lemma {:induction false} ThroughEveryStage(trace: seq<Progress>, answers: seq<Answer>, j: nat, r: nat)
    returns (i: nat)
    requires Trace(trace, answers) && j < |trace| && !Failed(trace[j].stage) && r <= Rank(trace[j].stage)
    ensures i <= j && Rank(trace[i].stage) == r && !Failed(trace[i].stage)
    decreases j
  {
    if j == 0 || r == Rank(trace[j].stage) {
      i := j;
    } else {
      hide Step, Rank;
      StepRank(trace[j - 1], answers[j - 1], trace[j]);
      i := ThroughEveryStage(trace, answers, j - 1, r);
    }
  }

  /** The answer is one that is waited for, and a good one. */
  predicate Positive(p: Progress, a: Answer) {
    match p.stage
    case AwaitCldap => a.CldapAnswer? && a.ok && Ldap1Ok(a.ldap1)
    case AwaitConnect1 => a.ConnectAnswer? && a.ok
    case AwaitBind1 => a.BindAnswer? && a.ok
    case AwaitAddEntry => a.AddEntryAnswer? && a.ok
    case AwaitConnect2 => a.ConnectAnswer? && a.ok
    case AwaitBind2 => a.BindAnswer? && a.ok
    case AwaitConnect3 => a.ConnectAnswer? && a.ok
    case Pulling(part) =>
      && a.PullAnswer? && a.ok && PullStatus(a.result, a.known, a.objects) == WerrOk
      && (part == Config && !More(a.mark) ==> Ldap2Ok(a.ldap2, p.accountControl, p.computerDn))
    case AwaitRefs(_) => a.RefsAnswer? && a.ok
    case Finished(_) => false
  }

  /** A good answer, and not one that leaves more of a partition to come. */
  predicate Advances(p: Progress, a: Answer) {
    Positive(p, a) && !(a.PullAnswer? && More(a.mark))
  }

  lemma StepAdvances(before: Progress, answer: Answer, after: Progress)
    requires Step(before, answer, after)
    ensures !Failed(after.stage) ==> Rank(after.stage) == Rank(before.stage) + if Advances(before, answer) then 1 else 0
    ensures Positive(before, answer) ==> !Failed(after.stage)
    ensures Failed(before.stage) ==> Failed(after.stage)
  {
  }

  /** How many of the first `j` answers advanced the promotion. */
  ghost function Advanced(trace: seq<Progress>, answers: seq<Answer>, j: nat): nat
    requires j <= |answers| && j <= |trace|
  {
    if j == 0 then 0
    else Advanced(trace, answers, j - 1) + if Advances(trace[j - 1], answers[j - 1]) then 1 else 0
  }

  /** A promotion that has not failed is as many stages on as it got answers that
      advance it; so thirteen such answers complete it, and no fewer do. */
  lemma {:induction false} StageCounts(trace: seq<Progress>, answers: seq<Answer>, j: nat)
    requires Trace(trace, answers) && j < |trace| && !Failed(trace[j].stage)
    ensures Rank(trace[j].stage) == Advanced(trace, answers, j)
    ensures trace[j].stage == Finished(NotImplemented) <==> Advanced(trace, answers, j) == 13
  {
    hide Step, Advances;
    if j > 0 {
      StepAdvances(trace[j - 1], answers[j - 1], trace[j]);
      StageCounts(trace, answers, j - 1);
    }
    RankOfEnd(trace[j].stage);
    NeverOk(trace, answers, j);
  }

  /** Deliver an answer to the callback that waits for an answer of its kind. */
  method Deliver(dc: BecomeDc, answer: Answer)
    requires dc.Valid()
    modifies dc, dc.schema, dc.config, dc.domain, dc.Nodes()
    ensures dc.Valid() && fresh(dc.Nodes() - old(dc.Nodes()))
    ensures Step(old(dc.Now()), answer, dc.Now()) && old(dc.log) <= dc.log
    ensures forall w :: dc.Replies(w) == old(dc.Replies(w)) + ChunkOf(old(dc.stage), answer, w)
    ensures dc.log == old(dc.log) + EventsOf(old(dc.Now()), answer)
  {
    hide BecomeDc.Valid, PullEvents;
    ghost var stage, history := dc.stage, dc.History();
    HistoryMeans(dc);
    match answer {
      case PullAnswer(ok, result, known, mark, objects, ldap2) =>
        if dc.stage.Pulling? {
          DeliverPull(dc, ok, result, known, mark, objects, ldap2);
          HistoryMeans(dc);
          ExtendedMeans(history, stage.part, ChunkOf(stage, answer, stage.part));
        }
      case _ =>
        DeliverOther(dc, answer);
        HistoryMeans(dc);
    }
  }

  lemma HistoryMeans(dc: BecomeDc)
    ensures forall w :: dc.Replies(w) == dc.History().Of(w)
  {
  }

  lemma ExtendedMeans(history: Three<Chunk>, part: Which, more: seq<Chunk>)
    ensures forall w :: history.Extended(part, more).Of(w) == history.Of(w) + if w == part then more else []
  {
  }

  /** Answers that are not about pulling. */
  method DeliverOther(dc: BecomeDc, answer: Answer)
    requires dc.Valid() && !answer.PullAnswer?
    modifies dc, dc.schema`requests
    ensures dc.Valid() && Step(old(dc.Now()), answer, dc.Now())
    ensures dc.log == old(dc.log) + EventsOf(old(dc.Now()), answer)
    ensures dc.History() == old(dc.History()) && dc.Nodes() == old(dc.Nodes())
  {
    hide BecomeDc.Valid, PullEvents, ServerEvents, Ldap1Status, Ldap1Ok, Ldap2Ok, Collides;
    match answer {
      case CldapAnswer(ok, ldap1) =>
        if dc.stage == AwaitCldap {
          NothingYet(dc);
          dc.OnCldap(ok, ldap1);
        }
      case ConnectAnswer(ok) =>
        if dc.stage == AwaitConnect1 || dc.stage == AwaitConnect2 || dc.stage == AwaitConnect3 {
          dc.OnConnect(ok);
        }
      case BindAnswer(ok) =>
        if dc.stage == AwaitBind1 || dc.stage == AwaitBind2 {
          dc.OnBind(ok);
        }
      case AddEntryAnswer(ok) =>
        if dc.stage == AwaitAddEntry {
          dc.OnAddEntry(ok);
        }
      case RefsAnswer(ok) =>
        if dc.stage.AwaitRefs? {
          dc.OnRefs(ok);
        }
    }
  }

  method DeliverPull(dc: BecomeDc, ok: bool, result: WError, known: bool, mark: Watermark,
                     objects: seq<DirObject>, ldap2: Ldap2)
    requires dc.Valid() && dc.stage.Pulling?
    modifies dc, dc.schema, dc.config, dc.domain, dc.Nodes()
    ensures dc.Valid() && fresh(dc.Nodes() - old(dc.Nodes())) && old(dc.log) <= dc.log
    ensures PullTo(old(dc.Now()), ok, PullStatus(result, known, objects), More(mark), ldap2, dc.Now())
    ensures var answer, part := PullAnswer(ok, result, known, mark, objects, ldap2), old(dc.stage).part;
            dc.History() == old(dc.History()).Extended(part, ChunkOf(old(dc.stage), answer, part))
    ensures var status := PullStatus(result, known, objects);
            dc.log == old(dc.log) + if ok then PullEvents(old(dc.Now()), status, More(mark), mark, ldap2) else []
  {
    hide PullEvents;
    hide BecomeDc.Valid, Linked, Objects, Status, MarkOf, GainChunks, Gain;
    if !ok {
      dc.Fail(RpcError);
      return;
    }
    var first;
    ghost var chain;
    first, chain := Source.BuildList(objects);
    var r := Reply(result, if known then Level6(Ctr(1, 2, mark, first)) else OtherLevel);
    ReplyMeans(result, known, mark, objects, first, chain);
    if PullStatus(result, known, objects) != WerrOk {
      NoPullEvents(dc.Now(), PullStatus(result, known, objects), More(mark), mark, ldap2);
      NoPullEvents(dc.Now(), PullStatus(result, known, objects), More(MarkOf(r)), MarkOf(r), ldap2);
    }
    dc.OnPull(r, chain, ldap2);
  }

  lemma NothingYet(dc: BecomeDc)
    requires dc.Valid() && dc.stage == AwaitCldap
    ensures dc.log == []
  {
  }

  lemma ReplyMeans(result: WError, known: bool, mark: Watermark, objects: seq<DirObject>,
                   first: Item?, chain: seq<Item>)
    requires Objects(chain) == objects && first == if objects == [] then null else chain[0]
    ensures var r := Reply(result, if known then Level6(Ctr(1, 2, mark, first)) else OtherLevel);
            && Status(r) == PullStatus(result, known, objects)
            && (Status(r) == WerrOk ==>
                  chain != [] && chain[0] == r.body.ctr.first && MarkOf(r) == mark
                  && GainChunks(r, chain) == [Chunk(mark, objects)])
            && (Status(r) != WerrOk ==> GainChunks(r, chain) == [])
  {
  }

  lemma TraceStep(trace: seq<Progress>, answers: seq<Answer>, i: nat, next: Progress)
    requires i < |answers| && Trace(trace, answers[..i]) && Step(trace[i], answers[i], next)
    ensures Trace(trace + [next], answers[..i + 1])
  {
    hide Step;
    var longer := trace + [next];
    assert forall k :: 0 <= k <= i ==> longer[k] == trace[k];
    assert longer[i + 1] == next;
  }

  lemma AcceptedStep(trace: seq<Progress>, answers: seq<Answer>, i: nat, next: Progress)
    requires i < |answers| && |trace| == i + 1
    ensures forall w :: Accepted(trace + [next], answers, w, i + 1)
                        == Accepted(trace, answers, w, i) + ChunkOf(trace[i].stage, answers[i], w)
  {
    hide ChunkOf;
    forall w: Which
      ensures Accepted(trace + [next], answers, w, i) == Accepted(trace, answers, w, i)
    {
      AcceptedSame(trace, trace + [next], answers, w, i);
    }
  }

  lemma {:induction false} AcceptedSame(trace: seq<Progress>, longer: seq<Progress>, answers: seq<Answer>,
                                        w: Which, n: nat)
    requires n <= |answers| && n <= |trace| && trace <= longer
    ensures Accepted(longer, answers, w, n) == Accepted(trace, answers, w, n)
  {
    if n > 0 {
      AcceptedSame(trace, longer, answers, w, n - 1);
    }
  }

  /** What being valid says about the log and the lists. */
  lemma ValidMeans(dc: BecomeDc)
    requires dc.Valid()
    ensures InOrder(dc.log)
    ensures dc.stage != Finished(NtOk)
    ensures dc.stage == Finished(NotImplemented) ==> UpdateRefs(Domain) in dc.log
    ensures forall w :: Objects(dc.Items(w)) == AllObjects(dc.Replies(w))
    ensures forall w :: Continues(RequestsIn(dc.log, w), dc.Replies(w))
  {
    hide InOrder, PartAt, RequestsIn, Objects, AllObjects, Linked;
  }

  /** The first request starts from nothing, and every other one where the reply
      before it ended; at most one is unanswered. */
  ghost predicate Continues(requests: seq<Watermark>, replies: seq<Chunk>) {
    && |replies| <= |requests| <= |replies| + 1
    && forall i :: 0 <= i < |requests| ==> requests[i] == if i == 0 then ZERO_MARK else replies[i - 1].watermark
  }

  /** Any sequence of answers. The steps come in order, whatever the answers, and
      a promotion that got to its last callback has done them all. Each list is
      made of the objects of the acceptable answers that came while its partition
      was being pulled, and each request continues where such an answer ended. */
  method Run(answers: seq<Answer>) returns (dc: BecomeDc, ghost trace: seq<Progress>)
    ensures fresh(dc) && dc.Valid() && InOrder(dc.log)
    ensures Trace(trace, answers) && trace[|answers|] == dc.Now()
    // the log is that of the answers
    ensures dc.log == Events(trace, answers, |answers|)
    // no run reports success; the last callback is reached only when all has been done
    ensures dc.stage != Finished(NtOk)
    ensures dc.stage == Finished(NotImplemented) ==> UpdateRefs(Domain) in dc.log
    ensures forall w :: Objects(dc.Items(w)) == AllObjects(Accepted(trace, answers, w, |answers|))
    ensures forall w :: Continues(RequestsIn(dc.log, w), Accepted(trace, answers, w, |answers|))
  {
    hide BecomeDc.Valid, Step, InOrder, RequestsIn, Accepted, Objects, AllObjects, Continues, ChunkOf, Events, EventsOf;
    dc := new BecomeDc();
    trace := [dc.Now()];
    AcceptedNothing(trace, answers);
    EventsNothing(trace, answers);
    for i := 0 to |answers|
      invariant fresh(dc) && fresh(dc.schema) && fresh(dc.config) && fresh(dc.domain) && fresh(dc.Nodes())
      invariant dc.Valid()
      invariant Trace(trace, answers[..i]) && trace[i] == dc.Now()
      invariant forall w :: dc.Replies(w) == Accepted(trace, answers, w, i)
      invariant dc.log == Events(trace, answers, i)
    {
      Deliver(dc, answers[i]);
      TraceStep(trace, answers, i, dc.Now());
      EventsStep(trace, answers, i, dc.Now());
      AcceptedStep(trace, answers, i, dc.Now());
      trace := trace + [dc.Now()];
    }
    assert answers[..|answers|] == answers;
    ValidMeans(dc);
  }

  lemma EventsNothing(trace: seq<Progress>, answers: seq<Answer>)
    ensures Events(trace, answers, 0) == []
  {
  }

  lemma EventsStep(trace: seq<Progress>, answers: seq<Answer>, i: nat, next: Progress)
    requires i < |answers| && |trace| == i + 1
    ensures Events(trace + [next], answers, i + 1) == Events(trace, answers, i) + EventsOf(trace[i], answers[i])
  {
    hide EventsOf;
    EventsSame(trace, trace + [next], answers, i);
  }

  lemma {:induction false} EventsSame(trace: seq<Progress>, longer: seq<Progress>, answers: seq<Answer>, n: nat)
    requires n <= |answers| && n <= |trace| && trace <= longer
    ensures Events(longer, answers, n) == Events(trace, answers, n)
  {
    if n > 0 {
      EventsSame(trace, longer, answers, n - 1);
    }
  }

  // ---- the account ----

  /** Only a completed configuration leads to a ready account. */
  lemma ReadyFrom(p: Progress, a: Answer)
    requires AccountReady in EventsOf(p, a)
    ensures p.stage == Pulling(Config) && a.PullAnswer?
    ensures EventsOf(p, a) == [Pulled(Config)]
              + (if p.accountControl != WANTED_ACCOUNT_CONTROL then [AccountModify(p.computerDn)] else [])
              + (if p.computerDn != a.ldap2.newDn then [AccountMove(p.computerDn)] else [])
              + [AccountReady] + [Request(Domain, ZERO_MARK)]
  {
    hide FirstFailure;
  }

  /** From the first LDAP connection to the second the account is as it was read. */
  lemma {:induction false} AccountAsRead(trace: seq<Progress>, answers: seq<Answer>, i: nat) returns (j: nat)
    requires Trace(trace, answers) && i < |trace| && 1 <= Rank(trace[i].stage) <= 8
    ensures j < i && trace[j].stage == AwaitCldap && answers[j].CldapAnswer?
    ensures trace[i].accountControl == answers[j].ldap1.accountControl
    ensures answers[j].ldap1.computerDn == Some(trace[i].computerDn)
    decreases i
  {
    hide Ldap1Ok, Ldap1Status, Ldap2Ok, Collides;
    var p, a, q := trace[i - 1], answers[i - 1], trace[i];
    assert Step(p, a, q);
    if p.stage == AwaitCldap {
      j := i - 1;
    } else {
      j := AccountAsRead(trace, answers, i - 1);
    }
  }

  /** Wherever the account is ready, it was changed just before if the flags that
      were read at the beginning were not right, and moved if the place was not,
      and not otherwise. */
  lemma {:induction false} AccountOnRecord(trace: seq<Progress>, answers: seq<Answer>, n: nat)
    returns (i: nat, j: nat, rest: seq<Event>)
    requires Trace(trace, answers) && n <= |answers| && AccountReady in Events(trace, answers, n)
    ensures j < i < n && answers[i].PullAnswer? && trace[i].stage == Pulling(Config)
    ensures answers[j].CldapAnswer? && trace[j].stage == AwaitCldap && answers[j].ldap1.computerDn.Some?
    ensures var dn, newDn := answers[j].ldap1.computerDn.value, answers[i].ldap2.newDn;
            Events(trace, answers, n)
            == Events(trace, answers, i) + [Pulled(Config)]
               + (if answers[j].ldap1.accountControl != WANTED_ACCOUNT_CONTROL then [AccountModify(dn)] else [])
               + (if dn != newDn then [AccountMove(dn)] else [])
               + [AccountReady] + rest
  {
    hide EventsOf, Step;
    var last := EventsOf(trace[n - 1], answers[n - 1]);
    if AccountReady in Events(trace, answers, n - 1) {
      i, j, rest := AccountOnRecord(trace, answers, n - 1);
      rest := rest + last;
    } else {
      i := n - 1;
      ReadyFrom(trace[i], answers[i]);
      j := AccountAsRead(trace, answers, i);
      rest := [Request(Domain, ZERO_MARK)];
    }
  }

  lemma AcceptedNothing(trace: seq<Progress>, answers: seq<Answer>)
    ensures forall w :: Accepted(trace, answers, w, 0) == []
  {
  }

  /** A log without its requests. */
  function Milestones(log: seq<Event>): seq<Event> {
    if log == [] then [] else Milestones(log[..|log| - 1]) + if log[|log| - 1].Request? then [] else [log[|log| - 1]]
  }

  lemma {:induction false} MilestonesConcat(a: seq<Event>, b: seq<Event>)
    ensures Milestones(a + b) == Milestones(a) + Milestones(b)
    decreases |b|
  {
    if b == [] {
      assert a + b == a;
    } else {
      var n := |b| - 1;
      assert (a + b)[..|a| + n] == a + b[..n] && (a + b)[|a| + n] == b[n];
      MilestonesConcat(a, b[..n]);
    }
  }

  lemma {:induction false} NoRequests(log: seq<Event>)
    requires forall i :: 0 <= i < |log| ==> !log[i].Request?
    ensures Milestones(log) == log
  {
    if log != [] {
      NoRequests(log[..|log| - 1]);
    }
  }

  lemma OneRequest(which: Which, mark: Watermark)
    ensures Milestones([Request(which, mark)]) == []
  {
    assert [Request(which, mark)][..0] == [];
  }

  // ---- a promotion against servers that answer from the watermark ----

  /** A partition for which no reply has come yet. */
  lemma NothingPulled(dc: BecomeDc, which: Which)
    requires dc.Valid() && dc.Replies(which) == []
    ensures dc.Items(which) == [] && dc.PartOf(which).watermark == ZERO_MARK
  {
    hide InOrder, PartAt, RequestsIn, Linked;
    assert AllObjects([]) == [];
    assert |Objects(dc.Items(which))| == |dc.Items(which)|;
  }

  /** One request and its answer. */
  method PullRound(dc: BecomeDc, source: Source, l2: Ldap2, ghost n: nat)
    returns (ghost n': nat, ghost mark: Watermark)
    requires dc.Valid() && dc.stage.Pulling? && Ordered(source.objects) && n < |source.objects|
    requires Objects(dc.Items(dc.stage.part)) == source.objects[..n]
    requires dc.PartOf(dc.stage.part).watermark.highestUsn == if n == 0 then 0 else source.objects[n - 1].usn
    modifies dc, dc.schema, dc.config, dc.domain, dc.Nodes()
    ensures dc.Valid() && fresh(dc.Nodes() - old(dc.Nodes()))
    ensures n < n' <= |source.objects| && Objects(dc.Items(old(dc.stage).part)) == source.objects[..n']
    ensures dc.PartOf(old(dc.stage).part).watermark.highestUsn == source.objects[n' - 1].usn
    ensures PullTo(old(dc.Now()), true, WerrOk, n' < |source.objects|, l2, dc.Now())
    ensures dc.log == old(dc.log) + PullEvents(old(dc.Now()), WerrOk, n' < |source.objects|, mark, l2)
    ensures forall w :: w != old(dc.stage).part ==>
              dc.Items(w) == old(dc.Items(w)) && dc.Replies(w) == old(dc.Replies(w))
  {
    hide BecomeDc.Valid, Linked, Objects, Status, PullEvents;
    var which := dc.stage.part;
    var part := match which case Schema => dc.schema case Config => dc.config case Domain => dc.domain;
    var r;
    ghost var chain;
    ghost var before := dc.Items(which);
    r, chain := source.GetNCChanges(part.watermark, n);
    dc.OnPull(r, chain, l2);
    ObjectsConcat(before, chain);
    n' := n + |chain|;
    mark := MarkOf(r);
    assert source.objects[..n] + source.objects[n..n'] == source.objects[..n'];
  }

  /** All rounds for one partition: it ends up whole, and the others stay. */
  method PullFrom(dc: BecomeDc, source: Source, l2: Ldap2)
    requires dc.Valid() && dc.stage.Pulling? && dc.Replies(dc.stage.part) == []
    requires Ordered(source.objects) && source.objects != []
    modifies dc, dc.schema, dc.config, dc.domain, dc.Nodes()
    ensures dc.Valid() && fresh(dc.Nodes() - old(dc.Nodes()))
    ensures PullTo(old(dc.Now()), true, WerrOk, false, l2, dc.Now())
    ensures Milestones(dc.log) == Milestones(old(dc.log))
                                  + Milestones(PullEvents(old(dc.Now()), WerrOk, false, ZERO_MARK, l2))
    ensures Objects(dc.Items(old(dc.stage).part)) == source.objects
    ensures forall w :: w != old(dc.stage).part ==>
              dc.Items(w) == old(dc.Items(w)) && dc.Replies(w) == old(dc.Replies(w))
  {
    hide BecomeDc.Valid, Linked, Objects, Status, Ordered, PullEvents, Milestones;
    var start := dc.stage;
    ghost var which := start.part;
    NothingPulled(dc, which);
    ObjectsNothing();
    ghost var n := 0;
    while dc.stage == start
      invariant dc.Valid() && fresh(dc.Nodes() - old(dc.Nodes()))
      invariant 0 <= n <= |source.objects| && Objects(dc.Items(which)) == source.objects[..n]
      invariant dc.stage == start <==> n < |source.objects|
      invariant dc.stage == start ==>
                  && dc.Now() == old(dc.Now())
                  && dc.PartOf(which).watermark.highestUsn == if n == 0 then 0 else source.objects[n - 1].usn
      invariant dc.stage != start ==> PullTo(old(dc.Now()), true, WerrOk, false, l2, dc.Now())
      invariant Milestones(dc.log) == Milestones(old(dc.log))
                                      + if dc.stage == start then []
                                        else Milestones(PullEvents(old(dc.Now()), WerrOk, false, ZERO_MARK, l2))
      invariant forall w :: w != which ==> dc.Items(w) == old(dc.Items(w)) && dc.Replies(w) == old(dc.Replies(w))
      decreases |source.objects| - n
    {
      ghost var log := dc.log;
      ghost var mark;
      n, mark := PullRound(dc, source, l2, n);
      MilestonesConcat(log, PullEvents(old(dc.Now()), WerrOk, n < |source.objects|, mark, l2));
      PullMilestones(old(dc.Now()), n < |source.objects|, mark, l2);
    }
    assert source.objects[..n] == source.objects;
  }

  /** A request for more is no milestone, and the others do not depend on the mark. */
  lemma PullMilestones(before: Progress, more: bool, mark: Watermark, l2: Ldap2)
    requires before.stage.Pulling?
    ensures more ==> Milestones(PullEvents(before, WerrOk, more, mark, l2)) == []
    ensures !more ==> PullEvents(before, WerrOk, more, mark, l2) == PullEvents(before, WerrOk, false, ZERO_MARK, l2)
  {
    hide AccountEvents, Milestones;
    if more {
      OneRequest(before.stage.part, mark);
    }
  }

  /** The milestones of a partition that is complete, and of a good account. */
  lemma DoneMilestones(before: Progress, l2: Ldap2)
    requires before.stage.Pulling?
    requires before.stage.part == Config ==> Ldap2Ok(l2, before.accountControl, before.computerDn)
    ensures Milestones(PullEvents(before, WerrOk, false, ZERO_MARK, l2))
            == match before.stage.part
               case Schema => [Pulled(Schema)]
               case Config =>
                 [Pulled(Config)] + AccountSteps(before.accountControl, before.computerDn, l2.newDn) + [AccountReady]
               case Domain => [Pulled(Domain), UpdateRefs(Schema)]
  {
    var events := PullEvents(before, WerrOk, false, ZERO_MARK, l2);
    hide Milestones;
    match before.stage.part
    case Schema =>
      NoRequests([Pulled(Schema)]);
      OneRequest(Config, ZERO_MARK);
      MilestonesConcat([Pulled(Schema)], [Request(Config, ZERO_MARK)]);
    case Config =>
      var account := [Pulled(Config)] + AccountEvents(l2, before.accountControl, before.computerDn);
      NoRequests(account);
      OneRequest(Domain, ZERO_MARK);
      MilestonesConcat(account, [Request(Domain, ZERO_MARK)]);
    case Domain =>
      NoRequests(events);
  }

  /** With good answers throughout and three servers that answer from the
      watermark, the promotion completes, and each of the three lists is the whole
      naming context, in order, without gap or duplicate. */
  method Promote(schema: Source, config: Source, domain: Source, a: Ldap1, l2: Ldap2) returns (dc: BecomeDc)
    requires Ordered(schema.objects) && Ordered(config.objects) && Ordered(domain.objects)
    requires schema.objects != [] && config.objects != [] && domain.objects != []
    requires Ldap1Ok(a) && Ldap2Ok(l2, a.accountControl, a.computerDn.value)
    ensures fresh(dc) && dc.Valid() && dc.stage == Finished(NotImplemented)
    ensures Objects(dc.Items(Schema)) == schema.objects
    ensures Objects(dc.Items(Config)) == config.objects
    ensures Objects(dc.Items(Domain)) == domain.objects
    // all that is done on the way, in order
    ensures Milestones(dc.log)
            == ServerEvents(a) + [AddEntry(ServerDnOf(a)), Pulled(Schema), Pulled(Config)]
               + (if a.accountControl != WANTED_ACCOUNT_CONTROL then [AccountModify(a.computerDn.value)] else [])
               + (if a.computerDn.value != l2.newDn then [AccountMove(a.computerDn.value)] else [])
               + [AccountReady, Pulled(Domain), UpdateRefs(Schema), UpdateRefs(Config), UpdateRefs(Domain)]
  {
    hide BecomeDc.Valid, Ordered, Objects, Ldap2Ok, Collides, Milestones, ServerEvents, PullEvents;
    dc := new BecomeDc();
    Ldap1OkIs(a);
    hide Ldap1Ok, Ldap1Status;
    dc.OnCldap(true, a);
    ServerMilestones(a);
    Prepare(dc);
    ghost var log := dc.log;
    PullThree(dc, schema, config, domain, l2);
    FinishRefs(dc);
    Assemble(ServerEvents(a), AddEntry(ServerDnOf(a)), AccountSteps(a.accountControl, a.computerDn.value, l2.newDn));
  }

  /** What is done about an account with these flags and this place. */
  function AccountSteps(accountControl: nat, computerDn: string, newDn: string): seq<Event> {
    (if accountControl != WANTED_ACCOUNT_CONTROL then [AccountModify(computerDn)] else [])
    + (if computerDn != newDn then [AccountMove(computerDn)] else [])
  }

  lemma Assemble(server: seq<Event>, entry: Event, account: seq<Event>)
    ensures server + [entry] + [Pulled(Schema)] + ([Pulled(Config)] + account + [AccountReady])
            + [Pulled(Domain), UpdateRefs(Schema)] + [UpdateRefs(Config), UpdateRefs(Domain)]
            == server + [entry, Pulled(Schema), Pulled(Config)] + account
               + [AccountReady, Pulled(Domain), UpdateRefs(Schema), UpdateRefs(Config), UpdateRefs(Domain)]
  {
  }

  /** The three partitions one after the other. */
  method PullThree(dc: BecomeDc, schema: Source, config: Source, domain: Source, l2: Ldap2)
    requires dc.Valid() && dc.stage == Pulling(Schema) && forall w :: dc.Replies(w) == []
    requires Ordered(schema.objects) && Ordered(config.objects) && Ordered(domain.objects)
    requires schema.objects != [] && config.objects != [] && domain.objects != []
    requires Ldap2Ok(l2, dc.accountControl, dc.computerDn)
    modifies dc, dc.schema, dc.config, dc.domain, dc.Nodes()
    ensures dc.Valid() && dc.stage == AwaitRefs(Schema)
    ensures Objects(dc.Items(Schema)) == schema.objects
    ensures Objects(dc.Items(Config)) == config.objects
    ensures Objects(dc.Items(Domain)) == domain.objects
    ensures Milestones(dc.log)
            == Milestones(old(dc.log)) + [Pulled(Schema)]
               + ([Pulled(Config)] + AccountSteps(old(dc.accountControl), old(dc.computerDn), l2.newDn)
                  + [AccountReady])
               + [Pulled(Domain), UpdateRefs(Schema)]
  {
    hide BecomeDc.Valid, Ordered, Objects, Ldap2Ok, Milestones, PullEvents, AccountSteps;
    DoneMilestones(dc.Now(), l2);
    PullFrom(dc, schema, l2);
    DoneMilestones(dc.Now(), l2);
    PullFrom(dc, config, l2);
    DoneMilestones(dc.Now(), l2);
    PullFrom(dc, domain, l2);
  }

  lemma ServerMilestones(a: Ldap1)
    ensures Milestones(ServerEvents(a)) == ServerEvents(a)
  {
    hide Milestones, FirstFailure;
    NoRequests(ServerEvents(a));
  }

  /** The three update-refs calls. */
  method FinishRefs(dc: BecomeDc)
    requires dc.Valid() && dc.stage == AwaitRefs(Schema)
    modifies dc
    ensures dc.Valid() && dc.stage == Finished(NotImplemented)
    ensures Milestones(dc.log) == Milestones(old(dc.log)) + [UpdateRefs(Config), UpdateRefs(Domain)]
  {
    hide BecomeDc.Valid, Milestones;
    ghost var log := dc.log;
    dc.OnRefs(true);
    dc.OnRefs(true);
    dc.OnRefs(true);
    assert dc.log == log + [UpdateRefs(Config), UpdateRefs(Domain)];
    NoRequests([UpdateRefs(Config), UpdateRefs(Domain)]);
    MilestonesConcat(log, [UpdateRefs(Config), UpdateRefs(Domain)]);
  }

  /** The way from the first pipe to the first request. */
  method Prepare(dc: BecomeDc)
    requires dc.Valid() && dc.stage == AwaitConnect1 && dc.serverDn.Some?
    modifies dc, dc.schema`requests
    ensures Milestones(dc.log) == Milestones(old(dc.log)) + [AddEntry(old(dc.serverDn).value)]
    ensures dc.Valid() && dc.Now() == old(dc.Now()).(stage := Pulling(Schema))
    ensures forall w :: dc.Replies(w) == old(dc.Replies(w))
  {
    hide BecomeDc.Valid, Milestones;
    ghost var log, dn := dc.log, dc.serverDn.value;
    dc.OnConnect(true);
    dc.OnBind(true);
    dc.OnAddEntry(true);
    dc.OnConnect(true);
    dc.OnBind(true);
    dc.OnConnect(true);
    assert dc.log == log + [AddEntry(dn)] + [Request(Schema, ZERO_MARK)];
    NoRequests([AddEntry(dn)]);
    OneRequest(Schema, ZERO_MARK);
    MilestonesConcat(log, [AddEntry(dn)]);
    MilestonesConcat(log + [AddEntry(dn)], [Request(Schema, ZERO_MARK)]);
  }
}
