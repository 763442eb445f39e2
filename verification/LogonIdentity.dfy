/** A logon identity, its PAC/NETLOGON form and the way back
    (auth/auth_sam_reply.c, auth/auth_util.c; KERB_VALIDATION_INFO, section 2.5
    of MS-PAC). */
module LogonIdentity {
  import opened Bytes
  import opened Options

  /** dom_sid; num_auths is the number of sub-authorities. */
  datatype Sid = Sid(revision: nat, idAuth: seq<byte>, subAuths: seq<nat>)

  /** dom_sid_in_domain: the sub-authorities of the domain come first. */
  predicate InDomain(domain: Sid, sid: Sid) {
    && domain.subAuths <= sid.subAuths
    && domain.revision == sid.revision && domain.idAuth == sid.idAuth
  }

  /** dom_sid_add_rid */
  function AddRid(domain: Sid, rid: nat): Sid {
    domain.(subAuths := domain.subAuths + [rid])
  }

  /** The SID with its last sub-authority cut off. */
  function DomainOf(sid: Sid): Sid
    requires sid.subAuths != []
  {
    sid.(subAuths := sid.subAuths[..|sid.subAuths| - 1])
  }

  function LastRid(sid: Sid): nat
    requires sid.subAuths != []
  {
    sid.subAuths[|sid.subAuths| - 1]
  }

  /** SE_GROUP_MANDATORY | SE_GROUP_ENABLED_BY_DEFAULT | SE_GROUP_ENABLED */
  const GROUP_ATTRIBUTES: nat := 7

  /** NETLOGON_EXTRA_SIDS */
  const EXTRA_SIDS: nat := 0x20

  const USER_KEY_SIZE: nat := 16
  const LM_KEY_SIZE: nat := 8

  datatype RidWithAttribute = RidWithAttribute(rid: nat, attributes: nat)

  datatype SidAttr = SidAttr(sid: Sid, attribute: nat)

  /** The fields that both forms hold under the same meaning. */
  datatype Account = Account(
    fullName: Option<string>, logonScript: Option<string>, profilePath: Option<string>,
    homeDirectory: Option<string>, homeDrive: Option<string>, logonServer: Option<string>, domainName: Option<string>,
    lastLogon: nat, lastLogoff: nat, acctExpiry: nat,
    lastPasswordChange: nat, allowPasswordChange: nat, forcePasswordChange: nat,
    logonCount: nat, acctFlags: nat)

  /** auth_serversupplied_info */
  datatype ServerInfo = ServerInfo(
    accountSid: Sid, primaryGroupSid: Sid, domainGroups: seq<Sid>,
    userSessionKey: seq<byte>, lmSessionKey: seq<byte>,
    accountName: Option<string>, account: Account, badPasswordCount: nat, authenticated: bool)

  /** netr_SamBaseInfo */
  datatype SamBaseInfo = SamBaseInfo(
    domainSid: Sid, rid: nat, primaryGid: nat, groups: seq<RidWithAttribute>, userFlags: nat,
    key: seq<byte>, lmKey: seq<byte>,
    accountName: Option<string>, account: Account, badPasswordCount: nat)

  /** netr_SamInfo3 */
  datatype SamInfo3 = SamInfo3(base: SamBaseInfo, sids: seq<SidAttr>)

  datatype Status = Ok | InvalidParameter | InvalidLevel

  // ---- specification ----

  /** The groups of the domain, in order. */
  function Inside(domain: Sid, groups: seq<Sid>): (inside: seq<Sid>)
    ensures |inside| <= |groups|
    ensures forall i :: 0 <= i < |inside| ==> InDomain(domain, inside[i]) && inside[i] in groups
  {
    if groups == [] then []
    else
      var rest := Inside(domain, groups[1..]);
      if InDomain(domain, groups[0]) then [groups[0]] + rest else rest
  }

  /** The other groups, in order. */
  function Outside(domain: Sid, groups: seq<Sid>): (outside: seq<Sid>)
    ensures |outside| <= |groups|
    ensures forall i :: 0 <= i < |outside| ==> !InDomain(domain, outside[i]) && outside[i] in groups
  {
    if groups == [] then []
    else
      var rest := Outside(domain, groups[1..]);
      if InDomain(domain, groups[0]) then rest else [groups[0]] + rest
  }

  /** What the source needs of an identity: SIDs that have a last sub-authority
      to take, as far as it takes one. */
  predicate Convertible(info: ServerInfo) {
    && info.accountSid.subAuths != [] && info.primaryGroupSid.subAuths != []
    && HaveRids(DomainOf(info.accountSid), info.domainGroups)
  }

  predicate HaveRids(domain: Sid, groups: seq<Sid>) {
    forall i :: 0 <= i < |groups| && InDomain(domain, groups[i]) ==> groups[i].subAuths != []
  }

  function RidsOf(groups: seq<Sid>): (rids: seq<RidWithAttribute>)
    requires forall i :: 0 <= i < |groups| ==> groups[i].subAuths != []
    ensures |rids| == |groups|
  {
    seq(|groups|, i requires 0 <= i < |groups| => RidWithAttribute(LastRid(groups[i]), GROUP_ATTRIBUTES))
  }

  function SidAttrsOf(groups: seq<Sid>): (sids: seq<SidAttr>)
    ensures |sids| == |groups|
  {
    seq(|groups|, i requires 0 <= i < |groups| => SidAttr(groups[i], GROUP_ATTRIBUTES))
  }

  function Zeros(n: nat): seq<byte> {
    seq(n, _ => 0 as byte)
  }

  /** A key of the wire's size is sent; any other is sent as zeros. */
  function WireKey(key: seq<byte>, size: nat): seq<byte> {
    if |key| == size then key else Zeros(size)
  }

  /** An all-zero key means no key. */
  function KeyFromWire(key: seq<byte>): seq<byte> {
    if forall i :: 0 <= i < |key| ==> key[i] == 0 then [] else key
  }

  function ToSamBase(info: ServerInfo): SamBaseInfo
    requires Convertible(info)
  {
    var domain := DomainOf(info.accountSid);
    SamBaseInfo(domain, LastRid(info.accountSid), LastRid(info.primaryGroupSid),
                RidsOf(Inside(domain, info.domainGroups)), 0,
                WireKey(info.userSessionKey, USER_KEY_SIZE), WireKey(info.lmSessionKey, LM_KEY_SIZE),
                info.accountName, info.account, 0)
  }

  function ToSam3(info: ServerInfo): SamInfo3
    requires Convertible(info)
  {
    var base := ToSamBase(info);
    var outside := Outside(base.domainSid, info.domainGroups);
    SamInfo3(base.(userFlags := if outside == [] then 0 else EXTRA_SIDS), SidAttrsOf(outside))
  }

  function GroupSids(domain: Sid, rids: seq<RidWithAttribute>): (sids: seq<Sid>)
    ensures |sids| == |rids|
  {
    seq(|rids|, i requires 0 <= i < |rids| => AddRid(domain, rids[i].rid))
  }

  function ExtraSids(sids: seq<SidAttr>): (extra: seq<Sid>)
    ensures |extra| == |sids|
  {
    seq(|sids|, i requires 0 <= i < |sids| => sids[i].sid)
  }

  /** What a validation record of the given level stands for. */
  function FromValidation(accountName: string, level: nat, base: SamBaseInfo, sids: seq<SidAttr>): ServerInfo {
    ServerInfo(AddRid(base.domainSid, base.rid), AddRid(base.domainSid, base.primaryGid),
               GroupSids(base.domainSid, base.groups) + (if level == 3 then ExtraSids(sids) else []),
               KeyFromWire(base.key), KeyFromWire(base.lmKey),
               if base.accountName.Some? then base.accountName else Some(accountName),
               base.account, base.badPasswordCount, true)
  }

  /** To the wire at level 3 and back. */
  function RoundTrip(info: ServerInfo, accountName: string): ServerInfo
    requires Convertible(info)
  {
    FromValidation(accountName, 3, ToSam3(info).base, ToSam3(info).sids)
  }

  // ---- the conversions ----

  /** auth_convert_server_info_sambaseinfo */
  method ConvertBase(info: ServerInfo) returns (sam: SamBaseInfo)
    requires Convertible(info)
    ensures sam == ToSamBase(info)
    // the fields of the record
    ensures info.accountSid == Sid(sam.domainSid.revision, sam.domainSid.idAuth, sam.domainSid.subAuths + [sam.rid])
    ensures sam.primaryGid == info.primaryGroupSid.subAuths[|info.primaryGroupSid.subAuths| - 1]
    ensures forall i :: 0 <= i < |sam.groups| ==> sam.groups[i].attributes == 7
    ensures |sam.key| == 16 && |sam.lmKey| == 8
    ensures if |info.userSessionKey| == 16 then sam.key == info.userSessionKey
            else forall i :: 0 <= i < 16 ==> sam.key[i] == 0
    ensures if |info.lmSessionKey| == 8 then sam.lmKey == info.lmSessionKey
            else forall i :: 0 <= i < 8 ==> sam.lmKey[i] == 0
    ensures sam.accountName == info.accountName && sam.account == info.account
    ensures sam.badPasswordCount == 0 && sam.userFlags == 0
  {
    var domain := DomainOf(info.accountSid);
    var n := |info.domainGroups|;
    var rids := new RidWithAttribute[n];
    var count := 0;
    var i := 0;
    assert info.domainGroups[0..] == info.domainGroups;
    while i < n
      invariant 0 <= i <= n && 0 <= count <= i
      invariant rids[..count] + RidsOf(Inside(domain, info.domainGroups[i..]))
                == RidsOf(Inside(domain, info.domainGroups))
    {
      var group := info.domainGroups[i];
      InsideStep(domain, info.domainGroups, i, rids[..count]);
      if !InDomain(domain, group) {
        i := i + 1;
        continue;
      }
      ghost var before := rids[..count];
      rids[count] := RidWithAttribute(LastRid(group), GROUP_ATTRIBUTES);
      count := count + 1;
      assert rids[..count] == before + [RidWithAttribute(LastRid(group), GROUP_ATTRIBUTES)];
      i := i + 1;
    }
    assert info.domainGroups[n..] == [] && rids[..count] + [] == rids[..count];
    var key, lmKey := Zeros(USER_KEY_SIZE), Zeros(LM_KEY_SIZE);
    if |info.userSessionKey| == USER_KEY_SIZE {
      key := info.userSessionKey;
    }
    if |info.lmSessionKey| == LM_KEY_SIZE {
      lmKey := info.lmSessionKey;
    }
    sam := SamBaseInfo(domain, LastRid(info.accountSid), LastRid(info.primaryGroupSid), rids[..count], 0,
                       key, lmKey, info.accountName, info.account, 0);
    RebuiltSid(domain, info.accountSid);
  }

  /** auth_convert_server_info_saminfo3 */
  method ConvertSam3(info: ServerInfo) returns (sam3: SamInfo3)
    requires Convertible(info)
    ensures sam3 == ToSam3(info)
    ensures forall i :: 0 <= i < |sam3.sids| ==> sam3.sids[i].attribute == 7 && sam3.sids[i].sid in info.domainGroups
    ensures sam3.base.userFlags == if sam3.sids == [] then 0 else 0x20
  {
    var base := ConvertBase(info);
    var n := |info.domainGroups|;
    var none := SidAttr(base.domainSid, 0);
    var sids := new SidAttr[n](_ => none);
    var count := 0;
    var i := 0;
    assert info.domainGroups[0..] == info.domainGroups;
    while i < n
      invariant 0 <= i <= n && 0 <= count <= i
      invariant sids[..count] + SidAttrsOf(Outside(base.domainSid, info.domainGroups[i..]))
                == SidAttrsOf(Outside(base.domainSid, info.domainGroups))
    {
      OutsideStep(base.domainSid, info.domainGroups, i, sids[..count]);
      if InDomain(base.domainSid, info.domainGroups[i]) {
        i := i + 1;
        continue;
      }
      ghost var before := sids[..count];
      sids[count] := SidAttr(info.domainGroups[i], GROUP_ATTRIBUTES);
      count := count + 1;
      assert sids[..count] == before + [SidAttr(info.domainGroups[i], GROUP_ATTRIBUTES)];
      i := i + 1;
    }
    assert info.domainGroups[n..] == [] && sids[..count] + [] == sids[..count];
    if count != 0 {
      base := base.(userFlags := EXTRA_SIDS);
    }
    sam3 := SamInfo3(base, sids[..count]);
  }

  lemma InsideStep(domain: Sid, groups: seq<Sid>, i: nat, done: seq<RidWithAttribute>)
    requires i < |groups| && HaveRids(domain, groups)
    ensures done + RidsOf(Inside(domain, groups[i..]))
            == (if InDomain(domain, groups[i])
                then done + [RidWithAttribute(LastRid(groups[i]), GROUP_ATTRIBUTES)] else done)
               + RidsOf(Inside(domain, groups[i + 1..]))
  {
    assert groups[i..][1..] == groups[i + 1..];
  }

  lemma OutsideStep(domain: Sid, groups: seq<Sid>, i: nat, done: seq<SidAttr>)
    requires i < |groups|
    ensures done + SidAttrsOf(Outside(domain, groups[i..]))
            == (if InDomain(domain, groups[i]) then done else done + [SidAttr(groups[i], GROUP_ATTRIBUTES)])
               + SidAttrsOf(Outside(domain, groups[i + 1..]))
  {
    assert groups[i..][1..] == groups[i + 1..];
  }

  /** make_server_info_netlogon_validation: levels 2, 3 and 6 are known, and the
      record of that level must be there; only level 3 brings extra SIDs. */
  method MakeServerInfo(accountName: string, level: nat, validation: Option<SamInfo3>)
    returns (status: Status, info: Option<ServerInfo>)
    ensures status == (if level != 2 && level != 3 && level != 6 then InvalidLevel
                       else if validation.None? then InvalidParameter else Ok)
    ensures info == if status == Ok
                    then Some(FromValidation(accountName, level, validation.value.base, validation.value.sids))
                    else None
    // the fields of the identity, at every level
    ensures status == Ok ==>
              var base, id := validation.value.base, info.value;
              var domain := base.domainSid;
              var sidOf := (rid: nat) => Sid(domain.revision, domain.idAuth, domain.subAuths + [rid]);
              && id.accountSid == sidOf(base.rid) && id.primaryGroupSid == sidOf(base.primaryGid)
              && |id.domainGroups| == |base.groups| + (if level == 3 then |validation.value.sids| else 0)
              && (forall i :: 0 <= i < |base.groups| ==> id.domainGroups[i] == sidOf(base.groups[i].rid))
              && (forall i :: |base.groups| <= i < |id.domainGroups| ==>
                    id.domainGroups[i] == validation.value.sids[i - |base.groups|].sid)
              && id.userSessionKey == (if exists i :: 0 <= i < |base.key| && base.key[i] != 0 then base.key else [])
              && id.lmSessionKey == (if exists i :: 0 <= i < |base.lmKey| && base.lmKey[i] != 0 then base.lmKey else [])
              && id.accountName == (if base.accountName.Some? then base.accountName else Some(accountName))
              && id.account == base.account && id.badPasswordCount == base.badPasswordCount && id.authenticated
  {
    if level != 2 && level != 3 && level != 6 {
      return InvalidLevel, None;
    }
    if validation.None? {
      return InvalidParameter, None;
    }
    var base := validation.value.base;
    var groups := MakeGroups(base, level, validation.value.sids);
    GroupSidsAre(base, level, validation.value.sids);
    hide GroupSids, ExtraSids;
    info := Some(ServerInfo(AddRid(base.domainSid, base.rid), AddRid(base.domainSid, base.primaryGid), groups,
                            KeyFromWire(base.key), KeyFromWire(base.lmKey),
                            if base.accountName.Some? then base.accountName else Some(accountName),
                            base.account, base.badPasswordCount, true));
    return Ok, info;
  }

  /** The array of groups, and its extension by the extra SIDs of level 3. */
  method MakeGroups(base: SamBaseInfo, level: nat, sids: seq<SidAttr>) returns (all: seq<Sid>)
    ensures all == GroupSids(base.domainSid, base.groups) + (if level == 3 then ExtraSids(sids) else [])
  {
    var n := |base.groups|;
    var groups := new Sid[n](_ => base.domainSid);
    var i := 0;
    while i < n
      invariant 0 <= i <= n
      invariant groups[..i] == GroupSids(base.domainSid, base.groups)[..i]
    {
      groups[i] := AddRid(base.domainSid, base.groups[i].rid);
      i := i + 1;
    }
    assert groups[..] == groups[..n];
    assert GroupSids(base.domainSid, base.groups)[..n] == GroupSids(base.domainSid, base.groups);
    all := groups[..];
    if level == 3 {
      var extra := new Sid[|sids|](_ => base.domainSid);
      i := 0;
      while i < |sids|
        invariant 0 <= i <= |sids|
        invariant extra[..i] == ExtraSids(sids)[..i]
      {
        extra[i] := sids[i].sid;
        i := i + 1;
      }
      assert extra[..] == extra[..|sids|] && ExtraSids(sids)[..|sids|] == ExtraSids(sids);
      all := all + extra[..];
    }
  }

  lemma GroupSidsAre(base: SamBaseInfo, level: nat, sids: seq<SidAttr>)
    ensures var all := GroupSids(base.domainSid, base.groups) + (if level == 3 then ExtraSids(sids) else []);
            && |all| == |base.groups| + (if level == 3 then |sids| else 0)
            && (forall i :: 0 <= i < |base.groups| ==>
                  all[i] == Sid(base.domainSid.revision, base.domainSid.idAuth,
                                base.domainSid.subAuths + [base.groups[i].rid]))
            && (forall i :: |base.groups| <= i < |all| ==> all[i] == sids[i - |base.groups|].sid)
  {
  }

  // ---- the way there and back ----

  /** A SID of a domain is rebuilt from its last RID exactly when that RID is
      all it has beyond the domain. */
  lemma RebuiltSid(domain: Sid, sid: Sid)
    requires sid.subAuths != []
    ensures AddRid(domain, LastRid(sid)) == sid <==> InDomain(domain, sid) && |sid.subAuths| == |domain.subAuths| + 1
  {
    var n := |sid.subAuths| - 1;
    assert sid.subAuths == sid.subAuths[..n] + [sid.subAuths[n]];
    if InDomain(domain, sid) && |sid.subAuths| == |domain.subAuths| + 1 {
      assert sid.subAuths[..n] == domain.subAuths;
    }
  }

  /** Every group of the account's domain is the domain plus one RID. */
  predicate PlainGroups(domain: Sid, groups: seq<Sid>) {
    forall i :: 0 <= i < |groups| && InDomain(domain, groups[i]) ==> |groups[i].subAuths| == |domain.subAuths| + 1
  }

  predicate AllPlain(domain: Sid, inside: seq<Sid>) {
    forall i :: 0 <= i < |inside| ==> |inside[i].subAuths| == |domain.subAuths| + 1
  }

  lemma {:induction false} PlainInside(domain: Sid, groups: seq<Sid>)
    ensures PlainGroups(domain, groups) <==> AllPlain(domain, Inside(domain, groups))
  {
    if groups != [] {
      var g, rest := groups[0], groups[1..];
      PlainInside(domain, rest);
      var inside := Inside(domain, rest);
      PlainGroupsCons(domain, g, rest);
      assert groups == [g] + rest;
      if InDomain(domain, g) {
        AllPlainCons(domain, g, inside);
      }
    }
  }

  lemma PlainGroupsCons(domain: Sid, g: Sid, rest: seq<Sid>)
    ensures PlainGroups(domain, [g] + rest) <==>
            (InDomain(domain, g) ==> |g.subAuths| == |domain.subAuths| + 1) && PlainGroups(domain, rest)
  {
    var groups := [g] + rest;
    assert groups[0] == g;
    assert forall i :: 0 <= i < |rest| ==> rest[i] == groups[i + 1];
  }

  lemma AllPlainCons(domain: Sid, g: Sid, rest: seq<Sid>)
    ensures AllPlain(domain, [g] + rest) <==> |g.subAuths| == |domain.subAuths| + 1 && AllPlain(domain, rest)
  {
    var groups := [g] + rest;
    assert groups[0] == g;
    assert forall i :: 0 <= i < |rest| ==> rest[i] == groups[i + 1];
  }

  lemma RebuiltGroups(domain: Sid, inside: seq<Sid>)
    requires forall i :: 0 <= i < |inside| ==> inside[i].subAuths != [] && InDomain(domain, inside[i])
    ensures GroupSids(domain, RidsOf(inside)) == inside <==> AllPlain(domain, inside)
  {
    var rebuilt := GroupSids(domain, RidsOf(inside));
    forall i | 0 <= i < |inside|
      ensures rebuilt[i] == inside[i] <==> |inside[i].subAuths| == |domain.subAuths| + 1
    {
      RebuiltSid(domain, inside[i]);
    }
    if rebuilt == inside {
      assert forall i :: 0 <= i < |inside| ==> rebuilt[i] == inside[i];
    }
  }

  /** The groups come back as those of the domain followed by the others, each
      in their order, exactly when the groups of the domain are plain. */
  lemma GroupsRoundTrip(info: ServerInfo, accountName: string)
    requires Convertible(info)
    ensures var domain := DomainOf(info.accountSid);
            RoundTrip(info, accountName).domainGroups
            == Inside(domain, info.domainGroups) + Outside(domain, info.domainGroups)
            <==> PlainGroups(domain, info.domainGroups)
  {
    RoundTripAt(info, accountName, 3);
  }

  lemma PartitionCons(domain: Sid, g: Sid, rest: seq<Sid>)
    ensures Inside(domain, [g] + rest) == (if InDomain(domain, g) then [g] else []) + Inside(domain, rest)
    ensures Outside(domain, [g] + rest) == (if InDomain(domain, g) then [] else [g]) + Outside(domain, rest)
  {
    assert ([g] + rest)[1..] == rest;
  }

  /** The partition loses no group and invents none. */
  lemma {:induction false} PartitionIsComplete(domain: Sid, groups: seq<Sid>)
    ensures multiset(Inside(domain, groups)) + multiset(Outside(domain, groups)) == multiset(groups)
  {
    if groups != [] {
      var g, rest := groups[0], groups[1..];
      assert groups == [g] + rest;
      PartitionCons(domain, g, rest);
      PartitionIsComplete(domain, rest);
      hide Inside, Outside, InDomain;
      assert multiset([g]) == multiset{g};
    }
  }

  lemma {:induction false} NoneOutside(domain: Sid, groups: seq<Sid>)
    ensures |Inside(domain, groups)| + |Outside(domain, groups)| == |groups|
    ensures Outside(domain, groups) == [] <==> forall i :: 0 <= i < |groups| ==> InDomain(domain, groups[i])
  {
    if groups != [] {
      hide InDomain;
      NoneOutside(domain, groups[1..]);
      assert forall i :: 0 < i < |groups| ==> groups[i] == groups[1..][i - 1];
    }
  }

  /** The counts on the wire add up; the flag for extra SIDs is set exactly when
      there is a group outside the domain. */
  lemma ExtraSidsFlag(info: ServerInfo)
    requires Convertible(info)
    ensures var sam3 := ToSam3(info);
            && |sam3.base.groups| + |sam3.sids| == |info.domainGroups|
            && (sam3.base.userFlags == EXTRA_SIDS <==>
                  exists i :: 0 <= i < |info.domainGroups| && !InDomain(sam3.base.domainSid, info.domainGroups[i]))
  {
    NoneOutside(DomainOf(info.accountSid), info.domainGroups);
  }

  /** A key survives exactly when it is empty, or of full size and not all zero;
      any other key comes back empty. */
  lemma KeyRoundTrip(key: seq<byte>, size: nat)
    requires 0 < size
    ensures var back := KeyFromWire(WireKey(key, size));
            && (back == key <==> key == [] || (|key| == size && exists i :: 0 <= i < |key| && key[i] != 0))
            && (back != key ==> back == [])
  {
  }

  /** Everything that comes back, in one equation. */
  lemma IdentityRoundTrip(info: ServerInfo, accountName: string)
    requires Convertible(info)
    ensures var domain := DomainOf(info.accountSid);
            var back := RoundTrip(info, accountName);
            && back.accountSid == info.accountSid
            && (back.primaryGroupSid == info.primaryGroupSid <==>
                  && InDomain(domain, info.primaryGroupSid)
                  && |info.primaryGroupSid.subAuths| == |info.accountSid.subAuths|)
            && back == info.(primaryGroupSid := AddRid(domain, LastRid(info.primaryGroupSid)),
                             domainGroups := back.domainGroups,
                             userSessionKey := KeyFromWire(WireKey(info.userSessionKey, USER_KEY_SIZE)),
                             lmSessionKey := KeyFromWire(WireKey(info.lmSessionKey, LM_KEY_SIZE)),
                             accountName := if info.accountName.Some? then info.accountName else Some(accountName),
                             badPasswordCount := 0, authenticated := true)
  {
    RebuiltSid(DomainOf(info.accountSid), info.accountSid);
    RebuiltSid(DomainOf(info.accountSid), info.primaryGroupSid);
  }

  /** The same at any level: only level 3 brings the groups of other domains back. */
  lemma RoundTripAt(info: ServerInfo, accountName: string, level: nat)
    requires Convertible(info)
    ensures var back := FromValidation(accountName, level, ToSam3(info).base, ToSam3(info).sids);
            back == RoundTrip(info, accountName).(domainGroups := back.domainGroups)
    ensures var domain := DomainOf(info.accountSid);
            FromValidation(accountName, level, ToSam3(info).base, ToSam3(info).sids).domainGroups
            == Inside(domain, info.domainGroups) + (if level == 3 then Outside(domain, info.domainGroups) else [])
            <==> PlainGroups(domain, info.domainGroups)
  {
    var domain := DomainOf(info.accountSid);
    var inside, outside := Inside(domain, info.domainGroups), Outside(domain, info.domainGroups);
    var back := FromValidation(accountName, level, ToSam3(info).base, ToSam3(info).sids).domainGroups;
    var other := if level == 3 then outside else [];
    assert ExtraSids(SidAttrsOf(outside)) == outside;
    assert back == GroupSids(domain, RidsOf(inside)) + other;
    assert back[..|inside|] == GroupSids(domain, RidsOf(inside));
    assert (inside + other)[..|inside|] == inside;
    RebuiltGroups(domain, inside);
    PlainInside(domain, info.domainGroups);
  }

  /** An identity is sent and received at a known level. */
  method ThereAndBack(info: ServerInfo, accountName: string, level: nat) returns (back: ServerInfo)
    requires Convertible(info) && (level == 2 || level == 3 || level == 6)
    ensures back.accountSid == info.accountSid
    ensures var domain := DomainOf(info.accountSid);
            && (back.primaryGroupSid == info.primaryGroupSid <==>
                  && InDomain(domain, info.primaryGroupSid)
                  && |info.primaryGroupSid.subAuths| == |info.accountSid.subAuths|)
            && (back.domainGroups == Inside(domain, info.domainGroups)
                                     + (if level == 3 then Outside(domain, info.domainGroups) else [])
                <==> PlainGroups(domain, info.domainGroups))
    ensures back.userSessionKey == if && |info.userSessionKey| == 16
                                      && exists i :: 0 <= i < 16 && info.userSessionKey[i] != 0
                                   then info.userSessionKey else []
    ensures back.lmSessionKey == if |info.lmSessionKey| == 8 && (exists i :: 0 <= i < 8 && info.lmSessionKey[i] != 0)
                                 then info.lmSessionKey else []
    ensures back.account == info.account && back.badPasswordCount == 0 && back.authenticated
    ensures back.accountName == if info.accountName.Some? then info.accountName else Some(accountName)
  {
    var sam3 := ConvertSam3(info);
    var status, id := MakeServerInfo(accountName, level, Some(sam3));
    back := id.value;
    IdentityRoundTrip(info, accountName);
    RoundTripAt(info, accountName, level);
    KeyRoundTrip(info.userSessionKey, USER_KEY_SIZE);
    KeyRoundTrip(info.lmSessionKey, LM_KEY_SIZE);
  }

  lemma PartitionNothing(domain: Sid)
    ensures Inside(domain, []) == [] && Outside(domain, []) == []
  {
  }

  lemma {:induction false} InsideConcat(domain: Sid, a: seq<Sid>, b: seq<Sid>)
    ensures Inside(domain, a + b) == Inside(domain, a) + Inside(domain, b)
    ensures Outside(domain, a + b) == Outside(domain, a) + Outside(domain, b)
  {
    hide Inside, Outside, InDomain;
    if a == [] {
      PartitionNothing(domain);
      assert a + b == b;
    } else {
      var g, rest := a[0], a[1..];
      assert a == [g] + rest && a + b == [g] + (rest + b);
      PartitionCons(domain, g, rest);
      PartitionCons(domain, g, rest + b);
      InsideConcat(domain, rest, b);
    }
  }

  lemma {:induction false} AllInside(domain: Sid, groups: seq<Sid>)
    requires forall i :: 0 <= i < |groups| ==> InDomain(domain, groups[i])
    ensures Inside(domain, groups) == groups && Outside(domain, groups) == []
  {
    if groups != [] {
      AllInside(domain, groups[1..]);
    }
  }

  lemma {:induction false} AllOutside(domain: Sid, groups: seq<Sid>)
    requires forall i :: 0 <= i < |groups| ==> !InDomain(domain, groups[i])
    ensures Outside(domain, groups) == groups && Inside(domain, groups) == []
  {
    if groups != [] {
      AllOutside(domain, groups[1..]);
    }
  }

  /** The groups settle after one round trip. */
  lemma GroupsSettle(domain: Sid, groups: seq<Sid>)
    requires HaveRids(domain, groups)
    ensures var once := GroupSids(domain, RidsOf(Inside(domain, groups))) + Outside(domain, groups);
            && HaveRids(domain, once)
            && GroupSids(domain, RidsOf(Inside(domain, once))) + Outside(domain, once) == once
  {
    var outside := Outside(domain, groups);
    var inside := Inside(domain, groups);
    var rebuilt := GroupSids(domain, RidsOf(inside));
    var once := rebuilt + outside;
    RebuiltIsPlain(domain, inside);
    hide Inside, Outside, InDomain, GroupSids, RidsOf, AddRid;
    InsideConcat(domain, rebuilt, outside);
    AllInside(domain, rebuilt);
    AllOutside(domain, outside);
    assert Inside(domain, once) == rebuilt + [] == rebuilt;
    assert Outside(domain, once) == [] + outside == outside;
    RebuiltGroups(domain, rebuilt);
  }

  lemma RebuiltIsPlain(domain: Sid, inside: seq<Sid>)
    requires forall i :: 0 <= i < |inside| ==> inside[i].subAuths != []
    ensures var rebuilt := GroupSids(domain, RidsOf(inside));
            && (forall i :: 0 <= i < |rebuilt| ==> rebuilt[i].subAuths != [] && InDomain(domain, rebuilt[i]))
            && AllPlain(domain, rebuilt)
  {
  }

  lemma ExtraSidsBack(outside: seq<Sid>)
    ensures ExtraSids(SidAttrsOf(outside)) == outside
  {
  }

  lemma KeySettles(key: seq<byte>, size: nat)
    requires 0 < size
    ensures var once := KeyFromWire(WireKey(key, size)); KeyFromWire(WireKey(once, size)) == once
  {
    KeyRoundTrip(key, size);
    KeyRoundTrip(KeyFromWire(WireKey(key, size)), size);
  }

  /** What has been there and back once does not change any more. */
  lemma RoundTripIsIdempotent(info: ServerInfo, accountName: string)
    requires Convertible(info)
    ensures Convertible(RoundTrip(info, accountName))
    ensures RoundTrip(RoundTrip(info, accountName), accountName) == RoundTrip(info, accountName)
  {
    var domain := DomainOf(info.accountSid);
    var once := RoundTrip(info, accountName);
    IdentityRoundTrip(info, accountName);
    GroupsSettle(domain, info.domainGroups);
    ExtraSidsBack(Outside(domain, info.domainGroups));
    KeySettles(info.userSessionKey, USER_KEY_SIZE);
    KeySettles(info.lmSessionKey, LM_KEY_SIZE);
    hide KeyFromWire, WireKey, Inside, Outside, GroupSids, RidsOf, ExtraSids, SidAttrsOf, InDomain;
    assert Convertible(once);
    ExtraSidsBack(Outside(domain, once.domainGroups));
    IdentityRoundTrip(once, accountName);
  }
}
