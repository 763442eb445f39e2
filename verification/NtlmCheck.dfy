/** Deciding an NTLM logon: which of the responses is accepted, and with which
    session keys (auth/ntlm_check.c; sections 3.3.1 and 3.3.2 of MS-NLMP). The
    cryptography is a parameter. */
module NtlmCheck {
  import opened Bytes
  import opened Options

  type Blob = seq<byte>

  type Hash16 = b: Blob | |b| == 16 witness seq(16, _ => 0 as byte)

  type Hash24 = b: Blob | |b| == 24 witness seq(24, _ => 0 as byte)

  /** The cryptographic primitives: any deterministic functions of the right
      output sizes. `ntv2Owf` may fail; `desHashDos` includes the conversion from
      the DOS character set and may fail as well. */
  datatype Crypto = Crypto(
    owfEncrypt: (Hash16, Blob) -> Hash24,
    ntv2Owf: (Hash16, string, string, bool) -> Option<Hash16>,
    owfEncryptNtv2: (Hash16, Blob, Blob) -> Hash16,
    sessKeyNtv1: Hash16 -> Hash16,
    sessKeyNtv2: (Hash16, Hash16) -> Hash16,
    md4: Blob -> Hash16,
    desHashDos: Blob -> Option<Hash16>)

  /** "ntlm auth" and "lanman auth" */
  datatype Policy = Policy(ntlmAuth: bool, lanmanAuth: bool)

  datatype Logon = Logon(
    cleartextAllowed: bool, challenge: Blob, lmResponse: Blob, ntResponse: Blob,
    username: string, clientUsername: string, clientDomain: string,
    storedLanman: Option<Hash16>, storedNt: Option<Hash16>)

  datatype Status = Ok | WrongPassword | NotFound

  // ---- the single checks ----

  /** An NTLMv1 (or LM) response: the encrypted challenge. */
  predicate PassesV1(c: Crypto, response: Blob, hash: Option<Hash16>, challenge: Blob) {
    && hash.Some? && |challenge| == 8 && |response| == 24
    && response == c.owfEncrypt(hash.value, challenge)
  }

  /** The key that an NTLMv2 response is made with, if it has the right shape. */
  function V2Key(c: Crypto, response: Blob, hash: Option<Hash16>, challenge: Blob,
                 user: string, domain: string, upper: bool): Option<Hash16> {
    if hash.None? || |challenge| != 8 || |response| < 24 then None
    else c.ntv2Owf(hash.value, user, domain, upper)
  }

  /** An NTLMv2 (or LMv2) response: 16 bytes that prove knowledge of the key
      over challenge and client data, then the client data. */
  predicate PassesV2(c: Crypto, response: Blob, hash: Option<Hash16>, challenge: Blob,
                     user: string, domain: string, upper: bool) {
    var kr := V2Key(c, response, hash, challenge, user, domain, upper);
    kr.Some? && response[..16] == c.owfEncryptNtv2(kr.value, challenge, response[16..])
  }

  /** The session key that goes with an NTLMv2 response, right or wrong. */
  function V2SessionKey(c: Crypto, response: Blob, hash: Option<Hash16>, challenge: Blob,
                        user: string, domain: string, upper: bool): (key: Blob)
    ensures |key| == 0 || |key| == 16
  {
    var kr := V2Key(c, response, hash, challenge, user, domain, upper);
    if kr.None? then []
    else c.sessKeyNtv2(kr.value, c.owfEncryptNtv2(kr.value, challenge, response[16..]))
  }

  /** smb_pwd_check_ntlmv1 */
  method CheckV1(c: Crypto, response: Blob, hash: Option<Hash16>, challenge: Blob) returns (ok: bool, key: Blob)
    ensures ok == PassesV1(c, response, hash, challenge)
    ensures ok <==>
              hash.Some? && |challenge| == 8 && |response| == 24 && response == c.owfEncrypt(hash.value, challenge)
    ensures key == if ok then c.sessKeyNtv1(hash.value) else []
  {
    if hash.None? {
      return false, [];
    }
    if |challenge| != 8 {
      return false, [];
    }
    if |response| != 24 {
      return false, [];
    }
    var p24 := c.owfEncrypt(hash.value, challenge);
    if p24 == response {
      return true, c.sessKeyNtv1(hash.value);
    }
    return false, [];
  }

  /** smb_pwd_check_ntlmv2 */
  method CheckV2(c: Crypto, response: Blob, hash: Option<Hash16>, challenge: Blob,
                 user: string, domain: string, upper: bool) returns (ok: bool, key: Blob)
    ensures ok == PassesV2(c, response, hash, challenge, user, domain, upper)
    ensures ok <==>
              && hash.Some? && |challenge| == 8 && |response| >= 24
              && var kr := c.ntv2Owf(hash.value, user, domain, upper);
                 kr.Some? && response[..16] == c.owfEncryptNtv2(kr.value, challenge, response[16..])
    ensures ok ==> key == c.sessKeyNtv2(c.ntv2Owf(hash.value, user, domain, upper).value, response[..16])
    ensures key == if ok then V2SessionKey(c, response, hash, challenge, user, domain, upper) else []
  {
    if hash.None? {
      return false, [];
    }
    if |challenge| != 8 {
      return false, [];
    }
    if |response| < 24 {
      return false, [];
    }
    var kr := c.ntv2Owf(hash.value, user, domain, upper);
    if kr.None? {
      return false, [];
    }
    var value := c.owfEncryptNtv2(kr.value, challenge, response[16..]);
    if value == response[..16] {
      return true, c.sessKeyNtv2(kr.value, value);
    }
    return false, [];
  }

  /** smb_sess_key_ntlmv2: no key if it fails. */
  method SessKeyV2(c: Crypto, response: Blob, hash: Option<Hash16>, challenge: Blob,
                   user: string, domain: string, upper: bool) returns (ok: bool, key: Blob)
    ensures ok == V2Key(c, response, hash, challenge, user, domain, upper).Some?
    ensures key == V2SessionKey(c, response, hash, challenge, user, domain, upper)
  {
    if hash.None? || |challenge| != 8 || |response| < 24 {
      return false, [];
    }
    var kr := c.ntv2Owf(hash.value, user, domain, upper);
    if kr.None? {
      return false, [];
    }
    var value := c.owfEncryptNtv2(kr.value, challenge, response[16..]);
    return true, c.sessKeyNtv2(kr.value, value);
  }

  /** hash_password_check: hashes given by the client against stored ones. */
  method HashPasswordCheck(policy: Policy, clientLanman: Option<Hash16>, clientNt: Option<Hash16>, username: string,
                           storedLanman: Option<Hash16>, storedNt: Option<Hash16>) returns (status: Status)
    ensures status == Ok <==> HashesAgree(policy, clientLanman, clientNt, username, storedLanman, storedNt)
    ensures status == NotFound <==>
              && '@' in username && !(clientNt.Some? && storedNt.Some?)
              && (clientLanman.Some? && storedLanman.Some? ==> policy.lanmanAuth)
  {
    if clientNt.Some? && storedNt.Some? {
      if clientNt.value == storedNt.value {
        return Ok;
      } else {
        return WrongPassword;
      }
    } else if clientLanman.Some? && storedLanman.Some? {
      if !policy.lanmanAuth {
        return WrongPassword;
      }
      if '@' in username {
        return NotFound;
      }
      if clientLanman.value == storedLanman.value {
        return Ok;
      } else {
        return WrongPassword;
      }
    }
    if '@' in username {
      return NotFound;
    }
    return WrongPassword;
  }

  /** The NT hashes decide if both sides have one, else the LM hashes may. */
  predicate HashesAgree(policy: Policy, clientLanman: Option<Hash16>, clientNt: Option<Hash16>, username: string,
                        storedLanman: Option<Hash16>, storedNt: Option<Hash16>) {
    if clientNt.Some? && storedNt.Some? then clientNt == storedNt
    else clientLanman.Some? && clientLanman == storedLanman && policy.lanmanAuth && '@' !in username
  }

  // ---- the ways to be accepted ----

  datatype Variant = AsGiven | UpperDomain | NoDomain

  /** NTLMv2 and NTLMv1 in the NT field; LM, LMv2 and NTLMv1 in the LM field. */
  datatype Path = V2InNt(variant: Variant) | V1InNt | Lm | V2InLm(variant: Variant) | NtInLm

  /** The order in which they are tried. */
  const ORDER: seq<Path> := [V2InNt(AsGiven), V2InNt(UpperDomain), V2InNt(NoDomain), V1InNt, Lm,
                             V2InLm(AsGiven), V2InLm(UpperDomain), V2InLm(NoDomain), NtInLm]

  function DomainFor(l: Logon, v: Variant): string {
    if v == NoDomain then "" else l.clientDomain
  }

  /** A 24-byte NT response under a policy that allows it decides alone. */
  predicate NtDecides(policy: Policy, l: Logon) {
    |l.ntResponse| == 24 && l.storedNt.Some? && policy.ntlmAuth
  }

  predicate LmLooked(policy: Policy, l: Logon) {
    !NtDecides(policy, l) && |l.lmResponse| >= 24
  }

  /** Policy, stored hashes and field lengths allow the path to be tried. */
  predicate Enabled(policy: Policy, l: Logon, p: Path) {
    match p
    case V2InNt(_) => |l.ntResponse| > 24 && l.storedNt.Some?
    case V1InNt => NtDecides(policy, l)
    case Lm => LmLooked(policy, l) && policy.lanmanAuth && l.storedLanman.Some? && '@' !in l.username
    case V2InLm(_) => LmLooked(policy, l) && l.storedNt.Some?
    case NtInLm => LmLooked(policy, l) && l.storedNt.Some? && policy.ntlmAuth
  }

  predicate Passes(c: Crypto, l: Logon, p: Path) {
    match p
    case V2InNt(v) =>
      PassesV2(c, l.ntResponse, l.storedNt, l.challenge, l.clientUsername, DomainFor(l, v), v == UpperDomain)
    case V1InNt => PassesV1(c, l.ntResponse, l.storedNt, l.challenge)
    case Lm => PassesV1(c, l.lmResponse, l.storedLanman, l.challenge)
    case V2InLm(v) =>
      PassesV2(c, l.lmResponse, l.storedNt, l.challenge, l.clientUsername, DomainFor(l, v), v == UpperDomain)
    case NtInLm => PassesV1(c, l.lmResponse, l.storedNt, l.challenge)
  }

  predicate Accepts(c: Crypto, policy: Policy, l: Logon, p: Path) {
    Enabled(policy, l, p) && Passes(c, l, p)
  }

  /** The first accepting path of a list. */
  function FirstOf(c: Crypto, policy: Policy, l: Logon, paths: seq<Path>): (r: Option<Path>)
    ensures r.None? <==> forall i :: 0 <= i < |paths| ==> !Accepts(c, policy, l, paths[i])
    ensures r.Some? ==> Accepts(c, policy, l, r.value) && r.value in paths
  {
    if paths == [] then None
    else if Accepts(c, policy, l, paths[0]) then Some(paths[0])
    else FirstOf(c, policy, l, paths[1..])
  }

  datatype Keys = Keys(user: Blob, lm: Blob)

  /** First 8 bytes of the LM hash, padded to 16. */
  function PaddedLm(hash: Hash16): Hash16 {
    hash[..8] + seq(8, _ => 0 as byte)
  }

  /** The session keys that go with a path. */
  function KeysOf(c: Crypto, policy: Policy, l: Logon, p: Path): Keys {
    match p
    case V2InNt(v) =>
      var k := V2SessionKey(c, l.ntResponse, l.storedNt, l.challenge, l.clientUsername,
                            DomainFor(l, v), v == UpperDomain);
      Keys(k, if k == [] then [] else k[..8])
    case V1InNt =>
      Keys(if l.storedNt.Some? then c.sessKeyNtv1(l.storedNt.value) else [],
           if policy.lanmanAuth && l.storedLanman.Some? then l.storedLanman.value[..8] else [])
    case Lm => LmKeys(policy, l)
    case V2InLm(v) =>
      var from := if |l.ntResponse| > 24 then l.ntResponse else l.lmResponse;
      var k := V2SessionKey(c, from, l.storedNt, l.challenge, l.clientUsername, DomainFor(l, v), v == UpperDomain);
      Keys(k, if k == [] then [] else k[..8])
    case NtInLm => LmKeys(policy, l)
  }

  function LmKeys(policy: Policy, l: Logon): Keys {
    if policy.lanmanAuth && l.storedLanman.Some?
    then Keys(PaddedLm(l.storedLanman.value), l.storedLanman.value[..8]) else Keys([], [])
  }

  /** Why a logon without an accepting path fails. */
  function Refusal(policy: Policy, l: Logon): Status {
    if LmLooked(policy, l) && l.storedNt.Some? && '@' in l.username then NotFound else WrongPassword
  }

  /** An all-zero challenge with the cleartext flag asks for a comparison of
      passwords instead. */
  predicate IsCleartext(l: Logon) {
    l.cleartextAllowed && l.challenge == seq(8, _ => 0 as byte)
  }

  /** The LM hash of a cleartext password, if there is one and it converts. */
  function ClientLanman(c: Crypto, l: Logon): Option<Hash16> {
    if l.lmResponse == [] then None else c.desHashDos(l.lmResponse)
  }

  // ---- the decision procedure ----

  /** The NTLMv2 part: one response tried with the three domain variants. */
  method TryV2(c: Crypto, l: Logon, response: Blob) returns (found: Option<Variant>, key: Blob)
    ensures found == if V2With(c, l, response, AsGiven) then Some(AsGiven)
                     else if V2With(c, l, response, UpperDomain) then Some(UpperDomain)
                     else if V2With(c, l, response, NoDomain) then Some(NoDomain) else None
    ensures found.Some? ==> key == V2SessionKey(c, response, l.storedNt, l.challenge, l.clientUsername,
                                                DomainFor(l, found.value), found.value == UpperDomain)
  {
    var ok;
    ok, key := CheckV2(c, response, l.storedNt, l.challenge, l.clientUsername, l.clientDomain, false);
    if ok {
      return Some(AsGiven), key;
    }
    ok, key := CheckV2(c, response, l.storedNt, l.challenge, l.clientUsername, l.clientDomain, true);
    if ok {
      return Some(UpperDomain), key;
    }
    ok, key := CheckV2(c, response, l.storedNt, l.challenge, l.clientUsername, "", false);
    if ok {
      return Some(NoDomain), key;
    }
    return None, [];
  }

  predicate V2With(c: Crypto, l: Logon, response: Blob, v: Variant) {
    PassesV2(c, response, l.storedNt, l.challenge, l.clientUsername, DomainFor(l, v), v == UpperDomain)
  }

  /** ntlm_password_check */
  method NtlmPasswordCheck(c: Crypto, policy: Policy, l: Logon) returns (status: Status, userKey: Blob, lmKey: Blob)
    ensures IsCleartext(l) ==>
              && userKey == [] && lmKey == []
              && (status == Ok <==>
                    HashesAgree(policy, ClientLanman(c, l),
                                if l.ntResponse == [] then None else Some(c.md4(l.ntResponse)),
                                l.username, l.storedLanman, l.storedNt))
    ensures !IsCleartext(l) ==>
              match FirstOf(c, policy, l, ORDER)
              case Some(p) => status == Ok && Keys(userKey, lmKey) == KeysOf(c, policy, l, p)
              case None => status == Refusal(policy, l) && userKey == [] && lmKey == []
    // cleartext passwords are hashed and compared
    ensures l.cleartextAllowed && |l.challenge| == 8 && (forall i :: 0 <= i < 8 ==> l.challenge[i] == 0) ==>
              (status == Ok <==>
                 if l.ntResponse != [] && l.storedNt.Some? then c.md4(l.ntResponse) == l.storedNt.value
                 else && l.lmResponse != [] && l.storedLanman.Some? && c.desHashDos(l.lmResponse) == l.storedLanman
                      && policy.lanmanAuth && '@' !in l.username)
    // a challenge is answered exactly by a response that the primitives make from a stored hash
    ensures !(l.cleartextAllowed && |l.challenge| == 8 && forall i :: 0 <= i < 8 ==> l.challenge[i] == 0) ==>
              (status == Ok <==>
                 var v1 := (r: Blob, h: Option<Hash16>) =>
                   h.Some? && |l.challenge| == 8 && |r| == 24 && r == c.owfEncrypt(h.value, l.challenge);
                 var v2 := (r: Blob, domain: string, upper: bool) =>
                   && l.storedNt.Some? && |l.challenge| == 8 && |r| >= 24
                   && var kr := c.ntv2Owf(l.storedNt.value, l.clientUsername, domain, upper);
                      kr.Some? && r[..16] == c.owfEncryptNtv2(kr.value, l.challenge, r[16..]);
                 var anyV2 := (r: Blob) =>
                   v2(r, l.clientDomain, false) || v2(r, l.clientDomain, true) || v2(r, "", false);
                 || (|l.ntResponse| > 24 && anyV2(l.ntResponse))
                 || (|l.ntResponse| == 24 && policy.ntlmAuth && v1(l.ntResponse, l.storedNt))
                 || (&& !(|l.ntResponse| == 24 && policy.ntlmAuth && l.storedNt.Some?) && |l.lmResponse| >= 24
                     && (|| (policy.lanmanAuth && '@' !in l.username && v1(l.lmResponse, l.storedLanman))
                         || anyV2(l.lmResponse)
                         || (policy.ntlmAuth && v1(l.lmResponse, l.storedNt)))))
    // a challenge is answered exactly when some enabled path passes
    ensures !IsCleartext(l) ==> (status == Ok <==> exists p :: Accepts(c, policy, l, p))
    // with NTLMv1 and LANMAN both switched off, only by a version 2 response
    ensures !IsCleartext(l) && status == Ok && !policy.ntlmAuth && !policy.lanmanAuth ==>
              exists v :: V2With(c, l, l.ntResponse, v) || V2With(c, l, l.lmResponse, v)
    // the keys
    ensures (|userKey| == 0 || |userKey| == 16) && (|lmKey| == 0 || |lmKey| == 8)
    ensures lmKey == (if userKey == [] then [] else userKey[..8]) || FirstOf(c, policy, l, ORDER) == Some(V1InNt)
    ensures !IsCleartext(l) && status == Ok ==>
              (userKey == [] <==>
                 FirstOf(c, policy, l, ORDER) == Some(NtInLm) && !(policy.lanmanAuth && l.storedLanman.Some?))
    // the refusal of a name with a realm, cleartext included
    ensures status == NotFound <==>
              && '@' in l.username
              && if IsCleartext(l)
                 then !(l.ntResponse != [] && l.storedNt.Some?)
                      && (ClientLanman(c, l).Some? && l.storedLanman.Some? ==> policy.lanmanAuth)
                 else && l.storedNt.Some? && |l.lmResponse| >= 24 && !(|l.ntResponse| == 24 && policy.ntlmAuth)
                      && forall p :: !Accepts(c, policy, l, p)
  {
    AcceptedIff(c, policy, l);
    AcceptsWrittenOut(c, policy, l);
    DecisionMeans(c, policy, l);
    hide PassesV1, PassesV2, V2SessionKey, FirstOf, Accepts, KeysOf, V2With;
    userKey, lmKey := [], [];
    if IsCleartext(l) {
      var clientLm := None;
      if |l.lmResponse| != 0 {
        clientLm := c.desHashDos(l.lmResponse);
      }
      var clientNt := None;
      if |l.ntResponse| != 0 {
        clientNt := Some(c.md4(l.ntResponse));
      }
      status := HashPasswordCheck(policy, clientLm, clientNt, l.username, l.storedLanman, l.storedNt);
      return;
    }
    status, userKey, lmKey := CheckResponses(c, policy, l);
  }

  /** The part of ntlm_password_check that is about responses to a challenge. */
  method CheckResponses(c: Crypto, policy: Policy, l: Logon) returns (status: Status, userKey: Blob, lmKey: Blob)
    ensures match FirstOf(c, policy, l, ORDER)
            case Some(p) => status == Ok && Keys(userKey, lmKey) == KeysOf(c, policy, l, p)
            case None => status == Refusal(policy, l) && userKey == [] && lmKey == []
  {
    userKey, lmKey := [], [];
    FirstInOrder(c, policy, l);
    hide PassesV1, PassesV2, V2SessionKey, FirstOf;
    if |l.ntResponse| > 24 && l.storedNt.Some? {
      var found, key := TryV2(c, l, l.ntResponse);
      if found.Some? {
        return Ok, key, if |key| > 0 then key[..8] else key;
      }
    } else if |l.ntResponse| == 24 && l.storedNt.Some? {
      if policy.ntlmAuth {
        var ok, key := CheckV1(c, l.ntResponse, l.storedNt, l.challenge);
        if ok {
          if policy.lanmanAuth && l.storedLanman.Some? {
            lmKey := l.storedLanman.value[..8];
          }
          return Ok, key, lmKey;
        }
        return WrongPassword, [], [];
      }
    }
    if |l.lmResponse| == 0 {
      return WrongPassword, [], [];
    }
    if |l.lmResponse| < 24 {
      return WrongPassword, [], [];
    }
    if policy.lanmanAuth && l.storedLanman.Some? && '@' !in l.username {
      var ok, key := CheckV1(c, l.lmResponse, l.storedLanman, l.challenge);
      if ok {
        return Ok, PaddedLm(l.storedLanman.value), l.storedLanman.value[..8];
      }
    }
    if l.storedNt.None? {
      return WrongPassword, [], [];
    }
    status, userKey, lmKey := LmFieldV2(c, policy, l);
  }

  /** The rest of the decision: LMv2, then an NT response in the LM field. */
  method LmFieldV2(c: Crypto, policy: Policy, l: Logon) returns (status: Status, userKey: Blob, lmKey: Blob)
    requires LmLooked(policy, l) && l.storedNt.Some?
    ensures match FirstLmV2(c, policy, l)
            case Some(p) => status == Ok && Keys(userKey, lmKey) == KeysOf(c, policy, l, p)
            case None => status == Refusal(policy, l) && userKey == [] && lmKey == []
  {
    hide PassesV1, PassesV2, V2SessionKey;
    userKey, lmKey := [], [];
    var found, key := TryV2(c, l, l.lmResponse);
    if found.Some? {
      userKey := key;
      if |l.ntResponse| > 24 {
        var v := found.value;
        var _, ntKey := SessKeyV2(c, l.ntResponse, l.storedNt, l.challenge, l.clientUsername,
                                  DomainFor(l, v), v == UpperDomain);
        userKey := ntKey;
      }
      return Ok, userKey, if |userKey| > 0 then userKey[..8] else userKey;
    }
    if policy.ntlmAuth {
      var ok, _ := CheckV1(c, l.lmResponse, l.storedNt, l.challenge);
      if ok {
        if policy.lanmanAuth && l.storedLanman.Some? {
          userKey := PaddedLm(l.storedLanman.value);
          lmKey := l.storedLanman.value[..8];
        }
        return Ok, userKey, lmKey;
      }
    }
    if '@' in l.username {
      return NotFound, [], [];
    }
    return WrongPassword, [], [];
  }

  /** The first of the last four paths, unfolded. */
  function FirstLmV2(c: Crypto, policy: Policy, l: Logon): Option<Path> {
    if Accepts(c, policy, l, V2InLm(AsGiven)) then Some(V2InLm(AsGiven))
    else if Accepts(c, policy, l, V2InLm(UpperDomain)) then Some(V2InLm(UpperDomain))
    else if Accepts(c, policy, l, V2InLm(NoDomain)) then Some(V2InLm(NoDomain))
    else if Accepts(c, policy, l, NtInLm) then Some(NtInLm) else None
  }

  lemma FirstInOrder(c: Crypto, policy: Policy, l: Logon)
    ensures FirstOf(c, policy, l, ORDER)
            == if Accepts(c, policy, l, V2InNt(AsGiven)) then Some(V2InNt(AsGiven))
               else if Accepts(c, policy, l, V2InNt(UpperDomain)) then Some(V2InNt(UpperDomain))
               else if Accepts(c, policy, l, V2InNt(NoDomain)) then Some(V2InNt(NoDomain))
               else if Accepts(c, policy, l, V1InNt) then Some(V1InNt)
               else if Accepts(c, policy, l, Lm) then Some(Lm)
               else FirstLmV2(c, policy, l)
  {
    hide Accepts, FirstOf;
    var d: seq<Path> := [V1InNt, Lm] + LAST_FOUR;
    FirstOfLastFour(c, policy, l);
    assert d == [V1InNt] + ([Lm] + LAST_FOUR);
    FirstCons(c, policy, l, Lm, LAST_FOUR);
    FirstCons(c, policy, l, V1InNt, [Lm] + LAST_FOUR);
    assert ORDER == [V2InNt(AsGiven)] + ([V2InNt(UpperDomain)] + ([V2InNt(NoDomain)] + d));
    FirstCons(c, policy, l, V2InNt(NoDomain), d);
    FirstCons(c, policy, l, V2InNt(UpperDomain), [V2InNt(NoDomain)] + d);
    FirstCons(c, policy, l, V2InNt(AsGiven), [V2InNt(UpperDomain)] + ([V2InNt(NoDomain)] + d));
  }

  const LAST_FOUR: seq<Path> := [V2InLm(AsGiven), V2InLm(UpperDomain), V2InLm(NoDomain), NtInLm]

  lemma FirstOfLastFour(c: Crypto, policy: Policy, l: Logon)
    ensures FirstOf(c, policy, l, LAST_FOUR) == FirstLmV2(c, policy, l)
  {
    hide Accepts, FirstOf;
    assert LAST_FOUR == [V2InLm(AsGiven)] + ([V2InLm(UpperDomain)] + ([V2InLm(NoDomain)] + ([NtInLm] + [])));
    FirstNone(c, policy, l);
    FirstCons(c, policy, l, NtInLm, []);
    FirstCons(c, policy, l, V2InLm(NoDomain), [NtInLm] + []);
    FirstCons(c, policy, l, V2InLm(UpperDomain), [V2InLm(NoDomain)] + ([NtInLm] + []));
    FirstCons(c, policy, l, V2InLm(AsGiven), [V2InLm(UpperDomain)] + ([V2InLm(NoDomain)] + ([NtInLm] + [])));
  }

  lemma FirstNone(c: Crypto, policy: Policy, l: Logon)
    ensures FirstOf(c, policy, l, []) == None
  {
  }

  lemma FirstCons(c: Crypto, policy: Policy, l: Logon, p: Path, rest: seq<Path>)
    ensures FirstOf(c, policy, l, [p] + rest)
            == if Accepts(c, policy, l, p) then Some(p) else FirstOf(c, policy, l, rest)
  {
    assert ([p] + rest)[1..] == rest;
  }

  // ---- what the decision means ----

  /** Every path is in the order. */
  lemma OrderIsComplete(p: Path)
    ensures p in ORDER
  {
    var i := match p
             case V2InNt(v) => (match v case AsGiven => 0 case UpperDomain => 1 case NoDomain => 2)
             case V1InNt => 3
             case Lm => 4
             case V2InLm(v) => (match v case AsGiven => 5 case UpperDomain => 6 case NoDomain => 7)
             case NtInLm => 8;
    assert ORDER[i] == p;
  }

  /** A logon is accepted exactly when some path is enabled and passes. */
  lemma AcceptedIff(c: Crypto, policy: Policy, l: Logon)
    ensures FirstOf(c, policy, l, ORDER).Some? <==> exists p :: Accepts(c, policy, l, p)
  {
    if p :| Accepts(c, policy, l, p) {
      OrderIsComplete(p);
    }
  }

  /** The same in terms of the primitives. */
  lemma AcceptsWrittenOut(c: Crypto, policy: Policy, l: Logon)
    ensures IsCleartext(l) <==>
            l.cleartextAllowed && |l.challenge| == 8 && forall i :: 0 <= i < 8 ==> l.challenge[i] == 0
    ensures (exists p :: Accepts(c, policy, l, p)) <==>
            var v1 := (r: Blob, h: Option<Hash16>) =>
              h.Some? && |l.challenge| == 8 && |r| == 24 && r == c.owfEncrypt(h.value, l.challenge);
            var v2 := (r: Blob, domain: string, upper: bool) =>
              && l.storedNt.Some? && |l.challenge| == 8 && |r| >= 24
              && var kr := c.ntv2Owf(l.storedNt.value, l.clientUsername, domain, upper);
                 kr.Some? && r[..16] == c.owfEncryptNtv2(kr.value, l.challenge, r[16..]);
            var anyV2 := (r: Blob) => v2(r, l.clientDomain, false) || v2(r, l.clientDomain, true) || v2(r, "", false);
            || (|l.ntResponse| > 24 && anyV2(l.ntResponse))
            || (|l.ntResponse| == 24 && policy.ntlmAuth && v1(l.ntResponse, l.storedNt))
            || (&& !(|l.ntResponse| == 24 && policy.ntlmAuth && l.storedNt.Some?) && |l.lmResponse| >= 24
                && (|| (policy.lanmanAuth && '@' !in l.username && v1(l.lmResponse, l.storedLanman))
                    || anyV2(l.lmResponse)
                    || (policy.ntlmAuth && v1(l.lmResponse, l.storedNt))))
  {
    AcceptedIff(c, policy, l);
    FirstInOrder(c, policy, l);
    hide FirstOf;
    if IsCleartext(l) {
    } else if |l.challenge| == 8 && forall i :: 0 <= i < 8 ==> l.challenge[i] == 0 {
      assert l.challenge == seq(8, _ => 0 as byte);
    }
  }

  /** With NTLMv1 and LANMAN both switched off, only a version 2 response gets in. */
  lemma OnlyV2WhenV1Disabled(c: Crypto, policy: Policy, l: Logon, p: Path)
    requires !policy.ntlmAuth && !policy.lanmanAuth
    requires FirstOf(c, policy, l, ORDER) == Some(p)
    ensures p.V2InNt? || p.V2InLm?
    ensures exists v :: V2With(c, l, l.ntResponse, v) || V2With(c, l, l.lmResponse, v)
  {
    assert Passes(c, l, p);
    match p
    case V2InNt(v) => assert V2With(c, l, l.ntResponse, v);
    case V2InLm(v) => assert V2With(c, l, l.lmResponse, v);
  }

  /** Once LMv2 has passed, the session key for the NT field cannot fail: what
      could make it fail would have made the check fail. */
  lemma SessionKeyAfterLmV2(c: Crypto, policy: Policy, l: Logon, v: Variant)
    requires Accepts(c, policy, l, V2InLm(v)) && |l.ntResponse| > 24
    ensures V2Key(c, l.ntResponse, l.storedNt, l.challenge, l.clientUsername, DomainFor(l, v), v == UpperDomain).Some?
  {
  }

  /** Sizes of the keys; the LM key is the head of the user key on every path
      but one; and the only path that can leave the user without a key. */
  lemma KeyShapes(c: Crypto, policy: Policy, l: Logon, p: Path)
    requires Accepts(c, policy, l, p)
    ensures var k := KeysOf(c, policy, l, p);
            && (|k.user| == 0 || |k.user| == 16) && (|k.lm| == 0 || |k.lm| == 8)
            && (p != V1InNt ==> k.lm == if k.user == [] then [] else k.user[..8])
            && (k.user == [] <==> p == NtInLm && !(policy.lanmanAuth && l.storedLanman.Some?))
  {
    if p.V2InLm? && |l.ntResponse| > 24 {
      SessionKeyAfterLmV2(c, policy, l, p.variant);
    }
    if p == Lm || p == NtInLm {
      if policy.lanmanAuth && l.storedLanman.Some? {
        assert PaddedLm(l.storedLanman.value)[..8] == l.storedLanman.value[..8];
      }
    }
  }

  /** What the first accepting path tells about the keys and about the policy. */
  lemma DecisionMeans(c: Crypto, policy: Policy, l: Logon)
    ensures match FirstOf(c, policy, l, ORDER)
            case None => true
            case Some(p) =>
              var k := KeysOf(c, policy, l, p);
              && (|k.user| == 0 || |k.user| == 16) && (|k.lm| == 0 || |k.lm| == 8)
              && (p != V1InNt ==> k.lm == if k.user == [] then [] else k.user[..8])
              && (k.user == [] <==> p == NtInLm && !(policy.lanmanAuth && l.storedLanman.Some?))
              && (!policy.ntlmAuth && !policy.lanmanAuth ==>
                    exists v :: V2With(c, l, l.ntResponse, v) || V2With(c, l, l.lmResponse, v))
  {
    var first := FirstOf(c, policy, l, ORDER);
    if first.Some? {
      KeyShapes(c, policy, l, first.value);
      if !policy.ntlmAuth && !policy.lanmanAuth {
        OnlyV2WhenV1Disabled(c, policy, l, first.value);
      }
    }
  }

  /** A wrong 24-byte NT response is final: no LM response can make up for it. */
  lemma WrongNtIsFinal(c: Crypto, policy: Policy, l: Logon)
    requires NtDecides(policy, l) && !PassesV1(c, l.ntResponse, l.storedNt, l.challenge)
    ensures FirstOf(c, policy, l, ORDER).None?
  {
    AcceptedIff(c, policy, l);
    forall p: Path
      ensures !Accepts(c, policy, l, p)
    {
    }
  }
}
