/** Clients that know a password hash, and what becomes of their logons: the
    responses as they make them, stated with the cryptographic primitives alone
    (auth/ntlm_check.c; sections 3.3.1 and 3.3.2 of MS-NLMP). */
module NtlmClients {
  import opened Bytes
  import opened Options
  import opened NtlmCheck

  /** An eight-byte challenge, not an invitation to send a cleartext password. */
  predicate Challenged(l: Logon) {
    |l.challenge| == 8 && (l.cleartextAllowed ==> exists i :: 0 <= i < 8 && l.challenge[i] != 0)
  }

  /** No two hashes answer a challenge alike. */
  ghost predicate TellsApart(c: Crypto, challenge: Blob) {
    forall h, h' :: c.owfEncrypt(h, challenge) == c.owfEncrypt(h', challenge) ==> h == h'
  }

  /** An NTLMv1 client with hash `hash` gets in, with the key that it computes
      itself, if that is the stored hash; with any other hash it does not. */
  method NtlmV1(c: Crypto, policy: Policy, l: Logon, hash: Hash16)
    returns (status: Status, userKey: Blob, lmKey: Blob)
    requires Challenged(l) && policy.ntlmAuth && l.storedNt.Some?
    requires l.ntResponse == c.owfEncrypt(hash, l.challenge)
    ensures hash == l.storedNt.value ==> status == Ok && userKey == c.sessKeyNtv1(hash)
    ensures status == Ok ==>
              lmKey == if policy.lanmanAuth && l.storedLanman.Some? then l.storedLanman.value[..8] else []
    ensures TellsApart(c, l.challenge) ==> (status == Ok <==> hash == l.storedNt.value)
    ensures status != Ok ==> userKey == [] && lmKey == []
  {
    status, userKey, lmKey := NtlmPasswordCheck(c, policy, l);
    FirstInOrder(c, policy, l);
    hide FirstOf;
  }

  /** A LAN Manager client: the key is the head of the hash, padded with zeros. */
  method LanMan(c: Crypto, policy: Policy, l: Logon, hash: Hash16)
    returns (status: Status, userKey: Blob, lmKey: Blob)
    requires Challenged(l) && policy.lanmanAuth && l.storedLanman.Some? && '@' !in l.username
    requires l.lmResponse == c.owfEncrypt(hash, l.challenge) && l.ntResponse == []
    ensures hash == l.storedLanman.value ==>
              status == Ok && userKey == hash[..8] + [0, 0, 0, 0, 0, 0, 0, 0] && lmKey == hash[..8]
    ensures TellsApart(c, l.challenge) && l.storedNt.None? ==> (status == Ok <==> hash == l.storedLanman.value)
  {
    status, userKey, lmKey := NtlmPasswordCheck(c, policy, l);
    FirstInOrder(c, policy, l);
    hide FirstOf;
    assert seq(8, _ => 0 as byte) == [0, 0, 0, 0, 0, 0, 0, 0];
  }

  /** No other hash, under any of the names tried, proves the same data. */
  ghost predicate OnlyProof(c: Crypto, l: Logon, hash: Hash16, proof: Hash16, data: Blob) {
    forall h, domain, upper ::
      var kr := c.ntv2Owf(h, l.clientUsername, domain, upper);
      kr.Some? && c.owfEncryptNtv2(kr.value, l.challenge, data) == proof ==> h == hash
  }

  function DomainIn(l: Logon, v: Variant): string {
    if v == NoDomain then "" else l.clientDomain
  }

  /** The domain goes into the key as given, in upper case, or not at all; a
      response is tried in this order. */
  predicate Earlier(c: Crypto, l: Logon, r: Blob, v: Variant)
    requires l.storedNt.Some? && |r| >= 24
  {
    && (v != AsGiven ==> Unproved(c, l, r, l.clientDomain, false))
    && (v == NoDomain ==> Unproved(c, l, r, l.clientDomain, true))
  }

  /** An NTLMv2 client gets in with its own key; one with another hash does not,
      unless it has something else to offer in the LM field. */
  method NtlmV2(c: Crypto, policy: Policy, l: Logon, hash: Hash16, kr: Hash16, data: Blob, v: Variant)
    returns (status: Status, userKey: Blob, lmKey: Blob)
    requires Challenged(l) && l.storedNt.Some? && |data| > 8
    requires c.ntv2Owf(hash, l.clientUsername, DomainIn(l, v), v == UpperDomain) == Some(kr)
    requires l.ntResponse == c.owfEncryptNtv2(kr, l.challenge, data) + data
    requires Earlier(c, l, l.ntResponse, v)
    ensures hash == l.storedNt.value ==>
              && status == Ok && userKey == c.sessKeyNtv2(kr, c.owfEncryptNtv2(kr, l.challenge, data))
              && lmKey == userKey[..8]
    ensures OnlyProof(c, l, hash, c.owfEncryptNtv2(kr, l.challenge, data), data) && |l.lmResponse| < 24 ==>
              (status == Ok <==> hash == l.storedNt.value)
  {
    var proof := c.owfEncryptNtv2(kr, l.challenge, data);
    assert l.ntResponse[..16] == proof && l.ntResponse[16..] == data;
    if hash == l.storedNt.value {
      NtlmV2Accepted(c, policy, l, kr, data, v);
    } else if OnlyProof(c, l, hash, proof, data) && |l.lmResponse| < 24 {
      NtlmV2Refused(c, policy, l, hash, proof, data);
    }
    hide FirstOf, KeysOf, Accepts, OnlyProof, Earlier;
    status, userKey, lmKey := NtlmPasswordCheck(c, policy, l);
  }

  lemma NtlmV2Accepted(c: Crypto, policy: Policy, l: Logon, kr: Hash16, data: Blob, v: Variant)
    requires Challenged(l) && l.storedNt.Some? && |l.ntResponse| > 24 && l.ntResponse[16..] == data
    requires c.ntv2Owf(l.storedNt.value, l.clientUsername, DomainIn(l, v), v == UpperDomain) == Some(kr)
    requires l.ntResponse[..16] == c.owfEncryptNtv2(kr, l.challenge, data)
    requires Earlier(c, l, l.ntResponse, v)
    ensures FirstOf(c, policy, l, ORDER) == Some(V2InNt(v)) && !IsCleartext(l)
    ensures var key := c.sessKeyNtv2(kr, c.owfEncryptNtv2(kr, l.challenge, data));
            KeysOf(c, policy, l, V2InNt(v)) == Keys(key, key[..8])
  {
    FirstInOrder(c, policy, l);
    hide FirstOf;
  }

  lemma NtlmV2Refused(c: Crypto, policy: Policy, l: Logon, hash: Hash16, proof: Hash16, data: Blob)
    requires Challenged(l) && l.storedNt.Some? && |l.lmResponse| < 24 && |l.ntResponse| > 24
    requires l.ntResponse[..16] == proof && l.ntResponse[16..] == data
    requires OnlyProof(c, l, hash, proof, data) && hash != l.storedNt.value
    ensures !IsCleartext(l) && !exists p :: Accepts(c, policy, l, p)
  {
    forall p: Path
      ensures !Accepts(c, policy, l, p)
    {
    }
  }

  /** An LMv2 client, whose response is in the LM field. The key is that of the NT
      field if there is a version 2 response in it, even a wrong one. */
  method LmV2(c: Crypto, policy: Policy, l: Logon, hash: Hash16, kr: Hash16, data: Blob, v: Variant)
    returns (status: Status, userKey: Blob, lmKey: Blob)
    requires Challenged(l) && !policy.lanmanAuth && l.storedNt.Some? && |data| >= 8
    requires c.ntv2Owf(hash, l.clientUsername, DomainIn(l, v), v == UpperDomain) == Some(kr)
    requires l.lmResponse == c.owfEncryptNtv2(kr, l.challenge, data) + data
    requires Earlier(c, l, l.lmResponse, v)
    requires |l.ntResponse| < 24 || (|l.ntResponse| > 24 && NoProof(c, l, l.ntResponse))
    ensures hash == l.storedNt.value ==>
              && status == Ok
              && userKey == (if |l.ntResponse| > 24
                             then c.sessKeyNtv2(kr, c.owfEncryptNtv2(kr, l.challenge, l.ntResponse[16..]))
                             else c.sessKeyNtv2(kr, c.owfEncryptNtv2(kr, l.challenge, data)))
              && lmKey == userKey[..8]
    ensures OnlyProof(c, l, hash, c.owfEncryptNtv2(kr, l.challenge, data), data) && !policy.ntlmAuth ==>
              (status == Ok <==> hash == l.storedNt.value)
  {
    var proof := c.owfEncryptNtv2(kr, l.challenge, data);
    assert l.lmResponse[..16] == proof && l.lmResponse[16..] == data;
    if hash == l.storedNt.value {
      LmV2Accepted(c, policy, l, kr, data, v);
    } else if OnlyProof(c, l, hash, proof, data) && !policy.ntlmAuth {
      LmV2Refused(c, policy, l, hash, proof, data);
    }
    hide FirstOf, KeysOf, Accepts, NoProof, OnlyProof, Earlier;
    status, userKey, lmKey := NtlmPasswordCheck(c, policy, l);
  }

  lemma LmV2Accepted(c: Crypto, policy: Policy, l: Logon, kr: Hash16, data: Blob, v: Variant)
    requires Challenged(l) && !policy.lanmanAuth && l.storedNt.Some? && |data| >= 8
    requires c.ntv2Owf(l.storedNt.value, l.clientUsername, DomainIn(l, v), v == UpperDomain) == Some(kr)
    requires |l.lmResponse| >= 24 && l.lmResponse[16..] == data && Earlier(c, l, l.lmResponse, v)
    requires l.lmResponse[..16] == c.owfEncryptNtv2(kr, l.challenge, data)
    requires |l.ntResponse| < 24 || (|l.ntResponse| > 24 && NoProof(c, l, l.ntResponse))
    ensures FirstOf(c, policy, l, ORDER) == Some(V2InLm(v)) && !IsCleartext(l)
    ensures var from := if |l.ntResponse| > 24 then l.ntResponse[16..] else data;
            var key := c.sessKeyNtv2(kr, c.owfEncryptNtv2(kr, l.challenge, from));
            KeysOf(c, policy, l, V2InLm(v)) == Keys(key, key[..8])
  {
    FirstInOrder(c, policy, l);
    hide FirstOf;
  }

  lemma LmV2Refused(c: Crypto, policy: Policy, l: Logon, hash: Hash16, proof: Hash16, data: Blob)
    requires Challenged(l) && !policy.lanmanAuth && !policy.ntlmAuth && l.storedNt.Some? && |l.lmResponse| >= 24
    requires l.lmResponse[..16] == proof && l.lmResponse[16..] == data
    requires |l.ntResponse| < 24 || (|l.ntResponse| > 24 && NoProof(c, l, l.ntResponse))
    requires OnlyProof(c, l, hash, proof, data) && hash != l.storedNt.value
    ensures !IsCleartext(l) && !exists p :: Accepts(c, policy, l, p)
  {
    forall p: Path
      ensures !Accepts(c, policy, l, p)
    {
    }
  }

  /** A response proves nothing under any of the three names tried. */
  predicate NoProof(c: Crypto, l: Logon, r: Blob)
    requires l.storedNt.Some? && |r| >= 24
  {
    Unproved(c, l, r, l.clientDomain, false) && Unproved(c, l, r, l.clientDomain, true) && Unproved(c, l, r, "", false)
  }

  predicate Unproved(c: Crypto, l: Logon, r: Blob, domain: string, upper: bool)
    requires l.storedNt.Some? && |r| >= 24
  {
    var kr := c.ntv2Owf(l.storedNt.value, l.clientUsername, domain, upper);
    kr.Some? ==> r[..16] != c.owfEncryptNtv2(kr.value, l.challenge, r[16..])
  }

  /** An NTLMv1 client that has only the LM field gets the key of a LAN Manager
      client, if that is allowed, or none. */
  method NtlmV1InLm(c: Crypto, policy: Policy, l: Logon, hash: Hash16)
    returns (status: Status, userKey: Blob, lmKey: Blob)
    requires Challenged(l) && policy.ntlmAuth && l.storedNt.Some?
    requires l.lmResponse == c.owfEncrypt(hash, l.challenge) && l.ntResponse == []
    ensures hash == l.storedNt.value ==> status == Ok
    ensures hash == l.storedNt.value && NoProof(c, l, l.lmResponse) ==>
              && userKey == (if policy.lanmanAuth && l.storedLanman.Some?
                             then l.storedLanman.value[..8] + [0, 0, 0, 0, 0, 0, 0, 0] else [])
              && lmKey == (if policy.lanmanAuth && l.storedLanman.Some? then l.storedLanman.value[..8] else [])
    ensures TellsApart(c, l.challenge) && NoProof(c, l, l.lmResponse) && !policy.lanmanAuth ==>
              (status == Ok <==> hash == l.storedNt.value)
  {
    status, userKey, lmKey := NtlmPasswordCheck(c, policy, l);
    FirstInOrder(c, policy, l);
    hide FirstOf;
    assert seq(8, _ => 0 as byte) == [0, 0, 0, 0, 0, 0, 0, 0];
  }
}
