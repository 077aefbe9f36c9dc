/**
 From the key proofs of a Credential Request to the credentials (issuer/proofs.go, the two resolve
 functions, and issuer/credential_endpoint.go, resolveProofKeys and issueBatch).

 A request carries jwt proofs, each signed by a key and perhaps with a key attestation, or one key
 attestation. Verifying a signature or an attestation is what Verifier says of it. A key is its public
 JWK re-encoded, so one key is one string.
 */
module CredentialProofs {
  import opened Wrappers
  import opened Encodings
  import Nonces
  import opened DeferredTrust
  import opened DeferredTransactions

  datatype Refusal = InvalidRequest | InvalidProof | InvalidNonce | CannotDecide

  /** A verified jwt proof: the key that signed it, its nonce, its header if by kid or x5c, and its key_attestation. */
  datatype Proof = Proof(key: string, nonce: string, header: Option<string>, attestation: AttestationHeader)

  datatype AttestationHeader = NoAttestation | NotAJwt | Carried(compact: string)

  /** A verified key attestation: its keys, None for one that can't be parsed, and what is checked of it. */
  datatype Attested = Attested(keys: seq<Option<string>>, nonce: string, expires: bool, recent: bool, meetsLevels: bool)

  datatype Verifier = Verifier(
    proof: string -> Result<Proof, Refusal>,
    attestation: string -> Result<Attested, Refusal>,
    status: string -> Option<Refusal>)

  /** The issuer: batch is none without batch_credential_issuance, and required is the proof type's requirement. */
  datatype Config = Config(nonceEndpoint: bool, batch: Option<nat>, verifiesAttestations: bool, attestationRequired: bool)

  /** Who checks the nonce: the replica, at its time, with a store it shares. */
  datatype Checker = Checker(mac: Mac, replica: Nonces.Replica, now: int)

  function MaxBatch(cfg: Config): nat {
    if cfg.batch.Some? then cfg.batch.value else 1
  }

  // ---- Nonces ----

  /** The records a request leaves whose first proof carried nonce. */
  function AfterNonce(cfg: Config, c: Checker, records: Nonces.Records, nonce: string): Nonces.Records {
    if cfg.nonceEndpoint && nonce != "" then Nonces.AfterConsuming(c.mac, c.replica, records, nonce, c.now) else records
  }

  predicate NonceAccepted(cfg: Config, c: Checker, records: Nonces.Records, nonce: string) {
    cfg.nonceEndpoint ==> nonce != "" && Nonces.Accepts(c.mac, c.replica, records, nonce, c.now)
  }

  /** checkProofNonce: the first proof's is consumed and every other must be the same. */
  method CheckProofNonce(cfg: Config, c: Checker, store: Nonces.Store, i: nat, nonce: string, expected: string)
    returns (refusal: Option<Refusal>, nowExpected: string)
    modifies store
    ensures i == 0 ==>
              && (refusal.None? <==> NonceAccepted(cfg, c, old(store.records), nonce))
              && (refusal.None? && cfg.nonceEndpoint ==> nonce != "" && nowExpected == nonce)
              && store.records == AfterNonce(cfg, c, old(store.records), nonce)
    ensures i > 0 ==>
              && (refusal.None? <==> !cfg.nonceEndpoint || (nonce != "" && nonce == expected))
              && store.records == old(store.records)
              && nowExpected == expected
  {
    hide Nonces.Accepts, Nonces.AfterConsuming;
    nowExpected := expected;
    if !cfg.nonceEndpoint {
      return None, expected;
    }
    if nonce == "" {
      return Some(InvalidProof), expected;
    }
    if i == 0 {
      var refused := Nonces.ConsumeNonce(c.mac, c.replica, store, nonce, c.now);
      if refused.Some? {
        return Some(InvalidNonce), expected;
      }
      return None, nonce;
    }
    refusal := if nonce != expected then Some(InvalidNonce) else None;
  }

  // ---- Attested keys ----

  function AttestedKeys(compact: string, keys: seq<Option<string>>): seq<ResolvedKey>
    requires None !in keys
  {
    seq(|keys|, i requires 0 <= i < |keys| => ResolvedKey(keys[i].value, compact, None))
  }

  /** appendAttestedKeys: all of them, if each is a key and they are not more than max. */
  method AppendAttestedKeys(keys: seq<ResolvedKey>, attested: seq<Option<string>>, compact: string, max: nat)
    returns (appended: Result<seq<ResolvedKey>, Refusal>)
    requires |keys| <= max
    ensures appended.Success? <==> None !in attested && |keys| + |attested| <= max
    ensures appended.Success? ==> appended.value == keys + AttestedKeys(compact, attested)
  {
    var all := keys;
    for j := 0 to |attested|
      invariant None !in attested[..j] && all == keys + AttestedKeys(compact, attested[..j]) && |all| <= max
    {
      if |all| >= max || attested[j].None? {
        return Failure(InvalidProof);
      }
      all := all + [ResolvedKey(attested[j].value, compact, None)];
      assert attested[..j + 1] == attested[..j] + [attested[j]];
    }
    assert attested[..|attested|] == attested;
    return Success(all);
  }

  function Jwks(keys: seq<ResolvedKey>): set<string> {
    set k | k in keys :: k.jwk
  }

  lemma JwksWithOne(keys: seq<ResolvedKey>, k: ResolvedKey)
    ensures Jwks(keys + [k]) == Jwks(keys) + {k.jwk}
  {
    assert forall x :: x in keys + [k] <==> x in keys || x == k;
  }

  lemma InJwks(keys: seq<ResolvedKey>, jwk: string)
    ensures jwk in Jwks(keys) <==> exists j | 0 <= j < |keys| :: keys[j].jwk == jwk
  {
  }

  /** keys with those of add whose JWK is not there yet. */
  function WithUnique(keys: seq<ResolvedKey>, add: seq<ResolvedKey>): (all: seq<ResolvedKey>)
    ensures |keys| <= |all| && all[..|keys|] == keys
    ensures Jwks(all) == Jwks(keys) + Jwks(add)
    ensures forall k | k in all :: k in keys || k in add
  {
    if add == [] then keys
    else
      var before := WithUnique(keys, add[..|add| - 1]);
      var k := add[|add| - 1];
      assert add == add[..|add| - 1] + [k];
      JwksWithOne(add[..|add| - 1], k);
      JwksWithOne(before, k);
      if k.jwk in Jwks(before) then before else before + [k]
  }

  method AppendUniqueKeys(keys: seq<ResolvedKey>, add: seq<ResolvedKey>) returns (all: seq<ResolvedKey>)
    ensures all == WithUnique(keys, add)
  {
    hide Jwks;
    all := keys;
    for i := 0 to |add|
      invariant all == WithUnique(keys, add[..i])
    {
      assert add[..i + 1][..i] == add[..i];
      var have := exists j | 0 <= j < |all| :: all[j].jwk == add[i].jwk;
      InJwks(all, add[i].jwk);
      if !have {
        all := all + [add[i]];
      }
    }
    assert add[..|add|] == add;
  }

  // ---- jwt proofs ----

  /** What proof adds: its own key, or those its key attestation attests, when the issuer verifies any. */
  predicate BindsOwnKey(cfg: Config, p: Proof) {
    p.attestation.NoAttestation? || (!cfg.verifiesAttestations && !cfg.attestationRequired)
  }

  /** resolveKeyAttestationHeader accepts p's key attestation, the request's nonce being nonce. */
  predicate AttestationAccepted(cfg: Config, v: Verifier, p: Proof, nonce: string)
    requires p.attestation.Carried?
  {
    && cfg.verifiesAttestations
    && (match v.attestation(p.attestation.compact)
        case Failure(_) => false
        case Success(a) =>
          && a.expires && (cfg.nonceEndpoint ==> a.nonce == nonce)
          && Some(p.key) in a.keys && a.meetsLevels
          && v.status(p.attestation.compact).None?
          && None !in a.keys && |a.keys| <= MaxBatch(cfg))
  }

  predicate ProofAccepted(cfg: Config, v: Verifier, raw: string, nonce: string) {
    match v.proof(raw)
    case Failure(_) => false
    case Success(p) =>
      && (cfg.nonceEndpoint ==> p.nonce != "" && p.nonce == nonce)
      && (match p.attestation
          case NotAJwt => false
          case NoAttestation => !cfg.attestationRequired
          case Carried(_) => BindsOwnKey(cfg, p) || AttestationAccepted(cfg, v, p, nonce))
  }

  /** The keys the first of values resolve to. */
  function Collected(cfg: Config, v: Verifier, values: seq<string>, nonce: string): seq<ResolvedKey>
    requires forall raw | raw in values :: ProofAccepted(cfg, v, raw, nonce)
  {
    if values == [] then []
    else
      var before := Collected(cfg, v, values[..|values| - 1], nonce);
      assert ProofAccepted(cfg, v, values[|values| - 1], nonce);
      var p := v.proof(values[|values| - 1]).value;
      if BindsOwnKey(cfg, p) then before + [ResolvedKey(p.key, "", p.header)]
      else WithUnique(before, AttestedKeys(p.attestation.compact, v.attestation(p.attestation.compact).value.keys))
  }

  function FirstNonce(v: Verifier, values: seq<string>): string {
    if values != [] && v.proof(values[0]).Success? then v.proof(values[0]).value.nonce else ""
  }

  ghost predicate ProofsAccepted(cfg: Config, v: Verifier, values: seq<string>) {
    forall raw | raw in values :: ProofAccepted(cfg, v, raw, FirstNonce(v, values))
  }

  lemma {:induction false} CollectedGrows(cfg: Config, v: Verifier, values: seq<string>, nonce: string, n: nat)
    requires n <= |values| && forall raw | raw in values :: ProofAccepted(cfg, v, raw, nonce)
    ensures |Collected(cfg, v, values[..n], nonce)| <= |Collected(cfg, v, values, nonce)|
  {
    hide ProofAccepted;
    if n < |values| {
      var before := values[..|values| - 1];
      assert before[..n] == values[..n];
      CollectedGrows(cfg, v, before, nonce, n);
      CollectedStep(cfg, v, values, nonce);
    } else {
      assert values[..n] == values;
    }
  }

  lemma CollectedStep(cfg: Config, v: Verifier, values: seq<string>, nonce: string)
    requires values != [] && forall raw | raw in values :: ProofAccepted(cfg, v, raw, nonce)
    ensures |Collected(cfg, v, values[..|values| - 1], nonce)| <= |Collected(cfg, v, values, nonce)|
  {
    assert ProofAccepted(cfg, v, values[|values| - 1], nonce);
  }

  /** resolveKeyAttestationHeader. */
  method ResolveKeyAttestationHeader(cfg: Config, v: Verifier, p: Proof, nonce: string)
    returns (keys: Result<seq<ResolvedKey>, Refusal>)
    requires p.attestation.Carried?
    ensures keys.Success? <==> AttestationAccepted(cfg, v, p, nonce)
    ensures keys.Success? ==>
              keys.value == AttestedKeys(p.attestation.compact, v.attestation(p.attestation.compact).value.keys)
  {
    if !cfg.verifiesAttestations {
      return Failure(InvalidProof);
    }
    var verified := v.attestation(p.attestation.compact);
    if verified.Failure? {
      return Failure(verified.error);
    }
    var a := verified.value;
    if !a.expires {
      return Failure(InvalidProof);
    }
    if cfg.nonceEndpoint && a.nonce != nonce {
      return Failure(InvalidNonce);
    }
    if Some(p.key) !in a.keys || !a.meetsLevels {
      return Failure(InvalidProof);
    }
    var status := v.status(p.attestation.compact);
    if status.Some? {
      return Failure(status.value);
    }
    keys := AppendAttestedKeys([], a.keys, p.attestation.compact, MaxBatch(cfg));
    if keys.Success? {
      assert [] + AttestedKeys(p.attestation.compact, a.keys) == AttestedKeys(p.attestation.compact, a.keys);
    }
  }

  /** What one verified jwt proof makes of the keys so far: the switch of the resolve loop. */
  method AddProofKeys(cfg: Config, v: Verifier, p: Proof, nonce: string, keys: seq<ResolvedKey>)
    returns (all: Result<seq<ResolvedKey>, Refusal>)
    ensures all.Success? <==>
              match p.attestation
              case NotAJwt => false
              case NoAttestation => !cfg.attestationRequired
              case Carried(_) => BindsOwnKey(cfg, p) || AttestationAccepted(cfg, v, p, nonce)
    ensures all.Success? ==>
              all.value ==
              if BindsOwnKey(cfg, p) then keys + [ResolvedKey(p.key, "", p.header)]
              else WithUnique(keys, AttestedKeys(p.attestation.compact, v.attestation(p.attestation.compact).value.keys))
  {
    if p.attestation.NotAJwt? {
      return Failure(InvalidProof);
    }
    if p.attestation.Carried? && !cfg.verifiesAttestations && !cfg.attestationRequired {
      return Success(keys + [ResolvedKey(p.key, "", p.header)]);
    }
    if p.attestation.Carried? {
      var attested := ResolveKeyAttestationHeader(cfg, v, p, nonce);
      if attested.Failure? {
        return Failure(attested.error);
      }
      var unique := AppendUniqueKeys(keys, attested.value);
      return Success(unique);
    }
    if cfg.attestationRequired {
      return Failure(InvalidProof);
    }
    return Success(keys + [ResolvedKey(p.key, "", p.header)]);
  }

  /** What jwt proofs are worth: all accepted under the first one's nonce, and not too many keys together. */
  ghost predicate JwtAccepted(cfg: Config, c: Checker, v: Verifier, records: Nonces.Records, values: seq<string>) {
    && ProofsAccepted(cfg, v, values)
    && NonceAccepted(cfg, c, records, FirstNonce(v, values))
    && |Collected(cfg, v, values, FirstNonce(v, values))| <= MaxBatch(cfg)
  }

  /** One turn of the resolve loop, whose checks together are ProofAccepted. */
  lemma ProofTurn(cfg: Config, v: Verifier, values: seq<string>, i: nat, expected: string, nonce: string)
    requires i < |values| && v.proof(values[i]).Success? && (cfg.nonceEndpoint ==> expected == nonce)
    ensures var p := v.proof(values[i]).value;
            ProofAccepted(cfg, v, values[i], nonce) <==>
            && (cfg.nonceEndpoint ==> p.nonce != "" && p.nonce == expected)
            && (match p.attestation
                case NotAJwt => false
                case NoAttestation => !cfg.attestationRequired
                case Carried(_) => BindsOwnKey(cfg, p) || AttestationAccepted(cfg, v, p, expected))
  {
  }

  lemma CollectedNext(cfg: Config, v: Verifier, values: seq<string>, i: nat, nonce: string)
    requires i < |values| && ProofAccepted(cfg, v, values[i], nonce)
    requires forall raw | raw in values[..i] :: ProofAccepted(cfg, v, raw, nonce)
    ensures forall raw | raw in values[..i + 1] :: ProofAccepted(cfg, v, raw, nonce)
    ensures var p := v.proof(values[i]).value;
            Collected(cfg, v, values[..i + 1], nonce) ==
            if BindsOwnKey(cfg, p) then Collected(cfg, v, values[..i], nonce) + [ResolvedKey(p.key, "", p.header)]
            else WithUnique(Collected(cfg, v, values[..i], nonce),
                            AttestedKeys(p.attestation.compact, v.attestation(p.attestation.compact).value.keys))
  {
    assert values[..i + 1] == values[..i] + [values[i]];
    assert values[..i + 1][..i] == values[..i];
  }

  method ResolveJwtProofKeys(cfg: Config, c: Checker, v: Verifier, store: Nonces.Store, values: seq<string>)
    returns (keys: Result<seq<ResolvedKey>, Refusal>)
    requires values != []
    modifies store
    ensures keys.Success? <==> JwtAccepted(cfg, c, v, old(store.records), values)
    ensures keys.Success? ==> keys.value == Collected(cfg, v, values, FirstNonce(v, values))
    ensures store.records ==
            if v.proof(values[0]).Success? then AfterNonce(cfg, c, old(store.records), FirstNonce(v, values)) else old(store.records)
  {
    hide AfterNonce, AttestationAccepted, WithUnique, NonceAccepted, ProofAccepted, Collected, BindsOwnKey, AttestedKeys;
    ghost var records := store.records;
    ghost var nonce := FirstNonce(v, values);
    var all: seq<ResolvedKey> := [];
    var expected := "";
    NothingCollected(cfg, v, nonce);
    assert values[..0] == [];
    for i := 0 to |values|
      invariant forall raw | raw in values[..i] :: ProofAccepted(cfg, v, raw, nonce)
      invariant i > 0 ==> NonceAccepted(cfg, c, records, nonce) && (cfg.nonceEndpoint ==> expected == nonce)
      invariant all == Collected(cfg, v, values[..i], nonce) && |all| <= MaxBatch(cfg)
      invariant store.records == if i > 0 then AfterNonce(cfg, c, records, nonce) else records
      invariant i > 0 ==> v.proof(values[0]).Success?
    {
      assert values[i] in values;
      var verified := v.proof(values[i]);
      if verified.Failure? {
        RefusedProof(cfg, v, values[i], nonce);
        return Failure(verified.error);
      }
      var p := verified.value;
      var refusal;
      refusal, expected := CheckProofNonce(cfg, c, store, i, p.nonce, expected);
      if refusal.Some? {
        ProofTurn(cfg, v, values, i, nonce, nonce);
        return Failure(refusal.value);
      }
      var added := AddProofKeys(cfg, v, p, expected, all);
      ProofTurn(cfg, v, values, i, expected, nonce);
      if added.Failure? {
        return Failure(added.error);
      }
      all := added.value;
      CollectedNext(cfg, v, values, i, nonce);
      if |all| > MaxBatch(cfg) {
        if ProofsAccepted(cfg, v, values) {
          CollectedGrows(cfg, v, values, nonce, i + 1);
        }
        return Failure(InvalidProof);
      }
    }
    assert values[..|values|] == values;
    return Success(all);
  }

  lemma NothingCollected(cfg: Config, v: Verifier, nonce: string)
    ensures Collected(cfg, v, [], nonce) == []
  {
  }

  lemma RefusedProof(cfg: Config, v: Verifier, raw: string, nonce: string)
    requires v.proof(raw).Failure?
    ensures !ProofAccepted(cfg, v, raw, nonce)
  {
  }

  // ---- A key attestation alone ----

  predicate AloneAccepted(cfg: Config, c: Checker, v: Verifier, records: Nonces.Records, raw: string) {
    && cfg.verifiesAttestations
    && (match v.attestation(raw)
        case Failure(_) => false
        case Success(a) =>
          && NonceAccepted(cfg, c, records, a.nonce)
          && (!cfg.nonceEndpoint ==> a.recent)
          && a.meetsLevels && v.status(raw).None?
          && None !in a.keys && 1 <= |a.keys| <= MaxBatch(cfg))
  }

  method ResolveAttestationProofKeys(cfg: Config, c: Checker, v: Verifier, store: Nonces.Store, values: seq<string>)
    returns (keys: Result<seq<ResolvedKey>, Refusal>)
    modifies store
    ensures keys.Success? <==> |values| == 1 && AloneAccepted(cfg, c, v, old(store.records), values[0])
    ensures keys.Success? ==> keys.value == AttestedKeys(values[0], v.attestation(values[0]).value.keys)
    ensures store.records ==
            if cfg.verifiesAttestations && |values| == 1 && v.attestation(values[0]).Success?
            then AfterNonce(cfg, c, old(store.records), v.attestation(values[0]).value.nonce)
            else old(store.records)
  {
    hide NonceAccepted, AfterNonce;
    if !cfg.verifiesAttestations || |values| != 1 {
      return Failure(InvalidProof);
    }
    var raw := values[0];
    var verified := v.attestation(raw);
    if verified.Failure? {
      return Failure(verified.error);
    }
    var a := verified.value;
    var refusal, _ := CheckProofNonce(cfg, c, store, 0, a.nonce, "");
    if refusal.Some? {
      return Failure(refusal.value);
    }
    if !cfg.nonceEndpoint && !a.recent {
      return Failure(InvalidProof);
    }
    if !a.meetsLevels {
      return Failure(InvalidProof);
    }
    var status := v.status(raw);
    if status.Some? {
      return Failure(status.value);
    }
    keys := AppendAttestedKeys([], a.keys, raw, MaxBatch(cfg));
    if keys.Success? {
      assert [] + AttestedKeys(raw, a.keys) == AttestedKeys(raw, a.keys);
      if keys.value == [] {
        return Failure(InvalidProof);
      }
    }
  }

  // ---- The whole request ----

  datatype ProofType = Jwt | Attestation | Other

  predicate DistinctKeys(keys: seq<ResolvedKey>) {
    forall i, j | 0 <= i < j < |keys| :: keys[i].jwk != keys[j].jwk
  }

  method CheckDistinctKeys(keys: seq<ResolvedKey>) returns (refusal: Option<Refusal>)
    ensures refusal.None? <==> DistinctKeys(keys)
  {
    for i := 0 to |keys|
      invariant DistinctKeys(keys[..i])
    {
      for j := 0 to i
        invariant forall k | 0 <= k < j :: keys[k].jwk != keys[i].jwk
      {
        if keys[j].jwk == keys[i].jwk {
          return Some(InvalidProof);
        }
      }
    }
    assert keys[..|keys|] == keys;
    return None;
  }

  /** The nonce a request's first proof carries, if it gets as far as having it checked. */
  function RequestNonce(cfg: Config, v: Verifier, kind: ProofType, values: seq<string>): Option<string> {
    if values == [] || |values| > MaxBatch(cfg) then None
    else
      match kind
      case Jwt => if v.proof(values[0]).Success? then Some(FirstNonce(v, values)) else None
      case Attestation =>
        if cfg.verifiesAttestations && |values| == 1 && v.attestation(values[0]).Success?
        then Some(v.attestation(values[0]).value.nonce) else None
      case Other => None
  }

  /** The request's proofs are all accepted. */
  ghost predicate RequestAccepted(
    cfg: Config, c: Checker, v: Verifier, records: Nonces.Records, kind: ProofType, values: seq<string>)
  {
    && values != [] && |values| <= MaxBatch(cfg)
    && (match kind
        case Jwt => JwtAccepted(cfg, c, v, records, values)
        case Attestation => |values| == 1 && AloneAccepted(cfg, c, v, records, values[0])
        case Other => false)
  }

  /** What accepted proofs resolve to. */
  function RequestKeys(cfg: Config, v: Verifier, kind: ProofType, values: seq<string>): seq<ResolvedKey>
    requires kind.Jwt? ==> forall raw | raw in values :: ProofAccepted(cfg, v, raw, FirstNonce(v, values))
    requires kind.Attestation? ==> values != [] && v.attestation(values[0]).Success? && None !in v.attestation(values[0]).value.keys
  {
    match kind
    case Jwt => Collected(cfg, v, values, FirstNonce(v, values))
    case Attestation => AttestedKeys(values[0], v.attestation(values[0]).value.keys)
    case Other => []
  }

  /** checkBatchSize, the resolve function of the proof type and checkDistinctKeys. */
  method ResolveProofKeys(cfg: Config, c: Checker, v: Verifier, store: Nonces.Store, kind: ProofType, values: seq<string>)
    returns (keys: Result<seq<ResolvedKey>, Refusal>)
    modifies store
    ensures keys.Success? <==>
              RequestAccepted(cfg, c, v, old(store.records), kind, values) && DistinctKeys(RequestKeys(cfg, v, kind, values))
    ensures keys.Success? ==> keys.value == RequestKeys(cfg, v, kind, values)
    ensures store.records ==
            match RequestNonce(cfg, v, kind, values)
            case None => old(store.records)
            case Some(nonce) => AfterNonce(cfg, c, old(store.records), nonce)
  {
    hide NonceAccepted, AfterNonce, Collected, DistinctKeys;
    if values == [] {
      return Failure(InvalidRequest);
    }
    if |values| > MaxBatch(cfg) {
      return Failure(InvalidProof);
    }
    match kind {
      case Jwt => keys := ResolveJwtProofKeys(cfg, c, v, store, values);
      case Attestation => keys := ResolveAttestationProofKeys(cfg, c, v, store, values);
      case Other => return Failure(InvalidProof);
    }
    if keys.Success? {
      var refusal := CheckDistinctKeys(keys.value);
      if refusal.Some? {
        return Failure(refusal.value);
      }
    }
  }

  // ---- What the keys are ----

  /** raw, a value of kind, proves k by its own signature or carries, or is, the key attestation that attests k. */
  predicate Vouches(cfg: Config, v: Verifier, kind: ProofType, raw: string, k: ResolvedKey) {
    match kind
    case Jwt =>
      && v.proof(raw).Success?
      && var p := v.proof(raw).value;
         || k == ResolvedKey(p.key, "", p.header)
         || (p.attestation == Carried(k.attestation) && v.attestation(k.attestation).Success? && k.header.None?
             && Some(k.jwk) in v.attestation(k.attestation).value.keys)
    case Attestation =>
      k.attestation == raw && v.attestation(raw).Success? && k.header.None? && Some(k.jwk) in v.attestation(raw).value.keys
    case Other => false
  }

  lemma AttestedMembers(compact: string, keys: seq<Option<string>>)
    requires None !in keys
    ensures forall k | k in AttestedKeys(compact, keys) :: k.attestation == compact && k.header.None? && Some(k.jwk) in keys
    ensures forall k | k in keys :: k.value in Jwks(AttestedKeys(compact, keys))
  {
    var all := AttestedKeys(compact, keys);
    forall i | 0 <= i < |keys| ensures Some(all[i].jwk) == keys[i] {
      assert keys[i] in keys;
    }
    forall k | k in keys ensures k.value in Jwks(all) {
      var i :| 0 <= i < |keys| && keys[i] == k;
      assert all[i] in all && all[i].jwk == k.value;
    }
  }

  /** Every collected key is vouched for by a proof, and every proof's own key is among them. */
  lemma {:induction false} CollectedAreVouchedFor(cfg: Config, v: Verifier, values: seq<string>, nonce: string)
    requires forall raw | raw in values :: ProofAccepted(cfg, v, raw, nonce)
    ensures forall k | k in Collected(cfg, v, values, nonce) :: exists raw | raw in values :: Vouches(cfg, v, Jwt, raw, k)
    ensures forall raw | raw in values :: v.proof(raw).Success? && v.proof(raw).value.key in Jwks(Collected(cfg, v, values, nonce))
  {
    hide ProofAccepted, Vouches, AttestationAccepted;
    if values != [] {
      var before, raw := values[..|values| - 1], values[|values| - 1];
      assert values == before + [raw];
      CollectedAreVouchedFor(cfg, v, before, nonce);
      AddedAreVouchedFor(cfg, v, values, nonce);
    }
  }

  lemma AddedAreVouchedFor(cfg: Config, v: Verifier, values: seq<string>, nonce: string)
    requires values != [] && forall raw | raw in values :: ProofAccepted(cfg, v, raw, nonce)
    ensures var raw := values[|values| - 1];
            var before, all := Collected(cfg, v, values[..|values| - 1], nonce), Collected(cfg, v, values, nonce);
            && Jwks(before) <= Jwks(all)
            && v.proof(raw).Success? && v.proof(raw).value.key in Jwks(all)
            && forall k | k in all && k !in before :: Vouches(cfg, v, Jwt, raw, k)
  {
    hide Collected, Jwks;
    var raw := values[|values| - 1];
    var before, all := Collected(cfg, v, values[..|values| - 1], nonce), Collected(cfg, v, values, nonce);
    assert ProofAccepted(cfg, v, raw, nonce);
    var p := v.proof(raw).value;
    CollectedLast(cfg, v, values, nonce);
    if BindsOwnKey(cfg, p) {
      var own := ResolvedKey(p.key, "", p.header);
      JwksWithOne(before, own);
    } else {
      AttestedMembers(p.attestation.compact, v.attestation(p.attestation.compact).value.keys);
      assert Some(p.key).value == p.key;
    }
  }

  lemma CollectedLast(cfg: Config, v: Verifier, values: seq<string>, nonce: string)
    requires values != [] && forall raw | raw in values :: ProofAccepted(cfg, v, raw, nonce)
    ensures ProofAccepted(cfg, v, values[|values| - 1], nonce)
    ensures var p := v.proof(values[|values| - 1]).value;
            Collected(cfg, v, values, nonce) ==
            if BindsOwnKey(cfg, p) then Collected(cfg, v, values[..|values| - 1], nonce) + [ResolvedKey(p.key, "", p.header)]
            else WithUnique(Collected(cfg, v, values[..|values| - 1], nonce),
                            AttestedKeys(p.attestation.compact, v.attestation(p.attestation.compact).value.keys))
  {
    assert ProofAccepted(cfg, v, values[|values| - 1], nonce);
  }

  /**
   Proofs that are accepted and whose keys are distinct resolve to at least one key and no more than
   batch_size, each proved by its own signature or attested by an attestation submitted with it; and every
   jwt proof's own key is one of them.
   */
  lemma KeysAreProvedOrAttested(cfg: Config, c: Checker, v: Verifier, records: Nonces.Records, kind: ProofType, values: seq<string>)
    requires RequestAccepted(cfg, c, v, records, kind, values)
    ensures var keys := RequestKeys(cfg, v, kind, values);
            && 1 <= |keys| <= MaxBatch(cfg)
            && (forall k | k in keys :: exists raw | raw in values :: Vouches(cfg, v, kind, raw, k))
            && (kind == Jwt ==> forall raw | raw in values :: v.proof(raw).Success? && v.proof(raw).value.key in Jwks(keys))
  {
    hide NonceAccepted, ProofAccepted;
    if kind == Jwt {
      var nonce := FirstNonce(v, values);
      CollectedAreVouchedFor(cfg, v, values, nonce);
      hide Collected, Vouches;
      assert values[0] in values;
    } else {
      AttestedMembers(values[0], v.attestation(values[0]).value.keys);
      assert values[0] in values;
    }
  }

  /** raw's key attestation attests jwk, and the issuer verifies key attestations. */
  predicate Attests(cfg: Config, v: Verifier, raw: string, jwk: string) {
    && cfg.verifiesAttestations && v.proof(raw).Success? && v.proof(raw).value.attestation.Carried?
    && var compact := v.proof(raw).value.attestation.compact;
       v.attestation(compact).Success? && Some(jwk) in v.attestation(compact).value.keys
  }

  lemma {:induction false} CollectedExactly(cfg: Config, v: Verifier, values: seq<string>, nonce: string, jwk: string)
    requires forall raw | raw in values :: ProofAccepted(cfg, v, raw, nonce)
    ensures jwk in Jwks(Collected(cfg, v, values, nonce)) <==>
              exists raw | raw in values :: v.proof(raw).Success? && (v.proof(raw).value.key == jwk || Attests(cfg, v, raw, jwk))
  {
    hide ProofAccepted, Collected, AttestedKeys, Jwks, Attests;
    if values == [] {
      NothingCollected(cfg, v, nonce);
      assert jwk !in Jwks([]) by { InJwks([], jwk); }
    } else {
      var before, raw := values[..|values| - 1], values[|values| - 1];
      assert values == before + [raw];
      CollectedExactly(cfg, v, before, nonce, jwk);
      AddedExactly(cfg, v, values, nonce, jwk);
    }
  }

  lemma AddedExactly(cfg: Config, v: Verifier, values: seq<string>, nonce: string, jwk: string)
    requires values != [] && forall raw | raw in values :: ProofAccepted(cfg, v, raw, nonce)
    ensures var raw := values[|values| - 1];
            && v.proof(raw).Success?
            && (jwk in Jwks(Collected(cfg, v, values, nonce)) <==>
                  || jwk in Jwks(Collected(cfg, v, values[..|values| - 1], nonce))
                  || v.proof(raw).value.key == jwk || Attests(cfg, v, raw, jwk))
  {
    hide Collected, Jwks;
    var raw := values[|values| - 1];
    assert ProofAccepted(cfg, v, raw, nonce);
    var p := v.proof(raw).value;
    CollectedLast(cfg, v, values, nonce);
    if BindsOwnKey(cfg, p) {
      JwksWithOne(Collected(cfg, v, values[..|values| - 1], nonce), ResolvedKey(p.key, "", p.header));
    } else {
      AttestedJwks(p.attestation.compact, v.attestation(p.attestation.compact).value.keys, jwk);
    }
  }

  lemma AttestedJwks(compact: string, keys: seq<Option<string>>, jwk: string)
    requires None !in keys
    ensures jwk in Jwks(AttestedKeys(compact, keys)) <==> Some(jwk) in keys
  {
    AttestedMembers(compact, keys);
    if Some(jwk) in keys {
      assert Some(jwk).value == jwk;
    }
  }

  /**
   The keys are exactly these: each jwt proof's own, and every one its key attestation attests where the
   issuer verifies any; or every one the key attestation submitted alone attests.
   */
  lemma KeysAreExactly(
    cfg: Config, c: Checker, v: Verifier, records: Nonces.Records, kind: ProofType, values: seq<string>, jwk: string
  )
    requires RequestAccepted(cfg, c, v, records, kind, values)
    ensures jwk in Jwks(RequestKeys(cfg, v, kind, values)) <==>
              if kind == Jwt then
                exists raw | raw in values :: v.proof(raw).Success? && (v.proof(raw).value.key == jwk || Attests(cfg, v, raw, jwk))
              else Some(jwk) in v.attestation(values[0]).value.keys
  {
    hide NonceAccepted, ProofAccepted, Jwks, AttestedKeys, Attests;
    if kind == Jwt {
      CollectedExactly(cfg, v, values, FirstNonce(v, values), jwk);
    } else {
      AttestedJwks(values[0], v.attestation(values[0]).value.keys, jwk);
    }
  }

  /**
   What a jwt proof must be: verified; with a Nonce Endpoint, with the request's nonce; its key_attestation a
   JWT if there is one, which there must be where required; and that key attestation, where the issuer
   verifies them or requires one, good for the proof's key.
   */
  predicate ProofGood(cfg: Config, v: Verifier, raw: string, nonce: string) {
    && v.proof(raw).Success?
    && var p := v.proof(raw).value;
       && (cfg.nonceEndpoint ==> p.nonce == nonce && nonce != "")
       && !p.attestation.NotAJwt? && (cfg.attestationRequired ==> p.attestation.Carried?)
       && (p.attestation.Carried? && (cfg.verifiesAttestations || cfg.attestationRequired) ==>
             && cfg.verifiesAttestations && v.attestation(p.attestation.compact).Success?
             && v.status(p.attestation.compact).None?
             && var a := v.attestation(p.attestation.compact).value;
                && a.expires && a.meetsLevels && (cfg.nonceEndpoint ==> a.nonce == nonce) && Some(p.key) in a.keys
                && (forall k | k in a.keys :: k.Some?)
                && |a.keys| <= if cfg.batch.Some? then cfg.batch.value else 1)
  }

  /** What a key attestation submitted alone must be: fresh by its nonce, or by its age without a Nonce Endpoint. */
  predicate AttestationGood(cfg: Config, c: Checker, v: Verifier, records: Nonces.Records, raw: string) {
    && cfg.verifiesAttestations && v.attestation(raw).Success? && v.status(raw).None?
    && var a := v.attestation(raw).value;
       && a.meetsLevels && (forall k | k in a.keys :: k.Some?)
       && 0 < |a.keys| <= (if cfg.batch.Some? then cfg.batch.value else 1)
       && if cfg.nonceEndpoint then a.nonce != "" && Nonces.Accepts(c.mac, c.replica, records, a.nonce, c.now) else a.recent
  }

  /** Which requests are accepted: no more proofs, and no more keys, than batch_size, or one without it. */
  lemma RequestAcceptedIff(
    cfg: Config, c: Checker, v: Verifier, records: Nonces.Records, kind: ProofType, values: seq<string>
  )
    ensures kind == Jwt ==>
              (RequestAccepted(cfg, c, v, records, kind, values) <==>
                var first := if values != [] && v.proof(values[0]).Success? then v.proof(values[0]).value.nonce else "";
                var most := if cfg.batch.Some? then cfg.batch.value else 1;
                && 0 < |values| <= most && (forall raw | raw in values :: ProofGood(cfg, v, raw, first))
                && (cfg.nonceEndpoint ==> Nonces.Accepts(c.mac, c.replica, records, first, c.now))
                && ProofsAccepted(cfg, v, values) && |RequestKeys(cfg, v, kind, values)| <= most)
    ensures kind == Attestation ==>
              (RequestAccepted(cfg, c, v, records, kind, values) <==>
                |values| == 1 && AttestationGood(cfg, c, v, records, values[0]))
    ensures kind == Other ==> !RequestAccepted(cfg, c, v, records, kind, values)
  {
    hide Collected, Nonces.Accepts;
    if kind == Jwt {
      forall raw ensures ProofAccepted(cfg, v, raw, FirstNonce(v, values)) <==> ProofGood(cfg, v, raw, FirstNonce(v, values)) {
        ProofGoodIff(cfg, v, raw, FirstNonce(v, values));
      }
      hide ProofAccepted, ProofGood;
      assert values != [] ==> values[0] in values;
      if values != [] && ProofsAccepted(cfg, v, values) {
        ProofGoodIff(cfg, v, values[0], FirstNonce(v, values));
        FirstNonceThere(cfg, v, values);
      }
    }
  }

  lemma FirstNonceThere(cfg: Config, v: Verifier, values: seq<string>)
    requires values != [] && ProofsAccepted(cfg, v, values)
    ensures cfg.nonceEndpoint ==> FirstNonce(v, values) != ""
  {
    assert values[0] in values;
    assert ProofAccepted(cfg, v, values[0], FirstNonce(v, values));
  }

  lemma ProofGoodIff(cfg: Config, v: Verifier, raw: string, nonce: string)
    ensures ProofAccepted(cfg, v, raw, nonce) <==> ProofGood(cfg, v, raw, nonce)
  {
    if v.proof(raw).Success? && v.proof(raw).value.attestation.Carried? {
      var compact := v.proof(raw).value.attestation.compact;
      if v.attestation(compact).Success? {
        var a := v.attestation(compact).value;
        assert None !in a.keys <==> forall k | k in a.keys :: k.Some?;
      }
    }
  }

  /** With a Nonce Endpoint every proof carries the one nonce consumed, which is not accepted again. */
  lemma OneNonceForAll(cfg: Config, c: Checker, v: Verifier, records: Nonces.Records, kind: ProofType, values: seq<string>, later: Checker)
    requires later.mac == c.mac && cfg.nonceEndpoint && RequestAccepted(cfg, c, v, records, kind, values)
    ensures RequestNonce(cfg, v, kind, values).Some?
    ensures var nonce := RequestNonce(cfg, v, kind, values).value;
            && nonce != ""
            && (kind == Jwt ==> forall raw | raw in values :: v.proof(raw).Success? && v.proof(raw).value.nonce == nonce)
            && (kind == Attestation ==> v.attestation(values[0]).value.nonce == nonce)
            && !NonceAccepted(cfg, later, AfterNonce(cfg, c, records, nonce), nonce)
  {
    hide Collected, Nonces.Accepts, Nonces.AfterConsuming;
    var first := if kind == Jwt then FirstNonce(v, values) else v.attestation(values[0]).value.nonce;
    if kind == Jwt {
      forall raw | raw in values ensures v.proof(raw).Success? && v.proof(raw).value.nonce == first {
        assert ProofAccepted(cfg, v, raw, first);
      }
      assert values[0] in values;
    }
    Nonces.AcceptedIsUsed(c.mac, c.replica, records, first, c.now, later.replica, later.now);
  }

  // ---- One credential for each key ----

  datatype Format = SdJwt | Mdoc

  /** One credential of a batch before it is signed; status is its status reference, "" for none. */
  datatype Instance = Instance(index: nat, key: string, format: Option<Format>, claims: string, status: string)

  /** What the deployment does to an instance and to the whole batch, and the signer; each may fail. */
  datatype Issuance = Issuance(
    perCredential: Instance -> Option<Instance>,
    perBatch: seq<Instance> -> Option<seq<Instance>>,
    sign: (string, Instance) -> Option<string>)

  datatype BatchError = DeploymentFailed | FormatReplaced(index: nat) | SameStatus(first: nat, second: nat) | SigningFailed(index: nat)

  /** No two of the first n instances carry one status reference. */
  predicate DistinctStatus(instances: seq<Instance>, n: nat) {
    forall i, j | 0 <= i < j < n <= |instances| :: instances[i].status != "" ==> instances[i].status != instances[j].status
  }

  /** The instances to sign: each from its own copy of the claims, as the deployment left them. */
  ghost predicate Prepared(how: Issuance, format: Format, claims: string, keys: seq<ResolvedKey>, instances: seq<Instance>) {
    exists before: seq<Instance> ::
      && |before| == |keys|
      && (forall i | 0 <= i < |keys| ::
            how.perCredential(Instance(i, keys[i].jwk, Some(format), claims, "")) == Some(before[i]))
      && how.perBatch(before) == Some(instances)
  }

  /** The deployment fails for some key, having prepared those before it, or for the batch, having prepared all. */
  ghost predicate Unprepared(how: Issuance, format: Format, claims: string, keys: seq<ResolvedKey>) {
    exists before: seq<Instance> ::
      && |before| <= |keys|
      && (forall i | 0 <= i < |before| ::
            how.perCredential(Instance(i, keys[i].jwk, Some(format), claims, "")) == Some(before[i]))
      && if |before| == |keys| then how.perBatch(before).None?
         else how.perCredential(Instance(|before|, keys[|before|].jwk, Some(format), claims, "")).None?
  }

  /** The first half of issueBatch; PerBatch changes instances in place, so it leaves as many as it was given. */
  method PrepareBatch(how: Issuance, format: Format, claims: string, keys: seq<ResolvedKey>)
    returns (ready: Option<seq<Instance>>)
    requires forall before :: how.perBatch(before).Some? ==> |how.perBatch(before).value| == |before|
    ensures ready.Some? ==> |ready.value| == |keys| && Prepared(how, format, claims, keys, ready.value)
    ensures ready.None? ==> Unprepared(how, format, claims, keys)
  {
    var before: seq<Instance> := [];
    for i := 0 to |keys|
      invariant |before| == i
      invariant forall j | 0 <= j < i ::
                  how.perCredential(Instance(j, keys[j].jwk, Some(format), claims, "")) == Some(before[j])
    {
      var instance := how.perCredential(Instance(i, keys[i].jwk, Some(format), claims, ""));
      if instance.None? {
        return None;
      }
      before := before + [instance.value];
    }
    ready := how.perBatch(before);
  }

  /** Each of ready is of the format, none repeats a status reference, and each is signed to its key. */
  predicate Signed(how: Issuance, format: Format, keys: seq<ResolvedKey>, ready: seq<Instance>, credentials: seq<Credential>)
    requires |ready| == |keys|
  {
    && |credentials| <= |keys|
    && DistinctStatus(ready, |credentials|)
    && forall i | 0 <= i < |credentials| ::
         && ready[i].format == Some(format)
         && credentials[i].key == keys[i].jwk
         && how.sign(keys[i].jwk, ready[i]) == Some(credentials[i].content)
  }

  /** Why a batch is refused: each error names an instance at fault. */
  predicate AtFault(how: Issuance, format: Format, keys: seq<ResolvedKey>, ready: seq<Instance>, error: BatchError)
    requires |ready| == |keys|
  {
    match error
    case DeploymentFailed => false
    case FormatReplaced(i) => i < |ready| && ready[i].format != Some(format)
    case SameStatus(a, b) => a < b < |ready| && ready[a].status == ready[b].status != ""
    case SigningFailed(i) => i < |ready| && how.sign(keys[i].jwk, ready[i]).None?
  }

  /** Which instance error is about. */
  function FaultyIndex(error: BatchError): nat {
    match error
    case DeploymentFailed => 0
    case FormatReplaced(i) => i
    case SameStatus(_, i) => i
    case SigningFailed(i) => i
  }

  /** Every instance before the n-th is in order. */
  predicate InOrderTo(how: Issuance, format: Format, keys: seq<ResolvedKey>, ready: seq<Instance>, n: nat)
    requires |ready| == |keys|
  {
    && DistinctStatus(ready, n)
    && forall i | 0 <= i < n <= |ready| :: ready[i].format == Some(format) && how.sign(keys[i].jwk, ready[i]).Some?
  }

  lemma NoneRepeats(ready: seq<Instance>)
    ensures DistinctStatus(ready, 0)
  {
  }

  lemma OneMoreDistinct(ready: seq<Instance>, n: nat)
    requires n < |ready| && DistinctStatus(ready, n)
    requires ready[n].status != "" ==> forall j | 0 <= j < n :: ready[j].status != ready[n].status
    ensures DistinctStatus(ready, n + 1)
  {
  }

  method SignBatch(how: Issuance, format: Format, keys: seq<ResolvedKey>, ready: seq<Instance>)
    returns (issued: Result<seq<Credential>, BatchError>)
    requires |ready| == |keys|
    ensures issued.Success? ==> |issued.value| == |keys| && Signed(how, format, keys, ready, issued.value)
    ensures issued.Failure? ==>
              AtFault(how, format, keys, ready, issued.error) && InOrderTo(how, format, keys, ready, FaultyIndex(issued.error))
  {
    hide DistinctStatus;
    NoneRepeats(ready);
    var credentials: seq<Credential> := [];
    var statuses: map<string, nat> := map[];
    for i := 0 to |keys|
      invariant |credentials| == i && Signed(how, format, keys, ready, credentials)
      invariant forall s | s in statuses :: statuses[s] < i && ready[statuses[s]].status == s != ""
      invariant forall j | 0 <= j < i && ready[j].status != "" :: ready[j].status in statuses
    {
      var instance := ready[i];
      if instance.format != Some(format) {
        return Failure(FormatReplaced(i));
      }
      if instance.status != "" {
        if instance.status in statuses {
          return Failure(SameStatus(statuses[instance.status], i));
        }
        statuses := statuses[instance.status := i];
      }
      OneMoreDistinct(ready, i);
      var signed := how.sign(keys[i].jwk, instance);
      if signed.None? {
        return Failure(SigningFailed(i));
      }
      credentials := credentials + [Credential(keys[i].jwk, signed.value)];
    }
    return Success(credentials);
  }

  /**
   issueBatch: from instances prepared as the deployment left them, one credential for each key, bound to
   it, no two with one status reference; or the first instance at fault, and then none at all.
   */
  method IssueBatch(how: Issuance, format: Format, claims: string, keys: seq<ResolvedKey>)
    returns (issued: Result<seq<Credential>, BatchError>)
    requires forall before :: how.perBatch(before).Some? ==> |how.perBatch(before).value| == |before|
    ensures issued.Success? ==>
              && OnePerKey(issued.value, seq(|keys|, i requires 0 <= i < |keys| => keys[i].jwk))
              && exists ready: seq<Instance> ::
                   && |ready| == |keys| && Prepared(how, format, claims, keys, ready)
                   && DistinctStatus(ready, |keys|) && Signed(how, format, keys, ready, issued.value)
    ensures issued == Failure(DeploymentFailed) ==> Unprepared(how, format, claims, keys)
    ensures issued.Failure? && !issued.error.DeploymentFailed? ==>
              exists ready: seq<Instance> ::
                && |ready| == |keys| && Prepared(how, format, claims, keys, ready)
                && AtFault(how, format, keys, ready, issued.error) && InOrderTo(how, format, keys, ready, FaultyIndex(issued.error))
  {
    hide Prepared, Unprepared;
    var ready := PrepareBatch(how, format, claims, keys);
    if ready.None? {
      return Failure(DeploymentFailed);
    }
    issued := SignBatch(how, format, keys, ready.value);
  }
}
