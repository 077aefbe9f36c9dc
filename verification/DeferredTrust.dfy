/**
 Whether a deferred transaction's binding keys are still trusted (issuer/deferral.go, startDeferral and
 recheckDeferredTrust with its two loops; issuer/proofs.go, trustUndecided).

 Every key attestation and every proof key resolved by header is judged again before the credentials are
 issued. Each is fine, can't be decided now, or is untrusted, and the transaction's fate should be the
 worst of them. The code carries verdicts in what errors wrap, so a dependency's error that itself wraps
 one of the issuer's own verdicts can change the outcome; the lemmas say exactly when.
 */
module DeferredTrust {
  import opened Wrappers

  /** The errors the decision looks for; an error is the set of those errors.Is finds in it. */
  datatype Sentinel =
    | CertificateRevoked
    | RevocationUndecided
    | NoCurrentCrl
    | ProofKeyTrustUndecided
    | ContextCanceled
    | ContextDeadline
    | KeyAttestationRevoked
    | DeferredKeyAttestation
    | DeferredAttestationStatusUnknown
    | DeferredProofKey
    | DeferredProofKeyTrustUnknown

  type Error = set<Sentinel>

  /** No error is None. */
  type Outcome = Option<Error>

  predicate TrustUndecided(e: Error) {
    && CertificateRevoked !in e
    && (RevocationUndecided in e || NoCurrentCrl in e || ProofKeyTrustUndecided in e
        || ContextCanceled in e || ContextDeadline in e)
  }

  /** A JOSE header kept for a binding key: none for one conveyed otherwise. */
  datatype Header = NoHeader | NotAnObject | Object(text: string)

  /** What Dependencies answer at the time of the re-check; a missing dependency is None. */
  datatype Dependencies = Dependencies(
    verify: Option<string -> Outcome>,
    status: string -> Outcome,
    resolve: Option<string -> Result<string, Error>>)

  // ---- What the record keeps of the proofs ----

  datatype ResolvedKey = ResolvedKey(jwk: string, attestation: string, header: Option<string>)

  /** The key attestations, binding keys and headers startDeferral saves. */
  method RecordOf(keys: seq<ResolvedKey>)
    returns (bindingKeys: seq<string>, attestations: seq<string>, headers: seq<Header>)
    ensures |bindingKeys| == |keys| && forall i | 0 <= i < |keys| :: bindingKeys[i] == keys[i].jwk
    ensures forall a :: a in attestations <==> a != "" && exists k | k in keys :: k.attestation == a
    ensures forall i, j | 0 <= i < j < |attestations| :: attestations[i] != attestations[j]
    ensures headers == [] <==> forall k | k in keys :: k.header.None?
    ensures headers != [] ==>
              && |headers| == |keys|
              && forall i | 0 <= i < |keys| ::
                   headers[i] == if keys[i].header.Some? then Object(keys[i].header.value) else NoHeader
  {
    bindingKeys, attestations, headers := [], [], [];
    for i := 0 to |keys|
      invariant |bindingKeys| == i && forall j | 0 <= j < i :: bindingKeys[j] == keys[j].jwk
      invariant forall a | a in attestations :: a != "" && exists j | 0 <= j < i :: keys[j].attestation == a
      invariant forall j | 0 <= j < i && keys[j].attestation != "" :: keys[j].attestation in attestations
      invariant forall j, k | 0 <= j < k < |attestations| :: attestations[j] != attestations[k]
      invariant headers == [] <==> forall j | 0 <= j < i :: keys[j].header.None?
      invariant headers != [] ==>
                  && |headers| == |keys|
                  && (forall j | 0 <= j < i ::
                        headers[j] == if keys[j].header.Some? then Object(keys[j].header.value) else NoHeader)
                  && (forall j | i <= j < |keys| :: headers[j] == NoHeader)
    {
      var k := keys[i];
      bindingKeys := bindingKeys + [k.jwk];
      if k.attestation != "" && k.attestation !in attestations {
        attestations := attestations + [k.attestation];
      }
      if k.header.Some? {
        if headers == [] {
          headers := seq(|keys|, _ => NoHeader);
        }
        headers := headers[i := Object(k.header.value)];
      }
    }
  }

  // ---- Verdicts ----

  datatype Verdict = Fine | Undecided | Untrusted

  function Join(a: Verdict, b: Verdict): Verdict {
    if a == Untrusted || b == Untrusted then Untrusted
    else if a == Undecided || b == Undecided then Undecided
    else Fine
  }

  function Worst(verdicts: seq<Verdict>): (worst: Verdict)
    ensures worst == Untrusted <==> Untrusted in verdicts
    ensures worst == Fine <==> Untrusted !in verdicts && Undecided !in verdicts
  {
    if verdicts == [] then Fine else Join(verdicts[0], Worst(verdicts[1..]))
  }

  /** One key attestation: its signature and exp first, then its status. */
  function AttestationError(deps: Dependencies, attestation: string): Outcome
    requires deps.verify.Some?
  {
    var verified := deps.verify.value(attestation);
    if verified.Some? then verified else deps.status(attestation)
  }

  function AttestationVerdict(deps: Dependencies, attestation: string): Verdict {
    if deps.verify.None? then Untrusted
    else
      match (deps.verify.value)(attestation)
      case Some(e) => if TrustUndecided(e) then Undecided else Untrusted
      case None =>
        match deps.status(attestation)
        case None => Fine
        case Some(e) => if KeyAttestationRevoked in e then Untrusted else Undecided
  }

  function AttestationVerdicts(deps: Dependencies, attestations: seq<string>): seq<Verdict> {
    seq(|attestations|, i requires 0 <= i < |attestations| => AttestationVerdict(deps, attestations[i]))
  }

  /** What a proof key's re-check returns of its own: nothing for a header that isn't a JSON object. */
  function HeaderError(deps: Dependencies, header: Header, key: string): Error {
    if header.Object? && deps.resolve.Some? then
      match deps.resolve.value(header.text)
      case Failure(e) => e
      case Success(_) => {}
    else {}
  }

  function HeaderVerdict(deps: Dependencies, header: Header, key: string): Verdict {
    match header
    case NoHeader => Fine
    case NotAnObject => Untrusted
    case Object(text) =>
      if deps.resolve.None? then Untrusted
      else
        match deps.resolve.value(text)
        case Failure(e) => if TrustUndecided(e) then Undecided else Untrusted
        case Success(resolved) => if resolved == key then Fine else Untrusted
  }

  /** A record with headers needs one per key, and a resolver, even for a key conveyed otherwise. */
  predicate HeadersUsable(deps: Dependencies, headers: seq<Header>, keys: seq<string>) {
    headers == [] || (|headers| == |keys| && deps.resolve.Some?)
  }

  function HeaderVerdicts(deps: Dependencies, headers: seq<Header>, keys: seq<string>): seq<Verdict> {
    if !HeadersUsable(deps, headers, keys) then [Untrusted]
    else seq(|headers|, i requires 0 <= i < |headers| => HeaderVerdict(deps, headers[i], keys[i]))
  }

  /** The index of the first v, or how many verdicts there are. */
  function First(verdicts: seq<Verdict>, v: Verdict): (i: nat)
    ensures i <= |verdicts| && forall j | 0 <= j < i :: verdicts[j] != v
    ensures i < |verdicts| ==> verdicts[i] == v
    ensures i < |verdicts| <==> v in verdicts
  {
    if verdicts == [] || verdicts[0] == v then 0 else 1 + First(verdicts[1..], v)
  }

  // ---- The two loops ----

  /** The error of the first untrusted attestation, else of the first undecided one. */
  ghost function AttestationsOutcome(deps: Dependencies, attestations: seq<string>): Outcome {
    var verdicts := AttestationVerdicts(deps, attestations);
    if attestations == [] then None
    else if deps.verify.None? then Some({})
    else if Untrusted in verdicts then AttestationError(deps, attestations[First(verdicts, Untrusted)])
    else if Undecided in verdicts then
      Some({DeferredAttestationStatusUnknown} + AttestationError(deps, attestations[First(verdicts, Undecided)]).value)
    else None
  }

  method RecheckKeyAttestations(deps: Dependencies, attestations: seq<string>) returns (error: Outcome)
    ensures error == AttestationsOutcome(deps, attestations)
  {
    hide TrustUndecided, Worst;
    if attestations == [] {
      return None;
    }
    if deps.verify.None? {
      return Some({});
    }
    ghost var verdicts := AttestationVerdicts(deps, attestations);
    var unknown: Outcome := None;
    for i := 0 to |attestations|
      invariant forall j | 0 <= j < i :: verdicts[j] != Untrusted
      invariant unknown.None? ==> forall j | 0 <= j < i :: verdicts[j] == Fine
      invariant unknown.Some? ==>
                  && First(verdicts, Undecided) < i
                  && unknown == Some({DeferredAttestationStatusUnknown}
                                     + AttestationError(deps, attestations[First(verdicts, Undecided)]).value)
    {
      var err := deps.verify.value(attestations[i]);
      if err.None? {
        err := deps.status(attestations[i]);
        if err.Some? && KeyAttestationRevoked in err.value {
          assert verdicts[i] == Untrusted;
          return err;
        }
      } else if !TrustUndecided(err.value) {
        assert verdicts[i] == Untrusted;
        return err;
      }
      if err.Some? && unknown.None? {
        assert verdicts[i] == Undecided;
        unknown := Some({DeferredAttestationStatusUnknown} + err.value);
      }
    }
    return unknown;
  }

  /** As for attestations; here an untrusted key's error is marked so itself. */
  ghost function HeadersOutcome(deps: Dependencies, headers: seq<Header>, keys: seq<string>): Outcome {
    var verdicts := HeaderVerdicts(deps, headers, keys);
    if headers == [] then None
    else if !HeadersUsable(deps, headers, keys) then Some({DeferredProofKey})
    else if Untrusted in verdicts then
      var i := First(verdicts, Untrusted);
      Some({DeferredProofKey} + HeaderError(deps, headers[i], keys[i]))
    else if Undecided in verdicts then
      var i := First(verdicts, Undecided);
      Some({DeferredProofKeyTrustUnknown} + HeaderError(deps, headers[i], keys[i]))
    else None
  }

  method RecheckProofKeys(deps: Dependencies, headers: seq<Header>, keys: seq<string>) returns (error: Outcome)
    ensures error == HeadersOutcome(deps, headers, keys)
  {
    hide TrustUndecided, Worst;
    if headers == [] {
      return None;
    }
    if |headers| != |keys| || deps.resolve.None? {
      return Some({DeferredProofKey});
    }
    ghost var verdicts := HeaderVerdicts(deps, headers, keys);
    var undecided: Outcome := None;
    for i := 0 to |headers|
      invariant forall j | 0 <= j < i :: verdicts[j] != Untrusted
      invariant undecided.None? ==> forall j | 0 <= j < i :: verdicts[j] == Fine
      invariant undecided.Some? ==>
                  var first := First(verdicts, Undecided);
                  && first < i
                  && undecided == Some({DeferredProofKeyTrustUnknown} + HeaderError(deps, headers[first], keys[first]))
    {
      if headers[i].NoHeader? {
        continue;
      }
      if headers[i].NotAnObject? {
        assert verdicts[i] == Untrusted && {DeferredProofKey} + {} == {DeferredProofKey};
        return Some({DeferredProofKey});
      }
      var resolved := deps.resolve.value(headers[i].text);
      if resolved.Failure? && TrustUndecided(resolved.error) {
        assert verdicts[i] == Undecided;
        if undecided.None? {
          undecided := Some({DeferredProofKeyTrustUnknown} + resolved.error);
        }
        continue;
      }
      if resolved.Failure? {
        assert verdicts[i] == Untrusted;
        return Some({DeferredProofKey} + resolved.error);
      }
      if resolved.value != keys[i] {
        assert verdicts[i] == Untrusted && {DeferredProofKey} + {} == {DeferredProofKey};
        return Some({DeferredProofKey});
      }
    }
    return undecided;
  }

  // ---- The decision ----

  datatype Decision = Issue | LeavePending | Deny

  function Joined(a: Outcome, b: Outcome): Outcome {
    match a
    case None => b
    case Some(e) => if b.None? then a else Some(e + b.value)
  }

  ghost function TrustOutcome(deps: Dependencies, attestations: seq<string>, headers: seq<Header>, keys: seq<string>): Outcome {
    var a := AttestationsOutcome(deps, attestations);
    var p := HeadersOutcome(deps, headers, keys);
    if a.Some? && DeferredAttestationStatusUnknown !in a.value then Some({DeferredKeyAttestation} + a.value)
    else if p.Some? && DeferredProofKeyTrustUnknown !in p.value then p
    else Joined(a, p)
  }

  /** recheckDeferredTrust, and what issueDeferredCredential does with its error. */
  ghost function DecisionOf(deps: Dependencies, attestations: seq<string>, headers: seq<Header>, keys: seq<string>): Decision {
    match TrustOutcome(deps, attestations, headers, keys)
    case None => Issue
    case Some(e) => if DeferredKeyAttestation in e || DeferredProofKey in e then Deny else LeavePending
  }

  method Decide(deps: Dependencies, attestations: seq<string>, headers: seq<Header>, keys: seq<string>)
    returns (decision: Decision)
    ensures decision == DecisionOf(deps, attestations, headers, keys)
  {
    var trust: Outcome;
    var a := RecheckKeyAttestations(deps, attestations);
    if a.Some? && DeferredAttestationStatusUnknown !in a.value {
      trust := Some({DeferredKeyAttestation} + a.value);
    } else {
      var p := RecheckProofKeys(deps, headers, keys);
      trust := if p.Some? && DeferredProofKeyTrustUnknown !in p.value then p else Joined(a, p);
    }
    if trust.None? {
      return Issue;
    }
    return if DeferredKeyAttestation !in trust.value && DeferredProofKey !in trust.value then LeavePending else Deny;
  }

  // ---- What the decision should be ----

  /** Everything the transaction's keys are trusted through, worst verdict first. */
  function WorstOf(deps: Dependencies, attestations: seq<string>, headers: seq<Header>, keys: seq<string>): Verdict {
    Join(Worst(AttestationVerdicts(deps, attestations)), Worst(HeaderVerdicts(deps, headers, keys)))
  }

  function DecisionFor(v: Verdict): Decision {
    match v
    case Fine => Issue
    case Undecided => LeavePending
    case Untrusted => Deny
  }

  const OWN: set<Sentinel> :=
    {DeferredKeyAttestation, DeferredAttestationStatusUnknown, DeferredProofKey, DeferredProofKeyTrustUnknown}

  predicate Denying(e: Error) {
    DeferredKeyAttestation in e || DeferredProofKey in e
  }

  /** The error of the attestation that settles them: the first untrusted, else the first undecided. */
  function SettlingAttestationError(deps: Dependencies, attestations: seq<string>): Error {
    var verdicts := AttestationVerdicts(deps, attestations);
    var v := Worst(verdicts);
    if v == Fine || deps.verify.None? then {} else AttestationErrorOf(deps, attestations[First(verdicts, v)])
  }

  function AttestationErrorOf(deps: Dependencies, attestation: string): Error
    requires deps.verify.Some?
  {
    var e := AttestationError(deps, attestation);
    if e.Some? then e.value else {}
  }

  /** The error of the first proof key that can't be decided, when none is untrusted. */
  function UndecidedHeaderError(deps: Dependencies, headers: seq<Header>, keys: seq<string>): Error {
    var verdicts := HeaderVerdicts(deps, headers, keys);
    if Worst(verdicts) == Undecided then
      var i := First(verdicts, Undecided);
      HeaderError(deps, headers[i], keys[i])
    else {}
  }

  /** The dependencies' own errors don't get in the decision's way. */
  predicate Undisturbed(deps: Dependencies, attestations: seq<string>, headers: seq<Header>, keys: seq<string>) {
    var a := SettlingAttestationError(deps, attestations);
    var p := UndecidedHeaderError(deps, headers, keys);
    || Worst(HeaderVerdicts(deps, headers, keys)) == Untrusted
    || (if Worst(AttestationVerdicts(deps, attestations)) == Untrusted
        then DeferredAttestationStatusUnknown !in a || Denying(a + p)
        else !Denying(a + p))
  }

  /**
   The transaction is issued, left pending or denied as the worst of all verdicts has it, except where an
   error a dependency returned wraps the issuer's own: then exactly when Undisturbed.
   */
  lemma DecidedByTheWorst(deps: Dependencies, attestations: seq<string>, headers: seq<Header>, keys: seq<string>)
    ensures DecisionOf(deps, attestations, headers, keys) == DecisionFor(WorstOf(deps, attestations, headers, keys))
            <==> Undisturbed(deps, attestations, headers, keys)
  {
    AttestationsTell(deps, attestations);
    HeadersTell(deps, headers, keys);
    hide AttestationsOutcome, HeadersOutcome, AttestationVerdicts, HeaderVerdicts, SettlingAttestationError, UndecidedHeaderError, Worst;
  }

  /** What the loop over attestations returns for each worst verdict. */
  lemma AttestationsTell(deps: Dependencies, attestations: seq<string>)
    ensures var e := SettlingAttestationError(deps, attestations);
            AttestationsOutcome(deps, attestations) ==
            match Worst(AttestationVerdicts(deps, attestations))
            case Fine => None
            case Undecided => Some({DeferredAttestationStatusUnknown} + e)
            case Untrusted => Some(e)
    ensures Worst(AttestationVerdicts(deps, attestations)) == Fine ==> SettlingAttestationError(deps, attestations) == {}
  {
    hide TrustUndecided;
  }

  /** And the one over proof keys; an untrusted one's error is always marked so. */
  lemma HeadersTell(deps: Dependencies, headers: seq<Header>, keys: seq<string>)
    ensures var outcome := HeadersOutcome(deps, headers, keys);
            match Worst(HeaderVerdicts(deps, headers, keys))
            case Fine => outcome == None
            case Undecided => outcome == Some({DeferredProofKeyTrustUnknown} + UndecidedHeaderError(deps, headers, keys))
            case Untrusted => outcome.Some? && DeferredProofKey in outcome.value
    ensures Worst(HeaderVerdicts(deps, headers, keys)) == Fine ==> UndecidedHeaderError(deps, headers, keys) == {}
  {
    hide TrustUndecided;
  }

  predicate Foreign(o: Outcome) {
    o.None? || o.value !! OWN
  }

  /** No dependency returns an error that wraps one of the issuer's own verdicts. */
  ghost predicate KeepToTheirOwn(deps: Dependencies) {
    && (deps.verify.Some? ==> forall a :: Foreign(deps.verify.value(a)))
    && (forall a :: Foreign(deps.status(a)))
    && (deps.resolve.Some? ==> forall h :: deps.resolve.value(h).Failure? ==> Foreign(Some(deps.resolve.value(h).error)))
  }

  lemma ForeignUndisturbed(deps: Dependencies, attestations: seq<string>, headers: seq<Header>, keys: seq<string>)
    requires KeepToTheirOwn(deps)
    ensures Undisturbed(deps, attestations, headers, keys)
  {
    hide Worst, First, TrustUndecided;
    assert forall e: Error | Foreign(Some(e)) ::
      DeferredAttestationStatusUnknown !in e && DeferredKeyAttestation !in e && DeferredProofKey !in e;
    var a, p := SettlingAttestationError(deps, attestations), UndecidedHeaderError(deps, headers, keys);
    assert Foreign(Some(a)) && Foreign(Some(p));
  }

  lemma WorstOfSame(a: seq<Verdict>, b: seq<Verdict>)
    requires forall v :: v in a <==> v in b
    ensures Worst(a) == Worst(b)
  {
  }

  /**
   With dependencies that keep to their own errors the decision is that of the worst verdict, and so
   whichever order the attestations, and the keys with their headers, are in. Where no key has a header,
   or a record's headers don't match its keys, how many there are is all that matters of them.
   */
  lemma DecidedWhateverTheOrder(
    deps: Dependencies, attestations: seq<string>, headers: seq<Header>, keys: seq<string>,
    attestations': seq<string>, headers': seq<Header>, keys': seq<string>)
    requires KeepToTheirOwn(deps)
    requires |headers| == |headers'| && |keys| == |keys'|
    requires forall a :: a in attestations <==> a in attestations'
    requires |headers| == |keys| ==> forall h, k :: HasKey(headers, keys, h, k) <==> HasKey(headers', keys', h, k)
    ensures DecisionOf(deps, attestations, headers, keys) == DecisionFor(WorstOf(deps, attestations, headers, keys))
    ensures DecisionOf(deps, attestations, headers, keys) == DecisionOf(deps, attestations', headers', keys')
  {
    ForeignUndisturbed(deps, attestations, headers, keys);
    ForeignUndisturbed(deps, attestations', headers', keys');
    DecidedByTheWorst(deps, attestations, headers, keys);
    DecidedByTheWorst(deps, attestations', headers', keys');
    hide DecisionOf, Undisturbed, KeepToTheirOwn, Worst, AttestationVerdict, HeaderVerdict;
    SameAttestationVerdicts(deps, attestations, attestations');
    SameAttestationVerdicts(deps, attestations', attestations);
    WorstOfSame(AttestationVerdicts(deps, attestations), AttestationVerdicts(deps, attestations'));
    if |headers| == |keys| {
      SameHeaderVerdicts(deps, headers, keys, headers', keys');
      SameHeaderVerdicts(deps, headers', keys', headers, keys);
    } else if headers == [] {
      assert HeaderVerdicts(deps, headers, keys) == [] == HeaderVerdicts(deps, headers', keys');
    }
    WorstOfSame(HeaderVerdicts(deps, headers, keys), HeaderVerdicts(deps, headers', keys'));
  }

  /** e says that what it is about can't be decided now. */
  predicate SaysUndecided(e: Error) {
    && CertificateRevoked !in e
    && e * {RevocationUndecided, NoCurrentCrl, ProofKeyTrustUndecided, ContextCanceled, ContextDeadline} != {}
  }

  predicate AttestationTrusted(deps: Dependencies, attestation: string) {
    deps.verify.Some? && deps.verify.value(attestation) == None && deps.status(attestation) == None
  }

  /** It can't be verified, fails for good, or is revoked. */
  predicate AttestationRejected(deps: Dependencies, attestation: string) {
    deps.verify.Some? ==>
      match deps.verify.value(attestation)
      case Some(e) => !SaysUndecided(e)
      case None => deps.status(attestation).Some? && KeyAttestationRevoked in deps.status(attestation).value
  }

  predicate KeyTrusted(deps: Dependencies, header: Header, key: string) {
    header.NoHeader? || (header.Object? && deps.resolve.Some? && deps.resolve.value(header.text) == Success(key))
  }

  /** Its header is none, fails for good, or is another key's. */
  predicate KeyRejected(deps: Dependencies, header: Header, key: string) {
    || header.NotAnObject?
    || (header.Object? && deps.resolve.Some? &&
        match deps.resolve.value(header.text)
        case Failure(e) => !SaysUndecided(e)
        case Success(other) => other != key)
  }

  /**
   Where no dependency's error disturbs the decision, the credentials are issued exactly when every key
   attestation verifies and has a good status and every header resolves to its key; they are denied exactly
   when one is rejected, or the headers can't be matched or resolved at all; and wait otherwise.
   */
  lemma DecidedBy(deps: Dependencies, attestations: seq<string>, headers: seq<Header>, keys: seq<string>)
    requires Undisturbed(deps, attestations, headers, keys)
    ensures DecisionOf(deps, attestations, headers, keys) == Issue <==>
              && (forall a | a in attestations :: AttestationTrusted(deps, a))
              && (headers != [] ==>
                    && |headers| == |keys| && deps.resolve.Some?
                    && forall i | 0 <= i < |headers| :: KeyTrusted(deps, headers[i], keys[i]))
    ensures DecisionOf(deps, attestations, headers, keys) == Deny <==>
              || (exists a | a in attestations :: AttestationRejected(deps, a))
              || (headers != [] && (|headers| != |keys| || deps.resolve.None?
                                    || exists i | 0 <= i < |headers| :: KeyRejected(deps, headers[i], keys[i])))
  {
    DecidedByTheWorst(deps, attestations, headers, keys);
    AttestationVerdictsTell(deps, attestations);
    HeaderVerdictsTell(deps, headers, keys);
    hide DecisionOf, Undisturbed, AttestationVerdicts, HeaderVerdicts, Worst, AttestationTrusted, AttestationRejected,
      KeyTrusted, KeyRejected;
  }

  lemma AttestationVerdictsTell(deps: Dependencies, attestations: seq<string>)
    ensures Worst(AttestationVerdicts(deps, attestations)) == Fine <==> forall a | a in attestations :: AttestationTrusted(deps, a)
    ensures Worst(AttestationVerdicts(deps, attestations)) == Untrusted <==> exists a | a in attestations :: AttestationRejected(deps, a)
  {
    var verdicts := AttestationVerdicts(deps, attestations);
    forall i | 0 <= i < |attestations|
      ensures (verdicts[i] == Fine <==> AttestationTrusted(deps, attestations[i]))
           && (verdicts[i] == Untrusted <==> AttestationRejected(deps, attestations[i]))
    {
      UndecidedMeans(deps, attestations[i]);
    }
    hide AttestationVerdict, AttestationTrusted, AttestationRejected, Worst;
    if a :| a in attestations && AttestationRejected(deps, a) {
      var i :| 0 <= i < |attestations| && attestations[i] == a;
      assert verdicts[i] in verdicts;
    }
    if forall a | a in attestations :: AttestationTrusted(deps, a) {
      assert forall v | v in verdicts :: v == Fine;
    }
  }

  lemma UndecidedMeans(deps: Dependencies, attestation: string)
    ensures AttestationVerdict(deps, attestation) == Fine <==> AttestationTrusted(deps, attestation)
    ensures AttestationVerdict(deps, attestation) == Untrusted <==> AttestationRejected(deps, attestation)
  {
    SaysUndecidedIff();
    hide TrustUndecided, SaysUndecided;
  }

  lemma SaysUndecidedIff()
    ensures forall e :: TrustUndecided(e) <==> SaysUndecided(e)
  {
    forall e ensures TrustUndecided(e) <==> SaysUndecided(e) {
      var undecided := {RevocationUndecided, NoCurrentCrl, ProofKeyTrustUndecided, ContextCanceled, ContextDeadline};
      if e * undecided != {} {
        var x :| x in e * undecided;
      }
      assert forall x | x in undecided && x in e :: x in e * undecided;
    }
  }

  lemma HeaderVerdictsTell(deps: Dependencies, headers: seq<Header>, keys: seq<string>)
    ensures Worst(HeaderVerdicts(deps, headers, keys)) == Fine <==>
              (headers != [] ==>
                 && |headers| == |keys| && deps.resolve.Some?
                 && forall i | 0 <= i < |headers| :: KeyTrusted(deps, headers[i], keys[i]))
    ensures Worst(HeaderVerdicts(deps, headers, keys)) == Untrusted <==>
              headers != [] && (|headers| != |keys| || deps.resolve.None?
                                || exists i | 0 <= i < |headers| :: KeyRejected(deps, headers[i], keys[i]))
  {
    hide Worst;
    var verdicts := HeaderVerdicts(deps, headers, keys);
    if HeadersUsable(deps, headers, keys) && headers != [] {
      forall i | 0 <= i < |headers|
        ensures (verdicts[i] == Fine <==> KeyTrusted(deps, headers[i], keys[i]))
             && (verdicts[i] == Untrusted <==> KeyRejected(deps, headers[i], keys[i]))
      {
        SaysUndecidedIff();
        hide TrustUndecided, SaysUndecided;
      }
      hide HeaderVerdict, KeyTrusted, KeyRejected;
      if i :| 0 <= i < |headers| && KeyRejected(deps, headers[i], keys[i]) {
        assert verdicts[i] in verdicts;
      }
    }
  }

  predicate HasKey(headers: seq<Header>, keys: seq<string>, h: Header, k: string)
    requires |headers| == |keys|
  {
    exists i | 0 <= i < |headers| :: headers[i] == h && keys[i] == k
  }

  lemma SameAttestationVerdicts(deps: Dependencies, a: seq<string>, b: seq<string>)
    requires forall x | x in a :: x in b
    ensures forall v | v in AttestationVerdicts(deps, a) :: v in AttestationVerdicts(deps, b)
  {
    var from, to := AttestationVerdicts(deps, a), AttestationVerdicts(deps, b);
    forall v | v in from ensures v in to {
      var i :| 0 <= i < |a| && from[i] == v;
      assert a[i] in a;
      var j :| 0 <= j < |b| && b[j] == a[i];
      assert to[j] == v;
    }
  }

  lemma SameHeaderVerdicts(deps: Dependencies, h: seq<Header>, k: seq<string>, g: seq<Header>, l: seq<string>)
    requires |h| == |k| == |g| == |l|
    requires forall x, y | HasKey(h, k, x, y) :: HasKey(g, l, x, y)
    ensures forall v | v in HeaderVerdicts(deps, h, k) :: v in HeaderVerdicts(deps, g, l)
  {
    hide HeaderVerdict;
    var from, to := HeaderVerdicts(deps, h, k), HeaderVerdicts(deps, g, l);
    if HeadersUsable(deps, h, k) {
      forall v | v in from ensures v in to {
        var i :| 0 <= i < |h| && from[i] == v;
        assert HasKey(h, k, h[i], k[i]);
        var j :| 0 <= j < |g| && g[j] == h[i] && l[j] == k[i];
        assert to[j] == v;
      }
    }
  }

  /** A status error that wraps ErrDeferredKeyAttestation denies what should wait. */
  lemma WrappedVerdictDenies(deps: Dependencies)
    requires deps.verify.Some? && deps.verify.value("a") == None && deps.resolve.None?
    requires deps.status("a") == Some({DeferredKeyAttestation})
    ensures WorstOf(deps, ["a"], [], []) == Undecided && DecisionOf(deps, ["a"], [], []) == Deny
  {
    assert AttestationVerdict(deps, "a") == Undecided;
    assert AttestationVerdicts(deps, ["a"]) == [Undecided];
    assert HeaderVerdicts(deps, [], []) == [];
    DecidedByTheWorst(deps, ["a"], [], []);
    assert SettlingAttestationError(deps, ["a"]) == {DeferredKeyAttestation};
    assert Denying({DeferredKeyAttestation} + {});
  }
}
