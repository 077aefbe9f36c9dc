/**
 Checking an identifier list, in full and from what a cache kept of it (identifierlist/token.go, check and
 recheck; identifierlist/checker.go; internal/jwtdate).

 A token is what depends on its bytes alone: its size, the chain it carries, whether its signature holds
 under the chain's leaf, its typ, and its claims as parsed. Whether a chain is trusted, for a reference
 and at a time, is what Trust says. Of a token checked in full a cache keeps its size, chain and claims.
 */
module IdentifierListChecks {
  import opened Wrappers
  import opened Durations
  import opened Encodings
  import opened ByteOrder
  import opened IdentifierLists

  datatype Claims = Claims(sub: string, iat: int, exp: Option<int>, nbf: Option<int>, identifiers: seq<Bytes>)

  /** Claims as parsed have their identifiers sorted. */
  type ParsedClaims = c: Claims | SortedBy(Identity, c.identifiers)
    witness Claims("", 0, None, None, [])

  type Chain = seq<Bytes>

  datatype Token = Token(size: nat, chain: Option<Chain>, signed: bool, typed: bool, claims: Option<ParsedClaims>)

  datatype Ref = Ref(id: Bytes, uri: string, certificate: Bytes)

  datatype Options = Options(maxAge: int, maxClockSkew: int, maxTokenBytes: int)

  /** Whether a reference's signer can be bound to its issuer, and a chain is trusted for it at a time. */
  datatype Trust = Trust(binds: Ref -> bool, chain: (Ref, Chain, int) -> bool)

  datatype Error = FetchFailed | BadReference | Unbound | BadLimit | TooLarge | Untrusted | NotAList | BadTimes | OtherSub

  const DEFAULT_MAX_TOKEN_BYTES: int := 0x40_0000
  const MAX_TOKEN_BYTES_LIMIT: int := 0x200_0000

  /** maxTokenBytes: none for a limit out of range. */
  function Limit(limit: int): Option<int> {
    if limit < 0 || limit > MAX_TOKEN_BYTES_LIMIT then None
    else if limit == 0 then Some(DEFAULT_MAX_TOKEN_BYTES)
    else Some(limit)
  }

  // ---- Times ----

  const MAX_DATE: int := 253402300799

  predicate InRange(date: int) {
    0 <= date <= MAX_DATE
  }

  /** jwtdate.Window.Check, with exp required. */
  predicate TimesValid(opts: Options, c: Claims, now: int) {
    var skew := if opts.maxClockSkew == 0 then MINUTE else opts.maxClockSkew;
    && opts.maxAge >= 0
    && InRange(c.iat) && c.iat != 0
    && c.iat * SECOND <= now + skew
    && (c.nbf.Some? ==> InRange(c.nbf.value) && c.nbf.value * SECOND <= now + skew)
    && c.exp.Some?
    && (opts.maxAge > 0 ==> now - opts.maxAge <= c.iat * SECOND)
    && InRange(c.exp.value) && c.iat < c.exp.value && now < c.exp.value * SECOND
  }

  // ---- A check in full and a check again ----

  /** check. */
  function Check(trust: Trust, opts: Options, ref: Ref, token: Token, now: int): Result<ParsedClaims, Error> {
    if ref.id == [] || ref.uri == "" then Failure(BadReference)
    else if !trust.binds(ref) then Failure(Unbound)
    else
      match Limit(opts.maxTokenBytes)
      case None => Failure(BadLimit)
      case Some(limit) =>
        if token.size > limit then Failure(TooLarge)
        else if token.chain.None? then Failure(NotAList)
        else if !trust.chain(ref, token.chain.value, now) then Failure(Untrusted)
        else if !token.signed || !token.typed || token.claims.None? then Failure(NotAList)
        else if !TimesValid(opts, token.claims.value, now) then Failure(BadTimes)
        else if token.claims.value.sub != ref.uri then Failure(OtherSub)
        else Success(token.claims.value)
  }

  /** What a cache keeps of a token checked in full. */
  datatype Memo = Memo(size: nat, chain: Chain, claims: ParsedClaims)

  /** What depends on the token's bytes alone is in order. */
  predicate Intact(token: Token) {
    token.chain.Some? && token.signed && token.typed && token.claims.Some?
  }

  function MemoOf(token: Token): Memo
    requires Intact(token)
  {
    Memo(token.size, token.chain.value, token.claims.value)
  }

  lemma CheckedIsIntact(trust: Trust, opts: Options, ref: Ref, token: Token, now: int)
    requires Check(trust, opts, ref, token, now).Success?
    ensures Intact(token) && Check(trust, opts, ref, token, now).value == token.claims.value
  {
  }

  /** recheck. */
  function Recheck(trust: Trust, opts: Options, ref: Ref, memo: Memo, now: int): Result<ParsedClaims, Error> {
    if ref.id == [] || ref.uri == "" then Failure(BadReference)
    else if !trust.binds(ref) then Failure(Unbound)
    else if Limit(opts.maxTokenBytes).None? then Failure(BadLimit)
    else if !trust.chain(ref, memo.chain, now) then Failure(Untrusted)
    else if !TimesValid(opts, memo.claims, now) then Failure(BadTimes)
    else if memo.claims.sub != ref.uri then Failure(OtherSub)
    else Success(memo.claims)
  }

  // ---- A checker ----

  /** A Checker's options and its Fetcher's MaxBytes. */
  datatype Checker = Checker(opts: Options, fetcherMaxBytes: int) {
    function Effective(): Options {
      if opts.maxTokenBytes == 0 then opts.(maxTokenBytes := fetcherMaxBytes) else opts
    }

    /** The largest token it fetches, when its options' limit is limit. */
    function FetchLimit(limit: int): int {
      if fetcherMaxBytes <= 0 then limit else fetcherMaxBytes
    }

    /** Without a cache: token, as fetched, in full. */
    function Fetched(trust: Trust, ref: Ref, token: Token, now: int): Result<ParsedClaims, Error> {
      if ref.id == [] || ref.uri == "" then Failure(BadReference)
      else
        match Limit(Effective().maxTokenBytes)
        case None => Failure(BadLimit)
        case Some(limit) =>
          if token.size > FetchLimit(limit) then Failure(TooLarge) else Check(trust, Effective(), ref, token, now)
    }

    /** What a check comes to when nothing could be fetched. */
    function Unfetched(ref: Ref): Error {
      if ref.id == [] || ref.uri == "" then BadReference
      else if Limit(Effective().maxTokenBytes).None? then BadLimit
      else FetchFailed
    }

    /** With one: from a memo. */
    function Remembered(trust: Trust, ref: Ref, memo: Memo, now: int): Result<ParsedClaims, Error> {
      if ref.id == [] || ref.uri == "" then Failure(BadReference)
      else
        match Limit(Effective().maxTokenBytes)
        case None => Failure(BadLimit)
        case Some(limit) =>
          if memo.size > FetchLimit(limit) then Failure(TooLarge) else Recheck(trust, Effective(), ref, memo, now)
    }
  }

  /** The checker fetches nothing its options would refuse as too large. */
  predicate OneLimit(c: Checker) {
    c.opts.maxTokenBytes == 0 || c.fetcherMaxBytes <= c.opts.maxTokenBytes
  }

  /**
   A check from the memo finds what a check in full of the same token would at that instant, claims or
   error alike; but it does not look at Options.MaxTokenBytes. So the two differ only where the memo passes
   and the token is larger than that, which a Fetcher with a larger MaxBytes lets happen.
   */
  lemma MemoAgrees(c: Checker, trust: Trust, ref: Ref, token: Token, now: int)
    requires Intact(token)
    ensures var full, again := c.Fetched(trust, ref, token, now), c.Remembered(trust, ref, MemoOf(token), now);
            var limit := Limit(c.Effective().maxTokenBytes);
            && (full.Success? <==> again.Success? && limit.Some? && token.size <= limit.value)
            && (full.Success? ==> full == again)
            && (OneLimit(c) ==> full.Success? == again.Success?)
            && (limit.Some? && token.size <= limit.value ==> full == again)
  {
  }

  /** A token's times are good from a clock skew before iat and nbf until exp, and no longer than maxAge after iat. */
  predicate GoodAt(opts: Options, c: Claims, now: int) {
    var skew := if opts.maxClockSkew == 0 then 60 * SECOND else opts.maxClockSkew;
    && 0 < c.iat && c.exp.Some? && c.iat < c.exp.value <= 253402300799
    && c.iat * SECOND - skew <= now < c.exp.value * SECOND
    && (c.nbf.Some? ==> 0 <= c.nbf.value <= 253402300799 && c.nbf.value * SECOND - skew <= now)
    && opts.maxAge >= 0 && (opts.maxAge != 0 ==> now <= c.iat * SECOND + opts.maxAge)
  }

  /**
   Which fetched tokens a checker accepts: with its own limit, or its Fetcher's where it sets none, or 4 MiB,
   and never over 32 MiB; of a chain trusted for the reference then, signed under it, a list for the
   reference's URI whose times are good.
   */
  lemma FetchedIff(c: Checker, trust: Trust, ref: Ref, token: Token, now: int)
    ensures c.Fetched(trust, ref, token, now).Success? <==>
              && ref.id != [] && ref.uri != "" && trust.binds(ref)
              && (var limit := if c.opts.maxTokenBytes != 0 then c.opts.maxTokenBytes else c.fetcherMaxBytes;
                  && 0 <= limit <= 0x200_0000 && token.size <= (if limit == 0 then 0x40_0000 else limit))
              && (c.fetcherMaxBytes > 0 ==> token.size <= c.fetcherMaxBytes)
              && token.chain.Some? && trust.chain(ref, token.chain.value, now)
              && token.signed && token.typed && token.claims.Some?
              && token.claims.value.sub == ref.uri && GoodAt(c.opts, token.claims.value, now)
    ensures c.Fetched(trust, ref, token, now).Success? ==> Some(c.Fetched(trust, ref, token, now).value) == token.claims
  {
    if token.claims.Some? {
      TimesGood(c.opts, token.claims.value, now);
      TimesGood(c.Effective(), token.claims.value, now);
    }
    hide TimesValid, GoodAt;
  }

  lemma TimesGood(opts: Options, claims: Claims, now: int)
    ensures TimesValid(opts, claims, now) <==> GoodAt(opts, claims, now)
    ensures forall other: Options | other.maxAge == opts.maxAge && other.maxClockSkew == opts.maxClockSkew ::
              GoodAt(other, claims, now) <==> GoodAt(opts, claims, now)
  {
  }

  /** Such a checker takes from another's memo a list it would refuse to read itself. */
  lemma MemoIgnoresOptionsLimit(trust: Trust, ref: Ref, token: Token, now: int) returns (c: Checker)
    requires Intact(token) && 1 < token.size <= MAX_TOKEN_BYTES_LIMIT
    requires Check(trust, Options(0, 0, token.size), ref, token, now).Success?
    ensures !OneLimit(c)
    ensures c.Remembered(trust, ref, MemoOf(token), now).Success?
    ensures c.Fetched(trust, ref, token, now) == Failure(TooLarge)
  {
    c := Checker(Options(0, 0, 1), token.size);
  }

  // ---- The cache ----

  /** The lists checkers sharing it fetched and checked in full; tokens is what each memo was made of. */
  class Cache {
    var memos: map<string, Memo>
    ghost var tokens: map<string, Token>

    ghost predicate Valid()
      reads this
    {
      && memos.Keys == tokens.Keys
      && forall u | u in memos :: Intact(tokens[u]) && memos[u] == MemoOf(tokens[u])
    }

    constructor ()
      ensures Valid() && memos == map[]
    {
      memos, tokens := map[], map[];
    }

    /** A list may be dropped at any time. */
    method Drop(uri: string)
      requires Valid()
      modifies this
      ensures Valid() && memos == old(memos) - {uri} && tokens == old(tokens) - {uri}
    {
      memos, tokens := memos - {uri}, tokens - {uri};
    }

    /** What this cache's check of ref finds, from the memo if it is current and passes, else from the fetch. */
    ghost function Found(c: Checker, trust: Trust, ref: Ref, served: Option<Token>, current: bool, now: int): Result<ParsedClaims, Error>
      requires Valid()
      reads this
    {
      if Hit(c, trust, ref, current, now) then c.Remembered(trust, ref, MemoOf(tokens[ref.uri]), now)
      else if served.None? then Failure(c.Unfetched(ref))
      else c.Fetched(trust, ref, served.value, now)
    }

    ghost predicate Hit(c: Checker, trust: Trust, ref: Ref, current: bool, now: int)
      requires Valid()
      reads this
    {
      current && ref.uri in tokens && c.Remembered(trust, ref, MemoOf(tokens[ref.uri]), now).Success?
    }

    /**
     checkCached: a list kept and still current is checked again from its memo; one that isn't, or that the
     re-check refuses, is fetched, checked in full, and kept if it passes. So the cache fails no check that
     would pass on what is served, and for a checker with one limit passes none that a check in full of
     the token it kept, or was served, would fail.
     */
    method CheckCached(c: Checker, trust: Trust, ref: Ref, served: Option<Token>, current: bool, now: int)
      returns (revoked: bool, claims: Result<ParsedClaims, Error>)
      requires Valid()
      modifies this
      ensures Valid()
      ensures claims == old(Found(c, trust, ref, served, current, now))
      ensures tokens ==
              if old(Hit(c, trust, ref, current, now)) || claims.Failure? then old(tokens)
              else old(tokens)[ref.uri := served.value]
      ensures served.Some? && c.Fetched(trust, ref, served.value, now).Success? ==> claims.Success?
      ensures OneLimit(c) && claims.Success? ==>
                && ref.uri in tokens && c.Fetched(trust, ref, tokens[ref.uri], now) == claims
      ensures revoked <==> claims.Failure? || ref.id in claims.value.identifiers
    {
      claims := Failure(c.Unfetched(ref));
      if current && ref.uri in memos {
        MemoAgrees(c, trust, ref, tokens[ref.uri], now);
        claims := c.Remembered(trust, ref, memos[ref.uri], now);
      }
      if claims.Failure? {
        if served.None? {
          return true, Failure(c.Unfetched(ref));
        }
        claims := c.Fetched(trust, ref, served.value, now);
        if claims.Failure? {
          return true, claims;
        }
        CheckedIsIntact(trust, c.Effective(), ref, served.value, now);
        memos, tokens := memos[ref.uri := MemoOf(served.value)], tokens[ref.uri := served.value];
      }
      revoked := Listed(claims.value.identifiers, ref.id);
    }
  }
}
