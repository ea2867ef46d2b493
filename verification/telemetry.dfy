/** The telemetry ingestion handler (`POST` of app/api/sensor-data/route.ts):
    a fixed sequence of checks, each of which can end the request with an
    HTTP status, followed by the rate-limit lock and the two best-effort
    writes. Requests are handled one at a time; the clock, the ledger owner,
    the outcome of the two writes and the cryptography are inputs. */
module Telemetry {
  import opened Basics
  import opened Json
  import opened Registry

  /** Oldest accepted payload, in seconds (`MAX_DATA_AGE_SECONDS`). */
  const MaxDataAgeSeconds: int := 5 * 60
  /** Largest accepted clock skew into the future, in seconds. */
  const FutureToleranceSeconds: int := 60
  /** Lifetime of the rate-limit lock (`DATA_RATE_LIMIT_SECONDS`); expiry is
      modelled by `ExpireLocks`. */
  const RateLimitSeconds: int := 60
  /** Lifetime of a stored payload (`DATA_EXPIRATION_SECONDS`). */
  const DataExpirationSeconds: int := 60 * 60 * 24 * 7

  function RateLimitKey(nft: string): string {
    "rate_limit:" + nft
  }

  function DataKey(nft: string): string {
    "iot_data:" + nft
  }

  /** The destructured body `{ nftAddress, signature, payload }`. */
  datatype Request = Request(nftAddress: Option<string>, signature: Option<Signature>, payload: Option<Json>)

  /** The Redis instance: keys holding a live rate-limit lock, and stored payload texts. */
  datatype Cache = Cache(locks: set<string>, data: map<string, string>)

  datatype State = State(registry: Registry, cache: Cache)

  /** What the outside world answers during one request: `Date.now()` at the
      freshness check and again before the writes (milliseconds), the ledger's
      answer to `getNftOwner`, whether each of the two settled writes
      fulfilled, and the cryptographic primitives. */
  datatype Env = Env(
    nowMs: int,
    storeMs: int,
    ledgerOwner: Option<string>,
    saveOk: bool,
    touchOk: bool,
    crypto: Crypto)

  datatype Outcome =
    | MissingFields
    | BadTimestamp
    | TooOld
    | FromFuture
    | RateLimited
    | NotRegistered
    | Revoked
    | BadSignature
    | Accepted
  {
    function Status(): int {
      match this
      case MissingFields => 400
      case BadTimestamp => 400
      case TooOld => 408
      case FromFuture => 400
      case RateLimited => 429
      case NotRegistered => 404
      case Revoked => 403
      case BadSignature => 401
      case Accepted => 200
    }
  }

  datatype Reply = Reply(outcome: Outcome, state: State)

  /** `!nftAddress || !signature || !payloadString`: the payload text is
      produced only for a truthy payload and is never empty. */
  predicate FieldsPresent(req: Request) {
    Truthy(req.nftAddress) && req.signature.Some? && req.payload.Some? && JsTruthy(req.payload.value)
  }

  /** `payload.timestamp` when it is a number. */
  function TimestampOf(payload: Json): (r: Option<int>)
    ensures r.Some? <==>
      (payload.Object? && Lookup(payload.members, "timestamp").Some? && Lookup(payload.members, "timestamp").value.Int?)
    ensures r.Some? ==> Lookup(payload.members, "timestamp") == Some(Int(r.value))
  {
    match Field(payload, "timestamp")
    case Some(Int(ts)) => Some(ts)
    case _ => None
  }

  /** `Math.floor(Date.now() / 1000)`. */
  function Seconds(ms: int): int {
    ms / 1000
  }

  /** The freshness stage alone: `None` lets the request through. */
  function Freshness(nowSec: int, ts: int): (r: Option<Outcome>)
    ensures r.None? <==> nowSec - MaxDataAgeSeconds <= ts <= nowSec + FutureToleranceSeconds
    ensures r == Some(TooOld) <==> ts < nowSec - MaxDataAgeSeconds
    ensures r == Some(FromFuture) <==> ts > nowSec + FutureToleranceSeconds
  {
    var age := nowSec - ts;
    if age > MaxDataAgeSeconds then Some(TooOld)
    else if age < -FutureToleranceSeconds then Some(FromFuture)
    else None
  }

  /** Ownership reconciliation: the registry and device after the handler
      compares the ledger's owner with the stored one. */
  function Reconcile(m: Registry, device: DeviceEntry, ledgerOwner: Option<string>): (r: Upserted)
    requires device.publicKey in m && m[device.publicKey] == device
    ensures r.record.publicKey == device.publicKey
    ensures r.registry.Keys == m.Keys
    ensures r.registry[device.publicKey] == r.record
    ensures r.record == device.(ownerAddress := r.record.ownerAddress)
    ensures r.record.ownerAddress ==
      (if Truthy(ledgerOwner) && ledgerOwner != device.ownerAddress then ledgerOwner else device.ownerAddress)
    ensures forall k :: k in m && k != device.publicKey ==> r.registry[k] == m[k]
  {
    if Truthy(ledgerOwner) && ledgerOwner != device.ownerAddress then
      Upsert(m, device.publicKey, NoFields.(ownerAddress := Put(ledgerOwner)))
    else
      Upserted(m, device)
  }

  /** The registry after the `lastTsSeen` write, which succeeds or not independently. */
  function Touch(m: Registry, publicKey: string, storeMs: int, ok: bool): (r: Registry)
    requires publicKey in m
    ensures r.Keys == m.Keys
    ensures ok ==> r[publicKey] == m[publicKey].(lastTsSeen := Some(storeMs))
    ensures !ok ==> r == m
    ensures forall k :: k in m && k != publicKey ==> r[k] == m[k]
  {
    if ok then Upsert(m, publicKey, NoFields.(lastTsSeen := Put(Some(storeMs)))).registry else m
  }

  /** The handler. Every rejection before the ledger step leaves the state
      as it was; a bad signature can leave only a reconciled owner behind;
      acceptance sets the lock and performs the writes that succeeded. */
  function Ingest(s: State, env: Env, req: Request): (r: Reply)
    // required fields first, before anything is read
    ensures !FieldsPresent(req) ==> r == Reply(MissingFields, s)
    ensures r.outcome == MissingFields ==> !FieldsPresent(req)
    // then the timestamp type
    ensures FieldsPresent(req) && TimestampOf(req.payload.value).None? ==> r == Reply(BadTimestamp, s)
    ensures r.outcome == BadTimestamp ==> FieldsPresent(req) && TimestampOf(req.payload.value).None?
    // then the freshness window
    ensures r.outcome in {TooOld, FromFuture} ==> r.state == s
    ensures r.outcome == TooOld <==>
      (FieldsPresent(req) && TimestampOf(req.payload.value).Some?
       && Seconds(env.nowMs) - TimestampOf(req.payload.value).value > MaxDataAgeSeconds)
    ensures r.outcome == FromFuture <==>
      (FieldsPresent(req) && TimestampOf(req.payload.value).Some?
       && Seconds(env.nowMs) - TimestampOf(req.payload.value).value < -FutureToleranceSeconds)
    // every later outcome was reached through an in-window timestamp
    ensures r.outcome in {RateLimited, NotRegistered, Revoked, BadSignature, Accepted} ==>
      FieldsPresent(req) && TimestampOf(req.payload.value).Some?
      && Seconds(env.nowMs) - MaxDataAgeSeconds <= TimestampOf(req.payload.value).value <= Seconds(env.nowMs) + FutureToleranceSeconds
    // then the lock: a locked device is refused with nothing read or written
    ensures r.outcome == RateLimited ==> r.state == s && RateLimitKey(req.nftAddress.value) in s.cache.locks
    ensures r.outcome in {NotRegistered, Revoked, BadSignature, Accepted} ==>
      RateLimitKey(req.nftAddress.value) !in s.cache.locks
    // then the registry lookup and the revoked flag
    ensures r.outcome == NotRegistered ==> r.state == s && GetByNft(s.registry, req.nftAddress.value).None?
    ensures r.outcome == Revoked ==>
      (r.state == s && GetByNft(s.registry, req.nftAddress.value).Some?
       && GetByNft(s.registry, req.nftAddress.value).value.revoked)
    ensures r.outcome in {BadSignature, Accepted} ==>
      GetByNft(s.registry, req.nftAddress.value).Some? && !GetByNft(s.registry, req.nftAddress.value).value.revoked
    // the lock is taken only by an accepted request, never extended by a refused one
    ensures r.state.cache.locks ==
      if r.outcome == Accepted then s.cache.locks + {RateLimitKey(req.nftAddress.value)} else s.cache.locks
    ensures r.outcome != Accepted ==> r.state.cache == s.cache
    // the payload text is stored exactly when the save fulfils
    ensures r.outcome == Accepted && !env.saveOk ==> r.state.cache.data == s.cache.data
    ensures r.outcome == Accepted && env.saveOk ==>
      r.state.cache.data == s.cache.data[DataKey(req.nftAddress.value) := Serialize(req.payload.value, StableStringify)]
    // the signature covers the canonical payload text under the registered key
    ensures r.outcome in {BadSignature, Accepted} ==>
      (r.outcome == Accepted <==>
        env.crypto.verify(
          GetByNft(s.registry, req.nftAddress.value).value.publicKey,
          Sha256Hex(env.crypto, Serialize(req.payload.value, StableStringify)),
          req.signature.value))
    // no row appears or disappears
    ensures r.state.registry.Keys == s.registry.Keys
  {
    if !FieldsPresent(req) then Reply(MissingFields, s)
    else
      var nft, sig, payload := req.nftAddress.value, req.signature.value, req.payload.value;
      var payloadString := Serialize(payload, StableStringify);
      match TimestampOf(payload)
      case None => Reply(BadTimestamp, s)
      case Some(ts) =>
        match Freshness(Seconds(env.nowMs), ts)
        case Some(o) => Reply(o, s)
        case None =>
          if RateLimitKey(nft) in s.cache.locks then Reply(RateLimited, s)
          else
            match GetByNft(s.registry, nft)
            case None => Reply(NotRegistered, s)
            case Some(device) =>
              if device.revoked then Reply(Revoked, s)
              else
                var reconciled := Reconcile(s.registry, device, env.ledgerOwner);
                var current := reconciled.record;
                var msgHash := Sha256Hex(env.crypto, payloadString);
                if !env.crypto.verify(current.publicKey, msgHash, sig) then
                  Reply(BadSignature, State(reconciled.registry, s.cache))
                else
                  var locks := s.cache.locks + {RateLimitKey(nft)};
                  var data := if env.saveOk then s.cache.data[DataKey(nft) := payloadString] else s.cache.data;
                  var registry := Touch(reconciled.registry, current.publicKey, env.storeMs, env.touchOk);
                  Reply(Accepted, State(registry, Cache(locks, data)))
  }

  /** Everything the handler decides on the registry for an accepted or
      signature-rejected request: only the matched device's row can change,
      only in `ownerAddress` (rewritten exactly when the ledger names a
      different, truthy owner) and, on acceptance with a fulfilled write, in
      `lastTsSeen`, which becomes the server clock in milliseconds. */
  lemma IngestRegistryEffect(s: State, env: Env, req: Request)
    requires Ingest(s, env, req).outcome in {BadSignature, Accepted}
    ensures var device := GetByNft(s.registry, req.nftAddress.value).value;
      var after := Ingest(s, env, req).state.registry;
      && device.publicKey in s.registry && device.publicKey in after
      && (forall k :: k in s.registry && k != device.publicKey ==> after[k] == s.registry[k])
      && after[device.publicKey].ownerAddress ==
           (if Truthy(env.ledgerOwner) && env.ledgerOwner != device.ownerAddress then env.ledgerOwner else device.ownerAddress)
      && after[device.publicKey].lastTsSeen ==
           (if Ingest(s, env, req).outcome == Accepted && env.touchOk then Some(env.storeMs) else device.lastTsSeen)
      && after[device.publicKey] == device.(ownerAddress := after[device.publicKey].ownerAddress,
                                            lastTsSeen := after[device.publicKey].lastTsSeen)
  {
    var device := GetByNft(s.registry, req.nftAddress.value).value;
    var k :| k in s.registry && s.registry[k] == device;
  }

  /** The response does not depend on whether the payload save or the
      `lastTsSeen` write fulfilled: failures there are only logged. */
  lemma OutcomeIgnoresWriteFailures(s: State, env: Env, req: Request, saveOk: bool, touchOk: bool)
    ensures Ingest(s, env.(saveOk := saveOk, touchOk := touchOk), req).outcome == Ingest(s, env, req).outcome
  {
  }

  /** An accepted payload's canonical text is stored under `iot_data:<nft>`
      when the save fulfils. */
  lemma AcceptedPayloadStored(s: State, env: Env, req: Request)
    requires Ingest(s, env, req).outcome == Accepted && env.saveOk
    ensures Ingest(s, env, req).state.cache.data ==
      s.cache.data[DataKey(req.nftAddress.value) := Serialize(req.payload.value, StableStringify)]
  {
  }

  /** Lock expiry (the 60 s TTL) can only remove locks. */
  function ExpireLocks(c: Cache, expired: set<string>): (r: Cache)
    ensures r.locks <= c.locks && r.data == c.data
    ensures forall key :: key in c.locks && key !in expired ==> key in r.locks
  {
    c.(locks := c.locks - expired)
  }

  /** Back to back: once a device's request is accepted, its next request
      that passes the field and freshness checks is refused with 429 until
      the lock expires, whatever its signature. */
  lemma LockedAfterAcceptance(s: State, env: Env, req: Request, env2: Env, req2: Request)
    requires Ingest(s, env, req).outcome == Accepted
    requires FieldsPresent(req2) && req2.nftAddress == req.nftAddress
    requires TimestampOf(req2.payload.value).Some?
    requires Freshness(Seconds(env2.nowMs), TimestampOf(req2.payload.value).value).None?
    ensures Ingest(Ingest(s, env, req).state, env2, req2) == Reply(RateLimited, Ingest(s, env, req).state)
  {
  }

  /** No replay protection: `lastTsSeen` is recorded but never compared, so
      once the lock has expired the very same signed request, timestamp and
      all, is accepted again at any later clock reading that still has the
      timestamp in the window, whatever the ledger answers then. */
  lemma ReplayAcceptedAfterLockExpiry(s: State, env: Env, req: Request, env2: Env)
    requires Ingest(s, env, req).outcome == Accepted
    requires env2.crypto == env.crypto
    requires Freshness(Seconds(env2.nowMs), TimestampOf(req.payload.value).value).None?
    ensures var after := Ingest(s, env, req).state;
      var expired := State(after.registry, ExpireLocks(after.cache, {RateLimitKey(req.nftAddress.value)}));
      Ingest(expired, env2, req).outcome == Accepted
  {
    var nft := req.nftAddress.value;
    var after := Ingest(s, env, req).state;
    var expired := State(after.registry, ExpireLocks(after.cache, {RateLimitKey(nft)}));
    var device := GetByNft(s.registry, nft).value;
    IngestRegistryEffect(s, env, req);
    IngestEvolves(s, env, req);
    EvolvesKeepsNftMatches(s.registry, after.registry, nft);
    assert GetByNft(expired.registry, nft).value.publicKey == device.publicKey;
    assert !GetByNft(expired.registry, nft).value.revoked;
    assert RateLimitKey(nft) !in expired.cache.locks;
    AcceptedWhen(expired, env2, req);
  }

  /** The converse of the handler's checks: a request with its fields, a
      number timestamp in the window, no lock, a registered unrevoked device
      and a signature the device's key verifies is accepted. */
  lemma AcceptedWhen(s: State, env: Env, req: Request)
    requires FieldsPresent(req) && TimestampOf(req.payload.value).Some?
    requires Freshness(Seconds(env.nowMs), TimestampOf(req.payload.value).value).None?
    requires RateLimitKey(req.nftAddress.value) !in s.cache.locks
    requires GetByNft(s.registry, req.nftAddress.value).Some?
    requires !GetByNft(s.registry, req.nftAddress.value).value.revoked
    requires env.crypto.verify(
      GetByNft(s.registry, req.nftAddress.value).value.publicKey,
      Sha256Hex(env.crypto, Serialize(req.payload.value, StableStringify)),
      req.signature.value)
    ensures Ingest(s, env, req).outcome == Accepted
  {
  }

  /** The handler lets the table evolve: it adds no row and never rewrites
      `nftAddress` or `revoked`. */
  lemma IngestEvolves(s: State, env: Env, req: Request)
    ensures Evolves(s.registry, Ingest(s, env, req).state.registry)
  {
    var r := Ingest(s, env, req);
    if r.outcome in {BadSignature, Accepted} {
      IngestRegistryEffect(s, env, req);
      var key := GetByNft(s.registry, req.nftAddress.value).value.publicKey;
      forall k | k in s.registry
        ensures r.state.registry[k].nftAddress == s.registry[k].nftAddress
        ensures r.state.registry[k].revoked == s.registry[k].revoked
      {
        if k == key {
          assert r.state.registry[k] == s.registry[k].(ownerAddress := r.state.registry[k].ownerAddress,
                                                      lastTsSeen := r.state.registry[k].lastTsSeen);
        }
      }
    }
  }

  /** The HTTP status of each stage, read off the request: 400 for a missing
      field, a non-number timestamp or a timestamp from the future, 408 for a
      stale one, 429 while the lock is held, 404 for an unknown NFT, 403 for a
      revoked device, 401 for a bad signature and 200 otherwise. */
  lemma IngestStatus(s: State, env: Env, req: Request)
    ensures var st := Ingest(s, env, req).outcome.Status();
      var ts := if FieldsPresent(req) then TimestampOf(req.payload.value) else None;
      var now := Seconds(env.nowMs);
      var inWindow := ts.Some? && now - MaxDataAgeSeconds <= ts.value <= now + FutureToleranceSeconds;
      var unlocked := inWindow && RateLimitKey(req.nftAddress.value) !in s.cache.locks;
      && st in {200, 400, 401, 403, 404, 408, 429}
      && (st == 400 <==> !FieldsPresent(req) || ts.None? || now - ts.value < -FutureToleranceSeconds)
      && (st == 408 <==> ts.Some? && now - ts.value > MaxDataAgeSeconds)
      && (st == 429 <==> inWindow && RateLimitKey(req.nftAddress.value) in s.cache.locks)
      && (st == 404 <==> unlocked && GetByNft(s.registry, req.nftAddress.value).None?)
      && (st == 403 <==>
            unlocked && GetByNft(s.registry, req.nftAddress.value).Some? && GetByNft(s.registry, req.nftAddress.value).value.revoked)
      && (st == 401 || st == 200 ==>
            unlocked && GetByNft(s.registry, req.nftAddress.value).Some? && !GetByNft(s.registry, req.nftAddress.value).value.revoked)
      && (st == 200 <==> Ingest(s, env, req).outcome == Accepted)
  {
  }
}
