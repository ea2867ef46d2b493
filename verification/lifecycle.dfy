/** The handlers together over one shared state: any interleaving of
    telemetry, enrollment and revocation requests and of lock expiries. */
module Lifecycle {
  import opened Basics
  import opened Registry
  import Telemetry
  import Enrollment
  import Revocation

  /** One event on the shared state. */
  datatype Call =
    | Ingest(env: Telemetry.Env, ingest: Telemetry.Request)
    | Enroll(enrollEnv: Enrollment.Env, enroll: Enrollment.Request)
    | Revoke(crypto: Crypto, revoke: Revocation.Request)
    | Expire(keys: set<string>)

  function Apply(s: Telemetry.State, call: Call): (r: Telemetry.State)
    ensures Evolves(s.registry, r.registry)
    ensures r.cache.data.Keys >= s.cache.data.Keys
  {
    match call
    case Ingest(env, req) =>
      Telemetry.IngestEvolves(s, env, req);
      Telemetry.Ingest(s, env, req).state
    case Enroll(env, req) =>
      Enrollment.RegisterEvolves(s.registry, env, req);
      Telemetry.State(Enrollment.RegisterAsWritten(s.registry, env, req).registry, s.cache)
    case Revoke(crypto, req) =>
      Revocation.RevokeEvolves(s.registry, crypto, req);
      Telemetry.State(Revocation.Revoke(s.registry, crypto, req).registry, s.cache)
    case Expire(keys) =>
      Telemetry.State(s.registry, Telemetry.ExpireLocks(s.cache, keys))
  }

  function Run(s: Telemetry.State, calls: seq<Call>): Telemetry.State
    decreases |calls|
  {
    if calls == [] then s else Run(Apply(s, calls[0]), calls[1..])
  }

  /** Across any sequence of events no row disappears, no NFT address is
      rewritten and no revocation is undone. */
  lemma {:induction false} RunEvolves(s: Telemetry.State, calls: seq<Call>)
    ensures Evolves(s.registry, Run(s, calls).registry)
    decreases |calls|
  {
    if calls != [] {
      var next := Apply(s, calls[0]);
      RunEvolves(next, calls[1..]);
      EvolvesTransitive(s.registry, next.registry, Run(next, calls[1..]).registry);
    }
  }

  /** Once a revocation succeeds, no later telemetry request for that NFT
      address is ever accepted, whatever happens in between. */
  lemma RevokedNftNeverAcceptedAgain(
    s: Telemetry.State, crypto: Crypto, req: Revocation.Request,
    calls: seq<Call>, env: Telemetry.Env, data: Telemetry.Request)
    requires Revocation.Revoke(s.registry, crypto, req).outcome.Done?
    requires data.nftAddress == req.nftAddress
    ensures var revoked := Telemetry.State(Revocation.Revoke(s.registry, crypto, req).registry, s.cache);
      Telemetry.Ingest(Run(revoked, calls), env, data).outcome != Telemetry.Accepted
  {
    var nft := req.nftAddress.value;
    var revoked := Telemetry.State(Revocation.Revoke(s.registry, crypto, req).registry, s.cache);
    var final := Run(revoked, calls);
    var key := GetByNft(s.registry, nft).value.publicKey;
    Revocation.RevokeEvolves(s.registry, crypto, req);
    EvolvesKeepsNftMatches(s.registry, revoked.registry, nft);
    RunEvolves(revoked, calls);
    EvolvesKeepsNftMatches(revoked.registry, final.registry, nft);
    assert revoked.registry[key].revoked;
    assert GetByNft(final.registry, nft).value == final.registry[key];
  }

  /** Likewise, every later revocation request for it is refused as already revoked. */
  lemma RevocationIsFinal(
    s: Telemetry.State, crypto: Crypto, req: Revocation.Request,
    calls: seq<Call>, crypto': Crypto, again: Revocation.Request)
    requires Revocation.Revoke(s.registry, crypto, req).outcome.Done?
    requires Revocation.FieldsPresent(again) && again.nftAddress == req.nftAddress
    ensures var revoked := Telemetry.State(Revocation.Revoke(s.registry, crypto, req).registry, s.cache);
      Revocation.Revoke(Run(revoked, calls).registry, crypto', again).outcome == Revocation.AlreadyRevoked
  {
    var nft := req.nftAddress.value;
    var revoked := Telemetry.State(Revocation.Revoke(s.registry, crypto, req).registry, s.cache);
    var final := Run(revoked, calls);
    var key := GetByNft(s.registry, nft).value.publicKey;
    Revocation.RevokeEvolves(s.registry, crypto, req);
    EvolvesKeepsNftMatches(s.registry, revoked.registry, nft);
    RunEvolves(revoked, calls);
    EvolvesKeepsNftMatches(revoked.registry, final.registry, nft);
    assert revoked.registry[key].revoked;
    assert GetByNft(final.registry, nft).value == final.registry[key];
  }
}
