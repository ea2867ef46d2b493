/** Device enrollment (`POST` of app/api/register-device/route.ts), a
    two-phase challenge-response: phase 1 stores a random challenge on the
    device's row, phase 2 checks the device's signature over a challenge and
    answers an NFT address. The random bytes and the cryptography are inputs. */
module Enrollment {
  import opened Basics
  import opened Registry

  type Nonce32 = s: seq<byte> | |s| == 32 witness seq(32, i => 0)
  type Nonce16 = s: seq<byte> | |s| == 16 witness seq(16, i => 0)

  /** The destructured body `{ macAddress, publicKey, challenge, signature }`. */
  datatype Request = Request(
    macAddress: Option<string>,
    publicKey: Option<string>,
    challenge: Option<string>,
    signature: Option<Signature>)

  /** `crypto.randomBytes(32)` for the challenge, `crypto.randomBytes(16)`
      for a fresh NFT address, and the cryptographic primitives. */
  datatype Env = Env(challengeBytes: Nonce32, nftBytes: Nonce16, crypto: Crypto)

  datatype Outcome =
    | ChallengeIssued(challenge: string)
    | MissingIdentity
    | MissingFields
    | InvalidChallenge
    | InvalidSignature
    | Registered(nftAddress: string)
  {
    function Status(): int {
      match this
      case ChallengeIssued(_) => 200
      case MissingIdentity => 400
      case MissingFields => 400
      case InvalidChallenge => 401
      case InvalidSignature => 401
      case Registered(_) => 200
    }
  }

  datatype Reply = Reply(outcome: Outcome, registry: Registry)

  /** Phase 1 is chosen by `!challenge && !signature`. */
  predicate RequestsChallenge(req: Request) {
    !Truthy(req.challenge) && req.signature.None?
  }

  /** Phase 2's required fields. */
  predicate SignedFieldsPresent(req: Request) {
    Truthy(req.publicKey) && Truthy(req.challenge) && req.signature.Some?
  }

  /** The NFT address phase 2 answers: the stored one when truthy, otherwise
      `NFT_` and 32 fresh hex characters. It is only answered, never stored. */
  function AnsweredNft(stored: Option<string>, nftBytes: Nonce16): (r: string)
    ensures Truthy(stored) ==> r == stored.value
    ensures !Truthy(stored) ==>
      (|r| == 36 && r[..4] == "NFT_" && IsLowerHex(r[4..]) && Unhex(r[4..]) == Some(nftBytes))
  {
    if Truthy(stored) then stored.value
    else
      UnhexHex(nftBytes);
      HexIsLowerHex(nftBytes);
      assert ("NFT_" + Hex(nftBytes))[4..] == Hex(nftBytes);
      "NFT_" + Hex(nftBytes)
  }

  /** Phase 1: with a truthy `macAddress` and `publicKey`, store
      `{macAddress, challenge}` on the key's row (creating it if needed) and
      answer the challenge, the lowercase hex of 32 random bytes. */
  function IssueChallenge(m: Registry, env: Env, req: Request): (r: Reply)
    requires RequestsChallenge(req)
    ensures !(Truthy(req.macAddress) && Truthy(req.publicKey)) <==> r == Reply(MissingIdentity, m)
    ensures Truthy(req.macAddress) && Truthy(req.publicKey) ==> r.outcome == ChallengeIssued(Hex(env.challengeBytes))
    ensures r.outcome.ChallengeIssued? ==>
      && |r.outcome.challenge| == 64 && IsLowerHex(r.outcome.challenge)
      && Unhex(r.outcome.challenge) == Some(env.challengeBytes)
      && r.registry.Keys == m.Keys + {req.publicKey.value}
      && r.registry[req.publicKey.value].challenge == Some(r.outcome.challenge)
      && r.registry[req.publicKey.value].macAddress == req.macAddress
      && (req.publicKey.value in m ==>
            r.registry[req.publicKey.value]
              == m[req.publicKey.value].(challenge := Some(r.outcome.challenge), macAddress := req.macAddress))
      && (forall k :: k in m && k != req.publicKey.value ==> r.registry[k] == m[k])
    // the key's row, old or new, changes in exactly the two named columns
    ensures r.outcome.ChallengeIssued? ==>
      r.registry[req.publicKey.value]
        == (if req.publicKey.value in m then m[req.publicKey.value] else Fresh(req.publicKey.value))
             .(challenge := Some(r.outcome.challenge), macAddress := req.macAddress)
  {
    if !Truthy(req.macAddress) || !Truthy(req.publicKey) then Reply(MissingIdentity, m)
    else
      UnhexHex(env.challengeBytes);
      HexIsLowerHex(env.challengeBytes);
      var challenge := Hex(env.challengeBytes);
      var up := Upsert(m, req.publicKey.value, NoFields.(macAddress := Put(req.macAddress), challenge := Put(Some(challenge))));
      Reply(ChallengeIssued(challenge), up.registry)
  }

  /** Phase 2 as written. The client's challenge is upserted first and the
      comparison then reads it back, so it always agrees; the signature is
      checked over `sha256(challenge)` under the request's public key; the
      final write names `challenge: undefined`, which serialization drops. */
  function RespondAsWritten(m: Registry, env: Env, req: Request): (r: Reply)
    requires !RequestsChallenge(req)
    ensures !SignedFieldsPresent(req) <==> r == Reply(MissingFields, m)
    // the "Invalid challenge" branch cannot be taken: a complete request is
    // answered by the signature check alone
    ensures r.outcome != InvalidChallenge
    ensures SignedFieldsPresent(req) ==> r.outcome == InvalidSignature || r.outcome.Registered?
    ensures r.outcome in {InvalidSignature} || r.outcome.Registered? ==>
      && SignedFieldsPresent(req)
      && (r.outcome.Registered? <==>
            env.crypto.verify(req.publicKey.value, Sha256Hex(env.crypto, req.challenge.value), req.signature.value))
      // whatever was stored before, the row now holds the client's challenge
      && req.publicKey.value in r.registry
      && r.registry[req.publicKey.value].challenge == req.challenge
      && r.registry.Keys == m.Keys + {req.publicKey.value}
      && (forall k :: k in m && k != req.publicKey.value ==> r.registry[k] == m[k])
    // only `challenge` is written: the final upsert writes back the row's own
    // `macAddress`, and every other column of the key's row, old or new, is kept
    ensures r.outcome == InvalidSignature || r.outcome.Registered? ==>
      r.registry[req.publicKey.value]
        == (if req.publicKey.value in m then m[req.publicKey.value] else Fresh(req.publicKey.value))
             .(challenge := req.challenge)
    ensures r.outcome.Registered? ==>
      r.outcome.nftAddress == AnsweredNft(r.registry[req.publicKey.value].nftAddress, env.nftBytes)
  {
    if !SignedFieldsPresent(req) then Reply(MissingFields, m)
    else
      var publicKey, challenge, sig := req.publicKey.value, req.challenge.value, req.signature.value;
      var device := Upsert(m, publicKey, NoFields.(challenge := Put(Some(challenge)))).record;
      var afterChallenge := Upsert(m, publicKey, NoFields.(challenge := Put(Some(challenge)))).registry;
      if device.challenge != Some(challenge) then Reply(InvalidChallenge, afterChallenge)
      else if !env.crypto.verify(publicKey, Sha256Hex(env.crypto, challenge), sig) then
        Reply(InvalidSignature, afterChallenge)
      else
        var updated := Upsert(afterChallenge, publicKey, NoFields.(macAddress := Put(device.macAddress)));
        Reply(Registered(AnsweredNft(updated.record.nftAddress, env.nftBytes)), updated.registry)
  }

  /** Phase 2 as evidently intended: the challenge must be the one stored on
      the key's row by phase 1, nothing is written on failure, and success
      clears it so that it cannot be used again. */
  function Respond(m: Registry, env: Env, req: Request): (r: Reply)
    requires !RequestsChallenge(req)
    ensures !SignedFieldsPresent(req) <==> r == Reply(MissingFields, m)
    ensures r.outcome == InvalidChallenge <==>
      SignedFieldsPresent(req) && (req.publicKey.value !in m || m[req.publicKey.value].challenge != req.challenge)
    ensures !r.outcome.Registered? ==> r.registry == m
    ensures r.outcome.Registered? ==>
      && SignedFieldsPresent(req)
      && req.publicKey.value in m && m[req.publicKey.value].challenge == req.challenge
      && env.crypto.verify(req.publicKey.value, Sha256Hex(env.crypto, req.challenge.value), req.signature.value)
      && r.registry.Keys == m.Keys
      && r.registry[req.publicKey.value] == m[req.publicKey.value].(challenge := None)
      && (forall k :: k in m && k != req.publicKey.value ==> r.registry[k] == m[k])
      && r.outcome.nftAddress == AnsweredNft(m[req.publicKey.value].nftAddress, env.nftBytes)
  {
    if !SignedFieldsPresent(req) then Reply(MissingFields, m)
    else
      var publicKey, challenge, sig := req.publicKey.value, req.challenge.value, req.signature.value;
      match GetByPubKey(m, publicKey)
      case None => Reply(InvalidChallenge, m)
      case Some(device) =>
        if device.challenge != Some(challenge) then Reply(InvalidChallenge, m)
        else if !env.crypto.verify(publicKey, Sha256Hex(env.crypto, challenge), sig) then Reply(InvalidSignature, m)
        else
          var updated := Upsert(m, publicKey, NoFields.(challenge := Put(None)));
          Reply(Registered(AnsweredNft(updated.record.nftAddress, env.nftBytes)), updated.registry)
  }

  /** The handler as written. */
  function RegisterAsWritten(m: Registry, env: Env, req: Request): (r: Reply)
    ensures RequestsChallenge(req) ==> r.outcome.ChallengeIssued? || r.outcome == MissingIdentity
    ensures !RequestsChallenge(req) ==> !r.outcome.ChallengeIssued? && r.outcome != MissingIdentity
  {
    if RequestsChallenge(req) then IssueChallenge(m, env, req) else RespondAsWritten(m, env, req)
  }

  /** The handler with the corrected phase 2. */
  function Register(m: Registry, env: Env, req: Request): (r: Reply)
    ensures RequestsChallenge(req) ==> r.outcome.ChallengeIssued? || r.outcome == MissingIdentity
    ensures !RequestsChallenge(req) ==> !r.outcome.ChallengeIssued? && r.outcome != MissingIdentity
  {
    if RequestsChallenge(req) then IssueChallenge(m, env, req) else Respond(m, env, req)
  }

  /** Neither handler ever changes `revoked`: phase 1 still issues challenges
      to a revoked key and phase 2 still answers it an NFT address. */
  lemma RegisterKeepsRevoked(m: Registry, env: Env, req: Request, k: string)
    requires k in m
    ensures k in Register(m, env, req).registry && Register(m, env, req).registry[k].revoked == m[k].revoked
    ensures k in RegisterAsWritten(m, env, req).registry
      && RegisterAsWritten(m, env, req).registry[k].revoked == m[k].revoked
  {
    if RequestsChallenge(req) {
      IssueChallengeKeepsRevoked(m, env, req, k);
    } else {
      RespondKeepsRevoked(m, env, req, k);
      RespondAsWrittenKeepsRevoked(m, env, req, k);
    }
  }

  lemma IssueChallengeKeepsRevoked(m: Registry, env: Env, req: Request, k: string)
    requires RequestsChallenge(req) && k in m
    ensures k in IssueChallenge(m, env, req).registry && IssueChallenge(m, env, req).registry[k].revoked == m[k].revoked
  {
    var r := IssueChallenge(m, env, req);
    if r.outcome.ChallengeIssued? && k == req.publicKey.value {
      assert r.registry[k] == m[k].(challenge := Some(r.outcome.challenge), macAddress := req.macAddress);
    }
  }

  lemma RespondKeepsRevoked(m: Registry, env: Env, req: Request, k: string)
    requires !RequestsChallenge(req) && k in m
    ensures k in Respond(m, env, req).registry && Respond(m, env, req).registry[k].revoked == m[k].revoked
  {
    var r := Respond(m, env, req);
    if r.outcome.Registered? && k == req.publicKey.value {
      assert r.registry[k] == m[k].(challenge := None);
    }
  }

  lemma RespondAsWrittenKeepsRevoked(m: Registry, env: Env, req: Request, k: string)
    requires !RequestsChallenge(req) && k in m
    ensures k in RespondAsWritten(m, env, req).registry && RespondAsWritten(m, env, req).registry[k].revoked == m[k].revoked
  {
    var r := RespondAsWritten(m, env, req);
    if (r.outcome == InvalidSignature || r.outcome.Registered?) && k == req.publicKey.value {
      assert r.registry[k] == m[k].(challenge := req.challenge);
    }
  }

  /** As written, the stored challenge plays no part: a request carrying a
      signature over a challenge of the client's own choosing succeeds or
      fails the same way whatever the registry holds. */
  lemma AsWrittenIgnoresStoredChallenge(m: Registry, m': Registry, env: Env, req: Request)
    requires !RequestsChallenge(req)
    ensures RespondAsWritten(m, env, req).outcome.Registered? == RespondAsWritten(m', env, req).outcome.Registered?
  {
  }

  /** A public-key oracle that accepts every signature. */
  function AcceptAll(): Crypto {
    Crypto(b => seq(32, i => 0), (publicKey, digest, sig) => true)
  }

  /** Concrete input for both defects: on an empty registry, with no
      challenge ever issued, phase 2 as written registers the key and leaves
      the client's challenge stored afterwards; the corrected phase 2 refuses
      the same request. */
  lemma UnissuedChallengeWitness()
    ensures var env := Env(seq(32, i => 0), seq(16, i => 0), AcceptAll());
      var req := Request(None, Some("04ab"), Some("chosen"), Some(Signature("1", "2")));
      && RegisterAsWritten(map[], env, req).outcome.Registered?
      && RegisterAsWritten(map[], env, req).registry["04ab"].challenge == Some("chosen")
      && Register(map[], env, req) == Reply(InvalidChallenge, map[])
  {
    var env := Env(seq(32, i => 0), seq(16, i => 0), AcceptAll());
    var req := Request(None, Some("04ab"), Some("chosen"), Some(Signature("1", "2")));
    assert env.crypto.verify("04ab", Sha256Hex(env.crypto, "chosen"), Signature("1", "2"));
  }

  /** As written, replaying a successful signed response succeeds again:
      the challenge is neither checked nor cleared. */
  lemma AsWrittenReplayAccepted(m: Registry, env: Env, env': Env, req: Request)
    requires !RequestsChallenge(req)
    requires RespondAsWritten(m, env, req).outcome.Registered?
    requires env'.crypto == env.crypto
    ensures RespondAsWritten(RespondAsWritten(m, env, req).registry, env', req).outcome.Registered?
  {
    AsWrittenIgnoresStoredChallenge(m, RespondAsWritten(m, env, req).registry, env', req);
  }

  /** Corrected: a challenge is single-use. After a successful response the
      very same response is refused, whatever the signature oracle says. */
  lemma ChallengeSingleUse(m: Registry, env: Env, env': Env, req: Request)
    requires !RequestsChallenge(req)
    requires Respond(m, env, req).outcome.Registered?
    ensures Respond(Respond(m, env, req).registry, env', req).outcome == InvalidChallenge
  {
  }

  /** Corrected: the full protocol. A challenge issued in phase 1 and signed
      by the key's holder registers the device in phase 2. */
  lemma IssuedChallengeRegisters(m: Registry, env: Env, env': Env, mac: string, publicKey: string, sig: Signature)
    requires mac != "" && publicKey != ""
    requires var c := Hex(env.challengeBytes);
      env'.crypto.verify(publicKey, Sha256Hex(env'.crypto, c), sig)
    ensures var issued := Register(m, env, Request(Some(mac), Some(publicKey), None, None));
      && issued.outcome == ChallengeIssued(Hex(env.challengeBytes))
      && Register(issued.registry, env', Request(None, Some(publicKey), Some(Hex(env.challengeBytes)), Some(sig))).outcome.Registered?
  {
    var c := Hex(env.challengeBytes);
    assert |c| == 64;
    var ask := Request(Some(mac), Some(publicKey), None, None);
    var answer := Request(None, Some(publicKey), Some(c), Some(sig));
    var issued := IssueChallenge(m, env, ask);
    assert Register(m, env, ask) == issued;
    assert issued.registry[publicKey].challenge == Some(c);
    RespondRegistersWhen(issued.registry, env', answer);
    assert Register(issued.registry, env', answer) == Respond(issued.registry, env', answer);
  }

  /** The converse of the corrected phase 2's checks: a complete response
      whose challenge is the one stored on the key's row, signed so that the
      key verifies it, registers the device. */
  lemma RespondRegistersWhen(m: Registry, env: Env, req: Request)
    requires !RequestsChallenge(req) && SignedFieldsPresent(req)
    requires req.publicKey.value in m && m[req.publicKey.value].challenge == req.challenge
    requires env.crypto.verify(req.publicKey.value, Sha256Hex(env.crypto, req.challenge.value), req.signature.value)
    ensures Respond(m, env, req).outcome.Registered?
  {
  }

  /** Neither version of the handler deletes a row, rewrites `nftAddress` or
      touches `revoked`; a row phase 1 or 2 creates carries no NFT address. */
  lemma RegisterEvolves(m: Registry, env: Env, req: Request)
    ensures Evolves(m, Register(m, env, req).registry)
    ensures Evolves(m, RegisterAsWritten(m, env, req).registry)
  {
    if RequestsChallenge(req) {
      IssueChallengeEvolves(m, env, req);
    } else {
      RespondAsWrittenEvolves(m, env, req);
      RespondEvolves(m, env, req);
    }
  }

  lemma IssueChallengeEvolves(m: Registry, env: Env, req: Request)
    requires RequestsChallenge(req)
    ensures Evolves(m, IssueChallenge(m, env, req).registry)
  {
    if Truthy(req.macAddress) && Truthy(req.publicKey) {
      var challenge := Hex(env.challengeBytes);
      UpsertEvolves(m, req.publicKey.value, NoFields.(macAddress := Put(req.macAddress), challenge := Put(Some(challenge))));
    }
  }

  lemma RespondAsWrittenEvolves(m: Registry, env: Env, req: Request)
    requires !RequestsChallenge(req)
    ensures Evolves(m, RespondAsWritten(m, env, req).registry)
  {
    if SignedFieldsPresent(req) {
      var publicKey, challenge := req.publicKey.value, req.challenge.value;
      var first := Upsert(m, publicKey, NoFields.(challenge := Put(Some(challenge))));
      var second := Upsert(first.registry, publicKey, NoFields.(macAddress := Put(first.record.macAddress)));
      UpsertEvolves(m, publicKey, NoFields.(challenge := Put(Some(challenge))));
      UpsertEvolves(first.registry, publicKey, NoFields.(macAddress := Put(first.record.macAddress)));
      EvolvesTransitive(m, first.registry, second.registry);
    }
  }

  lemma RespondEvolves(m: Registry, env: Env, req: Request)
    requires !RequestsChallenge(req)
    ensures Evolves(m, Respond(m, env, req).registry)
  {
    if SignedFieldsPresent(req) {
      UpsertEvolves(m, req.publicKey.value, NoFields.(challenge := Put(None)));
    }
  }

  /** The HTTP status of the handler as written, read off the request: 400
      for a missing identity in phase 1 or a missing field in phase 2, 401
      for a bad signature, 200 otherwise; the challenge itself never decides. */
  lemma RegisterAsWrittenStatus(m: Registry, env: Env, req: Request)
    ensures var st := RegisterAsWritten(m, env, req).outcome.Status();
      var signed := SignedFieldsPresent(req)
        && env.crypto.verify(req.publicKey.value, Sha256Hex(env.crypto, req.challenge.value), req.signature.value);
      && st in {200, 400, 401}
      && (st == 400 <==>
            if RequestsChallenge(req) then !(Truthy(req.macAddress) && Truthy(req.publicKey)) else !SignedFieldsPresent(req))
      && (st == 401 <==> !RequestsChallenge(req) && SignedFieldsPresent(req) && !signed)
      && (st == 200 <==> if RequestsChallenge(req) then Truthy(req.macAddress) && Truthy(req.publicKey) else signed)
  {
  }

  /** The same for the corrected handler, where a challenge other than the
      stored one is also answered 401. */
  lemma RegisterStatus(m: Registry, env: Env, req: Request)
    ensures var st := Register(m, env, req).outcome.Status();
      var stored := SignedFieldsPresent(req) && req.publicKey.value in m && m[req.publicKey.value].challenge == req.challenge;
      var signed := stored
        && env.crypto.verify(req.publicKey.value, Sha256Hex(env.crypto, req.challenge.value), req.signature.value);
      && st in {200, 400, 401}
      && (st == 400 <==>
            if RequestsChallenge(req) then !(Truthy(req.macAddress) && Truthy(req.publicKey)) else !SignedFieldsPresent(req))
      && (st == 401 <==> !RequestsChallenge(req) && SignedFieldsPresent(req) && !signed)
      && (st == 200 <==> if RequestsChallenge(req) then Truthy(req.macAddress) && Truthy(req.publicKey) else signed)
  {
  }
}
