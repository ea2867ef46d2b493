/** Device revocation (`POST` of app/api/revoke-device/route.ts): the owner
    of an NFT-bound device signs `revoke:<nftAddress>` and the registry marks
    the device revoked, a one-way transition. */
module Revocation {
  import opened Basics
  import opened Registry

  /** The destructured body `{ nftAddress, signature }`. */
  datatype Request = Request(nftAddress: Option<string>, signature: Option<Signature>)

  datatype Outcome =
    | MissingFields
    | UnknownDevice
    | AlreadyRevoked
    | BadSignature
    | ServerError
    | Done(nftAddress: string)
  {
    function Status(): int {
      match this
      case MissingFields => 400
      case UnknownDevice => 404
      case AlreadyRevoked => 400
      case BadSignature => 401
      case ServerError => 500
      case Done(_) => 200
    }
  }

  datatype Reply = Reply(outcome: Outcome, registry: Registry)

  /** The signed text: the NFT address behind a fixed prefix. */
  function RevokeMessage(nft: string): (r: string)
    ensures |r| == |nft| + 7 && r[..7] == "revoke:" && r[7..] == nft
  {
    "revoke:" + nft
  }

  lemma RevokeMessageInjective(a: string, b: string)
    requires RevokeMessage(a) == RevokeMessage(b)
    ensures a == b
  {
    assert a == RevokeMessage(a)[7..];
  }

  predicate FieldsPresent(req: Request) {
    Truthy(req.nftAddress) && req.signature.Some?
  }

  /** The handler. Every refusal leaves the registry as it was; the only
      write is the revocation of the one row the NFT address names. */
  function Revoke(m: Registry, crypto: Crypto, req: Request): (r: Reply)
    ensures !r.outcome.Done? ==> r.registry == m
    ensures r.outcome == MissingFields <==> !FieldsPresent(req)
    ensures r.outcome == UnknownDevice <==> FieldsPresent(req) && GetByNft(m, req.nftAddress.value).None?
    ensures r.outcome == AlreadyRevoked <==>
      (FieldsPresent(req) && GetByNft(m, req.nftAddress.value).Some? && GetByNft(m, req.nftAddress.value).value.revoked)
    // `revokeDevice` as written never reports "not found", so no 500 arises here
    ensures r.outcome != ServerError
    ensures r.outcome == BadSignature || r.outcome.Done? ==>
      && FieldsPresent(req)
      && GetByNft(m, req.nftAddress.value).Some? && !GetByNft(m, req.nftAddress.value).value.revoked
      && (r.outcome.Done? <==>
            crypto.verify(
              GetByNft(m, req.nftAddress.value).value.publicKey,
              Sha256Hex(crypto, RevokeMessage(req.nftAddress.value)),
              req.signature.value))
    ensures r.outcome.Done? ==>
      && r.outcome.nftAddress == req.nftAddress.value
      && r.registry.Keys == m.Keys
      && var key := GetByNft(m, req.nftAddress.value).value.publicKey;
         && r.registry[key] == m[key].(revoked := true)
         && (forall k :: k in m && k != key ==> r.registry[k] == m[k])
  {
    if !FieldsPresent(req) then Reply(MissingFields, m)
    else
      var nft, sig := req.nftAddress.value, req.signature.value;
      match GetByNft(m, nft)
      case None => Reply(UnknownDevice, m)
      case Some(device) =>
        if device.revoked then Reply(AlreadyRevoked, m)
        else if !crypto.verify(device.publicKey, Sha256Hex(crypto, RevokeMessage(nft)), sig) then
          Reply(BadSignature, m)
        else
          match RevokeDeviceAsWritten(m, nft)
          case RevokeFailed(_) => Reply(ServerError, m)
          case RevokeOk(revoked) => Reply(Done(nft), revoked)
  }

  /** No request un-revokes a row, and no request other than a successful
      one changes anything. */
  lemma RevokeEvolves(m: Registry, crypto: Crypto, req: Request)
    ensures Evolves(m, Revoke(m, crypto, req).registry)
  {
  }

  /** Revocation is one-way and happens once: after a successful request,
      the same request (or any other for that NFT address) is refused as
      already revoked, whatever the signature. */
  lemma RevokeOnce(m: Registry, crypto: Crypto, req: Request, crypto': Crypto, req': Request)
    requires Revoke(m, crypto, req).outcome.Done?
    requires FieldsPresent(req') && req'.nftAddress == req.nftAddress
    ensures Revoke(Revoke(m, crypto, req).registry, crypto', req') == Reply(AlreadyRevoked, Revoke(m, crypto, req).registry)
  {
    var after := Revoke(m, crypto, req).registry;
    RevokeEvolves(m, crypto, req);
    EvolvesKeepsNftMatches(m, after, req.nftAddress.value);
  }

  /** The HTTP status read off the request: 400 for a missing field or an
      already revoked device, 404 for an unknown NFT, 401 for a bad signature,
      200 on success, and never 500. */
  lemma RevokeStatus(m: Registry, crypto: Crypto, req: Request)
    ensures var st := Revoke(m, crypto, req).outcome.Status();
      var device := if FieldsPresent(req) then GetByNft(m, req.nftAddress.value) else None;
      var signed := device.Some? && !device.value.revoked
        && crypto.verify(device.value.publicKey, Sha256Hex(crypto, RevokeMessage(req.nftAddress.value)), req.signature.value);
      && st in {200, 400, 401, 404}
      && (st == 400 <==> !FieldsPresent(req) || (device.Some? && device.value.revoked))
      && (st == 404 <==> FieldsPresent(req) && device.None?)
      && (st == 401 <==> device.Some? && !device.value.revoked && !signed)
      && (st == 200 <==> signed)
  {
  }
}
