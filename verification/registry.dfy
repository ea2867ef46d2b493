/** The device registry of lib/deviceRegistry.ts: the `devices` table keyed
    by `publicKey`, read by public key or by NFT address, written by a
    merging upsert and by a one-way revocation. */
module Registry {
  import opened Basics

  /** One row of the `devices` table. `ownerAddress` is a column the
      telemetry handler reads and writes though the TypeScript interface does
      not list it; an absent `revoked` reads as false. */
  datatype DeviceEntry = DeviceEntry(
    publicKey: string,
    macAddress: Option<string>,
    nftAddress: Option<string>,
    txSignature: Option<string>,
    lastTsSeen: Option<int>,
    revoked: bool,
    challenge: Option<string>,
    ownerAddress: Option<string>)

  /** The table: every row is stored under its own primary key. */
  type Registry = m: map<string, DeviceEntry> | forall k :: k in m ==> m[k].publicKey == k

  /** A `Partial<DeviceEntry>` object literal as it reaches the store: a key
      whose value is `undefined` is dropped when the request body is
      serialized, so it reads as `Keep`. */
  datatype Patch = Patch(
    publicKey: Update<string>,
    macAddress: Update<Option<string>>,
    nftAddress: Update<Option<string>>,
    txSignature: Update<Option<string>>,
    lastTsSeen: Update<Option<int>>,
    revoked: Update<bool>,
    challenge: Update<Option<string>>,
    ownerAddress: Update<Option<string>>)

  const NoFields: Patch := Patch(Keep, Keep, Keep, Keep, Keep, Keep, Keep, Keep)

  /** A row inserted with only its key: every other column null. */
  function Fresh(publicKey: string): DeviceEntry {
    DeviceEntry(publicKey, None, None, None, None, false, None, None)
  }

  /** The row a merge writes: columns named in the patch take its values,
      the others keep what `base` had. */
  function Merge(base: DeviceEntry, p: Patch): DeviceEntry {
    DeviceEntry(
      base.publicKey,
      p.macAddress.Over(base.macAddress),
      p.nftAddress.Over(base.nftAddress),
      p.txSignature.Over(base.txSignature),
      p.lastTsSeen.Over(base.lastTsSeen),
      p.revoked.Over(base.revoked),
      p.challenge.Over(base.challenge),
      p.ownerAddress.Over(base.ownerAddress))
  }

  /** Every column the patch names holds the patch's value. */
  predicate Carries(e: DeviceEntry, p: Patch) {
    && (p.macAddress.Put? ==> e.macAddress == p.macAddress.value)
    && (p.nftAddress.Put? ==> e.nftAddress == p.nftAddress.value)
    && (p.txSignature.Put? ==> e.txSignature == p.txSignature.value)
    && (p.lastTsSeen.Put? ==> e.lastTsSeen == p.lastTsSeen.value)
    && (p.revoked.Put? ==> e.revoked == p.revoked.value)
    && (p.challenge.Put? ==> e.challenge == p.challenge.value)
    && (p.ownerAddress.Put? ==> e.ownerAddress == p.ownerAddress.value)
  }

  /** Every column the patch does not name is as in `before`. */
  predicate KeepsUnnamed(e: DeviceEntry, before: DeviceEntry, p: Patch) {
    && (p.macAddress.Keep? ==> e.macAddress == before.macAddress)
    && (p.nftAddress.Keep? ==> e.nftAddress == before.nftAddress)
    && (p.txSignature.Keep? ==> e.txSignature == before.txSignature)
    && (p.lastTsSeen.Keep? ==> e.lastTsSeen == before.lastTsSeen)
    && (p.revoked.Keep? ==> e.revoked == before.revoked)
    && (p.challenge.Keep? ==> e.challenge == before.challenge)
    && (p.ownerAddress.Keep? ==> e.ownerAddress == before.ownerAddress)
  }

  // ---------------------------------------------------------------- reads

  /** `getDeviceByPubKey`: the row whose `publicKey` matches, or null. */
  function GetByPubKey(m: Registry, publicKey: string): (r: Option<DeviceEntry>)
    ensures r.Some? ==> r.value in m.Values && r.value.publicKey == publicKey
    ensures r.None? <==> forall e :: e in m.Values ==> e.publicKey != publicKey
  {
    if publicKey in m then Some(m[publicKey]) else None
  }

  /** Primary keys of the rows whose `nftAddress` column equals `nft`. */
  function NftMatches(m: Registry, nft: string): set<string> {
    set k | k in m && m[k].nftAddress == Some(nft)
  }

  lemma SingletonSet(s: set<string>)
    requires |s| == 1
    ensures forall a, b :: a in s && b in s ==> a == b
  {
    var x :| x in s;
    assert |s - {x}| == 0;
    assert s == {x};
  }

  /** `getDeviceByNft`: `.single()` answers a row only when exactly one row
      matches; zero or several matches both come back as error PGRST116,
      which the function turns into null. */
  function GetByNft(m: Registry, nft: string): (r: Option<DeviceEntry>)
    ensures r.Some? ==> r.value in m.Values && r.value.nftAddress == Some(nft)
    ensures r.Some? ==> forall k :: k in m && m[k].nftAddress == Some(nft) ==> m[k] == r.value
    ensures r.None? ==> |NftMatches(m, nft)| != 1
    ensures r.None? && (exists k :: k in m && m[k].nftAddress == Some(nft)) ==> |NftMatches(m, nft)| >= 2
  {
    var ks := NftMatches(m, nft);
    if |ks| == 1 then
      SingletonSet(ks);
      var k :| k in ks;
      assert forall k' :: k' in m && m[k'].nftAddress == Some(nft) ==> k' in ks;
      Some(m[k])
    else
      if exists k :: k in m && m[k].nftAddress == Some(nft) then
        var k :| k in m && m[k].nftAddress == Some(nft);
        assert k in ks;
        None
      else None
  }

  // ---------------------------------------------------------------- writes

  datatype Upserted = Upserted(registry: Registry, record: DeviceEntry)

  /** The row key `{publicKey, ...deviceData}` resolves to: a `publicKey`
      inside the patch wins because it is spread last. */
  function UpsertKey(publicKey: string, p: Patch): string {
    p.publicKey.Over(publicKey)
  }

  /** `addOrUpdateDevice`: insert-or-merge of `{publicKey, ...deviceData}`,
      answering the stored row. */
  function Upsert(m: Registry, publicKey: string, p: Patch): (r: Upserted)
    ensures r.registry.Keys == m.Keys + {UpsertKey(publicKey, p)}
    ensures UpsertKey(publicKey, p) in r.registry && r.registry[UpsertKey(publicKey, p)] == r.record
    ensures r.record.publicKey == UpsertKey(publicKey, p)
    ensures Carries(r.record, p)
    ensures UpsertKey(publicKey, p) in m ==> KeepsUnnamed(r.record, m[UpsertKey(publicKey, p)], p)
    ensures UpsertKey(publicKey, p) !in m ==> KeepsUnnamed(r.record, Fresh(UpsertKey(publicKey, p)), p)
    ensures forall k :: k in m && k != UpsertKey(publicKey, p) ==> r.registry[k] == m[k]
  {
    var key := UpsertKey(publicKey, p);
    var base := if key in m then m[key] else Fresh(key);
    var row := Merge(base, p);
    Upserted(m[key := row], row)
  }

  /** Repeating an upsert changes nothing: the second write finds every named
      column already holding its value. */
  lemma UpsertIdempotent(m: Registry, publicKey: string, p: Patch)
    ensures Upsert(Upsert(m, publicKey, p).registry, publicKey, p) == Upsert(m, publicKey, p)
  {
  }

  /** Upsert never deletes a row and never touches `revoked` unless the patch names it. */
  lemma UpsertKeepsRevoked(m: Registry, publicKey: string, p: Patch, k: string)
    requires p.revoked.Keep?
    requires k in m
    ensures k in Upsert(m, publicKey, p).registry
    ensures Upsert(m, publicKey, p).registry[k].revoked == m[k].revoked
  {
  }

  datatype RevokeError = NotFound

  datatype Revoked = RevokeOk(registry: Registry) | RevokeFailed(error: RevokeError)

  /** Every row whose `nftAddress` is `nft` with `revoked` set, the rest untouched. */
  function MarkRevoked(m: Registry, nft: string): (r: Registry)
    ensures r.Keys == m.Keys
    ensures forall k :: k in m && m[k].nftAddress == Some(nft) ==> r[k] == m[k].(revoked := true)
    ensures forall k :: k in m && m[k].nftAddress != Some(nft) ==> r[k] == m[k]
  {
    map k | k in m :: if m[k].nftAddress == Some(nft) then m[k].(revoked := true) else m[k]
  }

  /** `revokeDevice` with `count` read as the number of rows the update
      matched: "not found" when no row has that NFT address. */
  function RevokeDevice(m: Registry, nft: string): (r: Revoked)
    ensures r.RevokeFailed? <==> forall e :: e in m.Values ==> e.nftAddress != Some(nft)
    ensures r.RevokeFailed? ==> r.error == NotFound
    ensures r.RevokeOk? ==> r.registry.Keys == m.Keys
    ensures r.RevokeOk? ==> forall k :: k in m ==>
      r.registry[k] == (if m[k].nftAddress == Some(nft) then m[k].(revoked := true) else m[k])
  {
    if |NftMatches(m, nft)| == 0 then
      assert forall e :: e in m.Values ==> e.nftAddress != Some(nft) by {
        forall e | e in m.Values ensures e.nftAddress != Some(nft) {
          var k :| k in m && m[k] == e;
          assert k !in NftMatches(m, nft);
        }
      }
      RevokeFailed(NotFound)
    else
      var k :| k in NftMatches(m, nft);
      assert m[k] in m.Values;
      RevokeOk(MarkRevoked(m, nft))
  }

  /** `revokeDevice` as written: the update is issued without asking the
      client for a count, so `count` is null, `count === 0` never holds and
      the call succeeds even when no row matched. */
  function RevokeDeviceAsWritten(m: Registry, nft: string): (r: Revoked)
    ensures r.RevokeOk?
    ensures r.registry.Keys == m.Keys
    ensures forall k :: k in m ==>
      r.registry[k] == (if m[k].nftAddress == Some(nft) then m[k].(revoked := true) else m[k])
  {
    var count: Option<nat> := None;
    if count == Some(0) then RevokeFailed(NotFound) else RevokeOk(MarkRevoked(m, nft))
  }

  /** The defect: revoking an NFT address that no row carries is reported
      as a success by the code as written and as "not found" by the corrected model. */
  lemma RevokeUnknownNftWitness()
    ensures RevokeDeviceAsWritten(map[], "NFT_unknown").RevokeOk?
    ensures RevokeDevice(map[], "NFT_unknown") == RevokeFailed(NotFound)
  {
  }

  /** Revocation is monotone: no row loses `revoked`. */
  lemma RevokeDeviceMonotone(m: Registry, nft: string)
    ensures RevokeDevice(m, nft).RevokeOk? ==>
      forall k :: k in m && m[k].revoked ==> RevokeDevice(m, nft).registry[k].revoked
  {
  }

  /** How the handlers let the table evolve: rows are never deleted, a row's
      `nftAddress` is never rewritten, `revoked` is never cleared, and a row
      that appears carries no NFT address. */
  predicate Evolves(m: Registry, m': Registry) {
    && m.Keys <= m'.Keys
    && (forall k :: k in m ==> m'[k].nftAddress == m[k].nftAddress && (m[k].revoked ==> m'[k].revoked))
    && (forall k :: k in m' && k !in m ==> m'[k].nftAddress == None)
  }

  lemma EvolvesTransitive(m: Registry, m': Registry, m'': Registry)
    requires Evolves(m, m') && Evolves(m', m'')
    ensures Evolves(m, m'')
  {
  }

  /** While the table evolves so, every NFT address keeps matching the same rows. */
  lemma EvolvesKeepsNftMatches(m: Registry, m': Registry, nft: string)
    requires Evolves(m, m')
    ensures NftMatches(m', nft) == NftMatches(m, nft)
    ensures GetByNft(m, nft).Some? ==>
      (GetByNft(m', nft).Some? && GetByNft(m', nft).value == m'[GetByNft(m, nft).value.publicKey])
  {
    if GetByNft(m, nft).Some? {
      var k := GetByNft(m, nft).value.publicKey;
      assert k in NftMatches(m, nft);
    }
  }

  /** An upsert whose patch names neither `nftAddress` nor `revoked` nor the key lets the table evolve so. */
  lemma UpsertEvolves(m: Registry, publicKey: string, p: Patch)
    requires p.publicKey.Keep? && p.nftAddress.Keep? && p.revoked.Keep?
    ensures Evolves(m, Upsert(m, publicKey, p).registry)
  {
  }
}
