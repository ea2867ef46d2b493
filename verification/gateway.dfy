/** The Python processing gateway (app/api/iot-getaway.py): it hashes the
    canonical compact serialization of a payload, stores the payload under
    `sensor_data:<hash>` and answers the hash and the key. The Redis save
    succeeds or not as an input. */
module Gateway {
  import opened Basics
  import opened Json
  import opened Canonical

  const KeyPrefix: string := "sensor_data:"
  /** TTL of a stored payload: seven days, in seconds. */
  const ExpirationSeconds: int := 7 * 24 * 60 * 60

  /** What Flask hands the endpoint: a request that is not JSON, or the parsed payload. */
  datatype Body = NotJson | JsonBody(payload: Json)

  datatype Outcome =
    | NotJsonRequest
    | EmptyPayload
    | Saved(hash: string, redisKey: string)
    | SaveFailed
  {
    function Status(): int {
      match this
      case NotJsonRequest => 400
      case EmptyPayload => 400
      case Saved(_, _) => 200
      case SaveFailed => 500
    }
  }

  datatype Reply = Reply(outcome: Outcome, store: map<string, string>)

  /** `generate_hash`: SHA-256 of the UTF-8 bytes of the sorted-key compact
      serialization, as 64 lowercase hex characters. That text is pure ASCII,
      so the hashed bytes are its characters one for one. */
  function GenerateHash(c: Crypto, payload: Json): (r: string)
    ensures |r| == 64 && IsLowerHex(r)
    ensures Unhex(r) == Some(c.sha256(Utf8(Serialize(payload, PythonCompact))))
    ensures |Utf8(Serialize(payload, PythonCompact))| == |Serialize(payload, PythonCompact)|
    ensures forall i :: 0 <= i < |Serialize(payload, PythonCompact)| ==>
      Utf8(Serialize(payload, PythonCompact))[i] == Serialize(payload, PythonCompact)[i] as int
  {
    SerializeAscii(payload, PythonCompact);
    Utf8OfAscii(Serialize(payload, PythonCompact));
    Sha256Hex(c, Serialize(payload, PythonCompact))
  }

  /** Payloads equal as maps at every level hash alike, whatever order their
      members were inserted in. */
  lemma HashIgnoresKeyOrder(c: Crypto, a: Json, b: Json)
    requires SameValue(a, b)
    ensures GenerateHash(c, a) == GenerateHash(c, b)
  {
    SerializeRespectsSameValue(a, b, PythonCompact);
  }

  /** The same, stated for an object whose members are merely rearranged. */
  lemma ReorderedMembersHashAlike(c: Crypto, ma: seq<Member>, mb: seq<Member>)
    requires WellFormed(Object(ma)) && WellFormed(Object(mb))
    requires multiset(ma) == multiset(mb)
    ensures GenerateHash(c, Object(ma)) == GenerateHash(c, Object(mb))
  {
    ReorderedObjectSerializesAlike(ma, mb, PythonCompact);
  }

  /** The storage key `sensor_data:<hash>`. */
  function RedisKey(hash: string): (r: string)
    ensures |r| == |KeyPrefix| + |hash| && r[..|KeyPrefix|] == KeyPrefix && r[|KeyPrefix|..] == hash
  {
    KeyPrefix + hash
  }

  lemma RedisKeyInjective(a: string, b: string)
    requires RedisKey(a) == RedisKey(b)
    ensures a == b
  {
    assert a == RedisKey(a)[|KeyPrefix|..];
  }

  /** `process_sensor_data`: the status decisions and the one write. */
  function ProcessSensorData(store: map<string, string>, c: Crypto, body: Body, saveOk: bool): (r: Reply)
    ensures !r.outcome.Saved? ==> r.store == store
    ensures r.outcome == NotJsonRequest <==> body.NotJson?
    ensures r.outcome == EmptyPayload <==> body.JsonBody? && !PyTruthy(body.payload)
    ensures r.outcome == SaveFailed <==> body.JsonBody? && PyTruthy(body.payload) && !saveOk
    ensures r.outcome.Saved? ==>
      && body.JsonBody? && PyTruthy(body.payload) && saveOk
      && r.outcome.hash == GenerateHash(c, body.payload)
      && r.outcome.redisKey == RedisKey(r.outcome.hash)
      && r.store == store[r.outcome.redisKey := Serialize(body.payload, PythonDefault)]
  {
    match body
    case NotJson => Reply(NotJsonRequest, store)
    case JsonBody(payload) =>
      if !PyTruthy(payload) then Reply(EmptyPayload, store)
      else
        var hash := GenerateHash(c, payload);
        var key := RedisKey(hash);
        if saveOk then Reply(Saved(hash, key), store[key := Serialize(payload, PythonDefault)])
        else Reply(SaveFailed, store)
  }

  /** The value stored under the key is a sorted serialization, but with the
      default separators: for an object payload it is never the text whose
      hash names the key. */
  lemma StoredValueIsNotHashedText(store: map<string, string>, c: Crypto, body: Body, saveOk: bool)
    requires ProcessSensorData(store, c, body, saveOk).outcome.Saved?
    requires body.payload.Object?
    ensures var r := ProcessSensorData(store, c, body, saveOk);
      r.store[r.outcome.redisKey] != Serialize(body.payload, PythonCompact)
  {
    StoredTextDiffersFromHashedText(body.payload.members);
  }

  /** Two submissions of the same data in different key orders land on the
      same key with the same stored text: the second overwrites the first
      with an identical value. */
  lemma ResubmissionSameEntry(store: map<string, string>, c: Crypto, a: Json, b: Json)
    requires SameValue(a, b) && PyTruthy(a) && PyTruthy(b)
    ensures var first := ProcessSensorData(store, c, JsonBody(a), true);
      var second := ProcessSensorData(first.store, c, JsonBody(b), true);
      && second.outcome == first.outcome
      && second.store == first.store
  {
    SerializeRespectsSameValue(a, b, PythonCompact);
    SerializeRespectsSameValue(a, b, PythonDefault);
  }

  /** The HTTP status read off the request: 400 for a body that is not JSON
      or a falsy payload, 500 when the save fails, 200 when it succeeds. */
  lemma ProcessStatus(store: map<string, string>, c: Crypto, body: Body, saveOk: bool)
    ensures var st := ProcessSensorData(store, c, body, saveOk).outcome.Status();
      && st in {200, 400, 500}
      && (st == 400 <==> body.NotJson? || !PyTruthy(body.payload))
      && (st == 500 <==> body.JsonBody? && PyTruthy(body.payload) && !saveOk)
      && (st == 200 <==> body.JsonBody? && PyTruthy(body.payload) && saveOk)
  {
  }
}
