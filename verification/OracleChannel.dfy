/** The pre-image oracle protocol over a byte stream (op-preimage/oracle.go). */
module OracleChannel {
  import opened Alu
  import opened Bytes
  import opened FlatStep

  type PreimageGetter = Digest -> Outcome<Preimage>

  /** What the server sends for a value: its length as 8 bytes, then the value. */
  function Response(value: Preimage): seq<Byte> {
    Prefixed(value)
  }

  /** The end of a stream before a request, or a broken request or answer. */
  datatype Served = Done | Eof | Failed

  /** A stream with bytes under way in both directions. */
  class OracleStream {
    var toServer: seq<Byte>
    var toClient: seq<Byte>

    constructor ()
      ensures toServer == [] && toClient == []
    {
      toServer, toClient := [], [];
    }

    /** OracleClient.Get up to the point where it waits for the answer. */
    method WriteKey(key: Digest)
      modifies this`toServer
      ensures toServer == old(toServer) + key
    {
      toServer := toServer + key;
    }

    /** OracleServer.NextPreimageRequest: answers one key; a key without a pre-image is consumed and not answered. */
    method NextPreimageRequest(getPreimage: PreimageGetter) returns (served: Served)
      modifies this
      ensures |old(toServer)| >= 32 ==>
                var value := getPreimage(old(toServer)[..32]);
                && toServer == old(toServer)[32..]
                && served == (if value.Ok? then Done else Failed)
                && toClient == old(toClient) + if value.Ok? then Response(value.value) else []
      ensures |old(toServer)| < 32 ==> toServer == [] && toClient == old(toClient)
      ensures |old(toServer)| < 32 ==> served == if old(toServer) == [] then Eof else Failed
    {
      if |toServer| < 32 {
        served := if toServer == [] then Eof else Failed;
        toServer := [];
        return;
      }
      var key: Digest := toServer[..32];
      toServer := toServer[32..];
      var value := getPreimage(key);
      if value.Fault? {
        return Failed;
      }
      toClient := toClient + DWordBytes(|value.value|);
      if |value.value| == 0 {
        return Done;
      }
      toClient := toClient + value.value;
      served := Done;
    }

    /** The end of OracleClient.Get: the length, then that many bytes; a panic when they are not there. */
    method ReadValue() returns (payload: seq<Byte>, ok: bool)
      modifies this`toClient
      ensures ok <==> |old(toClient)| >= 8 && |old(toClient)| - 8 >= BytesDWord(old(toClient)[..8])
      ensures !ok ==> toClient == []
      ensures ok ==> |payload| < 0x1_0000_0000_0000_0000 && old(toClient) == Prefixed(payload) + toClient
    {
      payload, ok := [], false;
      if |toClient| < 8 {
        toClient := [];
        return;
      }
      var length := BytesDWord(toClient[..8]);
      ghost var before := toClient;
      toClient := toClient[8..];
      if |toClient| < length {
        toClient := [];
        return;
      }
      payload, toClient, ok := toClient[..length], toClient[length..], true;
      PrefixOfBytes(before[..8]);
      assert before == before[..8] + payload + toClient;
    }
  }

  lemma PrefixOfBytes(s: seq<Byte>)
    requires |s| == 8
    ensures DWordBytes(BytesDWord(s)) == s
  {
    hide BytesWord, WordBytes;
    var high: int, low: int := BytesWord(s[..4]), BytesWord(s[4..]);
    assert (high * 0x1_0000_0000 + low) / 0x1_0000_0000 == high && (high * 0x1_0000_0000 + low) % 0x1_0000_0000 == low;
    WordOfBytes(s[..4]);
    WordOfBytes(s[4..]);
    assert s[..4] + s[4..] == s;
  }

  /** A response determines its value and where it ends. */
  lemma ResponseParses(value: Preimage, more: seq<Byte>)
    ensures var s := Response(value) + more;
            |s| >= 8 && BytesDWord(s[..8]) == |value| && s[8..8 + |value|] == value && s[8 + |value|..] == more
  {
    var s := Response(value) + more;
    assert s[..8] == DWordBytes(|value|);
    BytesOfDWord(|value|);
  }

  /** One request over an idle stream: the client gets exactly the value of its key, or panics when there is none. */
  method Get(s: OracleStream, key: Digest, getPreimage: PreimageGetter) returns (value: Outcome<seq<Byte>>)
    requires s.toServer == [] && s.toClient == []
    modifies s
    ensures value == getPreimage(key)
    ensures s.toServer == [] && s.toClient == []
  {
    s.WriteKey(key);
    assert ([] + key)[..32] == key;
    var served := s.NextPreimageRequest(getPreimage);
    ghost var sent := s.toClient;
    if getPreimage(key).Ok? {
      assert sent == Response(getPreimage(key).value) + [];
      ResponseParses(getPreimage(key).value, []);
    }
    var payload, ok := s.ReadValue();
    if ok {
      ResponseParses(payload, s.toClient);
      value := Ok(payload);
    } else {
      value := Fault;
    }
  }
}
