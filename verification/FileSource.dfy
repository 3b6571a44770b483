/** File reads as the searches see them: a slice of one fixed byte sequence, whose length the
    filesystem chooses, or a failure. */
module FileSource {
  import opened Bytes

  datatype Outcome = Data(bytes: seq<Byte>) | Failed(code: nat)

  method Read(file: seq<Byte>, offset: nat, capacity: nat) returns (r: Outcome)
    requires offset <= |file| && capacity > 0
    ensures r.Data? ==> |r.bytes| <= capacity && r.bytes <= file[offset..]
    ensures r.Data? && offset < |file| ==> r.bytes != []
  {
    var failed: bool := *;
    var code: nat := *;
    if failed {
      return Failed(code);
    }
    if offset == |file| {
      return Data([]);
    }
    var n: nat :| 1 <= n <= capacity && n <= |file| - offset;
    return Data(file[offset..offset + n]);
  }

  /** A read callback that may also break its contract: it may make no progress, or claim
      more bytes than it was asked for. */
  method ReadUntrusted(file: seq<Byte>, offset: nat, request: nat) returns (r: Outcome)
    requires offset < |file| && 0 < request <= |file| - offset
    ensures r.Data? && 0 < |r.bytes| <= request ==> r.bytes <= file[offset..]
  {
    var honest: bool := *;
    if honest {
      r := Read(file, offset, request);
    } else {
      var junk: seq<Byte> := *;
      r := Data(if |junk| <= request then [] else junk);
    }
  }
}
