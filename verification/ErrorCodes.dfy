/** The framework's error codes, and its literals as std::string contents. */
module ErrorCodes {
  import opened Bytes

  const ERROR_FAILED_DESERIALIZE: int32 := 10000003
  const ERROR_FAILED_SERIALIZE: int32 := 10000004
  const ERROR_RPC_CALL_TIMEOUT: int32 := 10000007
  const ERROR_SERVICE_NOT_FOUND: int32 := 10000008
  const ERROR_PARSE_SERVICE_NAME: int32 := 10000010
  const ERROR_RPC_CHANNEL_INIT: int32 := 10000011
  const ERROR_RPC_PEER_ADDR: int32 := 10000012

  function Ascii(s: string): (b: seq<byte>)
    ensures |b| == |s|
  {
    seq(|s|, i requires 0 <= i < |s| => s[i] as int % 0x100)
  }
}
