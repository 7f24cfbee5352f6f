/** The C server's HTTP responses, written into its 8192-byte buffer. */
module Responses {
  import opened Buffers
  import opened Decimal

  const WRITE_BUF_SIZE: nat := 8192

  const HTTP_200: string := "HTTP/1.1 200 OK\r\n"
  const HTTP_400: string := "HTTP/1.1 400 Bad Request\r\n"
  const HTTP_403: string := "HTTP/1.1 403 Forbidden\r\n"
  const HTTP_404: string := "HTTP/1.1 404 Not Found\r\n"
  const HTTP_409: string := "HTTP/1.1 409 Conflict\r\n"

  const JSON_LINE: string := "Content-Type: application/json"
  const ALIVE_LINE: string := "Connection: keep-alive"
  const JSON_TYPE: string := JSON_LINE + "\r\n"
  const KEEP_ALIVE: string := ALIVE_LINE + "\r\n"
  const LENGTH_NAME: string := "Content-Length: "
  const HDR_JSON_KA: string := JSON_TYPE + KEEP_ALIVE + LENGTH_NAME
  const HDR_EMPTY_KA: string := "Content-Length: 0" + "\r\n" + KEEP_ALIVE + "\r\n"

  const HEALTHY: string := "{\"status\":\"ok\"}"
  const RESP_HEALTHZ: string :=
    HTTP_200 + JSON_TYPE + ("Content-Length: 15" + "\r\n") + KEEP_ALIVE + "\r\n" + HEALTHY

  /** A status line with its line end, which is the only one in it. */
  predicate IsStatusLine(s: string) {
    && 2 < |s| <= 26 && s[0] == 'H' && s[|s| - 2..] == "\r\n"
    && forall i :: 0 <= i < |s| - 2 ==> s[i] != '\r' && s[i] != '\n'
  }

  lemma StatusLines()
    ensures IsStatusLine(HTTP_200) && IsStatusLine(HTTP_400) && IsStatusLine(HTTP_403)
    ensures IsStatusLine(HTTP_404) && IsStatusLine(HTTP_409)
  {
  }

  lemma HeaderSize()
    ensures |HDR_JSON_KA| == 72 && |HDR_EMPTY_KA| == 45
  {
    assert |JSON_TYPE| == 32 && |KEEP_ALIVE| == 24 && |LENGTH_NAME| == 16;
  }

  function Framed(status: string, headers: string, body: string): (s: string) {
    status + headers + Dec(|body|) + "\r\n\r\n" + body
  }

  /** The whole response with a body. */
  function Response(status: string, body: string): (s: string) {
    Framed(status, HDR_JSON_KA, body)
  }

  function EmptyResponse(status: string): (s: string) {
    status + HDR_EMPTY_KA
  }

  method BuildFramed(buf: array<char>, status: string, headers: string, body: string) returns (n: nat)
    requires buf.Length == WRITE_BUF_SIZE && |status| <= 26 && |headers| <= 72 && |body| <= 8000
    modifies buf
    ensures n <= buf.Length && buf[..n] == Framed(status, headers, body)
  {
    var digits := new char[12](_ => '0');
    var k := UintToStr(|body|, digits);
    var length := digits[..k];
    n := Put(buf, 0, status);
    assert buf[..n] == status;
    n := Put(buf, n, headers);
    n := Put(buf, n, length);
    n := Put(buf, n, "\r\n\r\n");
    n := Put(buf, n, body);
  }

  /** `build_response`; nothing is written beyond the buffer. */
  method BuildResponse(buf: array<char>, status: string, body: string) returns (n: nat)
    requires buf.Length == WRITE_BUF_SIZE && IsStatusLine(status) && |body| <= 8000
    modifies buf
    ensures n <= buf.Length && buf[..n] == Response(status, body)
  {
    HeaderSize();
    n := BuildFramed(buf, status, HDR_JSON_KA, body);
  }

  method BuildEmptyResponse(buf: array<char>, status: string) returns (n: nat)
    requires buf.Length == WRITE_BUF_SIZE && IsStatusLine(status)
    modifies buf
    ensures n <= buf.Length && buf[..n] == EmptyResponse(status)
  {
    n := Put(buf, 0, status);
    n := Put(buf, n, HDR_EMPTY_KA);
  }
}
