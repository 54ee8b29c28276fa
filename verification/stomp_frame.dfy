/**
 `Frame::encode`: serialises a STOMP frame into wire octets.

 Layout of a successful encoding: the command and a newline; one line
 `escaped key ":" escaped value` per header, in the header map's iteration
 order; a `content-length:N` line when the body is not empty, N being the
 body size in decimal; an empty line; the body octets verbatim; one NUL octet.
 An empty command is refused (the C++ code throws), and nothing is produced.
 */
module StompFrame {
  import opened Octets
  import opened Results
  import opened HeaderToken

  /** `hdrmap`: a finite map from header names to values, iterated in sequence order. */
  predicate UniqueKeys(h: seq<(Bytes, Bytes)>) {
    forall i, j :: 0 <= i < j < |h| ==> h[i].0 != h[j].0
  }

  type HeaderMap = h: seq<(Bytes, Bytes)> | UniqueKeys(h)

  datatype Frame = Frame(command: Bytes, headers: HeaderMap, body: Bytes)

  datatype EncodeError = CommandNotSet

  const CONTENT_LENGTH: Bytes := "content-length"

  /** The handshake commands. */
  const CONNECT: Bytes := "CONNECT"
  const CONNECTED: Bytes := "CONNECTED"

  /** One header as a line without its newline. The key and value are escaped copies. */
  function HeaderLine(key: Bytes, value: Bytes): Bytes {
    EncodeHeaderToken(key) + [COLON] + EncodeHeaderToken(value)
  }

  function HeaderBlock(headers: seq<(Bytes, Bytes)>): (r: Bytes)
    ensures |r| == 0 || r[|r| - 1] == NL
  {
    if |headers| == 0 then []
    else HeaderLine(headers[0].0, headers[0].1) + [NL] + HeaderBlock(headers[1..])
  }

  function ContentLengthLine(size: nat): Bytes {
    CONTENT_LENGTH + [COLON] + Decimal(size)
  }

  function ContentLengthBlock(body: Bytes): Bytes {
    if |body| > 0 then ContentLengthLine(|body|) + [NL] else []
  }

  /** A head ending in a newline, then the blank line, the body and the NUL. */
  lemma FrameTail(head: Bytes, body: Bytes)
    requires |head| > 0 && head[|head| - 1] == NL
    ensures var wire := head + [NL] + body + [NUL];
            wire[|wire| - |body| - 3..] == [NL, NL] + body + [NUL]
  {
    var wire := head + [NL] + body + [NUL];
    assert wire[|wire| - |body| - 3..] == [head[|head| - 1]] + [NL] + body + [NUL];
  }

  function Encode(f: Frame): (r: Result<Bytes, EncodeError>)
    // the only failure is a missing command
    ensures r.Failure? <==> |f.command| == 0
    // the wire starts with the command line ...
    ensures r.Success? ==> |r.value| >= |f.command| + 1 && r.value[..|f.command| + 1] == f.command + [NL]
    // ... and ends with a blank line, the body verbatim, and one NUL octet
    ensures r.Success? ==>
              |r.value| >= |f.body| + 3 &&
              r.value[|r.value| - |f.body| - 3..] == [NL, NL] + f.body + [NUL]
  {
    if |f.command| > 0 then
      var fields := HeaderBlock(f.headers) + ContentLengthBlock(f.body);
      var head := f.command + [NL] + fields;
      assert head[..|f.command| + 1] == f.command + [NL];
      assert head[|head| - 1] == NL;
      FrameTail(head, f.body);
      Success(head + [NL] + f.body + [NUL])
    else
      Failure(CommandNotSet)
  }
}
