# BoostStomp frame serialiser, modelled in Dafny

BoostStomp is a C++ STOMP client built on Boost.Asio. This project models the
part of it that turns a STOMP frame into wire octets (`StompFrame.cpp`):

- `encode_header_token` and `decode_header_token` escape and unescape header
  text. Each one is three `boost::algorithm::replace_all` passes run in the
  order the code gives.
- `Frame::encode` writes the frame. The layout is the command line, the header
  lines, an optional computed `content-length` line, a blank line, the body,
  and a NUL octet. An empty command is refused.

All three are modelled as pure functions over octet sequences. The main
properties are the encoder's octet-by-octet meaning, what a round trip through
the two helpers does, and a line-by-line reading of every encoded frame.

Files:

- `results.dfy`: `Option` and `Result`. A `Result` stands in for the C++ `throw`.
- `octets.dfy`: one C++ `char` is an `Octet`, meaning a Dafny `char` below 256.
  This file also holds the decimal rendering an `ostream` gives a `size_t`.
- `replace_all.dfy`: `boost::algorithm::replace_all`. It scans from the left
  for non-overlapping matches and never rescans the text it inserted. An empty
  search text changes nothing.
- `header_token.dfy`: the two token helpers and the lemmas about them.
- `stomp_frame.dfy`: the frame, the header map and `Frame::encode`.
- `frame_layout.dfy`: a reader for the layout (split at newlines, then split
  each header line at its first colon). The lemmas about the encoder's output
  are stated through it. It is a specification device. It is not the library's
  parser, which this model does not include.

## Where the code differs from the protocol's intent

The model follows the code. The comment at `StompFrame.cpp:36-47` and STOMP
1.2 "Value Encoding" both describe escaping one octet at a time. The code
instead runs three global replacements in a row, and the last one also doubles
the backslashes the first two inserted. The lemmas show what follows:

- A newline goes out as backslash, backslash, `n`. A colon goes out as
  backslash, backslash, `c` (`HeaderToken.EncodeIsOctetwise`).
- A newline and the two-octet text backslash-`n` encode to the same octets, so
  no decoder can restore both (`HeaderToken.EncodeNotInjective`,
  `HeaderToken.NoDecoderInvertsEncode`).
- Take a token with no backslash. Encoding and then decoding it puts a stray
  backslash before every newline and colon (`HeaderToken.DecodeAfterEncode`).
  The token survives unchanged exactly when it contains neither
  (`HeaderToken.RoundTripIff`).
- The decoder misreads correctly escaped text too. The comment at
  `StompFrame.cpp:41-46` asks that backslash, backslash become one backslash.
  But the decoder's first pass (`StompFrame.cpp:56`) runs before the
  backslash pass and matches inside an escaped backslash. So backslash,
  backslash, `n` (the escape of the text backslash-`n`) decodes to a backslash
  followed by a newline, and backslash, backslash, `c` decodes to a backslash
  followed by a colon. A one-scan reference unescape, which reads each escape
  as a unit, inverts the documented escaping for every token
  (`HeaderToken.DocumentedRoundTrip`, `HeaderToken.DecoderMisreadsDocumentedEscapes`).
- The comment at `StompFrame.cpp:37-39` says CONNECT and CONNECTED frames do
  not escape colons or newlines. The code escapes every header whatever the
  command (`StompFrame.cpp:75-81`), so a colon in a CONNECT header value goes
  out as backslash, backslash, `c` (`FrameLayout.HandshakeHeadersEscaped`).

Also, `Frame::encode` does not filter a caller's own `content-length` header.
If such a header is present, at any place in the header order, and the body is
non-empty, the frame carries two content-length lines: the caller's at its
place, and the computed one after all headers
(`FrameLayout.CallerContentLengthKept`).

## Model

| member | source | states |
|---|---|---|
| Octets.Decimal | StompFrame.cpp:86 | The body size is written as a non-empty run of decimal digits with no leading zero, and reading those digits back gives the size. |
| Replace.ReplaceAll | StompFrame.cpp:49-51 | `replace_all` leaves the input alone when the search text's first octet never occurs. A one-octet search text is gone afterwards unless the replacement contains it. A replacement no longer than its search text never lengthens the input, and one no shorter never shortens it. |
| Replace.ReplaceAllKeepsOut | StompFrame.cpp:49-51 | An octet found in neither the input nor the replacement is not in the result. |
| Replace.ReplaceAllAppend | StompFrame.cpp:49-51 | When no match can straddle the seam, replacing in a concatenation is the concatenation of the two replacements. That is always so for a one-octet search text. For a two-octet one, the left part must not end with the search text's first octet. |
| HeaderToken.EncodeHeaderToken | StompFrame.cpp:48-53 | The escaped token never contains a raw newline or colon, for any input. It is never shorter than the input. A token without newline, colon or backslash comes out unchanged. |
| HeaderToken.DecodeHeaderToken | StompFrame.cpp:55-60 | Unescaping never lengthens a token, and a token without a backslash comes back unchanged. |
| HeaderToken.EncodeAppend | StompFrame.cpp:48-53 | Encoding distributes over concatenation. |
| HeaderToken.EncodeIsOctetwise | StompFrame.cpp:48-53 | The three passes equal a one-pass octet map: newline becomes backslash, backslash, `n`; colon becomes backslash, backslash, `c`; backslash becomes two backslashes; every other octet is kept. |
| HeaderToken.EncodeNotInjective | StompFrame.cpp:48-53 | A newline and backslash-`n` encode to the same three octets. So do a colon and backslash-`c`. |
| HeaderToken.NoDecoderInvertsEncode | StompFrame.cpp:48-53 | No function from octets to octets undoes the encoder on both a newline and backslash-`n`. |
| HeaderToken.NewlineCounterexample | StompFrame.cpp:48-60 | A single newline encodes to three octets, and decoding those gives a backslash followed by a newline, not the original. |
| HeaderToken.DecodeEncodeOctet | StompFrame.cpp:55-60 | Decoding an encoded non-backslash octet followed by any text equals that octet's round-trip image followed by the decoding of the text. |
| HeaderToken.DecodeAfterEncode | StompFrame.cpp:48-60 | For a token without backslashes, decoding its encoding gives the token with a backslash inserted before every newline and colon. |
| HeaderToken.RoundTripIff | StompFrame.cpp:48-60 | A token without backslashes survives encoding then decoding if and only if it has no newline and no colon. |
| HeaderToken.DocumentedRoundTrip | StompFrame.cpp:36-47 | Escaping one octet at a time as documented, then unescaping in one left-to-right scan, gives back every token unchanged. |
| HeaderToken.DecoderMisreadsDocumentedEscapes | StompFrame.cpp:41-60 | The documented escapes of backslash-`n` and backslash-`c` are backslash, backslash, `n` and backslash, backslash, `c`. The documented unescape reads them back correctly. The code's decoder turns them into backslash-newline and backslash-colon. |
| StompFrame.Encode | StompFrame.cpp:62-97 | Encoding fails if and only if the command is empty. A successful encoding starts with the command and a newline. It ends with a newline, the blank line's newline, the body verbatim and one NUL octet. |
| StompFrame.HeaderBlock | StompFrame.cpp:74-83 | The header section written by the loop is empty or ends with a newline. |
| FrameLayout.HeaderBlockLines | StompFrame.cpp:74-83 | The header loop writes, in iteration order, one line per header, `escaped key ":" escaped value`, each followed by a newline. |
| FrameLayout.EncodeIsHeadLines | StompFrame.cpp:62-97 | A successful encoding is the command line, the header lines, the content-length line when the body is non-empty, a blank line, the body and NUL. |
| FrameLayout.HeadLinesShape | StompFrame.cpp:74-87 | Each header line of the head splits at its first colon into the escaped key and the escaped value. When the body is non-empty, the line after the header lines splits into `content-length` and the decimal body size. |
| FrameLayout.EncodeReadsBack | StompFrame.cpp:68-95 | If the command has no newline, reading the wire up to the first empty line gives 1 + (number of headers) + (1 if the body is non-empty) lines: the command, the header lines and the content-length line (present exactly when the body is non-empty, and parsing to the body size). What follows the empty line is the body and the NUL. |
| FrameLayout.CallerContentLengthKept | StompFrame.cpp:74-87 | A caller's own `content-length` header, at any position k, is written like any other header as head line k + 1 with its escaped value. With a non-empty body the head also ends with the computed content-length line, so the frame reads back with two content-length lines. |
| FrameLayout.HandshakeHeadersEscaped | StompFrame.cpp:74-83 | For a CONNECT or CONNECTED frame, each header line still carries the escaped key and the escaped value. A value with a colon or newline is changed by the escaping, and a value that is a single colon goes out as backslash, backslash, `c`. |

## Left out

- BoostStomp.hpp as a whole is not part of this model. That means sockets,
  timers, `io_service`, the worker thread, the mutex-guarded send queue,
  subscriptions, acknowledgements and transactions: I/O and concurrency.
- `send` (BoostStomp.hpp:170-174) is a thin wrapper over `send_frame`, and
  `send_frame` is not part of this model.
- Frame decoding (`parse_next`, `parse_all_frames`) is left out because only
  its declarations exist. The line reader in `frame_layout.dfy` describes the
  encoder's layout. It is not that parser.
- The `to_string` helper (BoostStomp.hpp:49-56) depends on iostream formatting
  state and is left out.
- Stream mechanics: the encoder's output is a fresh sequence. In the code it is
  appended to the frame's `m_request` stream buffer, which the model treats as
  starting empty.
- The frame's command, headers and body are immutable values in the model, so
  "encoding does not change the frame" holds by construction and no member
  states it. In the code, this is why the escaping works on local copies of
  each key and value.
- `hdrmap` is modelled as a sequence of key/value pairs with unique keys,
  iterated in sequence order. The container's own ordering is not modelled.
- The body size is an unbounded natural number. `size_t` overflow is not
  modelled, since no real body reaches it.
- FrameLayout.EncodeReadsBack: requires the command to have no newline. The
  code does not check this, and a newline in the command adds lines to the
  head.
- HeaderToken.DecodeAfterEncode: covers only tokens without a backslash. For
  tokens with one, the round trip is described only by the counterexamples
  above.
