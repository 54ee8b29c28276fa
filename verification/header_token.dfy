/**
 The header-token helpers of the frame serialiser. Each one is three
 consecutive `replace_all` passes over the whole token, in the order the code runs them.

 Encoding: newline becomes backslash-n, then colon becomes backslash-c, then
 every backslash becomes two backslashes. The third pass also doubles the
 backslashes that the first two passes inserted, so a newline leaves as three
 octets (backslash, backslash, `n`) and a colon as (backslash, backslash, `c`).

 Decoding: backslash-n becomes newline, then backslash-c becomes colon, then
 two backslashes become one.
 */
module HeaderToken {
  import opened Octets
  import opened Replace

  /** The two-octet escapes, and the one-octet texts they stand for. */
  const ESC_NEWLINE: Bytes := ['\\', 'n']
  const ESC_COLON: Bytes := ['\\', 'c']
  const ESC_BACKSLASH: Bytes := ['\\', '\\']
  const NEWLINE: Bytes := [NL]
  const COLON_TEXT: Bytes := [COLON]
  const BACKSLASH_TEXT: Bytes := [BACKSLASH]

  function EncodeHeaderToken(s: Bytes): (r: Bytes)
    // the escaped token can sit between header delimiters
    ensures NL !in r && COLON !in r
    ensures |r| >= |s|
    // text without special octets goes out unchanged
    ensures NL !in s && COLON !in s && BACKSLASH !in s ==> r == s
  {
    var newlinesEscaped := ReplaceAll(s, NEWLINE, ESC_NEWLINE);
    var colonsEscaped := ReplaceAll(newlinesEscaped, COLON_TEXT, ESC_COLON);
    ReplaceAllKeepsOut(newlinesEscaped, COLON_TEXT, ESC_COLON, NL);
    ReplaceAllKeepsOut(colonsEscaped, BACKSLASH_TEXT, ESC_BACKSLASH, NL);
    ReplaceAllKeepsOut(colonsEscaped, BACKSLASH_TEXT, ESC_BACKSLASH, COLON);
    ReplaceAll(colonsEscaped, BACKSLASH_TEXT, ESC_BACKSLASH)
  }

  function DecodeHeaderToken(s: Bytes): (r: Bytes)
    // every pass replaces two octets by one
    ensures |r| <= |s|
    // text without a backslash comes back unchanged
    ensures BACKSLASH !in s ==> r == s
  {
    var newlinesRestored := ReplaceAll(s, ESC_NEWLINE, NEWLINE);
    var colonsRestored := ReplaceAll(newlinesRestored, ESC_COLON, COLON_TEXT);
    ReplaceAll(colonsRestored, ESC_BACKSLASH, BACKSLASH_TEXT)
  }

  /** What the three encoding passes together do to one octet. */
  function EscapeOctetAsWritten(c: Octet): Bytes {
    if c == NL then ['\\', '\\', 'n']
    else if c == COLON then ['\\', '\\', 'c']
    else if c == BACKSLASH then ['\\', '\\']
    else [c]
  }

  /** A one-pass, octet-by-octet reading of the encoder, independent of `replace_all`. */
  function EscapeAsWritten(s: Bytes): Bytes {
    if |s| == 0 then [] else EscapeOctetAsWritten(s[0]) + EscapeAsWritten(s[1..])
  }

  /** Encoding distributes over concatenation: no single-octet pattern can straddle a seam. */
  lemma {:induction false} EncodeAppend(a: Bytes, b: Bytes)
    ensures EncodeHeaderToken(a + b) == EncodeHeaderToken(a) + EncodeHeaderToken(b)
  {
    var p1a, p1b := ReplaceAll(a, NEWLINE, ESC_NEWLINE), ReplaceAll(b, NEWLINE, ESC_NEWLINE);
    ReplaceAllAppend(a, b, NEWLINE, ESC_NEWLINE);
    var p2a, p2b := ReplaceAll(p1a, COLON_TEXT, ESC_COLON), ReplaceAll(p1b, COLON_TEXT, ESC_COLON);
    ReplaceAllAppend(p1a, p1b, COLON_TEXT, ESC_COLON);
    ReplaceAllAppend(p2a, p2b, BACKSLASH_TEXT, ESC_BACKSLASH);
  }

  lemma EncodeOctet(c: Octet)
    ensures EncodeHeaderToken([c]) == EscapeOctetAsWritten(c)
  {
    var s1 := ReplaceAll([c], NEWLINE, ESC_NEWLINE);
    var s2 := ReplaceAll(s1, COLON_TEXT, ESC_COLON);
    if c == NL {
      assert s1 == ['\\', 'n'];
      assert s2 == ['\\', 'n'];
      assert ReplaceAll(s2, BACKSLASH_TEXT, ESC_BACKSLASH) == ['\\', '\\'] + ReplaceAll(['n'], BACKSLASH_TEXT, ESC_BACKSLASH);
    } else if c == COLON {
      assert s1 == [COLON];
      assert s2 == ['\\', 'c'];
      assert ReplaceAll(s2, BACKSLASH_TEXT, ESC_BACKSLASH) == ['\\', '\\'] + ReplaceAll(['c'], BACKSLASH_TEXT, ESC_BACKSLASH);
    }
  }

  /** The three-pass encoder equals the octet-by-octet reading. */
  lemma {:induction false} EncodeIsOctetwise(s: Bytes)
    ensures EncodeHeaderToken(s) == EscapeAsWritten(s)
    decreases |s|
  {
    if |s| > 0 {
      assert s == [s[0]] + s[1..];
      EncodeAppend([s[0]], s[1..]);
      EncodeOctet(s[0]);
      EncodeIsOctetwise(s[1..]);
    }
  }

  /**
   A newline and the two-octet text backslash-`n` encode to the same three
   octets, so no decoder can recover both from the wire.
   */
  lemma EncodeNotInjective()
    ensures EncodeHeaderToken(NEWLINE) == EncodeHeaderToken(ESC_NEWLINE) == ['\\', '\\', 'n']
    ensures EncodeHeaderToken(COLON_TEXT) == EncodeHeaderToken(ESC_COLON) == ['\\', '\\', 'c']
  {
    EncodeIsOctetwise(NEWLINE);
    EncodeIsOctetwise(ESC_NEWLINE);
    EncodeIsOctetwise(COLON_TEXT);
    EncodeIsOctetwise(ESC_COLON);
  }

  lemma NoDecoderInvertsEncode(decode: Bytes -> Bytes)
    ensures decode(EncodeHeaderToken(NEWLINE)) != NEWLINE || decode(EncodeHeaderToken(ESC_NEWLINE)) != ESC_NEWLINE
  {
    EncodeNotInjective();
  }

  /** A single newline does not survive encoding followed by decoding. */
  lemma NewlineCounterexample()
    ensures EncodeHeaderToken(NEWLINE) == ['\\', '\\', 'n']
    ensures DecodeHeaderToken(['\\', '\\', 'n']) == ['\\', '\n']
  {
    EncodeNotInjective();
    DecodeEscapedNewline();
  }

  /**
   What decoding does to the encoding of one octet other than backslash: a
   newline or colon comes back with a stray backslash in front of it.
   */
  function StrayBackslash(c: Octet): Bytes {
    if c == NL || c == COLON then [BACKSLASH, c] else [c]
  }

  /** The octet-by-octet image of a backslash-free token after encoding and decoding. */
  function RoundTripImage(s: Bytes): (r: Bytes)
    ensures |r| >= |s|
    ensures NL !in s && COLON !in s ==> r == s
    ensures NL in s || COLON in s ==> |r| > |s|
  {
    if |s| == 0 then [] else StrayBackslash(s[0]) + RoundTripImage(s[1..])
  }

  /** `s` does not end with a backslash, so no two-octet escape can start at its last octet. */
  predicate EndsClear(s: Bytes) {
    |s| == 0 || s[|s| - 1] != BACKSLASH
  }

  /**
   Decoding a concatenation is the concatenation of the decodings when none of
   the left part's intermediate results ends with a backslash.
   */
  lemma DecodeSplit(e: Bytes, rest: Bytes)
    requires EndsClear(e)
    requires EndsClear(ReplaceAll(e, ESC_NEWLINE, NEWLINE))
    requires EndsClear(ReplaceAll(ReplaceAll(e, ESC_NEWLINE, NEWLINE), ESC_COLON, COLON_TEXT))
    ensures DecodeHeaderToken(e + rest) == DecodeHeaderToken(e) + DecodeHeaderToken(rest)
  {
    var e1 := ReplaceAll(e, ESC_NEWLINE, NEWLINE);
    var r1 := ReplaceAll(rest, ESC_NEWLINE, NEWLINE);
    var e2 := ReplaceAll(e1, ESC_COLON, COLON_TEXT);
    var r2 := ReplaceAll(r1, ESC_COLON, COLON_TEXT);
    ReplaceAllAppend(e, rest, ESC_NEWLINE, NEWLINE);
    ReplaceAllAppend(e1, r1, ESC_COLON, COLON_TEXT);
    ReplaceAllAppend(e2, r2, ESC_BACKSLASH, BACKSLASH_TEXT);
  }

  lemma DecodeEscapedNewline()
    ensures var e := EscapeOctetAsWritten(NL);
            && EndsClear(e)
            && ReplaceAll(e, ESC_NEWLINE, NEWLINE) == [BACKSLASH, NL]
            && ReplaceAll([BACKSLASH, NL], ESC_COLON, COLON_TEXT) == [BACKSLASH, NL]
            && DecodeHeaderToken(e) == [BACKSLASH, NL]
  {
    var e := EscapeOctetAsWritten(NL);
    assert e == [BACKSLASH] + ESC_NEWLINE;
    assert ReplaceAll(ESC_NEWLINE, ESC_NEWLINE, NEWLINE) == NEWLINE + ReplaceAll([], ESC_NEWLINE, NEWLINE);
    assert ReplaceAll(e, ESC_NEWLINE, NEWLINE) == [BACKSLASH] + ReplaceAll(ESC_NEWLINE, ESC_NEWLINE, NEWLINE);
    var stage1: Bytes := [BACKSLASH, NL];
    assert stage1[..2][1] != ESC_COLON[1];
    assert stage1[1..] == [NL];
    assert ReplaceAll(stage1, ESC_COLON, COLON_TEXT) == [BACKSLASH] + ReplaceAll([NL], ESC_COLON, COLON_TEXT);
    assert ReplaceAll([BACKSLASH, NL], ESC_BACKSLASH, BACKSLASH_TEXT) == [BACKSLASH] + ReplaceAll([NL], ESC_BACKSLASH, BACKSLASH_TEXT);
  }

  lemma DecodeEscapedColon()
    ensures var e := EscapeOctetAsWritten(COLON);
            && EndsClear(e)
            && ReplaceAll(e, ESC_NEWLINE, NEWLINE) == e
            && ReplaceAll(e, ESC_COLON, COLON_TEXT) == [BACKSLASH, COLON]
            && DecodeHeaderToken(e) == [BACKSLASH, COLON]
  {
    var e := EscapeOctetAsWritten(COLON);
    assert e == [BACKSLASH] + ESC_COLON;
    assert ESC_COLON[..2][1] != ESC_NEWLINE[1];
    assert ESC_COLON[1..] == ['c'];
    assert ReplaceAll(ESC_COLON, ESC_NEWLINE, NEWLINE) == [BACKSLASH] + ReplaceAll(['c'], ESC_NEWLINE, NEWLINE);
    assert ReplaceAll(e, ESC_NEWLINE, NEWLINE) == [BACKSLASH] + ReplaceAll(ESC_COLON, ESC_NEWLINE, NEWLINE);
    assert ReplaceAll(ESC_COLON, ESC_COLON, COLON_TEXT) == COLON_TEXT + ReplaceAll([], ESC_COLON, COLON_TEXT);
    assert ReplaceAll(e, ESC_COLON, COLON_TEXT) == [BACKSLASH] + ReplaceAll(ESC_COLON, ESC_COLON, COLON_TEXT);
    assert ReplaceAll([BACKSLASH, COLON], ESC_BACKSLASH, BACKSLASH_TEXT) == [BACKSLASH] + ReplaceAll([COLON], ESC_BACKSLASH, BACKSLASH_TEXT);
  }

  /** Decoding splits after the encoding of any octet but a backslash. */
  lemma DecodeEncodeOctet(c: Octet, rest: Bytes)
    requires c != BACKSLASH
    ensures DecodeHeaderToken(EscapeOctetAsWritten(c) + rest) == StrayBackslash(c) + DecodeHeaderToken(rest)
  {
    if c == NL {
      DecodeEscapedNewline();
    } else if c == COLON {
      DecodeEscapedColon();
    } else {
      assert EscapeOctetAsWritten(c) == [c];
    }
    DecodeSplit(EscapeOctetAsWritten(c), rest);
  }

  /**
   For a token without backslashes, encoding then decoding puts a stray
   backslash before every newline and colon and keeps every other octet.
   */
  lemma {:induction false} DecodeAfterEncode(s: Bytes)
    requires BACKSLASH !in s
    ensures DecodeHeaderToken(EncodeHeaderToken(s)) == RoundTripImage(s)
    decreases |s|
  {
    EncodeIsOctetwise(s);
    if |s| > 0 {
      EncodeIsOctetwise(s[1..]);
      DecodeEncodeOctet(s[0], EncodeHeaderToken(s[1..]));
      DecodeAfterEncode(s[1..]);
    }
  }

  /** A backslash-free token survives the round trip exactly when it holds no newline and no colon. */
  lemma RoundTripIff(s: Bytes)
    requires BACKSLASH !in s
    ensures DecodeHeaderToken(EncodeHeaderToken(s)) == s <==> NL !in s && COLON !in s
  {
    DecodeAfterEncode(s);
  }

  /**
   Escaping as the comment above `encode_header_token` and STOMP 1.2 describe
   it: one octet at a time, each special octet replaced by its two-octet escape.
   */
  function EscapeOctetAsDocumented(c: Octet): Bytes {
    if c == NL then ESC_NEWLINE
    else if c == COLON then ESC_COLON
    else if c == BACKSLASH then ESC_BACKSLASH
    else [c]
  }

  function EscapeAsDocumented(s: Bytes): Bytes {
    if |s| == 0 then [] else EscapeOctetAsDocumented(s[0]) + EscapeAsDocumented(s[1..])
  }

  /** Unescaping as documented: one left-to-right scan that reads each escape as a unit. */
  function UnescapeAsDocumented(s: Bytes): Bytes
    decreases |s|
  {
    if |s| == 0 then []
    else if |s| >= 2 && s[0] == BACKSLASH && s[1] == 'n' then [NL] + UnescapeAsDocumented(s[2..])
    else if |s| >= 2 && s[0] == BACKSLASH && s[1] == 'c' then [COLON] + UnescapeAsDocumented(s[2..])
    else if |s| >= 2 && s[0] == BACKSLASH && s[1] == BACKSLASH then [BACKSLASH] + UnescapeAsDocumented(s[2..])
    else [s[0]] + UnescapeAsDocumented(s[1..])
  }

  lemma UnescapeEscapedOctet(c: Octet, rest: Bytes)
    ensures UnescapeAsDocumented(EscapeOctetAsDocumented(c) + rest) == [c] + UnescapeAsDocumented(rest)
  {
    var t := EscapeOctetAsDocumented(c) + rest;
    if c == NL || c == COLON || c == BACKSLASH {
      assert t[2..] == rest;
    } else {
      assert t[1..] == rest;
    }
  }

  /** The documented scheme is a true round trip, for every token. */
  lemma {:induction false} DocumentedRoundTrip(s: Bytes)
    ensures UnescapeAsDocumented(EscapeAsDocumented(s)) == s
    decreases |s|
  {
    if |s| > 0 {
      UnescapeEscapedOctet(s[0], EscapeAsDocumented(s[1..]));
      DocumentedRoundTrip(s[1..]);
      assert [s[0]] + s[1..] == s;
    }
  }

  /**
   The three-pass decoder misreads correctly escaped text: a backslash
   followed by `n` or `c` is escaped as documented to backslash, backslash,
   `n` (or `c`), and the decoder turns that into a backslash followed by a
   newline (or colon), because its first passes match inside the escaped
   backslash before the last pass can consume it.
   */
  lemma DecoderMisreadsDocumentedEscapes()
    ensures EscapeAsDocumented(ESC_NEWLINE) == ['\\', '\\', 'n']
    ensures UnescapeAsDocumented(['\\', '\\', 'n']) == ESC_NEWLINE
    ensures DecodeHeaderToken(['\\', '\\', 'n']) == [BACKSLASH, NL]
    ensures EscapeAsDocumented(ESC_COLON) == ['\\', '\\', 'c']
    ensures UnescapeAsDocumented(['\\', '\\', 'c']) == ESC_COLON
    ensures DecodeHeaderToken(['\\', '\\', 'c']) == [BACKSLASH, COLON]
  {
    DocumentedRoundTrip(ESC_NEWLINE);
    DocumentedRoundTrip(ESC_COLON);
    assert EscapeAsDocumented(ESC_NEWLINE) == ESC_BACKSLASH + EscapeAsDocumented(['n']);
    assert EscapeAsDocumented(ESC_COLON) == ESC_BACKSLASH + EscapeAsDocumented(['c']);
    DecodeEscapedNewline();
    DecodeEscapedColon();
  }
}
