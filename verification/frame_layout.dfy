/**
 Reading back the head of an encoded frame. This is a line reader written
 against the layout only (it is not the library's parser, which is not part of
 this model): it splits the wire at newlines until the first empty line. The
 lemmas show that every encoded frame whose command holds no newline reads
 back as the command line, one `key:value` line per header whose first colon
 separates the escaped key from the escaped value, and a `content-length` line
 exactly when the body is not empty.
 */
module FrameLayout {
  import opened Octets
  import opened Results
  import opened HeaderToken
  import opened StompFrame

  /** Splits `s` at the first `sep`: the octets before it and the octets after it. */
  function SplitAtFirst(s: Bytes, sep: Octet): (r: Option<(Bytes, Bytes)>)
    ensures r.None? <==> sep !in s
    ensures r.Some? ==> sep !in r.value.0 && s == r.value.0 + [sep] + r.value.1
    decreases |s|
  {
    if |s| == 0 then None
    else if s[0] == sep then Some(([], s[1..]))
    else
      match SplitAtFirst(s[1..], sep)
      case None => None
      case Some((before, after)) => Some(([s[0]] + before, after))
  }

  lemma {:induction false} SplitAtFirstOf(before: Bytes, sep: Octet, after: Bytes)
    requires sep !in before
    ensures SplitAtFirst(before + [sep] + after, sep) == Some((before, after))
    decreases |before|
  {
    if |before| > 0 {
      assert before[0] in before;
      assert (before + [sep] + after)[1..] == before[1..] + [sep] + after;
      SplitAtFirstOf(before[1..], sep, after);
      assert [before[0]] + before[1..] == before;
    } else {
      assert (before + [sep] + after)[1..] == after;
    }
  }

  /** Each line followed by its newline. */
  function JoinLines(lines: seq<Bytes>): Bytes {
    if |lines| == 0 then [] else lines[0] + [NL] + JoinLines(lines[1..])
  }

  predicate ProperLines(lines: seq<Bytes>) {
    forall i :: 0 <= i < |lines| ==> |lines[i]| > 0 && NL !in lines[i]
  }

  /** Reads non-empty lines up to the first empty one; yields them and what follows the empty line. */
  function ReadHead(s: Bytes): (r: Option<(seq<Bytes>, Bytes)>)
    ensures r.Some? ==> ProperLines(r.value.0) && s == JoinLines(r.value.0) + [NL] + r.value.1
    decreases |s|
  {
    match SplitAtFirst(s, NL)
    case None => None
    case Some((line, rest)) =>
      if |line| == 0 then Some(([], rest))
      else
        match ReadHead(rest)
        case None => None
        case Some((lines, tail)) =>
          assert ([line] + lines)[1..] == lines;
          Some(([line] + lines, tail))
  }

  lemma {:induction false} JoinLinesAppend(a: seq<Bytes>, b: seq<Bytes>)
    ensures JoinLines(a + b) == JoinLines(a) + JoinLines(b)
    decreases |a|
  {
    if |a| > 0 {
      assert (a + b)[1..] == a[1..] + b;
      JoinLinesAppend(a[1..], b);
    } else {
      assert a + b == b;
    }
  }

  /** The reader recovers exactly the lines that were joined. */
  lemma {:induction false} ReadHeadOf(lines: seq<Bytes>, tail: Bytes)
    requires ProperLines(lines)
    ensures ReadHead(JoinLines(lines) + [NL] + tail) == Some((lines, tail))
    decreases |lines|
  {
    if |lines| == 0 {
      SplitAtFirstOf([], NL, tail);
      assert JoinLines(lines) + [NL] + tail == [] + [NL] + tail;
    } else {
      var rest := JoinLines(lines[1..]) + [NL] + tail;
      assert JoinLines(lines) + [NL] + tail == lines[0] + [NL] + rest;
      SplitAtFirstOf(lines[0], NL, rest);
      ReadHeadOf(lines[1..], tail);
      assert [lines[0]] + lines[1..] == lines;
    }
  }

  /** The header lines of a header map, in iteration order. */
  function HeaderLines(headers: seq<(Bytes, Bytes)>): (r: seq<Bytes>)
    ensures |r| == |headers|
    ensures forall i :: 0 <= i < |headers| ==> r[i] == HeaderLine(headers[i].0, headers[i].1)
  {
    if |headers| == 0 then [] else [HeaderLine(headers[0].0, headers[0].1)] + HeaderLines(headers[1..])
  }

  lemma {:induction false} JoinLinesCons(line: Bytes, rest: seq<Bytes>)
    ensures JoinLines([line] + rest) == line + [NL] + JoinLines(rest)
  {
    assert ([line] + rest)[1..] == rest;
  }

  lemma {:induction false} HeaderBlockLines(headers: seq<(Bytes, Bytes)>)
    ensures HeaderBlock(headers) == JoinLines(HeaderLines(headers))
    decreases |headers|
  {
    if |headers| > 0 {
      HeaderBlockLines(headers[1..]);
      JoinLinesCons(HeaderLine(headers[0].0, headers[0].1), HeaderLines(headers[1..]));
    }
  }

  /** The lines of the head the encoder writes, in order. */
  function HeadLines(f: Frame): (r: seq<Bytes>)
    ensures |r| == 1 + |f.headers| + (if |f.body| > 0 then 1 else 0)
    ensures r[0] == f.command
    ensures forall i :: 0 <= i < |f.headers| ==> r[i + 1] == HeaderLine(f.headers[i].0, f.headers[i].1)
    ensures |f.body| > 0 ==> r[|f.headers| + 1] == ContentLengthLine(|f.body|)
  {
    [f.command] + HeaderLines(f.headers) + ContentLengthLines(f.body)
  }

  function ContentLengthLines(body: Bytes): (r: seq<Bytes>)
    ensures JoinLines(r) == ContentLengthBlock(body)
  {
    if |body| > 0 then
      var r := [ContentLengthLine(|body|)];
      assert r[1..] == [];
      r
    else []
  }

  lemma JoinHeadLines(f: Frame)
    ensures JoinLines(HeadLines(f)) == f.command + [NL] + (HeaderBlock(f.headers) + ContentLengthBlock(f.body))
  {
    var hl, cl := HeaderLines(f.headers), ContentLengthLines(f.body);
    var hb, cb := HeaderBlock(f.headers), ContentLengthBlock(f.body);
    assert f.command + [NL] + hb + cb == f.command + [NL] + (hb + cb);
    JoinLinesAppend([f.command] + hl, cl);
    JoinLinesCons(f.command, hl);
    HeaderBlockLines(f.headers);
  }

  lemma EncodeIsHeadLines(f: Frame)
    requires |f.command| > 0
    ensures Encode(f) == Success(JoinLines(HeadLines(f)) + [NL] + (f.body + [NUL]))
  {
    JoinHeadLines(f);
    var head := JoinLines(HeadLines(f));
    assert head + [NL] + f.body + [NUL] == head + [NL] + (f.body + [NUL]);
  }

  lemma HeaderLineProper(key: Bytes, value: Bytes)
    ensures |HeaderLine(key, value)| > 0 && NL !in HeaderLine(key, value)
  {
    var k, v := EncodeHeaderToken(key), EncodeHeaderToken(value);
    assert NL !in k && NL !in v;
    assert HeaderLine(key, value) == k + [COLON] + v;
  }

  lemma ContentLengthLineProper(size: nat)
    ensures |ContentLengthLine(size)| > 0 && NL !in ContentLengthLine(size)
  {
    var digits := Decimal(size);
    assert forall j :: 0 <= j < |digits| ==> IsDigit(digits[j]);
    assert NL !in CONTENT_LENGTH;
  }

  lemma HeadLinesProper(f: Frame)
    requires |f.command| > 0 && NL !in f.command
    ensures ProperLines(HeadLines(f))
  {
    var ls := HeadLines(f);
    forall i | 0 <= i < |ls|
      ensures |ls[i]| > 0 && NL !in ls[i]
    {
      if 1 <= i < 1 + |f.headers| {
        var k := i - 1;
        assert ls[k + 1] == HeaderLine(f.headers[k].0, f.headers[k].1);
        HeaderLineProper(f.headers[k].0, f.headers[k].1);
      } else if i == 1 + |f.headers| {
        ContentLengthLineProper(|f.body|);
      }
    }
  }

  /** What the line reader finds in the head lines the encoder writes. */
  lemma HeadLinesShape(f: Frame)
    ensures forall i :: 0 <= i < |f.headers| ==>
              SplitAtFirst(HeadLines(f)[i + 1], COLON)
              == Some((EncodeHeaderToken(f.headers[i].0), EncodeHeaderToken(f.headers[i].1)))
    ensures |f.body| > 0 ==>
              SplitAtFirst(HeadLines(f)[|f.headers| + 1], COLON) == Some((CONTENT_LENGTH, Decimal(|f.body|)))
  {
    var ls := HeadLines(f);
    forall i | 0 <= i < |f.headers|
      ensures SplitAtFirst(ls[i + 1], COLON)
              == Some((EncodeHeaderToken(f.headers[i].0), EncodeHeaderToken(f.headers[i].1)))
    {
      SplitAtFirstOf(EncodeHeaderToken(f.headers[i].0), COLON, EncodeHeaderToken(f.headers[i].1));
    }
    if |f.body| > 0 {
      SplitAtFirstOf(CONTENT_LENGTH, COLON, Decimal(|f.body|));
    }
  }

  /**
   The head of every encoded frame whose command holds no newline reads back
   line by line: the command, one line per header that splits at its first
   colon into the escaped key and the escaped value, then a content-length
   line carrying the body size exactly when the body is not empty. What
   follows the blank line is the body and the NUL octet.
   */
  lemma EncodeReadsBack(f: Frame)
    requires |f.command| > 0 && NL !in f.command
    ensures Encode(f).Success?
    ensures ReadHead(Encode(f).value) == Some((HeadLines(f), f.body + [NUL]))
    ensures |HeadLines(f)| == 1 + |f.headers| + (if |f.body| > 0 then 1 else 0)
    ensures HeadLines(f)[0] == f.command
    ensures forall i :: 0 <= i < |f.headers| ==>
              SplitAtFirst(HeadLines(f)[i + 1], COLON)
              == Some((EncodeHeaderToken(f.headers[i].0), EncodeHeaderToken(f.headers[i].1)))
    ensures |f.body| > 0 ==>
              var field := SplitAtFirst(HeadLines(f)[|f.headers| + 1], COLON);
              && field.Some?
              && field.value.0 == CONTENT_LENGTH
              && AllDigits(field.value.1)
              && ParseDecimal(field.value.1) == |f.body|
  {
    EncodeIsHeadLines(f);
    HeadLinesProper(f);
    ReadHeadOf(HeadLines(f), f.body + [NUL]);
    HeadLinesShape(f);
    if |f.body| > 0 {
      var digits := Decimal(|f.body|);
      assert AllDigits(digits) && ParseDecimal(digits) == |f.body|;
    }
  }

  /**
   A caller's own `content-length` header is written like any other header,
   so a frame with a non-empty body then carries two content-length lines:
   the caller's, at its place in the header order, and the computed one after
   all headers.
   */
  lemma CallerContentLengthKept(f: Frame, k: nat)
    requires |f.command| > 0 && NL !in f.command && |f.body| > 0
    requires k < |f.headers| && f.headers[k].0 == CONTENT_LENGTH
    ensures Encode(f).Success? && ReadHead(Encode(f).value) == Some((HeadLines(f), f.body + [NUL]))
    ensures |HeadLines(f)| == |f.headers| + 2
    ensures SplitAtFirst(HeadLines(f)[k + 1], COLON) == Some((CONTENT_LENGTH, EncodeHeaderToken(f.headers[k].1)))
    ensures SplitAtFirst(HeadLines(f)[|f.headers| + 1], COLON) == Some((CONTENT_LENGTH, Decimal(|f.body|)))
  {
    EncodeReadsBack(f);
    HeadLinesShape(f);
    ContentLengthNamePlain();
  }

  /**
   Header escaping does not depend on the command: the header lines of a
   CONNECT or CONNECTED frame are escaped like those of any other frame, so a
   colon in a value goes out as backslash, backslash, `c`.
   */
  lemma HandshakeHeadersEscaped(f: Frame, k: nat)
    requires f.command == CONNECT || f.command == CONNECTED
    requires k < |f.headers|
    ensures SplitAtFirst(HeadLines(f)[k + 1], COLON)
            == Some((EncodeHeaderToken(f.headers[k].0), EncodeHeaderToken(f.headers[k].1)))
    ensures COLON in f.headers[k].1 || NL in f.headers[k].1 ==> EncodeHeaderToken(f.headers[k].1) != f.headers[k].1
    ensures f.headers[k].1 == COLON_TEXT ==> EncodeHeaderToken(f.headers[k].1) == ['\\', '\\', 'c']
  {
    HeadLinesShape(f);
    EncodeNotInjective();
  }

  /** The name `content-length` has no octet that needs escaping. */
  lemma ContentLengthNamePlain()
    ensures EncodeHeaderToken(CONTENT_LENGTH) == CONTENT_LENGTH
  {
    assert NL !in CONTENT_LENGTH && COLON !in CONTENT_LENGTH && BACKSLASH !in CONTENT_LENGTH;
  }
}
