/** The response `build_response` frames, and a receiver that finds its body. Strings are sequences of bytes. */
module MetricsHttp {
  import opened Results

  // ---- decimal numbers ----

  function Digit(d: nat): char
    requires d < 10
  {
    '0' + d as char
  }

  function Decimal(n: nat): (s: string)
    ensures s != "" && forall i | 0 <= i < |s| :: '0' <= s[i] <= '9'
  {
    if n < 10 then [Digit(n)] else Decimal(n / 10) + [Digit(n % 10)]
  }

  function DecimalInt(n: int): string {
    if n < 0 then "-" + Decimal(-n) else Decimal(n)
  }

  function ParseDecimal(s: string): Option<nat> {
    if s == "" then None
    else
      var c := s[|s| - 1];
      if !('0' <= c <= '9') then None
      else
        var d := c as nat - '0' as nat;
        if |s| == 1 then Some(d)
        else
          match ParseDecimal(s[..|s| - 1])
          case None => None
          case Some(n) => Some(10 * n + d)
  }

  lemma {:induction false} DecimalReadsBack(n: nat)
    ensures ParseDecimal(Decimal(n)) == Some(n)
  {
    if n >= 10 {
      DecimalReadsBack(n / 10);
      var s := Decimal(n);
      assert s[..|s| - 1] == Decimal(n / 10);
    }
  }

  // ---- lines ----

  const CRLF: string := "\r\n"

  /** The text before the first CRLF and after it. */
  function ReadLine(s: string): (r: Option<Read<string>>)
    ensures r.Some? ==> |r.value.rest| < |s|
  {
    if |s| < 2 then None
    else if s[..2] == CRLF then Some(Read("", s[2..]))
    else
      match ReadLine(s[1..])
      case None => None
      case Some(r) => Some(Read([s[0]] + r.value, r.rest))
  }

  /** Header lines up to the first empty line; what follows it is the body. */
  function ReadHead(s: string): Option<Read<seq<string>>>
    decreases |s|
  {
    match ReadLine(s)
    case None => None
    case Some(line) =>
      if line.value == "" then Some(Read([], line.rest))
      else
        match ReadHead(line.rest)
        case None => None
        case Some(more) => Some(Read([line.value] + more.value, more.rest))
  }

  const CONTENT_LENGTH: string := "Content-Length: "

  function ContentLength(headers: seq<string>): Option<nat> {
    if headers == [] then None
    else if CONTENT_LENGTH <= headers[0] then ParseDecimal(headers[0][|CONTENT_LENGTH|..])
    else ContentLength(headers[1..])
  }

  datatype Message = Message(startLine: string, body: string, excess: string)

  const VERSION: string := "HTTP/1.1 "

  predicate IsDigit(c: char) {
    '0' <= c <= '9'
  }

  /** Three digits after the version, and a blank (section 4 of RFC 9112). */
  function StatusCode(line: string): Option<nat> {
    if VERSION <= line && |line| > 12 && IsDigit(line[9]) && IsDigit(line[10]) && IsDigit(line[11]) && line[12] == ' '
    then ParseDecimal(line[9..12])
    else None
  }

  /** Responses that have no body, whatever their header says (section 6.3, item 1). */
  predicate Bodiless(code: nat) {
    100 <= code <= 199 || code == 204 || code == 304
  }

  /**
   A receiver: head, then as many bytes as the header announces, if there is a body at all;
   `excess` is whatever is left over.
   */
  function Receive(s: string): Option<Message> {
    match ReadHead(s)
    case None => None
    case Some(head) =>
      if head.value == [] || StatusCode(head.value[0]) == None then None
      else if Bodiless(StatusCode(head.value[0]).value) then Some(Message(head.value[0], "", head.rest))
      else
        match ContentLength(head.value[1..])
        case None => None
        case Some(n) =>
          if |head.rest| < n then None
          else Some(Message(head.value[0], head.rest[..n], head.rest[n..]))
  }

  // ---- the response ----

  function StatusLine(code: int): string {
    VERSION + DecimalInt(code) + " " + if code == 200 then "OK" else "Not Found"
  }

  const CONTENT_TYPE: string := "Content-Type: " + "text/plain; " + "version=0.0.4; " + "charset=utf-8"
  const CLOSE: string := "Connection: close"

  /** `build_response`. */
  function BuildResponse(body: string, code: int): string {
    StatusLine(code) + CRLF
    + (CONTENT_TYPE + CRLF
       + (CONTENT_LENGTH + Decimal(|body|) + CRLF
          + (CLOSE + CRLF
             + (CRLF + body))))
  }

  /** The two status lines the server sends... */
  lemma {:induction false} StatusLines()
    ensures StatusLine(200) == "HTTP/1.1 " + "200 OK" && StatusLine(404) == "HTTP/1.1 " + "404 Not Found"
  {
    DecimalStep(2, 0);
    DecimalStep(20, 0);
    DecimalStep(4, 0);
    DecimalStep(40, 4);
    assert Decimal(2) == [Digit(2)] && Decimal(4) == [Digit(4)];
    assert [Digit(2)] + [Digit(0)] + [Digit(0)] == "200" && [Digit(4)] + [Digit(0)] + [Digit(4)] == "404";
  }

  lemma {:induction false} DecimalStep(n: nat, d: nat)
    requires n > 0 && d < 10
    ensures Decimal(10 * n + d) == Decimal(n) + [Digit(d)]
  {
  }

  /** ...and every byte of what follows them. */
  lemma {:induction false} ResponseBytes(body: string, code: int)
    ensures BuildResponse(body, code) ==
            StatusLine(code) + "\r\n"
            + ("Content-Type: " + "text/plain; " + "version=0.0.4; " + "charset=utf-8" + "\r\n"
               + ("Content-Length: " + Decimal(|body|) + "\r\n" + ("Connection: close" + "\r\n" + ("\r\n" + body))))
  {
    assert CRLF == "\r\n" && CONTENT_LENGTH == "Content-Length: " && CLOSE == "Connection: close";
    assert CONTENT_TYPE == "Content-Type: " + "text/plain; " + "version=0.0.4; " + "charset=utf-8";
  }

  predicate IsLine(s: string) {
    s != "" && '\r' !in s
  }

  lemma {:induction false} LineReadsBack(line: string, rest: string)
    requires '\r' !in line
    ensures ReadLine(line + CRLF + rest) == Some(Read(line, rest))
  {
    var s := line + CRLF + rest;
    if line == "" {
      assert s[..2] == CRLF && s[2..] == rest;
    } else {
      LineReadsBack(line[1..], rest);
      assert s[0] == line[0] && s[1..] == line[1..] + CRLF + rest;
      assert s[..2][0] == line[0] && CRLF[0] == '\r';
      assert line == [line[0]] + line[1..];
    }
  }

  lemma {:induction false} HeadStep(line: string, rest: string)
    requires IsLine(line)
    ensures ReadHead(line + CRLF + rest) ==
            match ReadHead(rest)
            case None => None
            case Some(more) => Some(Read([line] + more.value, more.rest))
  {
    LineReadsBack(line, rest);
  }

  lemma {:induction false} HeadEnd(body: string)
    ensures ReadHead(CRLF + body) == Some(Read([], body))
  {
    LineReadsBack("", body);
    assert "" + CRLF + body == CRLF + body;
  }

  lemma {:induction false} DecimalIsPlain(n: int)
    ensures '\r' !in DecimalInt(n)
  {
    assert n < 0 ==> '\r' !in Decimal(-n);
    assert n >= 0 ==> '\r' !in Decimal(n);
  }

  lemma {:induction false} StatusIsLine(code: int)
    ensures IsLine(StatusLine(code))
  {
    DecimalIsPlain(code);
  }

  lemma {:induction false} ConstantsAreLines()
    ensures IsLine(CONTENT_TYPE) && IsLine(CLOSE) && '\r' !in CONTENT_LENGTH
  {
  }

  lemma {:induction false} HeadersAnnounce(n: nat)
    ensures ContentLength([CONTENT_TYPE, CONTENT_LENGTH + Decimal(n), CLOSE]) == Some(n)
  {
    var headers := [CONTENT_TYPE, CONTENT_LENGTH + Decimal(n), CLOSE];
    var t, l := CONTENT_TYPE, CONTENT_LENGTH;
    assert t[8] == 'T' && l[8] == 'L';
    assert headers[1..][0] == CONTENT_LENGTH + Decimal(n);
    assert (CONTENT_LENGTH + Decimal(n))[|CONTENT_LENGTH|..] == Decimal(n);
    DecimalReadsBack(n);
  }

  lemma {:induction false} DecimalLength(n: nat)
    ensures |Decimal(n)| == 3 <==> 100 <= n <= 999
    ensures n < 10 ==> |Decimal(n)| == 1
    ensures n >= 1000 ==> |Decimal(n)| > 3
    ensures 10 <= n < 100 ==> |Decimal(n)| == 2
  {
    if n >= 10 {
      DecimalLength(n / 10);
    }
  }

  /** The receiver reads the status code exactly when it has three digits. */
  lemma {:induction false} StatusReadsBack(code: int)
    ensures StatusCode(StatusLine(code)) == if 100 <= code <= 999 then Some(code) else None
  {
    var digits, reason := DecimalInt(code), " " + if code == 200 then "OK" else "Not Found";
    var line := StatusLine(code);
    assert line == VERSION + (digits + reason);
    assert forall i | 0 <= i < |digits| :: line[9 + i] == digits[i];
    assert line[9 + |digits|] == ' ';
    if code >= 0 {
      DecimalLength(code);
      if 100 <= code <= 999 {
        assert line[9..12] == digits;
        DecimalReadsBack(code);
      }
    }
  }

  /**
   Whatever the body holds, blank lines included, the receiver gets exactly the body and nothing
   is left over, provided the code has three digits and allows a body, or there is none. The
   server sends 200 and 404 only.
   */
  lemma {:induction false} ResponseReadsBack(body: string, code: int)
    ensures Receive(BuildResponse(body, code)) == Some(Message(StatusLine(code), body, ""))
            <==> 100 <= code <= 999 && (Bodiless(code) ==> body == "")
  {
    var length := CONTENT_LENGTH + Decimal(|body|);
    StatusIsLine(code);
    ConstantsAreLines();
    DecimalIsPlain(|body|);
    FourLineHead(StatusLine(code), CONTENT_TYPE, length, CLOSE, body);
    HeadersAnnounce(|body|);
    StatusReadsBack(code);
    var head := [StatusLine(code), CONTENT_TYPE, length, CLOSE];
    assert ReadHead(BuildResponse(body, code)) == Some(Read(head, body));
    assert head[1..] == [CONTENT_TYPE, length, CLOSE];
    assert body[..|body|] == body && body[|body|..] == "";
  }

  lemma {:induction false} FourLineHead(a: string, b: string, c: string, d: string, body: string)
    requires IsLine(a) && IsLine(b) && IsLine(c) && IsLine(d)
    ensures ReadHead(a + CRLF + (b + CRLF + (c + CRLF + (d + CRLF + (CRLF + body))))) == Some(Read([a, b, c, d], body))
  {
    HeadEnd(body);
    HeadStep(d, CRLF + body);
    HeadStep(c, d + CRLF + (CRLF + body));
    HeadStep(b, c + CRLF + (d + CRLF + (CRLF + body)));
    HeadStep(a, b + CRLF + (c + CRLF + (d + CRLF + (CRLF + body))));
    assert [a] + ([b] + ([c] + ([d] + []))) == [a, b, c, d];
  }
}
