/**
  server/src/bin/main.rs, `handle_connection`: the routing decision on the
  bytes read from the stream and the framing of the response. Reading the
  stream, reading the page from disk and writing the response are I/O and
  appear here as parameters and results.
*/
module Http {
  import opened Wrappers
  import opened Text

  type byte = x: int | 0 <= x < 256

  /** Size of the zero-initialised buffer the request is read into. */
  const BufferSize: nat := 1024

  /** The bytes of `GET / HTTP/1.1\r\n`, the request line of a request for the root. */
  const GetRoot: seq<byte> := [0x47, 0x45, 0x54, 0x20, 0x2F, 0x20, 0x48, 0x54, 0x54, 0x50, 0x2F, 0x31, 0x2E, 0x31, 0x0D, 0x0A]

  const Ok200 := "HTTP/1.1 200 OK"
  const NotFound404 := "HTTP/1.1 404 NOT FOUND"
  const HelloPage := "hello.html"
  const NotFoundPage := "404.html"

  datatype Route = Route(statusLine: string, filename: string)

  /**
    The buffer after one `read` into `[0; 1024]`: the bytes received (at most
    the buffer's size) followed by the zeros `read` did not overwrite.
  */
  function ReadBuffer(received: seq<byte>): (buffer: seq<byte>)
    requires |received| <= BufferSize
    ensures |buffer| == BufferSize
    ensures buffer[..|received|] == received
    ensures forall k :: |received| <= k < BufferSize ==> buffer[k] == 0
  {
    received + seq(BufferSize - |received|, _ => 0)
  }

  /** The `if buffer.starts_with(get)` that picks the status line and the page. */
  function RouteOf(buffer: seq<byte>): Route
  {
    if StartsWith(buffer, GetRoot) then Route(Ok200, HelloPage) else Route(NotFound404, NotFoundPage)
  }

  /** The decision looks at the first 16 bytes of the buffer and at nothing else. */
  lemma RouteDependsOnRequestLineOnly(b1: seq<byte>, b2: seq<byte>)
    requires |b1| >= |GetRoot| && |b2| >= |GetRoot| && b1[..|GetRoot|] == b2[..|GetRoot|]
    ensures RouteOf(b1) == RouteOf(b2)
  {
  }

  /**
    After a read of `received`, the page is `hello.html` exactly when the
    bytes received begin with the full request line; a shorter read cannot
    be completed by the buffer's zeros, since the request line holds none.
  */
  lemma {:induction false} RouteAfterRead(received: seq<byte>)
    requires |received| <= BufferSize
    ensures RouteOf(ReadBuffer(received)) == Route(Ok200, HelloPage) <==> StartsWith(received, GetRoot)
    ensures RouteOf(ReadBuffer(received)) == Route(Ok200, HelloPage) || RouteOf(ReadBuffer(received)) == Route(NotFound404, NotFoundPage)
  {
    var buffer := ReadBuffer(received);
    var n := |GetRoot|;
    if StartsWith(received, GetRoot) {
      assert buffer[..n] == buffer[..|received|][..n];
    } else if |received| >= n {
      assert buffer[..n] == received[..n];
    } else {
      assert buffer[|received|] == 0 != GetRoot[|received|];
    }
    assert Ok200 != NotFound404 by {
      assert Ok200[9] != NotFound404[9];
    }
  }

  /** A read shorter than the request line is always answered with the 404 page. */
  lemma ShortReadIsNotFound(received: seq<byte>)
    requires |received| < |GetRoot|
    ensures RouteOf(ReadBuffer(received)).filename == NotFoundPage
  {
    RouteAfterRead(received);
  }

  const HeaderStart := "\r\nContent-Length: "
  const HeaderEnd := "\r\n\r\n"

  /**
    The `format!` of the response: the status line, a `Content-Length`
    header giving the body's length in UTF-8 bytes, a blank line, the body.
  */
  function Response(statusLine: string, contents: string): string
  {
    statusLine + HeaderStart + NatToString(Utf8Len(contents)) + HeaderEnd + contents
  }

  /** What a client reads back from a response. */
  datatype Framed = Framed(statusLine: string, contentLength: nat, body: string)

  /** Position of the first carriage return in `s`, or `|s|`. */
  function IndexOfCR(s: string): (i: nat)
    ensures i <= |s|
    ensures i < |s| ==> s[i] == '\r'
    ensures '\r' !in s[..i]
  {
    if s == [] then 0
    else if s[0] == '\r' then 0
    else
      var i := 1 + IndexOfCR(s[1..]);
      assert s[..i] == [s[0]] + s[1..][..i - 1];
      i
  }

  /** Length of the run of decimal digits at the start of `s`. */
  function DigitRun(s: string): (n: nat)
    ensures n <= |s|
    ensures AllDigits(s[..n])
    ensures n < |s| ==> !IsDigit(s[n])
  {
    if s != [] && IsDigit(s[0]) then
      var n := 1 + DigitRun(s[1..]);
      assert s[..n] == [s[0]] + s[1..][..n - 1];
      n
    else 0
  }

  /**
    Split a response into its status line, its `Content-Length` value and
    its body, or `None` when it is not framed as `Response` frames it.
  */
  function ParseResponse(r: string): Option<Framed>
  {
    var i := IndexOfCR(r);
    var rest := r[i..];
    if |rest| < |HeaderStart| || rest[..|HeaderStart|] != HeaderStart then None
    else
      var value := rest[|HeaderStart|..];
      var d := DigitRun(value);
      var after := value[d..];
      if d == 0 || |after| < |HeaderEnd| || after[..|HeaderEnd|] != HeaderEnd then None
      else Some(Framed(r[..i], DigitsValue(value[..d]), after[|HeaderEnd|..]))
  }

  lemma {:induction false} DigitRunOfNumber(digits: string, tail: string)
    requires AllDigits(digits) && tail != [] && !IsDigit(tail[0])
    ensures DigitRun(digits + tail) == |digits|
    decreases |digits|
  {
    var s := digits + tail;
    if digits == [] {
      assert s[0] == tail[0];
    } else {
      assert s[0] == digits[0] && IsDigit(s[0]);
      assert s[1..] == digits[1..] + tail;
      assert AllDigits(digits[1..]);
      DigitRunOfNumber(digits[1..], tail);
    }
  }

  /**
    A response reads back as its status line, a `Content-Length` equal to
    the UTF-8 length of the body, and the body, whenever the status line
    holds no carriage return (both status lines hold none).
  */
  lemma ResponseRoundTrip(statusLine: string, contents: string)
    requires '\r' !in statusLine
    ensures ParseResponse(Response(statusLine, contents)) == Some(Framed(statusLine, Utf8Len(contents), contents))
  {
    var digits := NatToString(Utf8Len(contents));
    var r := Response(statusLine, contents);
    var tail := HeaderEnd + contents;
    assert r == statusLine + (HeaderStart + (digits + tail));
    assert IndexOfCR(r) == |statusLine| by {
      assert r[..|statusLine|] == statusLine;
      assert r[|statusLine|] == '\r';
    }
    var rest := r[|statusLine|..];
    assert rest == HeaderStart + (digits + tail);
    var value := rest[|HeaderStart|..];
    assert value == digits + tail;
    assert tail[0] == '\r';
    DigitRunOfNumber(digits, tail);
    assert value[..|digits|] == digits;
    assert value[|digits|..] == tail;
    assert tail[..|HeaderEnd|] == HeaderEnd;
    assert tail[|HeaderEnd|..] == contents;
    DigitsRoundTrip(Utf8Len(contents));
    assert r[..|statusLine|] == statusLine;
  }

  /**
    `handle_connection` without its I/O: route the bytes received, then
    frame the page the route names. `hello` and `notFound` are what
    `hello.html` and `404.html` hold.
  */
  function HandleConnection(received: seq<byte>, hello: string, notFound: string): (response: string)
    requires |received| <= BufferSize
  {
    var route := RouteOf(ReadBuffer(received));
    var contents := if route.filename == HelloPage then hello else notFound;
    Response(route.statusLine, contents)
  }

  /**
    A request for the root is answered 200 with `hello.html`, anything else
    404 with `404.html`, each with a matching `Content-Length`.
  */
  lemma HandleConnectionAnswers(received: seq<byte>, hello: string, notFound: string)
    requires |received| <= BufferSize
    ensures StartsWith(received, GetRoot) ==>
      ParseResponse(HandleConnection(received, hello, notFound)) == Some(Framed(Ok200, Utf8Len(hello), hello))
    ensures !StartsWith(received, GetRoot) ==>
      ParseResponse(HandleConnection(received, hello, notFound)) == Some(Framed(NotFound404, Utf8Len(notFound), notFound))
  {
    RouteAfterRead(received);
    assert HelloPage != NotFoundPage by {
      assert HelloPage[0] != NotFoundPage[0];
    }
    assert '\r' !in Ok200 && '\r' !in NotFound404;
    ResponseRoundTrip(Ok200, hello);
    ResponseRoundTrip(NotFound404, notFound);
  }
}
