/** The smart-HTTP front end (dulwich/swift-web.py): the request object and
    its responses, the route table and its dispatch, the `info/refs`
    advertisement and service requests, the `url_prefix` normalisation, and
    the Content-Length input limit.

    `start_response` is represented by the list of responses a request has
    started; the pkt-lines written through the `write` callable it returns
    are recorded in order (None for a flush-pkt). The git protocol handlers
    are foreign: only the repository path a handler is started on is
    recorded. `open_repository` is a predicate saying whether the backend
    opens the repository at a path. */
module SwiftWeb {
  import opened Wrappers

  const HTTP_OK: string := "200 OK"
  const HTTP_NOT_FOUND: string := "404 Not Found"
  const HTTP_ERROR: string := "500 Internal Server Error"
  const HTTP_FORBIDDEN: string := "403 Forbidden"
  const NOT_SUPPORTED: string := "Sorry, that method is not supported"
  const TEXT_PLAIN: string := "text/plain"

  /** The statuses the application answers with. */
  datatype Status = HttpOk | HttpNotFound | HttpForbidden | HttpError

  /** The status line sent for a status. */
  function StatusLine(s: Status): string {
    match s
    case HttpOk => HTTP_OK
    case HttpNotFound => HTTP_NOT_FOUND
    case HttpForbidden => HTTP_FORBIDDEN
    case HttpError => HTTP_ERROR
  }

  /* ---------------------------------------------------------------- input */

  /** The server's raw `wsgi.input`: a byte stream read from `pos` on. */
  class InputStream {
    const data: string
    var pos: nat

    ghost predicate Valid()
      reads this
    {
      pos <= |data|
    }

    constructor (data: string)
      ensures Valid() && this.data == data && pos == 0
    {
      this.data := data;
      pos := 0;
    }

    /** `read(n)`: up to `n` bytes, or the whole rest for a negative `n`. */
    method Read(n: int) returns (s: string)
      requires Valid()
      modifies this
      ensures Valid()
      ensures s == ReadFrom(data, old(pos), n) && pos == old(pos) + |s|
    {
      s := ReadFrom(data, pos, n);
      pos := pos + |s|;
    }
  }

  function Min(a: int, b: int): int {
    if a <= b then a else b
  }

  /** What a file's `read(n)` returns at `pos`: the rest of the data for a
      negative `n`, otherwise at most `n` bytes. */
  function ReadFrom(data: string, pos: nat, n: int): (s: string)
    requires pos <= |data|
    ensures pos + |s| <= |data| && s == data[pos..pos + |s|]
    ensures n < 0 ==> s == data[pos..]
    ensures n >= 0 ==> |s| == Min(n, |data| - pos)
  {
    if n < 0 then data[pos..] else data[pos..pos + Min(n, |data| - pos)]
  }

  /** The size `_LengthLimitedFile.read` passes on, as written: only -1 and
      sizes above the budget are clamped to it. */
  function ClampAsWritten(size: int, avail: int): int {
    if size == -1 || size > avail then avail else size
  }

  /** The size passed on, with every negative size treated as "all of the
      budget", as -1 is. */
  function Clamp(size: int, avail: int): (n: int)
    ensures 0 <= size <= avail ==> n == size
    ensures size < 0 || size > avail ==> n == avail
  {
    if size < 0 || size > avail then avail else size
  }

  /** With a positive budget, the size passed on never exceeds it and never
      reads to the end of the input. */
  lemma ClampWithinBudget(size: int, avail: int)
    requires avail > 0
    ensures 0 <= Clamp(size, avail) <= avail
    ensures ClampAsWritten(size, avail) == Clamp(size, avail) || size < -1
  {
  }

  /** A negative size other than -1 slips past the clamp as written: the
      budget grows, and the underlying read takes the whole input. */
  lemma NegativeSizeEscapesLimit()
    ensures ClampAsWritten(-2, 5) == -2 && 5 - ClampAsWritten(-2, 5) == 7
    ensures |ReadFrom("0123456789", 0, ClampAsWritten(-2, 5))| == 10
    ensures |ReadFrom("0123456789", 0, Clamp(-2, 5))| == 5
  {
    assert ReadFrom("0123456789", 0, -2) == "0123456789"[0..];
  }

  /** `_LengthLimitedFile`: reads of `input` within a budget of `maxBytes`
      bytes. `requested` is the total size asked of `input`, and `start`
      the input position when the wrapper was made. */
  class LengthLimitedFile {
    const input: InputStream
    const maxBytes: int
    var avail: int
    ghost var requested: nat
    ghost const start: nat

    ghost predicate Valid()
      reads this, input
    {
      input.Valid() &&
      (maxBytes <= 0 ==> avail == maxBytes && requested == 0) &&
      (maxBytes > 0 ==> 0 <= avail && requested + avail == maxBytes) &&
      start <= input.pos <= start + requested
    }

    constructor (input: InputStream, maxBytes: int)
      requires input.Valid()
      ensures Valid() && this.input == input && this.maxBytes == maxBytes
      ensures avail == maxBytes && requested == 0 && start == input.pos
    {
      this.input := input;
      this.maxBytes := maxBytes;
      avail := maxBytes;
      requested := 0;
      start := input.pos;
    }

    /** `read(size)`: nothing, and no read of `input`, once the budget is
        spent; otherwise the clamped size is taken from the budget and
        read from `input`. */
    method Read(size: int) returns (s: string)
      requires Valid()
      modifies this, input
      ensures Valid()
      ensures old(avail) <= 0 ==> s == "" && avail == old(avail) && input.pos == old(input.pos)
      ensures old(avail) > 0 ==>
        avail == old(avail) - Clamp(size, old(avail)) &&
        s == ReadFrom(input.data, old(input.pos), Clamp(size, old(avail))) &&
        input.pos == old(input.pos) + |s|
      ensures |s| <= if old(avail) > 0 then old(avail) else 0
      ensures input.pos - start <= requested <= if maxBytes > 0 then maxBytes else 0
    {
      if avail <= 0 {
        return "";
      }
      var n := Clamp(size, avail);
      ClampWithinBudget(size, avail);
      avail := avail - n;
      requested := requested + n;
      s := input.Read(n);
    }
  }

  /* ------------------------------------------------------- Content-Length */

  predicate IsSpace(c: char) {
    c == ' ' || 9 <= c as int <= 13
  }

  predicate IsDigit(c: char) {
    '0' <= c <= '9'
  }

  predicate AllDigits(s: string) {
    forall i :: 0 <= i < |s| ==> IsDigit(s[i])
  }

  function StripSpace(s: string): (r: string)
    ensures |r| <= |s|
    ensures r == [] || (!IsSpace(r[0]) && !IsSpace(r[|r| - 1]))
    ensures s != [] && !IsSpace(s[0]) && !IsSpace(s[|s| - 1]) ==> r == s
    decreases |s|
  {
    if s == [] then s
    else if IsSpace(s[0]) then StripSpace(s[1..])
    else if IsSpace(s[|s| - 1]) then StripSpace(s[..|s| - 1])
    else s
  }

  /** `s` is its slice `[i..j]` with only whitespace around it. */
  ghost predicate SpaceAround(s: string, i: nat, j: nat) {
    i <= j <= |s| &&
    (forall k :: 0 <= k < i ==> IsSpace(s[k])) &&
    (forall k :: j <= k < |s| ==> IsSpace(s[k]))
  }

  /** Whitespace around a slice of `s[1..]` is whitespace around the same
      text in `s` when `s` starts with whitespace. */
  lemma SpaceAroundFirst(s: string, i: nat, j: nat)
    requires s != [] && IsSpace(s[0]) && SpaceAround(s[1..], i, j)
    ensures SpaceAround(s, i + 1, j + 1) && s[1..][i..j] == s[i + 1..j + 1]
  {
    var t := s[1..];
    forall k | 0 <= k < i + 1
      ensures IsSpace(s[k])
    {
      if k > 0 {
        assert s[k] == t[k - 1];
      }
    }
    forall k | j + 1 <= k < |s|
      ensures IsSpace(s[k])
    {
      assert s[k] == t[k - 1];
    }
  }

  /** Likewise for a slice of `s[..|s| - 1]` when `s` ends with whitespace. */
  lemma SpaceAroundLast(s: string, i: nat, j: nat)
    requires s != [] && IsSpace(s[|s| - 1]) && SpaceAround(s[..|s| - 1], i, j)
    ensures SpaceAround(s, i, j) && s[..|s| - 1][i..j] == s[i..j]
  {
    var t := s[..|s| - 1];
    forall k | j <= k < |s|
      ensures IsSpace(s[k])
    {
      if k < |s| - 1 {
        assert s[k] == t[k];
      }
    }
  }

  /** `strip()` removes only whitespace, and only at the two ends: the
      result is a slice of `s` with nothing but whitespace around it. */
  lemma {:induction false} StripSpaceSlice(s: string) returns (i: nat, j: nat)
    ensures SpaceAround(s, i, j) && StripSpace(s) == s[i..j]
    decreases |s|
  {
    if s == [] {
      i, j := 0, 0;
    } else if IsSpace(s[0]) {
      var i', j' := StripSpaceSlice(s[1..]);
      SpaceAroundFirst(s, i', j');
      i, j := i' + 1, j' + 1;
    } else if IsSpace(s[|s| - 1]) {
      i, j := StripSpaceSlice(s[..|s| - 1]);
      SpaceAroundLast(s, i, j);
    } else {
      i, j := 0, |s|;
    }
  }

  /** The value of a string of decimal digits. */
  function DigitsValue(s: string): (n: nat)
    requires AllDigits(s)
    decreases |s|
  {
    if s == [] then 0
    else 10 * DigitsValue(s[..|s| - 1]) + (s[|s| - 1] as int - '0' as int)
  }

  /** `int(s)` on a string: surrounding whitespace, an optional sign and at
      least one decimal digit; anything else raises ValueError. */
  function ParseInt(s: string): (r: Result<int>)
    ensures r.Err? ==> r.error == ValueError
    ensures AllDigits(s) && s != [] ==> r == Ok(DigitsValue(s))
  {
    var t := StripSpace(s);
    if |t| > 1 && (t[0] == '-' || t[0] == '+') && AllDigits(t[1..]) then
      var v: int := DigitsValue(t[1..]);
      Ok(if t[0] == '-' then -v else v)
    else if t != [] && AllDigits(t) then Ok(DigitsValue(t))
    else Err(ValueError)
  }

  /** The decimal form of a natural number, as a server writes
      Content-Length. */
  function ShowNat(n: nat): (s: string)
    ensures s != [] && AllDigits(s)
  {
    (if n < 10 then "" else ShowNat(n / 10)) + [('0' as int + n % 10) as char]
  }

  lemma {:induction false} ShowNatValue(n: nat)
    ensures DigitsValue(ShowNat(n)) == n
  {
    var s := ShowNat(n);
    assert s[..|s| - 1] == if n < 10 then "" else ShowNat(n / 10);
    if n >= 10 {
      ShowNatValue(n / 10);
    }
  }

  /** A Content-Length written in decimal is read back as the same length. */
  lemma ContentLengthRoundTrip(n: nat)
    ensures ParseInt(ShowNat(n)) == Ok(n)
  {
    ShowNatValue(n);
  }

  /** `wsgi.input`: the server's own stream, or the length-limited wrapper
      `LimitedInputFilter` puts in its place. */
  datatype Input = Raw(stream: InputStream) | Limited(file: LengthLimitedFile)

  /** The parts of the WSGI environ the application reads: the method,
      PATH_INFO, the `service` query parameter (the first value `parse_qs`
      finds in QUERY_STRING), CONTENT_LENGTH if present, and `wsgi.input`. */
  datatype Environ = Environ(
    verb: string,
    path: string,
    service: Option<string>,
    contentLength: Option<string>,
    input: Input)

  /* ------------------------------------------------------------- requests */

  datatype Header = Header(name: string, value: string)

  /** One call of `start_response`: the status line and the header list. */
  datatype StartedResponse = StartedResponse(status: string, headers: seq<Header>)

  /** The header `respond` adds for a content type: none when it is absent
      or empty. */
  function ContentTypeHeaders(contentType: Option<string>): (hs: seq<Header>)
    ensures contentType.Some? && contentType.value != "" ==> hs == [Header("Content-Type", contentType.value)]
    ensures contentType.None? || contentType.value == "" ==> hs == []
  {
    if contentType.Some? && contentType.value != "" then [Header("Content-Type", contentType.value)] else []
  }

  /** `HTTPGitRequest`: the environ, the service handlers, the pending
      headers and cache headers, and what has been sent. */
  class HTTPGitRequest {
    const environ: Environ
    const handlers: set<string>
    var headers: seq<Header>
    var cacheHeaders: seq<Header>
    var started: seq<StartedResponse>
    var written: seq<Option<string>>
    var handled: Option<string>

    constructor (environ: Environ, handlers: set<string>)
      ensures this.environ == environ && this.handlers == handlers
      ensures headers == [] && cacheHeaders == [] && started == [] && written == [] && handled == None
    {
      this.environ := environ;
      this.handlers := handlers;
      headers := [];
      cacheHeaders := [];
      started := [];
      written := [];
      handled := None;
    }

    /** `add_header`. */
    method AddHeader(name: string, value: string)
      modifies this
      ensures headers == old(headers) + [Header(name, value)]
      ensures cacheHeaders == old(cacheHeaders) && started == old(started)
      ensures written == old(written) && handled == old(handled)
    {
      headers := headers + [Header(name, value)];
    }

    /** `respond`: the caller's headers, then the Content-Type, then the
        cache headers are appended, and the response is started with the
        whole list. */
    method Respond(status: string, contentType: Option<string>, extra: seq<Header>)
      modifies this
      ensures headers == old(headers) + extra + ContentTypeHeaders(contentType) + old(cacheHeaders)
      ensures started == old(started) + [StartedResponse(status, headers)]
      ensures cacheHeaders == old(cacheHeaders) && written == old(written) && handled == old(handled)
    {
      if extra != [] {
        headers := headers + extra;
      }
      headers := headers + ContentTypeHeaders(contentType);
      headers := headers + cacheHeaders;
      started := started + [StartedResponse(status, headers)];
    }

    /** `not_found`, `error` and `forbidden`: drop the cache headers, start
        a plain-text response with `status`, and return the message. */
    method Reject(status: Status, message: string) returns (body: string)
      modifies this
      ensures body == message && cacheHeaders == []
      ensures headers == old(headers) + [Header("Content-Type", TEXT_PLAIN)]
      ensures started == old(started) + [StartedResponse(StatusLine(status), headers)]
      ensures written == old(written) && handled == old(handled)
    {
      cacheHeaders := [];
      Respond(StatusLine(status), Some(TEXT_PLAIN), []);
      body := message;
    }

    /** `not_found`. */
    method NotFound(message: string) returns (body: string)
      modifies this
      ensures body == message && cacheHeaders == []
      ensures headers == old(headers) + [Header("Content-Type", TEXT_PLAIN)]
      ensures started == old(started) + [StartedResponse(HTTP_NOT_FOUND, headers)]
      ensures written == old(written) && handled == old(handled)
    {
      body := Reject(HttpNotFound, message);
    }

    /** `error`. */
    method Error(message: string) returns (body: string)
      modifies this
      ensures body == message && cacheHeaders == []
      ensures headers == old(headers) + [Header("Content-Type", TEXT_PLAIN)]
      ensures started == old(started) + [StartedResponse(HTTP_ERROR, headers)]
      ensures written == old(written) && handled == old(handled)
    {
      body := Reject(HttpError, message);
    }

    /** `forbidden`, which the handlers call but the class as written does
        not define; here it answers 403 like `not_found` answers 404. */
    method Forbidden(message: string) returns (body: string)
      modifies this
      ensures body == message && cacheHeaders == []
      ensures headers == old(headers) + [Header("Content-Type", TEXT_PLAIN)]
      ensures started == old(started) + [StartedResponse(HTTP_FORBIDDEN, headers)]
      ensures written == old(written) && handled == old(handled)
    {
      body := Reject(HttpForbidden, message);
    }
  }

  /* ------------------------------------------------------ matches, prefix */

  /** A regex match: the searched string, where the match starts, and the
      matched text. */
  datatype Match = Match(subject: string, start: nat, group: string)

  predicate EndsWith(s: string, t: string) {
    |t| <= |s| && s[|s| - |t|..] == t
  }

  /** `re.compile(lit + '$').search(s)` for a literal `lit`: `$` matches at
      the end or just before a final newline, and the leftmost match wins. */
  function SearchSuffix(s: string, lit: string): (m: Option<Match>)
    ensures m.Some? <==> EndsWith(s, lit) || EndsWith(s, lit + "\n")
    ensures m.Some? ==> m.value.subject == s && m.value.group == lit
    ensures m.Some? ==> m.value.start + |lit| <= |s| && s[m.value.start..m.value.start + |lit|] == lit
    ensures m.Some? ==> m.value.start + |lit| == |s| || m.value.start + |lit| + 1 == |s|
  {
    if EndsWith(s, lit + "\n") then
      assert s[|s| - |lit| - 1..|s| - 1] == (lit + "\n")[..|lit|];
      Some(Match(s, |s| - |lit| - 1, lit))
    else if EndsWith(s, lit) then Some(Match(s, |s| - |lit|, lit))
    else None
  }

  predicate AllSlashes(s: string) {
    forall i :: 0 <= i < |s| ==> s[i] == '/'
  }

  /** How many `/` begin `s`. */
  function LeadingSlashes(s: string): (n: nat)
    ensures n <= |s| && (n < |s| ==> s[n] != '/')
    decreases |s|
  {
    if s != [] && s[0] == '/' then 1 + LeadingSlashes(s[1..]) else 0
  }

  /** How many `/` end `s`. */
  function TrailingSlashes(s: string): (n: nat)
    ensures n <= |s| && (n < |s| ==> s[|s| - 1 - n] != '/')
    decreases |s|
  {
    if s != [] && s[|s| - 1] == '/' then 1 + TrailingSlashes(s[..|s| - 1]) else 0
  }

  /** `lstrip('/')`. */
  function StripLeft(s: string): (r: string)
    ensures r == [] || r[0] != '/'
  {
    s[LeadingSlashes(s)..]
  }

  /** `rstrip('/')`. */
  function StripRight(s: string): (r: string)
    ensures r == [] || r[|r| - 1] != '/'
  {
    s[..|s| - TrailingSlashes(s)]
  }

  /** The leading run `lstrip` removes is slashes only. */
  lemma {:induction false} LeadingAreSlashes(s: string)
    ensures AllSlashes(s[..LeadingSlashes(s)])
    decreases |s|
  {
    if s != [] && s[0] == '/' {
      LeadingAreSlashes(s[1..]);
      assert s[..LeadingSlashes(s)] == [s[0]] + s[1..][..LeadingSlashes(s[1..])];
    }
  }

  /** The trailing run `rstrip` removes is slashes only. */
  lemma {:induction false} TrailingAreSlashes(s: string)
    ensures AllSlashes(s[|s| - TrailingSlashes(s)..])
    decreases |s|
  {
    if s != [] && s[|s| - 1] == '/' {
      var t := s[..|s| - 1];
      TrailingAreSlashes(t);
      var n := TrailingSlashes(s);
      assert n == 1 + TrailingSlashes(t);
      var tail, tail' := s[|s| - n..], t[|t| - (n - 1)..];
      forall j | 0 <= j < |tail|
        ensures tail[j] == '/'
      {
        if j < n - 1 {
          assert tail'[j] == tail[j];
        }
      }
    }
  }

  /** The text `url_prefix` works on: the subject before the match, or
      all of it for a start beyond the end, as Python slicing does. */
  function TextBefore(m: Match): string {
    if m.start <= |m.subject| then m.subject[..m.start] else m.subject
  }

  /** `url_prefix(mat)`: the text before the match with every leading and
      trailing `/` removed, behind exactly one `/`. */
  function UrlPrefix(m: Match): (r: string)
    ensures |r| >= 1 && r[0] == '/'
    ensures |r| > 1 ==> r[1] != '/' && r[|r| - 1] != '/'
  {
    "/" + StripRight(StripLeft(TextBefore(m)))
  }

  /** Stripping `/` from both ends leaves a slice of the text between two
      runs of slashes. */
  lemma StripOnlySlashes(t: string)
    ensures var a, core := LeadingSlashes(t), StripRight(StripLeft(t));
      a + |core| <= |t| && AllSlashes(t[..a]) && t[a..a + |core|] == core && AllSlashes(t[a + |core|..])
  {
    var a := LeadingSlashes(t);
    var left := t[a..];
    var b := TrailingSlashes(left);
    var core := left[..|left| - b];
    assert StripRight(StripLeft(t)) == core;
    LeadingAreSlashes(t);
    TrailingAreSlashes(left);
    assert t[a..a + |core|] == core;
    assert t[a + |core|..] == left[|left| - b..];
  }

  /** `url_prefix` only removes slashes: the text before the match is the
      prefix's core with runs of slashes before and after it. */
  lemma UrlPrefixOnlyStrips(m: Match)
    ensures var t, core := TextBefore(m), UrlPrefix(m)[1..];
      var a := LeadingSlashes(t);
      a + |core| <= |t| && AllSlashes(t[..a]) && t[a..a + |core|] == core && AllSlashes(t[a + |core|..])
  {
    assert UrlPrefix(m)[1..] == StripRight(StripLeft(TextBefore(m)));
    StripOnlySlashes(TextBefore(m));
  }

  /** A prefix that is already normal is its own `url_prefix`. */
  lemma UrlPrefixNormal(core: string, rest: string)
    requires core == [] || (core[0] != '/' && core[|core| - 1] != '/')
    ensures UrlPrefix(Match("/" + core + rest, |core| + 1, rest)) == "/" + core
  {
    var s, t := "/" + core + rest, "/" + core;
    assert s[..|core| + 1] == t;
    assert t[1..] == core;
    assert LeadingSlashes(t) == 1 + LeadingSlashes(core) && LeadingSlashes(core) == 0;
    assert StripLeft(t) == core;
    assert TrailingSlashes(core) == 0;
  }

  /* --------------------------------------------------------------- routes */

  datatype Handler = InfoRefs | ServiceRequest

  /** One key of `HTTPGitApplication.services`: a method and an anchored
      literal path pattern, with the handler it selects. */
  datatype Route = Route(verb: string, suffix: string, handler: Handler)

  const INFO_REFS: Route := Route("GET", "/info/refs", InfoRefs)
  const UPLOAD_PACK: Route := Route("POST", "/git-upload-pack", ServiceRequest)
  const RECEIVE_PACK: Route := Route("POST", "/git-receive-pack", ServiceRequest)
  const SERVICES: seq<Route> := [INFO_REFS, UPLOAD_PACK, RECEIVE_PACK]

  /** The match a route has for a request, if any. */
  function RouteMatch(route: Route, verb: string, path: string): (m: Option<Match>)
    ensures m.Some? <==> route.verb == verb && (EndsWith(path, route.suffix) || EndsWith(path, route.suffix + "\n"))
  {
    if route.verb != verb then None else SearchSuffix(path, route.suffix)
  }

  /** The route for a request, decided method by method: GET has only
      `info/refs`; POST has the two pack services, whose paths end
      differently. */
  function Dispatch(verb: string, path: string): (sel: Option<(Route, Match)>)
    ensures sel.Some? ==> sel.value.0 in SERVICES && RouteMatch(sel.value.0, verb, path) == Some(sel.value.1)
  {
    if verb == "GET" then
      match SearchSuffix(path, INFO_REFS.suffix)
      case Some(m) => Some((INFO_REFS, m))
      case None => None
    else if verb == "POST" then
      match SearchSuffix(path, UPLOAD_PACK.suffix)
      case Some(m) => Some((UPLOAD_PACK, m))
      case None =>
        match SearchSuffix(path, RECEIVE_PACK.suffix)
        case Some(m) => Some((RECEIVE_PACK, m))
        case None => None
    else None
  }

  lemma EndsWithAt(s: string, t: string, k: nat)
    requires EndsWith(s, t) && k < |t|
    ensures s[|s| - |t| + k] == t[k]
  {
    assert s[|s| - |t|..][k] == t[k];
  }

  /** A path ending in a literal that does not end in a newline is matched
      at its very end, not before a final newline. */
  lemma NoNewlineMatch(s: string, t: string)
    requires EndsWith(s, t) && t != [] && t[|t| - 1] != '\n'
    ensures !EndsWith(s, t + "\n")
  {
    EndsWithAt(s, t, |t| - 1);
  }

  /** The route table: GET for `info/refs`, POST for the two pack
      services. */
  lemma RouteTable()
    ensures SERVICES[0] == INFO_REFS && SERVICES[1] == UPLOAD_PACK && SERVICES[2] == RECEIVE_PACK
    ensures INFO_REFS.verb == "GET" && UPLOAD_PACK.verb == "POST" && RECEIVE_PACK.verb == "POST"
    ensures |INFO_REFS.verb| == 3 && |UPLOAD_PACK.verb| == 4
  {
  }

  /** The characters of the pack-service literals that tell them apart. */
  lemma PackSuffixChars()
    ensures |UPLOAD_PACK.suffix| == 16 && UPLOAD_PACK.suffix[15] == 'k' && UPLOAD_PACK.suffix[10] == 'd'
    ensures |RECEIVE_PACK.suffix| == 17 && RECEIVE_PACK.suffix[16] == 'k' && RECEIVE_PACK.suffix[11] == 'e'
  {
  }

  /** The service a pack route names is its literal without the `/`. */
  lemma PackServiceName(route: Route)
    requires route == UPLOAD_PACK || route == RECEIVE_PACK
    ensures StripLeft(route.suffix) == route.suffix[1..]
  {
    assert route.suffix[0] == '/' && route.suffix[1] == 'g';
    assert LeadingSlashes(route.suffix) == 1 + LeadingSlashes(route.suffix[1..]);
  }

  /** No path ends both in `/git-upload-pack` and in `/git-receive-pack`,
      with or without a final newline. */
  lemma PackRoutesDisjoint(path: string)
    ensures !(RouteMatch(UPLOAD_PACK, "POST", path).Some? && RouteMatch(RECEIVE_PACK, "POST", path).Some?)
  {
    var up, rp := UPLOAD_PACK.suffix, RECEIVE_PACK.suffix;
    PackSuffixChars();
    // the character five before the end of "-pack" is 'd' in upload and 'e'
    // in receive; a final newline and a final 'k' cannot both hold
    if RouteMatch(UPLOAD_PACK, "POST", path).Some? && RouteMatch(RECEIVE_PACK, "POST", path).Some? {
      assert false;
    }
  }

  /** At most one route matches any request, so the order in which the
      route table is scanned does not matter, and the first match is the
      one `Dispatch` names. */
  lemma RoutesUnambiguous(verb: string, path: string, i: nat, j: nat)
    requires i < |SERVICES| && j < |SERVICES|
    requires RouteMatch(SERVICES[i], verb, path).Some? && RouteMatch(SERVICES[j], verb, path).Some?
    ensures i == j
  {
    RouteTable();
    if i != j {
      if i == 0 || j == 0 {
        assert false;
      } else {
        PackRoutesDisjoint(path);
        assert false;
      }
    }
  }

  /** A route is chosen exactly when one of the table's routes has the
      request's method and a path ending in its literal. */
  lemma DispatchComplete(verb: string, path: string)
    ensures Dispatch(verb, path).None? <==> forall i :: 0 <= i < |SERVICES| ==> RouteMatch(SERVICES[i], verb, path).None?
  {
    if Dispatch(verb, path).None? {
      forall i | 0 <= i < |SERVICES|
        ensures RouteMatch(SERVICES[i], verb, path).None?
      {
      }
    }
  }

  /** Whichever route matches is the one `Dispatch` names, with its match. */
  lemma MatchDispatched(verb: string, path: string, i: nat)
    requires i < |SERVICES| && RouteMatch(SERVICES[i], verb, path).Some?
    ensures Dispatch(verb, path) == Some((SERVICES[i], RouteMatch(SERVICES[i], verb, path).value))
  {
    RouteTable();
    if i == 2 {
      PackRoutesDisjoint(path);
    }
  }

  /* ---------------------------------------------------------------- replies */

  /** The response a request gets: status and content type, the body the
      application returns, the pkt-lines written, and the repository path a
      git handler is started on. */
  datatype Reply = Reply(status: Status, contentType: string, body: string, pkts: seq<Option<string>>, repoPath: Option<string>)

  function Rejection(status: Status, message: string): Reply {
    Reply(status, TEXT_PLAIN, message, [], None)
  }

  /** `get_info_refs`: no (or an empty) `service` parameter is 404; a
      service without a handler is 403; a repository the backend cannot
      open is 404; otherwise the advertisement starts with the service
      announcement and a flush. */
  function InfoRefsReply(service: Option<string>, handlers: set<string>, opens: string -> bool, prefix: string): (r: Reply)
    ensures r.status == HttpOk <==> service.Some? && service.value != "" && service.value in handlers && opens(prefix)
    ensures r.status == HttpOk ==>
      r.contentType == "application/x-" + service.value + "-advertisement" &&
      r.pkts == [Some("# service=" + service.value + "\n"), None] && r.repoPath == Some(prefix)
    ensures r.status != HttpOk ==> r.contentType == TEXT_PLAIN && r.pkts == [] && r.repoPath == None
    ensures r.status == HttpForbidden <==> service.Some? && service.value != "" && service.value !in handlers
  {
    if service.None? || service.value == "" then Rejection(HttpNotFound, "")
    else if service.value !in handlers then Rejection(HttpForbidden, "Unsupported service " + service.value)
    else if !opens(prefix) then Rejection(HttpNotFound, "")
    else Reply(HttpOk, "application/x-" + service.value + "-advertisement", "",
               [Some("# service=" + service.value + "\n"), None], Some(prefix))
  }

  /** `get_info_refs` as written, where `req.forbidden` does not exist and
      the unsupported-service branch raises AttributeError. */
  function InfoRefsReplyAsWritten(service: Option<string>, handlers: set<string>, opens: string -> bool, prefix: string): Result<Reply> {
    if service.None? || service.value == "" then Ok(Rejection(HttpNotFound, ""))
    else if service.value !in handlers then Err(AttributeError)
    else if !opens(prefix) then Ok(Rejection(HttpNotFound, ""))
    else Ok(Reply(HttpOk, "application/x-" + service.value + "-advertisement", "",
                  [Some("# service=" + service.value + "\n"), None], Some(prefix)))
  }

  /** The two versions differ exactly on unsupported services. */
  lemma InfoRefsAsWrittenDiffers(service: Option<string>, handlers: set<string>, opens: string -> bool, prefix: string)
    ensures InfoRefsReplyAsWritten(service, handlers, opens, prefix).Ok? ==>
      InfoRefsReplyAsWritten(service, handlers, opens, prefix).value == InfoRefsReply(service, handlers, opens, prefix)
    ensures InfoRefsReplyAsWritten(service, handlers, opens, prefix).Err? <==>
      InfoRefsReply(service, handlers, opens, prefix).status == HttpForbidden
  {
  }

  /** `GET /info/refs?service=git-foo-pack` raises instead of answering
      403. */
  lemma UnsupportedServiceRaises(opens: string -> bool)
    ensures InfoRefsReplyAsWritten(Some("git-foo-pack"), {"git-upload-pack", "git-receive-pack"}, opens, "/") == Err(AttributeError)
    ensures InfoRefsReply(Some("git-foo-pack"), {"git-upload-pack", "git-receive-pack"}, opens, "/").status == HttpForbidden
  {
    assert "git-foo-pack" != "git-upload-pack" && "git-foo-pack" != "git-receive-pack" by {
      assert "git-foo-pack"[4] == 'f';
    }
  }

  /** `handle_service_request`: the service is the matched text without its
      leading `/`; without a handler it is 403, otherwise the result
      response starts and the handler runs on the prefix. */
  function ServiceReply(group: string, handlers: set<string>, prefix: string): (r: Reply)
    ensures var service := StripLeft(group);
      (r.status == HttpOk <==> service in handlers) &&
      (r.status == HttpOk ==> r.contentType == "application/x-" + service + "-result" && r.repoPath == Some(prefix)) &&
      (r.status != HttpOk ==> r.status == HttpForbidden && r.body == "Unsupported service " + service)
    ensures r.pkts == [] && (r.status == HttpOk ==> r.body == "")
  {
    var service := StripLeft(group);
    if service !in handlers then Rejection(HttpForbidden, "Unsupported service " + service)
    else Reply(HttpOk, "application/x-" + service + "-result", "", [], Some(prefix))
  }

  /** `handle_service_request` as written, where the unsupported-service
      branch calls the missing `req.forbidden` and raises AttributeError. */
  function ServiceReplyAsWritten(group: string, handlers: set<string>, prefix: string): Result<Reply> {
    var service := StripLeft(group);
    if service !in handlers then Err(AttributeError)
    else Ok(Reply(HttpOk, "application/x-" + service + "-result", "", [], Some(prefix)))
  }

  /** The two versions differ exactly on unsupported services. */
  lemma ServiceAsWrittenDiffers(group: string, handlers: set<string>, prefix: string)
    ensures ServiceReplyAsWritten(group, handlers, prefix).Ok? ==>
      ServiceReplyAsWritten(group, handlers, prefix).value == ServiceReply(group, handlers, prefix)
    ensures ServiceReplyAsWritten(group, handlers, prefix).Err? <==>
      ServiceReply(group, handlers, prefix).status == HttpForbidden
  {
  }

  /** A POST to `/git-receive-pack` on a server whose handlers offer only
      upload-pack raises instead of answering 403. */
  lemma UnsupportedPackServiceRaises(prefix: string)
    ensures ServiceReplyAsWritten(RECEIVE_PACK.suffix, {"git-upload-pack"}, prefix) == Err(AttributeError)
    ensures ServiceReply(RECEIVE_PACK.suffix, {"git-upload-pack"}, prefix).status == HttpForbidden
  {
    PackServiceName(RECEIVE_PACK);
    assert StripLeft(RECEIVE_PACK.suffix) != "git-upload-pack" by {
      assert RECEIVE_PACK.suffix[1..][4] == 'r';
    }
  }

  /** `HTTPGitApplication.__call__`, as a reply: 404 with the "not
      supported" message when no route matches, otherwise the selected
      handler's reply for the prefix before the match. */
  function Handle(environ: Environ, handlers: set<string>, opens: string -> bool): (r: Reply)
    ensures Dispatch(environ.verb, environ.path).None? ==> r == Rejection(HttpNotFound, NOT_SUPPORTED)
    ensures r.repoPath.Some? ==> Dispatch(environ.verb, environ.path).Some?
    ensures r.repoPath.Some? && Dispatch(environ.verb, environ.path).Some? ==>
      r.repoPath == Some(UrlPrefix(Dispatch(environ.verb, environ.path).value.1))
  {
    match Dispatch(environ.verb, environ.path)
    case None => Rejection(HttpNotFound, NOT_SUPPORTED)
    case Some((route, m)) =>
      if route.handler == InfoRefs then InfoRefsReply(environ.service, handlers, opens, UrlPrefix(m))
      else ServiceReply(m.group, handlers, UrlPrefix(m))
  }

  /** A POST whose path ends in a pack service's literal selects that
      service's route, matched at the end of the path. */
  lemma {:induction false} DispatchPackService(path: string, route: Route)
    requires route == UPLOAD_PACK || route == RECEIVE_PACK
    requires EndsWith(path, route.suffix)
    ensures Dispatch("POST", path) == Some((route, Match(path, |path| - |route.suffix|, route.suffix)))
  {
    PackSuffixChars();
    NoNewlineMatch(path, route.suffix);
    if route == RECEIVE_PACK {
      PackRoutesDisjoint(path);
    }
  }

  /** A GET whose path ends in `/info/refs` is answered by `get_info_refs`
      on the prefix before it. */
  lemma InfoRefsRoute(environ: Environ, handlers: set<string>, opens: string -> bool)
    requires environ.verb == "GET" && EndsWith(environ.path, INFO_REFS.suffix)
    ensures var m := Match(environ.path, |environ.path| - |INFO_REFS.suffix|, INFO_REFS.suffix);
      Handle(environ, handlers, opens) == InfoRefsReply(environ.service, handlers, opens, UrlPrefix(m))
  {
    var suffix := INFO_REFS.suffix;
    assert |suffix| == 10 && suffix[9] == 's';
    NoNewlineMatch(environ.path, suffix);
  }

  /** A request routed to `handle_service_request` whose service has a
      handler runs it on the normalised prefix and answers with the
      service's result content type. */
  lemma ServiceRequestReply(environ: Environ, handlers: set<string>, opens: string -> bool, route: Route, m: Match)
    requires Dispatch(environ.verb, environ.path) == Some((route, m)) && route.handler == ServiceRequest
    requires StripLeft(m.group) in handlers
    ensures var r := Handle(environ, handlers, opens);
      r.status == HttpOk && r.contentType == "application/x-" + StripLeft(m.group) + "-result" &&
      r.repoPath == Some(UrlPrefix(m)) && r.body == ""
  {
    assert Handle(environ, handlers, opens) == ServiceReply(m.group, handlers, UrlPrefix(m));
  }

  /** A POST to `<prefix>/git-upload-pack` or `<prefix>/git-receive-pack`
      with a handler for that service runs it on the normalised prefix and
      answers with the service's result content type. */
  lemma PackServiceRequest(environ: Environ, handlers: set<string>, opens: string -> bool, route: Route)
    requires route == UPLOAD_PACK || route == RECEIVE_PACK
    requires environ.verb == "POST" && EndsWith(environ.path, route.suffix)
    requires route.suffix[1..] in handlers
    ensures var r := Handle(environ, handlers, opens);
      r.status == HttpOk && r.contentType == "application/x-" + route.suffix[1..] + "-result" &&
      r.repoPath == Some(UrlPrefix(Match(environ.path, |environ.path| - |route.suffix|, route.suffix)))
  {
    var m := Match(environ.path, |environ.path| - |route.suffix|, route.suffix);
    DispatchPackService(environ.path, route);
    PackServiceName(route);
    ServiceRequestReply(environ, handlers, opens, route, m);
  }

  /** The status line `start_response` receives and the headers sent with a
      reply, given the request's pending headers and cache headers: the
      rejections drop the cache headers. */
  function SentHeaders(r: Reply, headers: seq<Header>, cache: seq<Header>): seq<Header> {
    if r.status == HttpOk then headers + [Header("Content-Type", r.contentType)] + cache
    else headers + [Header("Content-Type", r.contentType)]
  }

  /* ---------------------------------------------------------- the handlers */

  /** `get_info_refs(req, backend, mat)`. */
  method GetInfoRefs(req: HTTPGitRequest, opens: string -> bool, m: Match) returns (body: string)
    modifies req
    ensures var r := InfoRefsReply(req.environ.service, req.handlers, opens, UrlPrefix(m));
      body == r.body &&
      req.started == old(req.started) + [StartedResponse(StatusLine(r.status), SentHeaders(r, old(req.headers), old(req.cacheHeaders)))] &&
      req.written == old(req.written) + r.pkts &&
      req.handled == (if r.repoPath.Some? then r.repoPath else old(req.handled))
  {
    ghost var r := InfoRefsReply(req.environ.service, req.handlers, opens, UrlPrefix(m));
    var service := req.environ.service;
    if service.None? || service.value == "" {
      body := req.NotFound("");
      return;
    }
    if service.value !in req.handlers {
      body := req.Forbidden("Unsupported service " + service.value);
      return;
    }
    var prefix := UrlPrefix(m);
    if !opens(prefix) {
      body := req.NotFound("");
      return;
    }
    var contentType := "application/x-" + service.value + "-advertisement";
    assert r.status == HttpOk && r.contentType == contentType && |contentType| > 0;
    req.Respond(HTTP_OK, Some(contentType), []);
    assert req.headers == old(req.headers) + [Header("Content-Type", contentType)] + old(req.cacheHeaders);
    req.handled := Some(prefix);
    req.written := req.written + [Some("# service=" + service.value + "\n"), None];
    body := "";
  }

  /** `handle_service_request(req, backend, mat)`. */
  method HandleServiceRequest(req: HTTPGitRequest, m: Match) returns (body: string)
    modifies req
    ensures var r := ServiceReply(m.group, req.handlers, UrlPrefix(m));
      body == r.body &&
      req.started == old(req.started) + [StartedResponse(StatusLine(r.status), SentHeaders(r, old(req.headers), old(req.cacheHeaders)))] &&
      req.written == old(req.written) &&
      req.handled == (if r.repoPath.Some? then r.repoPath else old(req.handled))
  {
    ghost var r := ServiceReply(m.group, req.handlers, UrlPrefix(m));
    var service := StripLeft(m.group);
    if service !in req.handlers {
      body := req.Forbidden("Unsupported service " + service);
      return;
    }
    var contentType := "application/x-" + service + "-result";
    assert r.status == HttpOk && r.contentType == contentType && |contentType| > 0;
    req.Respond(HTTP_OK, Some(contentType), []);
    assert req.headers == old(req.headers) + [Header("Content-Type", contentType)] + old(req.cacheHeaders);
    req.handled := Some(UrlPrefix(m));
    body := "";
  }

  /** The scan of the route table in `__call__`: the first route whose
      method is the request's and whose pattern is found in the path. */
  method SelectRoute(verb: string, path: string) returns (sel: Option<(Route, Match)>)
    ensures sel == Dispatch(verb, path)
  {
    sel := None;
    var i := 0;
    while i < |SERVICES|
      invariant 0 <= i <= |SERVICES|
      invariant forall j :: 0 <= j < i ==> RouteMatch(SERVICES[j], verb, path).None?
    {
      var route := SERVICES[i];
      if route.verb == verb {
        var m := SearchSuffix(path, route.suffix);
        if m.Some? {
          sel := Some((route, m.value));
          break;
        }
      }
      i := i + 1;
    }
    if sel.None? {
      DispatchComplete(verb, path);
    } else {
      MatchDispatched(verb, path, i);
    }
  }

  /** `HTTPGitApplication`: a backend and the service handlers. */
  class HTTPGitApplication {
    const opens: string -> bool
    const handlers: set<string>

    constructor (opens: string -> bool, handlers: set<string>)
      ensures this.opens == opens && this.handlers == handlers
    {
      this.opens := opens;
      this.handlers := handlers;
    }

    /** `__call__(environ, start_response)`: a new request, the route, and
        the reply `Handle` describes. */
    method Call(environ: Environ) returns (req: HTTPGitRequest, body: string)
      ensures fresh(req) && req.environ == environ && req.handlers == handlers
      ensures var r := Handle(environ, handlers, opens);
        body == r.body && req.started == [StartedResponse(StatusLine(r.status), [Header("Content-Type", r.contentType)])] &&
        req.written == r.pkts && req.handled == r.repoPath
    {
      req := new HTTPGitRequest(environ, handlers);
      ghost var r := Handle(environ, handlers, opens);
      var sel := SelectRoute(environ.verb, environ.path);
      if sel.None? {
        body := req.NotFound(NOT_SUPPORTED);
        assert req.headers == [Header("Content-Type", TEXT_PLAIN)];
        return;
      }
      var route, m := sel.value.0, sel.value.1;
      assert SentHeaders(r, [], []) == [Header("Content-Type", r.contentType)];
      if route.handler == InfoRefs {
        assert r == InfoRefsReply(environ.service, handlers, opens, UrlPrefix(m));
        body := GetInfoRefs(req, opens, m);
      } else {
        assert r == ServiceReply(m.group, handlers, UrlPrefix(m));
        body := HandleServiceRequest(req, m);
      }
    }
  }

  /** `LimitedInputFilter`: middleware in front of the application. */
  class LimitedInputFilter {
    const app: HTTPGitApplication

    constructor (app: HTTPGitApplication)
      ensures this.app == app
    {
      this.app := app;
    }

    /** `__call__`: with a non-empty CONTENT_LENGTH, `wsgi.input` is replaced
        by a wrapper limited to that many bytes (a length `int` cannot read
        raises ValueError before the application runs); otherwise the input
        is left as it is. The application is called on the environ with the
        replaced input, which the request it builds holds; `wrapped` is the
        replacement, if any. */
    method Call(environ: Environ) returns (wrapped: Option<LengthLimitedFile>, req: HTTPGitRequest?, r: Result<string>)
      requires environ.input.Raw? && environ.input.stream.Valid()
      ensures environ.contentLength.None? || environ.contentLength.value == "" ==>
        wrapped.None? && req != null && req.environ == environ
      ensures environ.contentLength.Some? && environ.contentLength.value != "" && ParseInt(environ.contentLength.value).Err? ==>
        wrapped.None? && req == null && r == Err(ValueError)
      ensures environ.contentLength.Some? && environ.contentLength.value != "" && ParseInt(environ.contentLength.value).Ok? ==>
        wrapped.Some? && fresh(wrapped.value) && wrapped.value.Valid() &&
        wrapped.value.input == environ.input.stream && wrapped.value.maxBytes == ParseInt(environ.contentLength.value).value &&
        wrapped.value.avail == wrapped.value.maxBytes &&
        req != null && req.environ == environ.(input := Limited(wrapped.value))
      ensures r.Ok? ==>
        req != null && fresh(req) && req.handlers == app.handlers &&
        r.value == Handle(environ, app.handlers, app.opens).body
    {
      wrapped := None;
      var env := environ;
      var contentLength := if environ.contentLength.Some? then environ.contentLength.value else "";
      if contentLength != "" {
        var n := ParseInt(contentLength);
        if n.Err? {
          return None, null, Err(n.error);
        }
        var f := new LengthLimitedFile(environ.input.stream, n.value);
        wrapped := Some(f);
        env := environ.(input := Limited(f));
      }
      var body;
      req, body := app.Call(env);
      r := Ok(body);
    }
  }
}
