/// The incremental HTTP request parser of code/http/httprequest.cpp: a
/// line-by-line state machine REQUEST_LINE -> HEADERS -> BODY -> FINISH over
/// the readable bytes of a Buffer, plus the path rewriting, the keep-alive
/// rule and the application/x-www-form-urlencoded body splitter.
///
/// The two std::regex patterns are replaced by explicit splitters
/// (SplitRequestLine, SplitHeader) whose results are proved to be exactly the
/// submatches of the patterns. The form decoder is modelled as written,
/// including its '%' branch, which is not percent-decoding.
module HttpRequests {
  import opened Buffers

  datatype Option<T> = None | Some(value: T)

  /// PARSE_STATE (httprequest.h:25-30).
  datatype ParseState = RequestLine | Headers | Body | Finish

  /// The fields of an HttpRequest, as one value.
  datatype Request = Request(
    state: ParseState,
    httpMethod: string,
    path: string,
    version: string,
    body: string,
    header: map<string, string>,
    post: map<string, string>)

  /// Extensionless routes that get ".html" appended (httprequest.cpp:3-10).
  /// The unordered_set is kept as a list searched by IsListed.
  const DEFAULT_HTML: seq<string> :=
    ["/index", "/register", "/login", "/welcome", "/video", "/picture"]

  /// Routes whose form posts are credential checks: 0 registers, 1 logs in
  /// (httprequest.cpp:12-15).
  const DEFAULT_HTML_TAG: map<string, int> := map["/register.html" := 0, "/login.html" := 1]

  const FORM_URLENCODED: string := "application/x-www-form-urlencoded"

  /// The credential store behind userVerify: name, password, isLogin.
  type Verifier = (string, string, bool) -> bool

  /// The request as init() leaves it (httprequest.cpp:17-22).
  function InitRequest(): (r: Request)
    ensures r.state == RequestLine && r.header == map[] && r.post == map[]
    ensures r.httpMethod == "" && r.path == "" && r.version == "" && r.body == ""
  {
    Request(RequestLine, "", "", "", "", map[], map[])
  }

  // ---------------------------------------------------------------------
  // Character classes and searching

  predicate NoSpace(s: string) {
    forall i :: 0 <= i < |s| ==> s[i] != ' '
  }

  predicate NoColon(s: string) {
    forall i :: 0 <= i < |s| ==> s[i] != ':'
  }

  /// The characters the regex '.' does not match.
  predicate IsLineTerminator(c: char) {
    c == '\n' || c == '\r'
  }

  predicate NoTerminator(s: string) {
    forall i :: 0 <= i < |s| ==> !IsLineTerminator(s[i])
  }

  /// Index of the first c in s at or after i, or |s| when there is none.
  function IndexFrom(s: string, c: char, i: nat): (k: nat)
    requires i <= |s|
    ensures i <= k <= |s|
    ensures k < |s| ==> s[k] == c
    decreases |s| - i
  {
    if i == |s| then i
    else if s[i] == c then i
    else IndexFrom(s, c, i + 1)
  }

  /// Index of the first c in s, or |s| when there is none.
  function IndexOf(s: string, c: char): (k: nat)
    ensures k <= |s|
    ensures k < |s| ==> s[k] == c
  {
    IndexFrom(s, c, 0)
  }

  /// No c lies between i and what IndexFrom finds.
  lemma {:induction false} IndexFromFirst(s: string, c: char, i: nat)
    requires i <= |s|
    ensures forall t :: i <= t < IndexFrom(s, c, i) ==> s[t] != c
    decreases |s| - i
  {
    if i < |s| && s[i] != c {
      IndexFromFirst(s, c, i + 1);
    }
  }

  /// IndexFrom finds m when m holds c (or is the end) and nothing from i
  /// up to m does.
  lemma {:induction false} IndexFromIs(s: string, c: char, i: nat, m: nat)
    requires i <= m <= |s| && (m < |s| ==> s[m] == c)
    requires forall t :: i <= t < m ==> s[t] != c
    ensures IndexFrom(s, c, i) == m
    decreases m - i
  {
    if i < m {
      IndexFromIs(s, c, i + 1, m);
    }
  }

  /// IndexOf finds the first c, and finds none exactly when s has none.
  lemma {:induction false} IndexOfFirst(s: string, c: char)
    ensures forall i :: 0 <= i < IndexOf(s, c) ==> s[i] != c
    ensures IndexOf(s, c) == |s| <==> forall i :: 0 <= i < |s| ==> s[i] != c
  {
    IndexFromFirst(s, c, 0);
  }

  /// The first c of s + [c] + t is the one after s when s has none.
  lemma {:induction false} IndexOfAfter(s: string, c: char, t: string)
    requires forall i :: 0 <= i < |s| ==> s[i] != c
    ensures IndexOf(s + [c] + t, c) == |s|
  {
    var u := s + [c] + t;
    assert u[|s|] == c;
    assert forall i :: 0 <= i < |s| ==> u[i] == s[i];
    IndexFromIs(u, c, 0, |s|);
  }

  /// The test the bodies below use for "no line terminator".
  predicate TerminatorFree(s: string) {
    IndexOf(s, '\r') == |s| && IndexOf(s, '\n') == |s|
  }

  lemma {:induction false} TerminatorFreeIff(s: string)
    ensures TerminatorFree(s) <==> NoTerminator(s)
  {
    IndexOfFirst(s, '\r');
    IndexOfFirst(s, '\n');
  }

  predicate IsCrlfAt(data: seq<char>, i: int) {
    0 <= i && i + 1 < |data| && data[i] == '\r' && data[i + 1] == '\n'
  }

  /// The first CRLF in data at or after i, or |data| when there is none.
  function CrlfFrom(data: seq<char>, i: nat): (k: nat)
    requires i <= |data|
    ensures i <= k <= |data|
    ensures k < |data| ==> IsCrlfAt(data, k)
    decreases |data| - i
  {
    if i + 1 >= |data| then |data|
    else if data[i] == '\r' && data[i + 1] == '\n' then i
    else CrlfFrom(data, i + 1)
  }

  /// std::search for "\r\n" in the readable bytes: the index of the first
  /// CRLF, or |data| when there is none.
  function FindCrlf(data: seq<char>): (k: nat)
    ensures k <= |data|
    ensures k < |data| ==> IsCrlfAt(data, k)
  {
    CrlfFrom(data, 0)
  }

  lemma {:induction false} CrlfFromFirst(data: seq<char>, i: nat)
    requires i <= |data|
    ensures forall t :: i <= t < CrlfFrom(data, i) ==> !IsCrlfAt(data, t)
    decreases |data| - i
  {
    if i + 1 < |data| && !IsCrlfAt(data, i) {
      CrlfFromFirst(data, i + 1);
    }
  }

  lemma {:induction false} CrlfFromIs(data: seq<char>, i: nat, m: nat)
    requires i <= m <= |data| && (m < |data| ==> IsCrlfAt(data, m))
    requires forall t :: i <= t < m ==> !IsCrlfAt(data, t)
    ensures CrlfFrom(data, i) == m
    decreases m - i
  {
    if i < m && i + 1 < |data| {
      CrlfFromIs(data, i + 1, m);
    }
  }

  /// FindCrlf finds the first CRLF: there is none before it.
  lemma {:induction false} FindCrlfFirst(data: seq<char>)
    ensures forall i :: 0 <= i < FindCrlf(data) ==> !IsCrlfAt(data, i)
  {
    CrlfFromFirst(data, 0);
  }

  /// A line without '\r' followed by CRLF is found as the first line.
  lemma {:induction false} FindCrlfOfLine(line: string, rest: seq<char>)
    requires forall i :: 0 <= i < |line| ==> line[i] != '\r'
    ensures FindCrlf(line + "\r\n" + rest) == |line|
  {
    var data := line + "\r\n" + rest;
    assert IsCrlfAt(data, |line|);
    assert forall i :: 0 <= i < |line| ==> data[i] == line[i];
    CrlfFromIs(data, 0, |line|);
  }

  /// A fragment without '\r' has no CRLF.
  lemma {:induction false} FindCrlfNone(data: seq<char>)
    requires forall i :: 0 <= i < |data| ==> data[i] != '\r'
    ensures FindCrlf(data) == |data|
  {
    CrlfFromIs(data, 0, |data|);
  }

  // ---------------------------------------------------------------------
  // The request line: ^([^ ]*) ([^ ]*) HTTP/([^ ]*)$

  /// How a request line is put together, with the concatenations regrouped.
  lemma {:induction false} RequestLineShape(m: string, p: string, v: string)
    ensures m + " " + p + " HTTP/" + v == m + [' '] + (p + [' '] + ("HTTP/" + v))
  {
  }

  /// The three submatches (method, target, version) of the request-line
  /// pattern, or None when the line does not match it.
  function SplitRequestLine(line: string): Option<(string, string, string)>
  {
    var a := IndexOf(line, ' ');
    if a == |line| then None
    else
      var rest := line[a + 1..];
      var b := IndexOf(rest, ' ');
      if b == |rest| then None
      else
        var tail := rest[b + 1..];
        if |tail| >= 5 && tail[..5] == "HTTP/" && IndexOf(tail[5..], ' ') == |tail| - 5 then
          Some((line[..a], rest[..b], tail[5..]))
        else None
  }

  /// Whatever matches has the request-line shape, with no space inside
  /// the three parts.
  lemma {:induction false} RequestLineSound(line: string)
    requires SplitRequestLine(line).Some?
    ensures var (m, p, v) := SplitRequestLine(line).value;
            line == m + " " + p + " HTTP/" + v && NoSpace(m) && NoSpace(p) && NoSpace(v)
  {
    var a := IndexOf(line, ' ');
    var rest := line[a + 1..];
    var b := IndexOf(rest, ' ');
    var tail := rest[b + 1..];
    var m, p, v := line[..a], rest[..b], tail[5..];
    assert line == m + [' '] + rest;
    assert rest == p + [' '] + tail;
    assert tail == "HTTP/" + v;
    RequestLineShape(m, p, v);
    IndexOfFirst(line, ' ');
    IndexOfFirst(rest, ' ');
    IndexOfFirst(v, ' ');
  }

  /// Every line of the form M SP P SP "HTTP/" V with no space inside M, P
  /// or V matches, with exactly those submatches.
  lemma {:induction false} RequestLineComplete(m: string, p: string, v: string)
    requires NoSpace(m) && NoSpace(p) && NoSpace(v)
    ensures SplitRequestLine(m + " " + p + " HTTP/" + v) == Some((m, p, v))
  {
    var line := m + " " + p + " HTTP/" + v;
    var x := p + [' '] + ("HTTP/" + v);
    RequestLineShape(m, p, v);
    IndexOfAfter(m, ' ', x);
    assert line[..|m|] == m;
    var rest := line[|m| + 1..];
    assert rest == x;
    IndexOfAfter(p, ' ', "HTTP/" + v);
    assert rest[..|p|] == p;
    var tail := rest[|p| + 1..];
    assert tail == "HTTP/" + v;
    assert tail[..5] == "HTTP/" && tail[5..] == v;
    IndexOfFirst(v, ' ');
  }

  /// The two directions together: a line matches exactly when it has the
  /// shape of a request line.
  lemma {:induction false} RequestLineIff(line: string, m: string, p: string, v: string)
    ensures SplitRequestLine(line) == Some((m, p, v)) <==>
              line == m + " " + p + " HTTP/" + v && NoSpace(m) && NoSpace(p) && NoSpace(v)
  {
    if line == m + " " + p + " HTTP/" + v && NoSpace(m) && NoSpace(p) && NoSpace(v) {
      RequestLineComplete(m, p, v);
    }
    if SplitRequestLine(line) == Some((m, p, v)) {
      RequestLineSound(line);
    }
  }

  // ---------------------------------------------------------------------
  // Header lines: ^([^:]*): ?(.*)$

  /// The two submatches (name, value) of the header pattern, or None.
  function SplitHeader(line: string): Option<(string, string)>
  {
    var c := IndexOf(line, ':');
    if c == |line| then None
    else
      var name, rest := line[..c], line[c + 1..];
      if !TerminatorFree(rest) then None
      else if |rest| > 0 && rest[0] == ' ' then Some((name, rest[1..]))
      else Some((name, rest))
  }

  /// Whatever matches is name, colon, at most one space and a value with
  /// no colon in the name and no line terminator in the value; a line that
  /// does not match has no colon or a line terminator after its first colon.
  lemma {:induction false} HeaderLineSound(line: string)
    ensures SplitHeader(line).Some? ==>
              var (name, value) := SplitHeader(line).value;
              NoColon(name) && NoTerminator(value) &&
              (line == name + ": " + value ||
               (line == name + ":" + value && (value == "" || value[0] != ' ')))
    ensures SplitHeader(line).None? ==>
              NoColon(line) || (IndexOf(line, ':') < |line| && !NoTerminator(line[IndexOf(line, ':') + 1..]))
  {
    var c := IndexOf(line, ':');
    IndexOfFirst(line, ':');
    if c < |line| {
      var name, rest := line[..c], line[c + 1..];
      TerminatorFreeIff(rest);
      assert line == name + [':'] + rest;
      if NoTerminator(rest) && |rest| > 0 && rest[0] == ' ' {
        var value := rest[1..];
        assert rest == [' '] + value;
        assert name + ": " + value == name + [':'] + ([' '] + value);
      } else if NoTerminator(rest) {
        assert name + ":" + rest == name + [':'] + rest;
      }
    }
  }

  /// A Name: value line matches with exactly that name and value, whether
  /// the one space after the colon is there or not.
  lemma {:induction false} HeaderLineComplete(name: string, value: string)
    requires NoColon(name) && NoTerminator(value)
    ensures SplitHeader(name + ": " + value) == Some((name, value))
    ensures value == "" || value[0] != ' ' ==> SplitHeader(name + ":" + value) == Some((name, value))
  {
    var l1 := name + ": " + value;
    assert l1 == name + [':'] + ([' '] + value);
    IndexOfAfter(name, ':', [' '] + value);
    assert l1[..|name|] == name;
    assert l1[|name| + 1..] == [' '] + value;
    assert ([' '] + value)[1..] == value;
    assert NoTerminator([' '] + value);
    TerminatorFreeIff([' '] + value);
    var l2 := name + ":" + value;
    assert l2 == name + [':'] + value;
    IndexOfAfter(name, ':', value);
    assert l2[..|name|] == name;
    assert l2[|name| + 1..] == value;
    TerminatorFreeIff(value);
  }

  // ---------------------------------------------------------------------
  // Path rewriting (parsePath)

  /// DEFAULT_HTML.find(s) != DEFAULT_HTML.end().
  predicate IsListed(s: string, routes: seq<string>)
    decreases |routes|
  {
    |routes| > 0 && (routes[0] == s || IsListed(s, routes[1..]))
  }

  lemma {:induction false} IsListedIff(s: string, routes: seq<string>)
    ensures IsListed(s, routes) <==> s in routes
    decreases |routes|
  {
    if |routes| > 0 {
      IsListedIff(s, routes[1..]);
      assert routes == [routes[0]] + routes[1..];
    }
  }

  /// "/" becomes "/index.html", a DEFAULT_HTML route gets ".html"
  /// appended, and every other path is kept.
  function NormalizePath(path: string): string
  {
    if path == "/" then "/index.html"
    else if IsListed(path, DEFAULT_HTML) then path + ".html"
    else path
  }

  /// Where the '.' of a ".html" suffix would be.
  predicate DotBeforeHtml(s: string) {
    |s| >= 5 && s[|s| - 5] == '.'
  }

  /// No DEFAULT_HTML route already looks like a rewritten one.
  lemma {:induction false} DefaultHtmlUnsuffixed(s: string)
    requires IsListed(s, DEFAULT_HTML)
    ensures !DotBeforeHtml(s) && s != "/"
  {
    IsListedIff(s, DEFAULT_HTML);
  }

  /// Rewriting twice is rewriting once: no rewritten path is rewritten again.
  lemma {:induction false} NormalizePathIdempotent(path: string)
    ensures NormalizePath(NormalizePath(path)) == NormalizePath(path)
  {
    var r := NormalizePath(path);
    if path == "/" || IsListed(path, DEFAULT_HTML) {
      assert DotBeforeHtml(r);
      if IsListed(r, DEFAULT_HTML) {
        DefaultHtmlUnsuffixed(r);
      }
    }
  }

  // ---------------------------------------------------------------------
  // The form decoder (parseFromUrlencoded), as written

  /// The value a C++ char (signed, 8 bits) holding the byte c has as int.
  function CharCode(c: char): (r: int)
    ensures -128 <= r < 128
    ensures c as int < 128 ==> r == c as int
    ensures 128 <= c as int < 256 ==> r == c as int - 256
  {
    var b := c as int % 256;
    if b < 128 then b else b - 256
  }

  /// The char an int is converted to (modulo 2^8), as a byte.
  function ToChar(x: int): (c: char)
    ensures c as int < 256 && (c as int - x) % 256 == 0
  {
    (x % 256) as char
  }

  /// C++ integer division, truncating toward zero, by a positive divisor.
  function CDiv(a: int, d: int): (q: int)
    requires d > 0
    ensures a >= 0 ==> 0 <= a - d * q < d
    ensures a < 0 ==> -d < a - d * q <= 0
  {
    if a >= 0 then a / d else -((-a) / d)
  }

  /// C++ remainder; it has the sign of the dividend.
  function CRem(a: int, d: int): (r: int)
    requires d > 0
    ensures a == CDiv(a, d) * d + r
    ensures a >= 0 ==> 0 <= r < d
    ensures a < 0 ==> -d < r <= 0
  {
    a - CDiv(a, d) * d
  }

  predicate IsHexLetter(c: char) {
    ('A' <= c <= 'F') || ('a' <= c <= 'f')
  }

  /// converHex: 'A'-'F' and 'a'-'f' map to 10-15; every other character,
  /// the decimal digits included, maps to its own character code.
  function ConverHex(ch: char): (r: int)
    ensures IsHexLetter(ch) ==> 10 <= r <= 15
    ensures 'A' <= ch <= 'F' ==> r == ch as int - 'A' as int + 10
    ensures 'a' <= ch <= 'f' ==> r == ch as int - 'a' as int + 10
    ensures !IsHexLetter(ch) ==> r == CharCode(ch)
  {
    if 'A' <= ch <= 'F' then ch as int - 'A' as int + 10
    else if 'a' <= ch <= 'f' then ch as int - 'a' as int + 10
    else CharCode(ch)
  }

  /// The variables of the decoding loop: the body being rewritten, the
  /// pending key, the start j of the current segment, and the map.
  datatype FormScan = FormScan(body: string, key: string, j: nat, post: map<string, string>)

  /// The '%' branch of parseFromUrlencoded at index i: num is
  /// converHex(body[i + 1]) * 16 + converHex(body[i + 2]), and the two
  /// characters after the '%' become '0' + num / 10 and '0' + num % 10.
  function PercentRewrite(body: string, i: nat): (b: string)
    requires i + 2 < |body|
    ensures |b| == |body| && b[..i + 1] == body[..i + 1] && b[i + 3..] == body[i + 3..]
    ensures var num := ConverHex(body[i + 1]) * 16 + ConverHex(body[i + 2]);
            b[i + 1] == ToChar(CDiv(num, 10) + '0' as int) && b[i + 2] == ToChar(CRem(num, 10) + '0' as int)
  {
    var num := ConverHex(body[i + 1]) * 16 + ConverHex(body[i + 2]);
    body[i + 2 := ToChar(CRem(num, 10) + '0' as int)][i + 1 := ToChar(CDiv(num, 10) + '0' as int)]
  }

  /// Unfolds PercentRewrite into the two element assignments of the
  /// in-place loop in ParseFromUrlencoded, in the code's order (index i + 2
  /// first, then i + 1); the loop calls it so that the solver need not
  /// unfold the function itself.
  lemma {:induction false} PercentRewriteIs(body: string, i: nat, num: int)
    requires i + 2 < |body| && num == ConverHex(body[i + 1]) * 16 + ConverHex(body[i + 2])
    ensures PercentRewrite(body, i) ==
              body[i + 2 := ToChar(CRem(num, 10) + '0' as int)][i + 1 := ToChar(CDiv(num, 10) + '0' as int)]
  {
  }

  /// The loop of parseFromUrlencoded from index i on (httprequest.cpp:149-183).
  /// None when a '%' reached by the scan lies within two characters of the
  /// end, so that m_body[i + 1] or m_body[i + 2] is out of range.
  function ScanForm(s: FormScan, i: nat): (r: Option<FormScan>)
    requires s.j <= i <= |s.body|
    ensures r.Some? ==> |r.value.body| == |s.body| && r.value.j <= |s.body|
    decreases |s.body| - i
  {
    if i == |s.body| then Some(s)
    else
      var ch := s.body[i];
      if ch == '=' then
        ScanForm(s.(key := s.body[s.j..i], j := i + 1), i + 1)
      else if ch == '+' then
        ScanForm(s.(body := s.body[i := ' ']), i + 1)
      else if ch == '%' then
        if i + 2 >= |s.body| then None
        else ScanForm(s.(body := PercentRewrite(s.body, i)), i + 3)
      else if ch == '&' then
        ScanForm(s.(post := s.post[s.key := s.body[s.j..i]], j := i + 1), i + 1)
      else
        ScanForm(s, i + 1)
  }

  /// The whole of parseFromUrlencoded on a body and an existing map: the
  /// rewritten body and the completed map. The last segment is stored only
  /// when it is non-empty and its key is not in the map yet.
  function Urlencoded(body: string, post: map<string, string>): Option<(string, map<string, string>)>
  {
    if |body| == 0 then Some((body, post))
    else
      match ScanForm(FormScan(body, "", 0, post), 0)
      case None => None
      case Some(s) =>
        Some((s.body,
              if s.key !in s.post && s.j < |s.body| then s.post[s.key := s.body[s.j..]] else s.post))
  }

  // A reference definition for bodies made of plain pairs.

  /// Characters the decoder treats specially.
  predicate IsFormSpecial(c: char) {
    c == '=' || c == '&' || c == '+' || c == '%'
  }

  predicate Plain(s: string) {
    forall i :: 0 <= i < |s| ==> !IsFormSpecial(s[i])
  }

  predicate PlainPairs(ps: seq<(string, string)>) {
    forall i :: 0 <= i < |ps| ==> Plain(ps[i].0) && Plain(ps[i].1)
  }

  /// k1=v1&k2=v2&...&kn=vn.
  function JoinPairs(ps: seq<(string, string)>): string
  {
    if |ps| == 0 then ""
    else if |ps| == 1 then ps[0].0 + "=" + ps[0].1
    else ps[0].0 + "=" + ps[0].1 + "&" + JoinPairs(ps[1..])
  }

  /// What splitting k1=v1&...&kn=vn into a map should store: every pair but
  /// the last in order, a later value replacing an earlier one; the last
  /// pair only when its value is non-empty and its key is new.
  function StoredPairs(ps: seq<(string, string)>, post: map<string, string>): map<string, string>
    decreases |ps|
  {
    if |ps| == 0 then post
    else if |ps| == 1 then
      if ps[0].0 !in post && ps[0].1 != "" then post[ps[0].0 := ps[0].1] else post
    else StoredPairs(ps[1..], post[ps[0].0 := ps[0].1])
  }

  /// Plain characters are passed over without any change to the scan state.
  lemma {:induction false} ScanSkipsPlain(s: FormScan, i: nat, m: nat)
    requires s.j <= i && i + m <= |s.body|
    requires Plain(s.body[i..i + m])
    ensures ScanForm(s, i) == ScanForm(s, i + m)
    decreases m
  {
    if m > 0 {
      assert s.body[i] == s.body[i..i + m][0];
      assert s.body[i + 1..i + m] == s.body[i..i + m][1..];
      ScanSkipsPlain(s, i + 1, m - 1);
    }
  }

  /// Where the last value starts inside JoinPairs(ps).
  function LastValueOffset(ps: seq<(string, string)>): (o: nat)
    requires |ps| > 0
    ensures 0 < o && o + |ps[|ps| - 1].1| == |JoinPairs(ps)|
    decreases |ps|
  {
    if |ps| == 1 then |ps[0].0| + 1
    else
      var o := |ps[0].0| + |ps[0].1| + 2 + LastValueOffset(ps[1..]);
      assert ps[1..][|ps[1..]| - 1] == ps[|ps| - 1];
      o
  }

  lemma {:induction false} SuffixSplit(b: string, i: nat, x: string, y: string)
    requires i <= |b| && b[i..] == x + y
    ensures i + |x| <= |b| && b[i..i + |x|] == x && b[i + |x|..] == y
  {
    assert b[i..][..|x|] == x && b[i..][|x|..] == y;
  }

  /// The '&' step of the scan stores the pending key.
  lemma {:induction false} ScanAmpersand(s: FormScan, e: nat)
    requires s.j <= e < |s.body| && s.body[e] == '&'
    ensures ScanForm(s, e) == ScanForm(s.(post := s.post[s.key := s.body[s.j..e]], j := e + 1), e + 1)
  {
  }

  /// One plain pair k=v starting at the segment boundary i.
  lemma {:induction false} ScanOnePair(s: FormScan, i: nat, k: string, v: string)
    requires s.j == i && i + |k| + 1 + |v| <= |s.body|
    requires s.body[i..i + |k|] == k && s.body[i + |k|] == '='
    requires s.body[i + |k| + 1..i + |k| + 1 + |v|] == v
    requires Plain(k) && Plain(v)
    ensures ScanForm(s, i) == ScanForm(s.(key := k, j := i + |k| + 1), i + |k| + 1 + |v|)
  {
    ScanSkipsPlain(s, i, |k|);
    var s1 := s.(key := s.body[s.j..i + |k|], j := i + |k| + 1);
    assert ScanForm(s, i + |k|) == ScanForm(s1, i + |k| + 1);
    ScanSkipsPlain(s1, i + |k| + 1, |v|);
  }

  /// A body whose suffix from i is k=v, split into its parts.
  lemma {:induction false} LastPairParts(b: string, i: nat, k: string, v: string)
    requires i <= |b| && b[i..] == k + "=" + v
    ensures i + |k| + 1 + |v| == |b|
    ensures b[i..i + |k|] == k && b[i + |k|] == '=' && b[i + |k| + 1..i + |k| + 1 + |v|] == v
  {
    SuffixSplit(b, i, k, "=" + v);
    SuffixSplit(b, i + |k|, "=", v);
    assert b[i + |k|] == b[i + |k|..][0];
  }

  /// A body whose suffix from i is k=v&rest, split into its parts.
  lemma {:induction false} PairParts(b: string, i: nat, k: string, v: string, rest: string)
    requires i <= |b| && b[i..] == k + "=" + v + "&" + rest
    ensures i + |k| + 1 + |v| < |b|
    ensures b[i..i + |k|] == k && b[i + |k|] == '=' && b[i + |k| + 1..i + |k| + 1 + |v|] == v
    ensures b[i + |k| + 1 + |v|] == '&' && b[i + |k| + 2 + |v|..] == rest
  {
    assert k + "=" + v + "&" + rest == k + ("=" + (v + ("&" + rest)));
    SuffixSplit(b, i, k, "=" + (v + ("&" + rest)));
    SuffixSplit(b, i + |k|, "=", v + ("&" + rest));
    SuffixSplit(b, i + |k| + 1, v, "&" + rest);
    SuffixSplit(b, i + |k| + 1 + |v|, "&", rest);
    assert b[i + |k|] == b[i + |k|..][0];
    assert b[i + |k| + 1 + |v|] == b[i + |k| + 1 + |v|..][0];
  }

  /// The map after every pair but the last is stored.
  function PairsBeforeLast(ps: seq<(string, string)>, post: map<string, string>): map<string, string>
    requires |ps| > 0
    decreases |ps|
  {
    if |ps| == 1 then post else PairsBeforeLast(ps[1..], post[ps[0].0 := ps[0].1])
  }

  /// Scanning k=v&rest from the segment boundary i stores k -> v and
  /// reaches the next boundary.
  lemma {:induction false} ScanFirstPair(s: FormScan, i: nat, k: string, v: string, rest: string)
    requires Plain(k) && Plain(v)
    requires s.j == i && i <= |s.body| && s.body[i..] == k + "=" + v + "&" + rest
    ensures var e := i + |k| + 1 + |v|;
            e + 1 <= |s.body| && s.body[e + 1..] == rest &&
            ScanForm(s, i) == ScanForm(s.(key := k, post := s.post[k := v], j := e + 1), e + 1)
  {
    PairParts(s.body, i, k, v, rest);
    var e := i + |k| + 1 + |v|;
    ScanOnePair(s, i, k, v);
    var s1 := s.(key := k, j := i + |k| + 1);
    ScanAmpersand(s1, e);
    assert s1.body[s1.j..e] == v;
  }

  lemma {:induction false} PlainPairsTail(ps: seq<(string, string)>)
    requires |ps| > 0 && PlainPairs(ps)
    ensures Plain(ps[0].0) && Plain(ps[0].1) && PlainPairs(ps[1..])
  {
    forall t | 0 <= t < |ps[1..]| ensures Plain(ps[1..][t].0) && Plain(ps[1..][t].1) {
      assert ps[1..][t] == ps[t + 1];
    }
  }

  /// Scanning JoinPairs(ps) from the segment boundary i to the end of the
  /// body stores every pair but the last and leaves the last key pending.
  lemma {:induction false} ScanPairs(s: FormScan, i: nat, ps: seq<(string, string)>)
    requires |ps| > 0 && PlainPairs(ps)
    requires s.j == i && i <= |s.body| && s.body[i..] == JoinPairs(ps)
    ensures ScanForm(s, i) ==
              Some(FormScan(s.body, ps[|ps| - 1].0, i + LastValueOffset(ps), PairsBeforeLast(ps, s.post)))
    decreases |ps|
  {
    var k, v := ps[0].0, ps[0].1;
    var b := s.body;
    PlainPairsTail(ps);
    if |ps| == 1 {
      assert JoinPairs(ps) == k + "=" + v;
      LastPairParts(b, i, k, v);
      ScanOnePair(s, i, k, v);
      assert ScanForm(s.(key := k, j := i + |k| + 1), |b|) == Some(s.(key := k, j := i + |k| + 1));
    } else {
      var rest := JoinPairs(ps[1..]);
      assert JoinPairs(ps) == k + "=" + v + "&" + rest;
      ScanFirstPair(s, i, k, v, rest);
      var e := i + |k| + 1 + |v|;
      var s2 := s.(key := k, post := s.post[k := v], j := e + 1);
      ScanPairs(s2, e + 1, ps[1..]);
      assert ps[1..][|ps[1..]| - 1] == ps[|ps| - 1];
    }
  }

  lemma {:induction false} StoredPairsSplit(ps: seq<(string, string)>, post: map<string, string>)
    requires |ps| > 0
    ensures var m := PairsBeforeLast(ps, post);
            var last := ps[|ps| - 1];
            StoredPairs(ps, post) == if last.0 !in m && last.1 != "" then m[last.0 := last.1] else m
    decreases |ps|
  {
    if |ps| > 1 {
      StoredPairsSplit(ps[1..], post[ps[0].0 := ps[0].1]);
      assert ps[1..][|ps[1..]| - 1] == ps[|ps| - 1];
    }
  }

  lemma {:induction false} JoinEndsWithLast(ps: seq<(string, string)>)
    requires |ps| > 0
    ensures JoinPairs(ps)[LastValueOffset(ps)..] == ps[|ps| - 1].1
    decreases |ps|
  {
    var k, v := ps[0].0, ps[0].1;
    if |ps| == 1 {
      assert JoinPairs(ps) == k + "=" + v;
    } else {
      JoinEndsWithLast(ps[1..]);
      assert ps[1..][|ps[1..]| - 1] == ps[|ps| - 1];
      var rest := JoinPairs(ps[1..]);
      var j := k + "=" + v + "&" + rest;
      assert JoinPairs(ps) == j;
      assert j[|k| + |v| + 2..] == rest;
    }
  }

  /// On a body of plain pairs the decoder stores exactly the reference map
  /// and leaves the body as it was.
  lemma {:induction false} FormDecodesPairs(ps: seq<(string, string)>, post: map<string, string>)
    requires PlainPairs(ps)
    ensures Urlencoded(JoinPairs(ps), post) == Some((JoinPairs(ps), StoredPairs(ps, post)))
  {
    if |ps| > 0 {
      var body := JoinPairs(ps);
      assert body[0..] == body;
      ScanPairs(FormScan(body, "", 0, post), 0, ps);
      StoredPairsSplit(ps, post);
      JoinEndsWithLast(ps);
    }
  }

  /// s with every '+' at index i or later turned into a space.
  function SpacedFrom(s: string, i: nat): string
  {
    seq(|s|, k requires 0 <= k < |s| => if i <= k && s[k] == '+' then ' ' else s[k])
  }

  /// s with every '+' turned into a space, as the decoder leaves it.
  function Spaced(s: string): string
  {
    SpacedFrom(s, 0)
  }

  function SpacedPairs(ps: seq<(string, string)>): seq<(string, string)>
  {
    seq(|ps|, i requires 0 <= i < |ps| => (Spaced(ps[i].0), Spaced(ps[i].1)))
  }

  /// A key or value that may hold '+' but none of the characters that
  /// split pairs or start an escape.
  predicate Text(s: string)
  {
    '=' !in s && '&' !in s && '%' !in s
  }

  predicate TextPairs(ps: seq<(string, string)>)
  {
    forall i :: 0 <= i < |ps| ==> Text(ps[i].0) && Text(ps[i].1)
  }

  predicate NoPercent(s: string)
  {
    forall k :: 0 <= k < |s| ==> s[k] != '%'
  }

  /// On a body without '%', scanning from i gives the same final state as
  /// scanning the body whose '+' from i on are already spaces.
  lemma {:induction false} ScanNoPercent(s: FormScan, i: nat)
    requires s.j <= i <= |s.body| && NoPercent(s.body)
    ensures ScanForm(s, i) == ScanForm(s.(body := SpacedFrom(s.body, i)), i)
    decreases |s.body| - i
  {
    var b := s.body;
    var b' := SpacedFrom(b, i);
    if i == |b| {
      assert b' == b;
    } else {
      var ch := b[i];
      assert b'[s.j..i] == b[s.j..i];
      if ch == '+' {
        var b2 := b[i := ' '];
        ScanNoPercent(s.(body := b2), i + 1);
        assert SpacedFrom(b2, i + 1) == b';
      } else {
        assert SpacedFrom(b, i + 1) == b';
        if ch == '=' {
          ScanNoPercent(s.(key := b[s.j..i], j := i + 1), i + 1);
        } else if ch == '&' {
          ScanNoPercent(s.(post := s.post[s.key := b[s.j..i]], j := i + 1), i + 1);
        } else {
          ScanNoPercent(s, i + 1);
        }
      }
    }
  }

  /// On a body without '%', decoding gives what decoding the body with
  /// every '+' already a space gives.
  lemma {:induction false} UrlencodedSpaced(body: string, post: map<string, string>)
    requires NoPercent(body)
    ensures Urlencoded(body, post) == Urlencoded(Spaced(body), post)
  {
    if |body| > 0 {
      ScanNoPercent(FormScan(body, "", 0, post), 0);
    }
  }

  lemma {:induction false} SpacedConcat(a: string, b: string)
    ensures Spaced(a + b) == Spaced(a) + Spaced(b)
  {
  }

  lemma {:induction false} SpacedJoin(ps: seq<(string, string)>)
    ensures Spaced(JoinPairs(ps)) == JoinPairs(SpacedPairs(ps))
    decreases |ps|
  {
    var sp := SpacedPairs(ps);
    if |ps| > 0 {
      var k, v := ps[0].0, ps[0].1;
      assert Spaced("=") == "=" && Spaced("&") == "&";
      SpacedConcat(k, "=");
      SpacedConcat(k + "=", v);
      assert sp[0] == (Spaced(k), Spaced(v));
      if |ps| == 1 {
        assert JoinPairs(ps) == k + "=" + v;
      } else {
        var rest := JoinPairs(ps[1..]);
        assert JoinPairs(ps) == k + "=" + v + "&" + rest;
        SpacedConcat(k + "=" + v, "&");
        SpacedConcat(k + "=" + v + "&", rest);
        SpacedJoin(ps[1..]);
        assert sp[1..] == SpacedPairs(ps[1..]);
      }
    }
  }

  lemma {:induction false} TextJoinNoPercent(ps: seq<(string, string)>)
    requires TextPairs(ps)
    ensures '%' !in JoinPairs(ps)
    decreases |ps|
  {
    if |ps| > 1 {
      TextJoinNoPercent(ps[1..]);
    }
  }

  lemma {:induction false} SpacedPairsPlain(ps: seq<(string, string)>)
    requires TextPairs(ps)
    ensures PlainPairs(SpacedPairs(ps))
  {
  }

  /// On a body of pairs whose keys and values may hold '+' but no '=', '&'
  /// or '%', the decoder turns every '+' of the body into a space and
  /// stores the reference map of the spaced pairs.
  lemma {:induction false} FormDecodesTextPairs(ps: seq<(string, string)>, post: map<string, string>)
    requires TextPairs(ps)
    ensures Urlencoded(JoinPairs(ps), post) ==
              Some((Spaced(JoinPairs(ps)), StoredPairs(SpacedPairs(ps), post)))
  {
    var body := JoinPairs(ps);
    TextJoinNoPercent(ps);
    assert forall k :: 0 <= k < |body| ==> body[k] in body;
    UrlencodedSpaced(body, post);
    SpacedJoin(ps);
    SpacedPairsPlain(ps);
    FormDecodesPairs(SpacedPairs(ps), post);
  }

  /// Any other character is passed over.
  lemma {:induction false} ScanOther(s: FormScan, e: nat)
    requires s.j <= e < |s.body| && !IsFormSpecial(s.body[e])
    ensures ScanForm(s, e) == ScanForm(s, e + 1)
  {
  }

  /// The '=' step of the scan makes the segment so far the pending key.
  lemma {:induction false} ScanEquals(s: FormScan, e: nat)
    requires s.j <= e < |s.body| && s.body[e] == '='
    ensures ScanForm(s, e) == ScanForm(s.(key := s.body[s.j..e], j := e + 1), e + 1)
  {
  }

  /// The '+' step of the scan writes a space over the '+'.
  lemma {:induction false} ScanPlus(s: FormScan, e: nat)
    requires s.j <= e < |s.body| && s.body[e] == '+'
    ensures ScanForm(s, e) == ScanForm(s.(body := s.body[e := ' ']), e + 1)
  {
  }

  /// The '%' step of the scan rewrites the two characters after the '%'
  /// and resumes after them.
  lemma {:induction false} ScanPercent(s: FormScan, e: nat)
    requires s.j <= e && e + 2 < |s.body| && s.body[e] == '%'
    ensures ScanForm(s, e) == ScanForm(s.(body := PercentRewrite(s.body, e)), e + 3)
  {
  }

  /// A '%' reached with fewer than two characters after it makes
  /// parseFromUrlencoded index past the end of the body.
  lemma {:induction false} ScanPercentAtEnd(s: FormScan, e: nat)
    requires s.j <= e < |s.body| && |s.body| <= e + 2 && s.body[e] == '%'
    ensures ScanForm(s, e) == None
  {
  }

  /// '+' in a value is stored as a space: b=x+y stores x y for b.
  lemma {:induction false} PlusBecomesSpace()
    ensures Urlencoded("b=x+y", map[]) == Some(("b=x y", map["b" := "x y"]))
  {
    var c0 := FormScan("b=x+y", "", 0, map[]);
    assert "b=x+y"[0..1] == "b";
    ScanSkipsPlain(c0, 0, 1);
    ScanEquals(c0, 1);
    var c1 := FormScan("b=x+y", "b", 2, map[]);
    ScanSkipsPlain(c1, 2, 1);
    ScanPlus(c1, 3);
    var c2 := c1.(body := "b=x y");
    assert "b=x+y"[3 := ' '] == "b=x y";
    ScanSkipsPlain(c2, 4, 1);
    assert ScanForm(c2, 5) == Some(c2);
    assert "b=x y"[2..] == "x y";
  }

  /// The '%' branch as written: converHex('4') and converHex('1') are the
  /// character codes 52 and 49, num is 52 * 16 + 49 = 881, and the two
  /// characters after '%' become '0' + 88 and '0' + 1. So c=%41 stores for
  /// c the three characters '%', '0' + 88 and '1', where percent-decoding
  /// (section 2.1 of RFC 3986) would give "A".
  lemma {:induction false} PercentEscapeNotDecoded()
    ensures Urlencoded("c=%41", map[]) == Some(("c=%\U{88}1", map["c" := "%\U{88}1"]))
    ensures Urlencoded("c=%41", map[]).value.1["c"] != "A"
  {
    var c0 := FormScan("c=%41", "", 0, map[]);
    ScanSkipsPlain(c0, 0, 1);
    ScanEquals(c0, 1);
    assert "c=%41"[0..1] == "c";
    var c1 := FormScan("c=%41", "c", 2, map[]);
    assert "c=%41"[3] == '4' && "c=%41"[4] == '1';
    assert ConverHex('4') == 52 && ConverHex('1') == 49;
    assert CRem(881, 10) == 1 && CDiv(881, 10) == 88;
    assert ToChar(1 + 48) == '1' && ToChar(88 + 48) == '\U{88}';
    ScanPercent(c1, 2);
    var cb := "c=%41"[4 := '1'][3 := '\U{88}'];
    assert PercentRewrite("c=%41", 2) == cb;
    assert ScanForm(c1.(body := cb), 5) == Some(c1.(body := cb));
    assert cb == "c=%\U{88}1";
    assert cb[2..] == "%\U{88}1";
  }

  // ---------------------------------------------------------------------
  // The steps of the state machine

  /// userVerify's own guard: an empty name or password never verifies;
  /// otherwise the credential store decides.
  function UserVerify(verify: Verifier, name: string, pwd: string, isLogin: bool): (ok: bool)
    ensures name == "" || pwd == "" ==> !ok
    ensures name != "" && pwd != "" ==> ok == verify(name, pwd, isLogin)
  {
    if name == "" || pwd == "" then false else verify(name, pwd, isLogin)
  }

  /// m[k] for reading through std::unordered_map::operator[]: inserts an
  /// empty value for a missing key.
  function WithKey(m: map<string, string>, k: string): (m': map<string, string>)
    ensures k in m' && m'[k] == (if k in m then m[k] else "")
    ensures forall x :: x in m ==> x in m' && m'[x] == m[x]
    ensures m'.Keys == m.Keys + {k}
  {
    if k in m then m else m[k := ""]
  }

  /// parseRequestLine: a matching line sets method, path and version and
  /// moves to HEADERS.
  function RequestLineStep(r: Request, line: string): Option<Request>
  {
    match SplitRequestLine(line)
    case None => None
    case Some(parts) =>
      Some(r.(state := Headers, httpMethod := parts.0, path := parts.1, version := parts.2))
  }

  /// parseHeader: a matching line stores name -> value (a repeated name
  /// keeps the last value); any other line moves to BODY and stores nothing.
  function HeaderStep(r: Request, line: string): Request
  {
    match SplitHeader(line)
    case Some(nv) => r.(header := r.header[nv.0 := nv.1])
    case None => r.(state := Body)
  }

  /// parsePost (httprequest.cpp:119-135). None when the form decoder would
  /// read past the body.
  function PostStep(r: Request, verify: Verifier): Option<Request>
  {
    if r.httpMethod != "POST" then Some(r)
    else
      var header := WithKey(r.header, "Content-Type");
      if header["Content-Type"] != FORM_URLENCODED then Some(r.(header := header))
      else
        match Urlencoded(r.body, r.post)
        case None => None
        case Some(decoded) =>
          var r1 := r.(header := header, body := decoded.0, post := decoded.1);
          if r1.path !in DEFAULT_HTML_TAG then Some(r1)
          else
            var tag := DEFAULT_HTML_TAG[r1.path];
            if tag == 0 || tag == 1 then
              var post := WithKey(WithKey(r1.post, "username"), "password");
              var ok := UserVerify(verify, post["username"], post["password"], tag == 1);
              Some(r1.(post := post, path := if ok then "/welcome.html" else "/error.html"))
            else Some(r1)
  }

  /// parseBody: the line is the body; parsePost runs and the state is FINISH.
  function BodyStep(r: Request, line: string, verify: Verifier): Option<Request>
  {
    match PostStep(r.(body := line), verify)
    case None => None
    case Some(b) => Some(b.(state := Finish))
  }

  /// What one pass through the switch of parse does with a line.
  datatype Handled = Failed | Undefined | Next(req: Request)

  /// The switch of parse (httprequest.cpp:40-58) on one line; `readable` is
  /// the count of readable bytes at that moment, the line included.
  function HandleLine(r: Request, line: string, readable: nat, verify: Verifier): Handled
    requires r.state != Finish
  {
    match r.state
    case RequestLine =>
      (match RequestLineStep(r, line)
       case None => Failed
       case Some(r1) => Next(r1.(path := NormalizePath(r1.path))))
    case Headers =>
      var h := HeaderStep(r, line);
      Next(if readable <= 2 then h.(state := Finish) else h)
    case Body =>
      (match BodyStep(r, line, verify)
       case None => Undefined
       case Some(b) => Next(b))
  }

  /// Result of parse: its return value, the request afterwards, and how
  /// many readable bytes it consumed.
  datatype Parsed = Parsed(ok: bool, req: Request, consumed: nat)

  /// The while loop of parse on the readable bytes `data`. Each complete
  /// line goes to the current state's handler and is then consumed with its
  /// CRLF; a last fragment without CRLF is handed to the handler too but is
  /// not consumed, and the loop stops. None when the form decoder would
  /// read past the body.
  function ParseLoop(r: Request, data: seq<char>, verify: Verifier): Option<Parsed>
    decreases |data|, 2
  {
    if |data| == 0 || r.state == Finish then Some(Parsed(true, r, 0))
    else LoopLine(r, data, verify)
  }

  /// The body of the loop: search finds the end of the first line.
  function LoopLine(r: Request, data: seq<char>, verify: Verifier): Option<Parsed>
    requires |data| != 0 && r.state != Finish
    decreases |data|, 1
  {
    LoopSwitch(r, data, FindCrlf(data), verify)
  }

  /// The rest of the body of the loop, with the first line ending at k:
  /// the line goes to the switch, then the loop goes on after its CRLF.
  function LoopSwitch(r: Request, data: seq<char>, k: nat, verify: Verifier): Option<Parsed>
    requires |data| != 0 && r.state != Finish && k == FindCrlf(data)
    decreases |data|, 0
  {
    match HandleLine(r, data[..k], |data|, verify)
    case Failed => Some(Parsed(false, r, 0))
    case Undefined => None
    case Next(r1) =>
      if k == |data| then Some(Parsed(true, r1, 0))
      else Shift(ParseLoop(r1, data[k + 2..], verify), k + 2)
  }

  /// A result of the loop on the rest of the bytes, with n more consumed.
  function Shift(o: Option<Parsed>, n: nat): Option<Parsed>
  {
    match o
    case None => None
    case Some(p) => Some(p.(consumed := p.consumed + n))
  }

  /// A handled line with its CRLF keeps the loop's result: what the rest
  /// yields, with the line counted as consumed, is still the goal.
  lemma {:induction false} LoopInvariantKept(r: Request, data: seq<char>, r1: Request, rest: seq<char>, done: nat, n: nat, goal: Parsed, verify: Verifier)
    requires |data| != 0 && r.state != Finish && FindCrlf(data) < |data|
    requires HandleLine(r, FirstLine(data), |data|, verify) == Next(r1)
    requires rest == data[FindCrlf(data) + 2..] && n == done + FindCrlf(data) + 2
    requires Shift(ParseLoop(r, data, verify), done) == Some(goal)
    ensures Shift(ParseLoop(r1, rest, verify), n) == Some(goal)
  {
    ParseLoopNext(r, data, verify);
    ShiftTwice(ParseLoop(r1, rest, verify), FindCrlf(data) + 2, done);
  }

  /// A line that does not match: the loop's result is false, with the
  /// request unchanged and nothing more consumed.
  lemma {:induction false} LoopFailedGoal(r: Request, data: seq<char>, done: nat, goal: Parsed, verify: Verifier)
    requires |data| != 0 && r.state != Finish
    requires HandleLine(r, FirstLine(data), |data|, verify).Failed?
    requires Shift(ParseLoop(r, data, verify), done) == Some(goal)
    ensures goal == Parsed(false, r, done)
  {
    ParseLoopFailed(r, data, verify);
  }

  /// A last fragment without CRLF: the loop's result is true, with the
  /// fragment handled and nothing more consumed.
  lemma {:induction false} LoopFragmentGoal(r: Request, data: seq<char>, r1: Request, done: nat, goal: Parsed, verify: Verifier)
    requires |data| != 0 && r.state != Finish && FindCrlf(data) == |data|
    requires HandleLine(r, FirstLine(data), |data|, verify) == Next(r1)
    requires Shift(ParseLoop(r, data, verify), done) == Some(goal)
    ensures goal == Parsed(true, r1, done)
  {
    ParseLoopFragment(r, data, verify);
  }

  lemma {:induction false} ShiftTwice(o: Option<Parsed>, m: nat, n: nat)
    ensures Shift(Shift(o, m), n) == Shift(o, m + n)
  {
  }

  /// A non-empty buffer and a request not in FINISH: the loop runs its
  /// body on the first line.
  lemma {:induction false} ParseLoopUnfold(r: Request, data: seq<char>, verify: Verifier)
    requires |data| != 0 && r.state != Finish
    ensures ParseLoop(r, data, verify) == LoopSwitch(r, data, FindCrlf(data), verify)
  {
    assert ParseLoop(r, data, verify) == LoopLine(r, data, verify);
  }

  /// A failed line, or a fragment without CRLF, ends the loop with
  /// nothing consumed.
  lemma {:induction false} ParseLoopStops(r: Request, data: seq<char>, verify: Verifier)
    requires |data| != 0 && r.state != Finish
    requires FindCrlf(data) == |data| || !HandleLine(r, FirstLine(data), |data|, verify).Next?
    requires ParseLoop(r, data, verify).Some?
    ensures ParseLoop(r, data, verify).value.consumed == 0
  {
    ParseLoopUnfold(r, data, verify);
  }

  /// An empty buffer, or a request in FINISH, ends the loop at once.
  lemma {:induction false} ParseLoopDone(r: Request, data: seq<char>, verify: Verifier)
    requires |data| == 0 || r.state == Finish
    ensures ParseLoop(r, data, verify) == Some(Parsed(true, r, 0))
  {
  }

  /// The loop never reaches a line whose form decoding goes wrong.
  lemma {:induction false} ParseLoopDefined(r: Request, data: seq<char>, verify: Verifier)
    requires |data| != 0 && r.state != Finish && ParseLoop(r, data, verify).Some?
    ensures !HandleLine(r, FirstLine(data), |data|, verify).Undefined?
  {
    ParseLoopUnfold(r, data, verify);
  }

  /// A line that does not match ends the loop with false, nothing changed.
  lemma {:induction false} ParseLoopFailed(r: Request, data: seq<char>, verify: Verifier)
    requires |data| != 0 && r.state != Finish
    requires HandleLine(r, FirstLine(data), |data|, verify).Failed?
    ensures ParseLoop(r, data, verify) == Some(Parsed(false, r, 0))
  {
    ParseLoopUnfold(r, data, verify);
  }

  /// A last fragment without CRLF is handled and then ends the loop,
  /// unconsumed.
  lemma {:induction false} ParseLoopFragment(r: Request, data: seq<char>, verify: Verifier)
    requires |data| != 0 && r.state != Finish && FindCrlf(data) == |data|
    requires HandleLine(r, FirstLine(data), |data|, verify).Next?
    ensures ParseLoop(r, data, verify) == Some(Parsed(true, HandleLine(r, FirstLine(data), |data|, verify).req, 0))
  {
    ParseLoopUnfold(r, data, verify);
  }

  /// One complete line handled without failing: the loop goes on with the
  /// bytes after its CRLF.
  lemma {:induction false} ParseLoopNext(r: Request, data: seq<char>, verify: Verifier)
    requires |data| != 0 && r.state != Finish
    requires FindCrlf(data) < |data| && HandleLine(r, FirstLine(data), |data|, verify).Next?
    ensures var k := FindCrlf(data);
            ParseLoop(r, data, verify) ==
              Shift(ParseLoop(HandleLine(r, FirstLine(data), |data|, verify).req, data[k + 2..], verify), k + 2)
  {
    ParseLoopUnfold(r, data, verify);
  }

  /// parse: false at once on an empty buffer, otherwise the loop.
  function ParseSpec(r: Request, data: seq<char>, verify: Verifier): Option<Parsed>
  {
    if |data| == 0 then Some(Parsed(false, r, 0)) else ParseLoop(r, data, verify)
  }

  /// The first line of `data`, without its CRLF.
  function FirstLine(data: seq<char>): string
  {
    data[..FindCrlf(data)]
  }

  /// Once past the request line the loop never fails.
  lemma {:induction false} LoopSucceedsPastRequestLine(r: Request, data: seq<char>, verify: Verifier)
    requires r.state != RequestLine
    requires ParseLoop(r, data, verify).Some?
    ensures ParseLoop(r, data, verify).value.ok
    decreases |data|
  {
    if |data| != 0 && r.state != Finish {
      ParseLoopUnfold(r, data, verify);
      var k := FindCrlf(data);
      var h := HandleLine(r, data[..k], |data|, verify);
      if h.Next? && k < |data| {
        LoopSucceedsPastRequestLine(h.req, data[k + 2..], verify);
      }
    }
  }

  /// The machine only moves forward: no step goes back to REQUEST_LINE.
  lemma {:induction false} HandleLineAdvances(r: Request, line: string, readable: nat, verify: Verifier)
    requires r.state != Finish
    requires HandleLine(r, line, readable, verify).Next?
    ensures HandleLine(r, line, readable, verify).req.state != RequestLine
  {
  }

  /// parse returns false exactly when the buffer is empty or, from
  /// REQUEST_LINE, the first line is not a request line; true otherwise.
  lemma {:induction false} ParseFailsIff(r: Request, data: seq<char>, verify: Verifier)
    requires ParseSpec(r, data, verify).Some?
    ensures !ParseSpec(r, data, verify).value.ok <==>
              |data| == 0 || (r.state == RequestLine && SplitRequestLine(FirstLine(data)).None?)
  {
    if |data| != 0 && r.state != Finish {
      ParseLoopUnfold(r, data, verify);
      var k := FindCrlf(data);
      var h := HandleLine(r, data[..k], |data|, verify);
      if h.Next? {
        HandleLineAdvances(r, data[..k], |data|, verify);
        if k < |data| {
          LoopSucceedsPastRequestLine(h.req, data[k + 2..], verify);
        }
      }
    }
  }

  /// parse consumes a prefix of the readable bytes made of whole lines:
  /// nothing, or up to and including a CRLF.
  lemma {:induction false} ParseConsumesLines(r: Request, data: seq<char>, verify: Verifier)
    requires ParseLoop(r, data, verify).Some?
    ensures var c := ParseLoop(r, data, verify).value.consumed;
            c <= |data| && (c > 0 ==> IsCrlfAt(data, c - 2))
    decreases |data|
  {
    if |data| != 0 && r.state != Finish {
      var k := FindCrlf(data);
      var h := HandleLine(r, FirstLine(data), |data|, verify);
      if h.Next? && k < |data| {
        var rest := data[k + 2..];
        ParseLoopNext(r, data, verify);
        ParseConsumesLines(h.req, rest, verify);
        var c := ParseLoop(h.req, rest, verify).value.consumed;
        assert ParseLoop(r, data, verify).value.consumed == c + k + 2;
        CrlfAfterLine(data, k, c);
      } else {
        ParseLoopStops(r, data, verify);
      }
    }
  }

  lemma {:induction false} CrlfAfterLine(data: seq<char>, k: nat, c: nat)
    requires IsCrlfAt(data, k) && c <= |data| - (k + 2)
    requires c > 0 ==> IsCrlfAt(data[k + 2..], c - 2)
    ensures IsCrlfAt(data, c + k)
  {
    if c > 0 {
      var rest := data[k + 2..];
      assert data[k + c] == rest[c - 2] && data[k + c + 1] == rest[c - 1];
    }
  }

  /// isKeepAlive: header Connection is exactly "keep-alive" and the
  /// version exactly "1.1".
  function KeepAlive(r: Request): (b: bool)
    ensures b <==> "Connection" in r.header && r.header["Connection"] == "keep-alive" && r.version == "1.1"
  {
    if "Connection" in r.header then r.header["Connection"] == "keep-alive" && r.version == "1.1"
    else false
  }

  predicate NoCR(s: string) {
    forall i :: 0 <= i < |s| ==> s[i] != '\r'
  }

  lemma {:induction false} NoCRConcat(a: string, b: string)
    requires NoCR(a) && NoCR(b)
    ensures NoCR(a + b)
  {
    assert forall i :: 0 <= i < |a + b| ==> (a + b)[i] == if i < |a| then a[i] else b[i - |a|];
  }

  /// A request line in REQUEST_LINE sets the three fields, with the path
  /// rewritten, and moves to HEADERS.
  lemma {:induction false} RequestLineHandled(r: Request, m: string, p: string, v: string, readable: nat, verify: Verifier)
    requires r.state == RequestLine && NoSpace(m) && NoSpace(p) && NoSpace(v)
    ensures HandleLine(r, m + " " + p + " HTTP/" + v, readable, verify) ==
              Next(r.(state := Headers, httpMethod := m, path := NormalizePath(p), version := v))
  {
    RequestLineComplete(m, p, v);
  }

  /// A header line in HEADERS with more than its CRLF after it stores the
  /// header and stays in HEADERS.
  lemma {:induction false} HeaderLineHandled(r: Request, name: string, value: string, readable: nat, verify: Verifier)
    requires r.state == Headers && readable > 2
    requires NoColon(name) && NoTerminator(value)
    ensures HandleLine(r, name + ": " + value, readable, verify) == Next(r.(header := r.header[name := value]))
  {
    HeaderLineComplete(name, value);
  }

  /// The blank line that is the last two readable bytes ends the parse.
  lemma {:induction false} BlankLineAtEnd(r: Request, verify: Verifier)
    requires r.state == Headers
    ensures HandleLine(r, "", 2, verify) == Next(r.(state := Finish))
  {
    assert SplitHeader("") == None;
  }

  /// In HEADERS, any line with at most two readable bytes left ends the
  /// parse, whatever the line holds; with more left, a header line keeps
  /// the state and any other line moves to BODY. A header line stores its
  /// name and value and nothing else of the request changes.
  lemma {:induction false} HeadersLineOutcome(r: Request, line: string, readable: nat, verify: Verifier)
    requires r.state == Headers
    ensures var h := HandleLine(r, line, readable, verify);
            h.Next? &&
            (readable <= 2 ==> h.req.state == Finish) &&
            (readable > 2 ==> h.req.state == if SplitHeader(line).Some? then Headers else Body) &&
            h.req.header == (match SplitHeader(line)
                             case Some(nv) => r.header[nv.0 := nv.1]
                             case None => r.header) &&
            h.req.(state := r.state, header := r.header) == r
  {
  }

  /// The request line of a parse that begins at REQUEST_LINE: the loop goes
  /// on after its CRLF with the fields set.
  lemma {:induction false} FirstLineParsed(m: string, p: string, v: string, rest: seq<char>, verify: Verifier)
    requires NoSpace(m) && NoSpace(p) && NoSpace(v) && NoCR(m) && NoCR(p) && NoCR(v)
    ensures var line := m + " " + p + " HTTP/" + v;
            var r1 := InitRequest().(state := Headers, httpMethod := m, path := NormalizePath(p), version := v);
            ParseLoop(InitRequest(), line + "\r\n" + rest, verify) ==
              Shift(ParseLoop(r1, rest, verify), |line| + 2)
  {
    var line := m + " " + p + " HTTP/" + v;
    NoCRConcat(m, " ");
    NoCRConcat(m + " ", p);
    NoCRConcat(m + " " + p, " HTTP/");
    NoCRConcat(m + " " + p + " HTTP/", v);
    var data := line + "\r\n" + rest;
    FindCrlfOfLine(line, rest);
    assert FirstLine(data) == line;
    RequestLineHandled(InitRequest(), m, p, v, |data|, verify);
    var r1 := InitRequest().(state := Headers, httpMethod := m, path := NormalizePath(p), version := v);
    assert HandleLine(InitRequest(), FirstLine(data), |data|, verify) == Next(r1);
    ParseLoopNext(InitRequest(), data, verify);
    assert data[|line| + 2..] == rest;
    assert ParseLoop(InitRequest(), data, verify) == Shift(ParseLoop(r1, rest, verify), |line| + 2);
  }

  /// A header line with no CRLF after it, the last bytes in HEADERS: it is
  /// stored, the state stays HEADERS and nothing is consumed.
  lemma {:induction false} HeaderFragmentLoop(r: Request, name: string, frag: string, verify: Verifier)
    requires r.state == Headers
    requires NoColon(name) && NoCR(name) && NoTerminator(frag) && name != ""
    ensures ParseLoop(r, name + ": " + frag, verify) ==
              Some(Parsed(true, r.(header := r.header[name := frag]), 0))
  {
    var hline := name + ": " + frag;
    assert NoCR(hline) by {
      assert NoCR(": ") && NoCR(frag);
      NoCRConcat(name, ": ");
      NoCRConcat(name + ": ", frag);
    }
    FindCrlfNone(hline);
    assert FirstLine(hline) == hline;
    HeaderLineHandled(r, name, frag, |hline|, verify);
    ParseLoopUnfold(r, hline, verify);
  }

  /// A request whose only header is name: value is keep-alive exactly when
  /// that header is Connection: keep-alive and the version is 1.1.
  lemma {:induction false} KeepAliveOneHeader(st: ParseState, m: string, path: string, v: string, name: string, value: string)
    ensures KeepAlive(Request(st, m, path, v, "", map[name := value], map[])) <==>
              name == "Connection" && value == "keep-alive" && v == "1.1"
  {
    var r := Request(st, m, path, v, "", map[name := value], map[]);
    assert "Connection" in r.header <==> name == "Connection";
  }

  /// The same request with its header line cut short (no CRLF yet): the
  /// fragment is handed to parseHeader as if complete, parse succeeds and
  /// stores the partial value, and only the request line is consumed. So
  /// Connection: keep-al arriving first gives a connection that is not
  /// keep-alive, where the whole request would have been.
  lemma {:induction false} FragmentParsedAsHeader(m: string, p: string, v: string, name: string, frag: string, verify: Verifier)
    requires NoSpace(m) && NoSpace(p) && NoSpace(v) && NoCR(m) && NoCR(p) && NoCR(v)
    requires NoColon(name) && NoCR(name) && NoTerminator(frag) && name != ""
    ensures var line := m + " " + p + " HTTP/" + v;
            var data := line + "\r\n" + name + ": " + frag;
            ParseSpec(InitRequest(), data, verify) ==
              Some(Parsed(true, Request(Headers, m, NormalizePath(p), v, "", map[name := frag], map[]), |line| + 2))
    ensures KeepAlive(Request(Headers, m, NormalizePath(p), v, "", map[name := frag], map[])) <==>
              name == "Connection" && frag == "keep-alive" && v == "1.1"
  {
    var line := m + " " + p + " HTTP/" + v;
    var hline := name + ": " + frag;
    var data := line + "\r\n" + hline;
    assert data == line + "\r\n" + name + ": " + frag;
    FirstLineParsed(m, p, v, hline, verify);
    var r1 := InitRequest().(state := Headers, httpMethod := m, path := NormalizePath(p), version := v);
    HeaderFragmentLoop(r1, name, frag, verify);
    var r2 := r1.(header := r1.header[name := frag]);
    assert r2 == Request(Headers, m, NormalizePath(p), v, "", map[name := frag], map[]);
    assert Shift(ParseLoop(r1, hline, verify), |line| + 2) == Some(Parsed(true, r2, |line| + 2));
    assert ParseLoop(InitRequest(), data, verify) == Some(Parsed(true, r2, |line| + 2));
    assert ParseSpec(InitRequest(), data, verify) == ParseLoop(InitRequest(), data, verify);
    assert ParseSpec(InitRequest(), line + "\r\n" + name + ": " + frag, verify) == Some(Parsed(true, r2, |line| + 2));
    KeepAliveOneHeader(Headers, m, NormalizePath(p), v, name, frag);
  }

  /// A login or registration form post ends on /welcome.html exactly when
  /// both fields are non-empty and the credential store accepts them, and
  /// on /error.html otherwise.
  lemma {:induction false} LoginRedirect(r: Request, verify: Verifier)
    requires r.httpMethod == "POST" && "Content-Type" in r.header && r.header["Content-Type"] == FORM_URLENCODED
    requires r.path in DEFAULT_HTML_TAG
    requires PostStep(r, verify).Some?
    ensures var q := PostStep(r, verify).value;
            var d := Urlencoded(r.body, r.post).value.1;
            q.path == "/welcome.html" <==>
              ("username" in d && d["username"] != "" && "password" in d && d["password"] != "" &&
               verify(d["username"], d["password"], r.path == "/login.html"))
    ensures PostStep(r, verify).value.path in {"/welcome.html", "/error.html"}
  {
  }

  /// parsePost leaves a request alone unless it is a POST, and only adds an
  /// empty Content-Type header when a POST is not a form.
  lemma {:induction false} PostOnlyForForms(r: Request, verify: Verifier)
    ensures r.httpMethod != "POST" ==> PostStep(r, verify) == Some(r)
    ensures r.httpMethod == "POST" && !("Content-Type" in r.header && r.header["Content-Type"] == FORM_URLENCODED) ==>
              PostStep(r, verify) == Some(r.(header := WithKey(r.header, "Content-Type")))
  {
  }

  // ---------------------------------------------------------------------
  // The HttpRequest object

  class HttpRequest {
    var state: ParseState
    var httpMethod: string
    var path: string
    var version: string
    var body: string
    var header: map<string, string>
    var post: map<string, string>

    function Snapshot(): Request
      reads this
    {
      Request(state, httpMethod, path, version, body, header, post)
    }

    /// HttpRequest() runs init().
    constructor ()
      ensures Snapshot() == InitRequest()
    {
      state := RequestLine;
      httpMethod, path, version, body := "", "", "", "";
      header, post := map[], map[];
    }

    /// init: all strings empty, state REQUEST_LINE, both maps cleared.
    method Init()
      modifies this
      ensures Snapshot() == InitRequest()
    {
      httpMethod, path, version, body := "", "", "", "";
      state := RequestLine;
      header := map[];
      post := map[];
    }

    function IsKeepAlive(): (b: bool)
      reads this
      ensures b == KeepAlive(Snapshot())
    {
      if "Connection" in header then header["Connection"] == "keep-alive" && version == "1.1"
      else false
    }

    /// getPost: the stored value for a non-empty key, or "".
    function GetPost(key: string): (v: string)
      reads this
      requires key != ""
      ensures key in post ==> v == post[key]
      ensures key !in post ==> v == ""
    {
      if key in post then post[key] else ""
    }

    method ParseRequestLine(line: string) returns (ok: bool)
      modifies this
      ensures ok <==> RequestLineStep(old(Snapshot()), line).Some?
      ensures ok ==> Some(Snapshot()) == RequestLineStep(old(Snapshot()), line)
      ensures !ok ==> Snapshot() == old(Snapshot())
    {
      var sub := SplitRequestLine(line);
      if sub.Some? {
        httpMethod, path, version := sub.value.0, sub.value.1, sub.value.2;
        state := Headers;
        return true;
      }
      return false;
    }

    method ParsePath()
      modifies this`path
      ensures path == NormalizePath(old(path))
    {
      if path == "/" {
        path := "/index.html";
      } else if IsListed(path, DEFAULT_HTML) {
        path := path + ".html";
      }
    }

    method ParseHeader(line: string)
      modifies this`header, this`state
      ensures Snapshot() == HeaderStep(old(Snapshot()), line)
    {
      var sub := SplitHeader(line);
      if sub.Some? {
        header := header[sub.value.0 := sub.value.1];
      } else {
        state := Body;
      }
    }

    method ParseBody(line: string, verify: Verifier)
      requires BodyStep(Snapshot(), line, verify).Some?
      modifies this
      ensures Some(Snapshot()) == BodyStep(old(Snapshot()), line, verify)
    {
      body := line;
      ParsePost(verify);
      state := Finish;
    }

    method ParsePost(verify: Verifier)
      requires PostStep(Snapshot(), verify).Some?
      modifies this
      ensures Some(Snapshot()) == PostStep(old(Snapshot()), verify)
    {
      if httpMethod == "POST" {
        header := WithKey(header, "Content-Type");
        if header["Content-Type"] == FORM_URLENCODED {
          ParseFromUrlencoded();
          if path in DEFAULT_HTML_TAG {
            var tag := DEFAULT_HTML_TAG[path];
            if tag == 0 || tag == 1 {
              var isLogin := tag == 1;
              post := WithKey(post, "username");
              post := WithKey(post, "password");
              if UserVerify(verify, post["username"], post["password"], isLogin) {
                path := "/welcome.html";
              } else {
                path := "/error.html";
              }
            }
          }
        }
      }
    }

    /// parseFromUrlencoded: rewrites the body in place and fills the map.
    method ParseFromUrlencoded()
      requires Urlencoded(body, post).Some?
      modifies this`body, this`post
      ensures Urlencoded(old(body), old(post)) == Some((body, post))
    {
      if |body| == 0 {
        return;
      }
      var key, value := "", "";
      var num := 0;
      var n := |body|;
      var i, j := 0, 0;
      ghost var start := FormScan(body, "", 0, post);
      while i < n
        invariant |body| == n && j <= i <= n
        invariant ScanForm(start, 0).Some?
        invariant ScanForm(FormScan(body, key, j, post), i) == ScanForm(start, 0)
        decreases n - i
      {
        var ch := body[i];
        ghost var cur := FormScan(body, key, j, post);
        if ch == '=' {
          ScanEquals(cur, i);
          key := body[j..i];
          j := i + 1;
        } else if ch == '+' {
          ScanPlus(cur, i);
          body := body[i := ' '];
        } else if ch == '%' {
          ScanPercent(cur, i);
          num := ConverHex(body[i + 1]) * 16 + ConverHex(body[i + 2]);
          var low, high := ToChar(CRem(num, 10) + '0' as int), ToChar(CDiv(num, 10) + '0' as int);
          PercentRewriteIs(body, i, num);
          body := body[i + 2 := low];
          body := body[i + 1 := high];
          i := i + 2;
        } else if ch == '&' {
          ScanAmpersand(cur, i);
          value := body[j..i];
          j := i + 1;
          post := post[key := value];
        } else {
          ScanOther(cur, i);
        }
        i := i + 1;
      }
      ghost var last := FormScan(body, key, j, post);
      assert ScanForm(last, i) == Some(last);
      assert ScanForm(FormScan(old(body), "", 0, old(post)), 0) == Some(last);
      assert old(body) != [];
      if key !in post && j < i {
        assert body[j..i] == body[j..];
        value := body[j..i];
        post := post[key := value];
      }
    }

    /// One pass through the switch of parse on `line`, with `readable`
    /// bytes readable in the buffer.
    method HandleCurrentLine(line: string, readable: nat, verify: Verifier) returns (matched: bool)
      requires state != Finish
      requires !HandleLine(Snapshot(), line, readable, verify).Undefined?
      modifies this
      ensures matched == HandleLine(old(Snapshot()), line, readable, verify).Next?
      ensures matched ==> Snapshot() == HandleLine(old(Snapshot()), line, readable, verify).req
      ensures !matched ==> Snapshot() == old(Snapshot())
    {
      match state {
        case RequestLine =>
          matched := ParseRequestLine(line);
          if matched {
            ParsePath();
          }
        case Headers =>
          ParseHeader(line);
          if readable <= 2 {
            state := Finish;
          }
          matched := true;
        case Body =>
          ParseBody(line, verify);
          matched := true;
      }
    }

    /// One pass of the while loop of parse (httprequest.cpp:38-63): the
    /// first readable line goes through the switch; a line that does not
    /// match stops the loop with false, a last fragment without CRLF stops
    /// it with true, and a complete line is consumed with its CRLF.
    method ParseNextLine(buff: Buffer, verify: Verifier) returns (stop: bool, ok: bool)
      requires buff.Valid() && buff.ReadableBytes() > 0 && state != Finish
      requires ParseLoop(Snapshot(), buff.Readable(), verify).Some?
      modifies this, buff`readPos
      ensures buff.Valid() && buff.buffer == old(buff.buffer) && buff.writePos == old(buff.writePos)
      ensures stop ==> (buff.readPos == old(buff.readPos) &&
                ParseLoop(old(Snapshot()), old(buff.Readable()), verify) == Some(Parsed(ok, Snapshot(), 0)))
      ensures !stop ==> (old(buff.readPos) < buff.readPos &&
                Shift(ParseLoop(Snapshot(), buff.Readable(), verify), buff.readPos - old(buff.readPos)) ==
                ParseLoop(old(Snapshot()), old(buff.Readable()), verify))
    {
      ghost var before := Snapshot();
      ghost var data := buff.Readable();
      var k := FindCrlf(buff.Readable());
      var line := buff.Readable()[..k];
      assert line == FirstLine(data);
      ParseLoopDefined(before, data, verify);
      var matched := HandleCurrentLine(line, buff.ReadableBytes(), verify);
      if !matched {
        ParseLoopFailed(before, data, verify);
        return true, false;
      }
      if k == buff.ReadableBytes() {
        ParseLoopFragment(before, data, verify);
        return true, true;
      }
      buff.RetrieveUntil(buff.readPos + k + 2);
      assert buff.Readable() == data[k + 2..];
      ParseLoopNext(before, data, verify);
      stop, ok := false, true;
    }

    /// parse: drives the state machine over the buffer's readable bytes.
    method Parse(buff: Buffer, verify: Verifier) returns (ok: bool)
      requires buff.Valid()
      requires ParseSpec(Snapshot(), buff.Readable(), verify).Some?
      modifies this, buff`readPos
      ensures buff.Valid()
      ensures var p := ParseSpec(old(Snapshot()), old(buff.Readable()), verify).value;
              ok == p.ok && Snapshot() == p.req && buff.readPos == old(buff.readPos) + p.consumed
    {
      if buff.ReadableBytes() <= 0 {
        return false;
      }
      ghost var goal := ParseSpec(Snapshot(), buff.Readable(), verify).value;
      while buff.ReadableBytes() > 0 && state != Finish
        invariant buff.Valid() && buff.buffer == old(buff.buffer) && buff.writePos == old(buff.writePos)
        invariant old(buff.readPos) <= buff.readPos
        invariant Shift(ParseLoop(Snapshot(), buff.Readable(), verify), buff.readPos - old(buff.readPos)) == Some(goal)
        decreases buff.ReadableBytes()
      {
        ghost var done := buff.readPos - old(buff.readPos);
        ghost var pos := buff.readPos;
        var stop, lineOk := ParseNextLine(buff, verify);
        if stop {
          return lineOk;
        }
        ShiftTwice(ParseLoop(Snapshot(), buff.Readable(), verify), buff.readPos - pos, done);
      }
      ParseLoopDone(Snapshot(), buff.Readable(), verify);
      return true;
    }
  }
}
