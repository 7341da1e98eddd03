/**
 * The security-header logic of the hardened vulpy web application
 * (vulpy/good/vulpy.py): at start-up the Content-Security-Policy is
 * assembled from the lines of the policy file, and after every request a
 * hook adds that policy and two fixed anti-clickjacking and anti-sniffing
 * headers to the response.  Reading the policy file is abstracted away: the
 * file is a flag saying whether it exists and the sequence of its lines.
 */
module SecurityHeaders {

  // ---------------------------------------------------------------------
  // Assembling the policy from the policy file
  // ---------------------------------------------------------------------

  /** line.startswith('#'): only a '#' in the very first position makes a
      comment line. */
  predicate IsComment(line: string) {
    |line| > 0 && line[0] == '#'
  }

  /** line.replace('\n', ''): the line with every line feed deleted and the
      other characters kept in order. */
  function RemoveNewlines(s: string): (r: string)
    ensures '\n' !in r
    ensures |r| <= |s|
  {
    if s == [] then []
    else (if s[0] == '\n' then [] else [s[0]]) + RemoveNewlines(s[1..])
  }

  /** Deleting line feeds works piece by piece. */
  lemma {:induction false} RemoveNewlinesAppend(a: string, b: string)
    ensures RemoveNewlines(a + b) == RemoveNewlines(a) + RemoveNewlines(b)
  {
    if a == [] {
      assert a + b == b;
    } else {
      var head := if a[0] == '\n' then "" else [a[0]];
      var ab := a + b;
      assert ab[0] == a[0] && ab[1..] == a[1..] + b;
      assert RemoveNewlines(ab) == head + RemoveNewlines(a[1..] + b);
      RemoveNewlinesAppend(a[1..], b);
      assert RemoveNewlines(a) == head + RemoveNewlines(a[1..]);
    }
  }

  /** A line without line feeds is left as it is. */
  lemma {:induction false} RemoveNewlinesKeepsPlainText(s: string)
    requires '\n' !in s
    ensures RemoveNewlines(s) == s
  {
    if s != [] {
      assert '\n' !in s[1..];
      RemoveNewlinesKeepsPlainText(s[1..]);
      assert [s[0]] + s[1..] == s;
    }
  }

  /** A string made of line feeds only (the empty string included). */
  predicate AllNewlines(s: string) {
    forall k :: 0 <= k < |s| ==> s[k] == '\n'
  }

  /** Deleting line feeds leaves nothing exactly when there was nothing but
      line feeds: every other character survives. */
  lemma {:induction false} RemoveNewlinesEmptyIff(s: string)
    ensures RemoveNewlines(s) == "" <==> AllNewlines(s)
  {
    if s != [] {
      RemoveNewlinesEmptyIff(s[1..]);
      if AllNewlines(s) {
        assert forall k :: 0 <= k < |s| - 1 ==> s[1..][k] == s[k + 1];
      }
      if s[0] == '\n' && AllNewlines(s[1..]) {
        forall k | 0 <= k < |s|
          ensures s[k] == '\n'
        {
          if k > 0 {
            assert s[k] == s[1..][k - 1];
          }
        }
      }
    }
  }

  /** What one line of the policy file adds to the policy: nothing for a
      comment or for a line left empty once its line feeds are gone,
      otherwise the line without its line feeds. */
  function PolicyPart(line: string): seq<string> {
    if IsComment(line) then []
    else
      var text := RemoveNewlines(line);
      if text == "" then [] else [text]
  }

  /** The pieces the policy is built from, in file order. */
  function PolicyLines(lines: seq<string>): seq<string> {
    if lines == [] then []
    else PolicyLines(lines[..|lines| - 1]) + PolicyPart(lines[|lines| - 1])
  }

  /** The pieces joined with no separator. */
  function Concat(parts: seq<string>): string {
    if parts == [] then ""
    else Concat(parts[..|parts| - 1]) + parts[|parts| - 1]
  }

  /** The policy the application ends up with: empty when there is no policy
      file, otherwise the concatenation of the pieces. */
  function AssembleCsp(present: bool, lines: seq<string>): string {
    if present then Concat(PolicyLines(lines)) else ""
  }

  /** The start-up code: when the policy file exists, walk its lines, skip
      comments, delete line feeds and append every non-empty remainder. */
  method LoadCsp(present: bool, lines: seq<string>) returns (csp: string)
    ensures csp == AssembleCsp(present, lines)
    ensures '\n' !in csp
    ensures !present ==> csp == ""
  {
    csp := "";
    if present {
      for i := 0 to |lines|
        invariant csp == Concat(PolicyLines(lines[..i]))
      {
        assert lines[..i + 1][..i] == lines[..i];
        ConcatAppend(PolicyLines(lines[..i]), PolicyPart(lines[i]));
        assert Concat([RemoveNewlines(lines[i])]) == Concat([]) + RemoveNewlines(lines[i]);
        var line := lines[i];
        if IsComment(line) {
          continue;
        }
        line := RemoveNewlines(line);
        if line != "" {
          csp := csp + line;
        }
      }
      assert lines[..|lines|] == lines;
    }
    CspHasNoNewline(present, lines);
  }

  lemma {:induction false} PolicyLinesAppend(a: seq<string>, b: seq<string>)
    ensures PolicyLines(a + b) == PolicyLines(a) + PolicyLines(b)
  {
    if b == [] {
      assert a + b == a;
    } else {
      var n := |b| - 1;
      assert (a + b)[..|a + b| - 1] == a + b[..n];
      PolicyLinesAppend(a, b[..n]);
    }
  }

  lemma {:induction false} ConcatAppend(x: seq<string>, y: seq<string>)
    ensures Concat(x + y) == Concat(x) + Concat(y)
  {
    if y == [] {
      assert x + y == x;
    } else {
      var n := |y| - 1;
      var xy := x + y;
      assert xy[..|xy| - 1] == x + y[..n];
      assert xy[|xy| - 1] == y[n];
      ConcatAppend(x, y[..n]);
      calc {
        Concat(xy);
        Concat(x + y[..n]) + y[n];
        Concat(x) + Concat(y[..n]) + y[n];
        Concat(x) + Concat(y);
      }
    }
  }

  /** The policy of a file made of two parts is the policy of the first
      followed by that of the second: every line is handled on its own. */
  lemma CspAppend(a: seq<string>, b: seq<string>)
    ensures AssembleCsp(true, a + b) == AssembleCsp(true, a) + AssembleCsp(true, b)
  {
    PolicyLinesAppend(a, b);
    ConcatAppend(PolicyLines(a), PolicyLines(b));
  }

  /** The assembled policy never holds a line feed. */
  lemma {:induction false} CspHasNoNewline(present: bool, lines: seq<string>)
    ensures '\n' !in AssembleCsp(present, lines)
  {
    if present && lines != [] {
      var n := |lines| - 1;
      var init, part := lines[..n], PolicyPart(lines[n]);
      CspHasNoNewline(present, init);
      assert PolicyLines(lines) == PolicyLines(init) + part;
      ConcatAppend(PolicyLines(init), part);
      if part != [] {
        assert Concat(part) == Concat([]) + part[0];
      }
      assert '\n' !in Concat(part);
    }
  }

  /** A comment line contributes nothing, wherever it stands. */
  lemma CommentLineIgnored(a: seq<string>, line: string, b: seq<string>)
    requires IsComment(line)
    ensures AssembleCsp(true, a + [line] + b) == AssembleCsp(true, a + b)
  {
    assert AssembleCsp(true, [line]) == "" by {
      assert PolicyLines([line]) == PolicyLines([]) + PolicyPart(line);
    }
    CspAppend(a, [line]);
    assert AssembleCsp(true, a + [line]) == AssembleCsp(true, a);
    CspAppend(a + [line], b);
    CspAppend(a, b);
  }

  /** A line whose first character is not '#' (a '#' further on included)
      goes into the policy with its line feeds deleted, and verbatim when it
      holds none. */
  lemma NonCommentLineKept(line: string)
    requires !IsComment(line)
    ensures AssembleCsp(true, [line]) == RemoveNewlines(line)
    ensures '\n' !in line ==> AssembleCsp(true, [line]) == line
  {
    var text := RemoveNewlines(line);
    assert PolicyLines([line]) == PolicyLines([]) + PolicyPart(line);
    if text != "" {
      assert Concat([text]) == Concat([]) + text;
    }
    if '\n' !in line {
      RemoveNewlinesKeepsPlainText(line);
    }
  }

  /** The same policy written as a plain string fold, without the check
      for empty lines: every non-comment line, its line feeds deleted,
      appended in file order. */
  function JoinedText(lines: seq<string>): string {
    if lines == [] then ""
    else
      var last := lines[|lines| - 1];
      JoinedText(lines[..|lines| - 1]) + (if IsComment(last) then "" else RemoveNewlines(last))
  }

  /** Skipping the lines left empty changes nothing: the assembled policy is
      the plain fold of all non-comment lines. */
  lemma {:induction false} CspIsJoinedText(lines: seq<string>)
    ensures AssembleCsp(true, lines) == JoinedText(lines)
  {
    if lines != [] {
      var n := |lines| - 1;
      CspIsJoinedText(lines[..n]);
      var part := PolicyPart(lines[n]);
      ConcatAppend(PolicyLines(lines[..n]), part);
      if part != [] {
        assert Concat(part) == Concat([]) + part[0];
      }
    }
  }

  /** A line that adds nothing to the policy: a comment, or a line that is
      nothing but line feeds. */
  predicate IsBlank(line: string) {
    IsComment(line) || AllNewlines(line)
  }

  /** The policy is empty exactly when every line of the file is blank, so
      the policy header is sent exactly when some line is not. */
  lemma CspEmptyIff(lines: seq<string>)
    ensures AssembleCsp(true, lines) == "" <==> forall i :: 0 <= i < |lines| ==> IsBlank(lines[i])
  {
    CspIsJoinedText(lines);
    if forall i :: 0 <= i < |lines| ==> IsBlank(lines[i]) {
      BlankLinesJoinToNothing(lines);
    }
    if JoinedText(lines) == "" {
      NothingJoinedFromBlankLines(lines);
    }
  }

  lemma {:induction false} BlankLinesJoinToNothing(lines: seq<string>)
    requires forall i :: 0 <= i < |lines| ==> IsBlank(lines[i])
    ensures JoinedText(lines) == ""
  {
    if lines != [] {
      var n := |lines| - 1;
      assert forall i :: 0 <= i < n ==> lines[..n][i] == lines[i];
      BlankLinesJoinToNothing(lines[..n]);
      RemoveNewlinesEmptyIff(lines[n]);
    }
  }

  lemma {:induction false} NothingJoinedFromBlankLines(lines: seq<string>)
    requires JoinedText(lines) == ""
    ensures forall i :: 0 <= i < |lines| ==> IsBlank(lines[i])
  {
    if lines != [] {
      var n := |lines| - 1;
      var init := lines[..n];
      var tail := if IsComment(lines[n]) then "" else RemoveNewlines(lines[n]);
      assert JoinedText(lines) == JoinedText(init) + tail;
      assert JoinedText(init) == "" && tail == "";
      NothingJoinedFromBlankLines(init);
      assert IsBlank(lines[n]) by {
        RemoveNewlinesEmptyIff(lines[n]);
      }
      forall i | 0 <= i < n
        ensures IsBlank(lines[i])
      {
        assert init[i] == lines[i];
      }
    }
  }

  // ---------------------------------------------------------------------
  // The after-request hook
  // ---------------------------------------------------------------------

  const CspHeader := "Content-Security-Policy"
  const FrameOptionsHeader := "X-Frame-Options"
  const ContentTypeOptionsHeader := "X-Content-Type-Options"

  const SameOrigin := "SAMEORIGIN"
  const NoSniff := "nosniff"

  /** The three header names the hook writes. */
  predicate IsSecurityHeader(name: string) {
    name == CspHeader || name == FrameOptionsHeader || name == ContentTypeOptionsHeader
  }

  /** The response headers after the hook: the two fixed headers are always
      set, the policy header only when the policy is non-empty (otherwise
      whatever the response carried under that name stays), and every other
      header is left exactly as it was. */
  function SecuredHeaders(headers: map<string, string>, csp: string): (r: map<string, string>)
    ensures FrameOptionsHeader in r && r[FrameOptionsHeader] == SameOrigin
    ensures ContentTypeOptionsHeader in r && r[ContentTypeOptionsHeader] == NoSniff
    ensures csp != "" ==> CspHeader in r && r[CspHeader] == csp
    ensures csp == "" ==> (CspHeader in r <==> CspHeader in headers)
    ensures csp == "" && CspHeader in headers ==> r[CspHeader] == headers[CspHeader]
    ensures r.Keys == headers.Keys + {FrameOptionsHeader, ContentTypeOptionsHeader}
                      + (if csp != "" then {CspHeader} else {})
    ensures forall name :: name in headers && !IsSecurityHeader(name) ==> r[name] == headers[name]
  {
    var withCsp := if csp != "" then headers[CspHeader := csp] else headers;
    withCsp[FrameOptionsHeader := SameOrigin][ContentTypeOptionsHeader := NoSniff]
  }

  /** Running the hook a second time with the same policy changes nothing. */
  lemma SecuredHeadersIdempotent(headers: map<string, string>, csp: string)
    ensures SecuredHeaders(SecuredHeaders(headers, csp), csp) == SecuredHeaders(headers, csp)
  {
    var once := SecuredHeaders(headers, csp);
    var twice := SecuredHeaders(once, csp);
    assert forall name :: name in twice ==> twice[name] == once[name];
  }

  /** A response whose header map the hook updates in place. */
  class Response {
    var headers: map<string, string>

    constructor (headers: map<string, string>)
      ensures this.headers == headers
    {
      this.headers := headers;
    }
  }

  /** add_security_headers: writes the headers into the response and hands
      the same response back. */
  method AddSecurityHeaders(response: Response, csp: string) returns (result: Response)
    modifies response
    ensures result == response
    ensures response.headers == SecuredHeaders(old(response.headers), csp)
    ensures response.headers[FrameOptionsHeader] == SameOrigin
    ensures response.headers[ContentTypeOptionsHeader] == NoSniff
    ensures csp != "" ==> response.headers[CspHeader] == csp
  {
    if csp != "" {
      response.headers := response.headers[CspHeader := csp];
    }
    response.headers := response.headers[FrameOptionsHeader := SameOrigin];
    response.headers := response.headers[ContentTypeOptionsHeader := NoSniff];
    result := response;
  }
}
