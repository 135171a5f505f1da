/**
 * The metadata `initEndpointInfo` derives for an endpoint: a regular expression that
 * matches the endpoint literally except that `*` matches anything, the same for the
 * decoded URI, and for a templated endpoint a URI template naming its wildcards.
 */
module EndpointMetadata {
  import opened Wrappers
  import opened JavaStrings
  import opened ApmModel

  /** The characters `createRegex` puts a backslash in front of. */
  const RegexMetaCharacters: string := "\\.^$|?+[]{}()"

  /** What `createRegex` writes for one character of the endpoint. */
  function EscapeChar(c: char): (r: string)
    ensures |r| >= 1 && r[|r| - 1] == c
  {
    if c == '*' then ".*"
    else if c in RegexMetaCharacters then ['\\', c]
    else [c]
  }

  /** The body of the regular expression, built character by character from the left. */
  function Escaped(s: string): string
  {
    if s == [] then [] else Escaped(s[..|s| - 1]) + EscapeChar(s[|s| - 1])
  }

  function RegexOf(s: string): string
  {
    "^" + Escaped(s) + "$"
  }

  /**
   * `createRegex(endpoint, meta)`: anchors, a backslash before each metacharacter,
   * `.` before each `*`; `meta` is not used.
   */
  method CreateRegex(endpoint: string, meta: bool) returns (regex: string)
    ensures regex == RegexOf(endpoint)
  {
    regex := "^";
    for i := 0 to |endpoint|
      invariant regex == "^" + Escaped(endpoint[..i])
    {
      var ch := endpoint[i];
      if ch == '*' {
        regex := regex + ".";
      } else if ch in RegexMetaCharacters {
        regex := regex + "\\";
      }
      regex := regex + [ch];
      assert endpoint[..i + 1][..i] == endpoint[..i];
    }
    assert endpoint[..|endpoint|] == endpoint;
    regex := regex + "$";
  }

  lemma {:induction false} EscapedAppend(a: string, b: string)
    ensures Escaped(a + b) == Escaped(a) + Escaped(b)
    decreases |b|
  {
    if b != [] {
      var b' := b[..|b| - 1];
      assert (a + b)[..|a + b| - 1] == a + b';
      assert (a + b)[|a + b| - 1] == b[|b| - 1];
      EscapedAppend(a, b');
    } else {
      assert a + b == a;
    }
  }

  /** Reads a regular expression body written by `createRegex` back into the endpoint. */
  function Unescape(t: string): string
    decreases |t|
  {
    if t == [] then []
    else if |t| >= 2 && t[0] == '\\' then [t[1]] + Unescape(t[2..])
    else if |t| >= 2 && t[0] == '.' && t[1] == '*' then "*" + Unescape(t[2..])
    else [t[0]] + Unescape(t[1..])
  }

  lemma UnescapeChar(c: char, rest: string)
    ensures Unescape(EscapeChar(c) + rest) == [c] + Unescape(rest)
  {
    var t := EscapeChar(c) + rest;
    if c == '*' {
      assert t[2..] == rest;
    } else if c in RegexMetaCharacters {
      assert t[2..] == rest;
    } else {
      assert c != '\\' && c != '.';
      assert t[1..] == rest;
    }
  }

  /** Nothing is lost: the endpoint can be read back from its regular expression. */
  lemma {:induction false} UnescapeEscaped(s: string)
    ensures Unescape(Escaped(s)) == s
    decreases |s|
  {
    if s != [] {
      assert s == [s[0]] + s[1..];
      EscapedAppend([s[0]], s[1..]);
      assert Escaped([s[0]]) == EscapeChar(s[0]) by {
        assert [s[0]][..0] == [];
      }
      UnescapeChar(s[0], Escaped(s[1..]));
      UnescapeEscaped(s[1..]);
    }
  }

  /** The regex is the escaped endpoint between `^` and `$`, and is at least as long as the endpoint plus the anchors. */
  lemma {:induction false} EscapedLength(s: string)
    ensures |Escaped(s)| >= |s|
    ensures |Escaped(s)| == |s| <==> forall i :: 0 <= i < |s| ==> s[i] != '*' && s[i] !in RegexMetaCharacters
    decreases |s|
  {
    if s != [] {
      var s' := s[..|s| - 1];
      EscapedLength(s');
      assert forall i :: 0 <= i < |s'| ==> s'[i] == s[i];
    }
  }

  lemma RegexExample()
    ensures RegexOf("/a.b/*") == "^/a\\.b/.*$"
  {
    assert "/a.b/*"[..5] == "/a.b/";
    assert "/a.b/"[..4] == "/a.b";
    assert "/a.b"[..3] == "/a.";
    assert "/a."[..2] == "/a";
    assert "/a"[..1] == "/";
    assert "/"[..0] == "";
  }

  // ---- URI templates ----

  /** The naive singular of a collection segment: one trailing `s` dropped when longer than one character. */
  function Singular(part: string): (r: string)
    ensures |part| > 1 && part[|part| - 1] == 's' ==> r + "s" == part
    ensures !(|part| > 1 && part[|part| - 1] == 's') ==> r == part
  {
    if |part| > 1 && part[|part| - 1] == 's' then part[..|part| - 1] else part
  }

  /** The state of the template loop: text so far, the preceding literal segment (if any), the next parameter number. */
  datatype TemplateState = TemplateState(template: string, part: Option<string>, paramNo: nat)

  /** What one turn of the template loop writes after the `/`, for segment `segment`. */
  function StepText(st: TemplateState, segment: string): string
  {
    if segment != Wildcard then segment
    else if st.part.Some? then "{" + Singular(st.part.value) + "Id}"
    else "{param" + NatToString(st.paramNo) + "}"
  }

  /** One turn of the template loop, for segment `segment`. */
  function TemplateStep(st: TemplateState, segment: string): TemplateState
  {
    TemplateState(
      st.template + "/" + StepText(st, segment),
      if segment == Wildcard then None else Some(segment),
      if segment == Wildcard && st.part.None? then st.paramNo + 1 else st.paramNo)
  }

  /** The loop state after the segments `parts[1..j]`. */
  function TemplateAfter(parts: seq<string>, j: nat): TemplateState
    requires 1 <= j && (j <= |parts| || j == 1)
  {
    if j == 1 then TemplateState("", None, 1) else TemplateStep(TemplateAfter(parts, j - 1), parts[j - 1])
  }

  lemma TemplateAfterNext(parts: seq<string>, j: nat)
    requires 1 <= j < |parts|
    ensures TemplateAfter(parts, j + 1) == TemplateStep(TemplateAfter(parts, j), parts[j])
  {
  }

  /** The URI template of a decoded URI, as the loop in `initEndpointInfo` writes it. */
  function UriTemplate(uri: string): string
  {
    var parts := Split(uri, '/');
    TemplateAfter(parts, if |parts| <= 1 then 1 else |parts|).template
  }

  /** One turn of the template loop of `initEndpointInfo`: appends `/` and the text for `segment`. */
  method AppendSegment(template: string, part: Option<string>, paramNo: nat, segment: string)
    returns (template': string, part': Option<string>, paramNo': nat)
    ensures TemplateState(template', part', paramNo')
         == TemplateStep(TemplateState(template, part, paramNo), segment)
  {
    var text: string;
    paramNo' := paramNo;
    if segment == "*" {
      if part.None? {
        text := "{param" + NatToString(paramNo) + "}";
        paramNo' := paramNo + 1;
      } else {
        text := "{" + Singular(part.value) + "Id}";
      }
      part' := None;
    } else {
      part' := Some(segment);
      text := segment;
    }
    template' := template + "/" + text;
  }

  /** The template loop of `initEndpointInfo`. */
  method BuildUriTemplate(uri: string) returns (template: string)
    ensures template == UriTemplate(uri)
  {
    var parts := Split(uri, '/');
    template := "";
    var part: Option<string> := None;
    var paramNo: nat := 1;
    var j := 1;
    while j < |parts|
      invariant 1 <= j && (j <= |parts| || j == 1)
      invariant TemplateAfter(parts, j) == TemplateState(template, part, paramNo)
    {
      TemplateAfterNext(parts, j);
      template, part, paramNo := AppendSegment(template, part, paramNo, parts[j]);
      j := j + 1;
    }
    assert j == if |parts| <= 1 then 1 else |parts|;
  }

  // The closed form of the template: segment by segment.

  /** The segment before `j` is a literal, so the loop holds it as `part`. */
  predicate AfterLiteral(parts: seq<string>, j: nat)
    requires j < |parts|
  {
    j > 1 && parts[j - 1] != Wildcard
  }

  /** How many wildcards among `parts[1..j]` were numbered, that is, had no literal just before them. */
  function ParamsBefore(parts: seq<string>, j: nat): nat
    requires 1 <= j <= |parts|
  {
    if j == 1 then 0
    else ParamsBefore(parts, j - 1) + (if parts[j - 1] == Wildcard && !AfterLiteral(parts, j - 1) then 1 else 0)
  }

  /** What the template holds for segment `j`: the literal, `{<singular>Id}` after a literal, otherwise the next `{paramN}`. */
  function TemplateSegment(parts: seq<string>, j: nat): string
    requires 1 <= j < |parts|
  {
    if parts[j] != Wildcard then parts[j]
    else if AfterLiteral(parts, j) then "{" + Singular(parts[j - 1]) + "Id}"
    else "{param" + NatToString(ParamsBefore(parts, j) + 1) + "}"
  }

  /** The segments `1..j-1`, each behind a `/`. */
  function TemplateSegments(parts: seq<string>, j: nat): string
    requires 1 <= j <= |parts|
  {
    if j == 1 then "" else TemplateSegments(parts, j - 1) + "/" + TemplateSegment(parts, j - 1)
  }

  /**
   * The loop writes, for each segment after the leading empty one, a `/` and then the
   * literal, `{paramN}` (N counting the wildcards not preceded by a literal) or
   * `{<singular of the preceding literal>Id}`.
   */
  lemma {:induction false} TemplateClosedForm(parts: seq<string>, j: nat)
    requires 1 <= j <= |parts|
    ensures TemplateAfter(parts, j).template == TemplateSegments(parts, j)
    ensures TemplateAfter(parts, j).paramNo == ParamsBefore(parts, j) + 1
    ensures TemplateAfter(parts, j).part == if j > 1 && parts[j - 1] != Wildcard then Some(parts[j - 1]) else None
  {
    if j > 1 {
      TemplateClosedForm(parts, j - 1);
    }
  }

  /** Without wildcard segments the template is the segments joined back with `/`. */
  lemma {:induction false} LiteralTemplate(parts: seq<string>, j: nat)
    requires 1 <= j <= |parts| && parts[0] == ""
    requires forall i :: 1 <= i < |parts| ==> parts[i] != Wildcard
    ensures TemplateSegments(parts, j) == Join(parts[..j], '/')
  {
    if j == 1 {
      assert parts[..1] == [parts[0]];
    } else {
      LiteralTemplate(parts, j - 1);
      JoinSnoc(parts[..j - 1], parts[j - 1]);
      assert parts[..j] == parts[..j - 1] + [parts[j - 1]];
    }
  }

  lemma {:induction false} JoinSnoc(pieces: seq<string>, x: string)
    requires |pieces| >= 1
    ensures Join(pieces + [x], '/') == Join(pieces, '/') + "/" + x
    decreases |pieces|
  {
    if |pieces| > 1 {
      assert (pieces + [x])[1..] == pieces[1..] + [x];
      JoinSnoc(pieces[1..], x);
    } else {
      assert (pieces + [x])[1..] == [x];
    }
  }

  /** A wildcard after a literal is named after the literal's singular. */
  lemma TemplateExampleUsers()
    ensures UriTemplate("/users/*") == "/users/{userId}"
  {
    SplitUsers();
    TemplateUsers();
  }

  lemma TemplateUsers()
    ensures TemplateAfter(["", "users", "*"], 3).template == "/users/{userId}"
  {
    var parts := ["", "users", "*"];
    assert Singular("users") == "user" by { assert "users"[..4] == "user"; }
    var st2 := TemplateAfter(parts, 2);
    assert st2 == TemplateState("/users", Some("users"), 1) by {
      assert "" + "/" + "users" == "/users";
    }
    assert TemplateAfter(parts, 3).template == "/users" + "/" + ("{" + "user" + "Id}");
    assert "/users" + "/" + ("{" + "user" + "Id}") == "/users/{userId}";
  }

  lemma SplitUsers()
    ensures Split("/users/*", '/') == ["", "users", "*"]
  {
    var s := "/users/*";
    assert s == "" + ['/'] + ("users" + ['/'] + "*");
    SplitAllNoSeparator("*", '/');
    SplitAllFirstPiece("users", '/', "*");
    SplitAllFirstPiece("", '/', "users" + ['/'] + "*");
    var all := SplitAll(s, '/');
    assert all == ["", "users", "*"];
    assert s[0] == '/';
    assert DropTrailingEmpty(all) == all;
  }

  // ---- initEndpointInfo ----

  /** The record `initEndpointInfo(endpoint)` leaves behind. */
  function Initialised(e: EndpointInfo, codec: EndpointCodec): (r: EndpointInfo)
  {
    var uri := codec.decodeUri(e.endpoint);
    e.(regex := Some(RegexOf(e.endpoint)),
       uriRegex := Some(RegexOf(uri)),
       uriTemplate := if codec.metaUri(e.endpoint) then Some(UriTemplate(uri)) else e.uriTemplate)
  }

  /** `initEndpointInfo(EndpointInfo)`. */
  method InitEndpointInfo(e: EndpointInfo, codec: EndpointCodec) returns (r: EndpointInfo)
    ensures r == Initialised(e, codec)
  {
    var regex := CreateRegex(e.endpoint, codec.metaUri(e.endpoint));
    var uriRegex := CreateRegex(codec.decodeUri(e.endpoint), codec.metaUri(e.endpoint));
    r := e.(regex := Some(regex), uriRegex := Some(uriRegex));
    if codec.metaUri(e.endpoint) {
      var template := BuildUriTemplate(codec.decodeUri(e.endpoint));
      r := r.(uriTemplate := Some(template));
    }
  }

  /**
   * Initialising keeps the endpoint and its type, writes regular expressions from
   * which the endpoint and its URI read back, and sets a template exactly for
   * templated endpoints (any other keeps what it had).
   */
  lemma InitialisedFacts(e: EndpointInfo, codec: EndpointCodec)
    ensures Initialised(e, codec).endpoint == e.endpoint
    ensures Initialised(e, codec).endpointType == e.endpointType
    ensures Initialised(e, codec).regex.Some? && Initialised(e, codec).uriRegex.Some?
    ensures var t := Initialised(e, codec).regex.value;
      |t| >= 2 && t[0] == '^' && t[|t| - 1] == '$' && Unescape(t[1..|t| - 1]) == e.endpoint
    ensures var t := Initialised(e, codec).uriRegex.value;
      |t| >= 2 && Unescape(t[1..|t| - 1]) == codec.decodeUri(e.endpoint)
    ensures codec.metaUri(e.endpoint) ==>
      Initialised(e, codec).uriTemplate == Some(UriTemplate(codec.decodeUri(e.endpoint)))
    ensures !codec.metaUri(e.endpoint) ==> Initialised(e, codec).uriTemplate == e.uriTemplate
  {
    var t := RegexOf(e.endpoint);
    assert t[1..|t| - 1] == Escaped(e.endpoint);
    UnescapeEscaped(e.endpoint);
    var u := RegexOf(codec.decodeUri(e.endpoint));
    assert u[1..|u| - 1] == Escaped(codec.decodeUri(e.endpoint));
    UnescapeEscaped(codec.decodeUri(e.endpoint));
  }

  /** `initEndpointInfo(List)`: every record initialised, in place and in order. */
  method InitEndpointInfos(endpoints: seq<EndpointInfo>, codec: EndpointCodec) returns (r: seq<EndpointInfo>)
    ensures |r| == |endpoints|
    ensures forall i :: 0 <= i < |r| ==> r[i] == Initialised(endpoints[i], codec)
  {
    r := endpoints;
    for i := 0 to |endpoints|
      invariant |r| == |endpoints|
      invariant forall j :: 0 <= j < i ==> r[j] == Initialised(endpoints[j], codec)
      invariant forall j :: i <= j < |r| ==> r[j] == endpoints[j]
    {
      var e := InitEndpointInfo(r[i], codec);
      r := r[i := e];
    }
  }
}
