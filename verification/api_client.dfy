/**
 * The HTTP client's request hook: before each request it looks up the CSRF cookie in the
 * `name=value; name2=value2` cookie string (the cookie header syntax of section 4.2.1 of
 * RFC 6265) and, when the token is non-empty, sends it in the `X-CSRFToken` header.
 *
 * The cookie string and the percent-decoding function are parameters; the browser's cookie
 * jar and `decodeURIComponent` are not part of this model.
 */
module ApiClient {
  import opened Wrappers
  import opened Text

  const CsrfCookieName: string := "csrftoken"
  const CsrfHeaderName: string := "X-CSRFToken"

  /** `cookie.substring(0, name.length + 1) === name + '='`: the segment starts with the name and '='. */
  predicate SegmentMatches(segment: string, name: string) {
    name + "=" <= segment
  }

  /** The position of the first segment that, once trimmed, names the cookie. */
  function FirstMatch(segments: seq<string>, name: string): (r: Option<nat>)
    ensures r.Some? ==> r.value < |segments| && SegmentMatches(Trim(segments[r.value]), name)
    ensures r.Some? ==> forall k :: 0 <= k < r.value ==> !SegmentMatches(Trim(segments[k]), name)
    ensures r.None? ==> forall k :: 0 <= k < |segments| ==> !SegmentMatches(Trim(segments[k]), name)
    decreases |segments|
  {
    if segments == [] then None
    else if SegmentMatches(Trim(segments[0]), name) then Some(0)
    else match FirstMatch(segments[1..], name)
      case None => None
      case Some(i) => Some(i + 1)
  }

  /**
   * `getCookie(name)`, None standing for `null`: nothing for an empty cookie string, otherwise
   * the decoded rest of the first matching segment, nothing when no segment matches.
   */
  function CookieValue(cookie: string, name: string, decode: string -> string): (r: Option<string>)
    ensures cookie == "" ==> r.None?
    ensures r.Some? <==> cookie != "" && exists k :: 0 <= k < |Split(cookie, ';')| && SegmentMatches(Trim(Split(cookie, ';')[k]), name)
  {
    if cookie == "" then None
    else
      var segments := Split(cookie, ';');
      var first := FirstMatch(segments, name);
      if first.None? then None
      else
        var i := first.value;
        assert 0 <= i < |Split(cookie, ';')| && SegmentMatches(Trim(Split(cookie, ';')[i]), name);
        Some(decode(Trim(segments[i])[|name| + 1..]))
  }

  /** The lookup loop: split on ';', trim each segment, stop at the first one that names the cookie. */
  method GetCookie(cookie: string, name: string, decode: string -> string) returns (cookieValue: Option<string>)
    ensures cookieValue == CookieValue(cookie, name, decode)
  {
    cookieValue := None;
    if cookie != "" {
      var cookies := Split(cookie, ';');
      var i := 0;
      while i < |cookies|
        invariant 0 <= i <= |cookies|
        invariant forall k :: 0 <= k < i ==> !SegmentMatches(Trim(cookies[k]), name)
        invariant cookieValue == None
      {
        var c := Trim(cookies[i]);
        if |c| >= |name| + 1 && c[..|name| + 1] == name + "=" {
          cookieValue := Some(decode(c[|name| + 1..]));
          assert SegmentMatches(c, name);
          break;
        }
        i := i + 1;
      }
    }
  }

  /** The headers of an outgoing request. */
  class RequestConfig {
    var headers: map<string, string>

    constructor(h: map<string, string>)
      ensures headers == h
    {
      headers := h;
    }
  }

  /**
   * The request interceptor: a non-empty token read from the cookie is set as the CSRF header;
   * an absent or empty token leaves the headers as they were. The same configuration is returned.
   */
  method Intercept(config: RequestConfig, cookie: string, decode: string -> string) returns (r: RequestConfig)
    modifies config
    ensures r == config
    ensures var token := CookieValue(cookie, CsrfCookieName, decode);
      if token.Some? && token.value != "" then config.headers == old(config.headers)[CsrfHeaderName := token.value]
      else config.headers == old(config.headers)
  {
    var token := GetCookie(cookie, CsrfCookieName, decode);
    if token.Some? && token.value != "" {
      config.headers := config.headers[CsrfHeaderName := token.value];
    }
    r := config;
  }

  // ---------------------------------------------------------------- cookie strings as a browser writes them

  datatype Cookie = Cookie(name: string, value: string)

  /** The segments of `a=1; b=2`: every one after the first starts with the space the browser puts after ';'. */
  function Segments(jar: seq<Cookie>): (r: seq<string>)
    ensures |r| == |jar|
    ensures forall k :: 0 <= k < |jar| ==> r[k] == (if k == 0 then "" else " ") + jar[k].name + "=" + jar[k].value
  {
    seq(|jar|, k requires 0 <= k < |jar| => (if k == 0 then "" else " ") + jar[k].name + "=" + jar[k].value)
  }

  /** `document.cookie` for a jar: the cookies in order, `name=value`, separated by "; ". */
  function Serialize(jar: seq<Cookie>): string {
    Join(Segments(jar), ";")
  }

  /** A cookie a browser would store and list: no ';' anywhere, no '=' in the name, no blanks at the ends. */
  predicate WellFormed(c: Cookie) {
    ';' !in c.name && ';' !in c.value && '=' !in c.name && IsTrimmed(c.name + "=" + c.value)
  }

  /** The position of the first cookie in the jar with the given name. */
  function FirstNamed(jar: seq<Cookie>, name: string): (r: Option<nat>)
    ensures r.Some? ==> r.value < |jar| && jar[r.value].name == name
    ensures r.Some? ==> forall k :: 0 <= k < r.value ==> jar[k].name != name
    ensures r.None? ==> forall k :: 0 <= k < |jar| ==> jar[k].name != name
    decreases |jar|
  {
    if jar == [] then None
    else if jar[0].name == name then Some(0)
    else match FirstNamed(jar[1..], name)
      case None => None
      case Some(i) => Some(i + 1)
  }

  /** With no '=' in either name, a `name=value` segment matches exactly its own name. */
  lemma SegmentMatchesIffSameName(c: Cookie, name: string)
    requires '=' !in c.name && '=' !in name
    ensures SegmentMatches(c.name + "=" + c.value, name) <==> c.name == name
  {
    var seg := c.name + "=" + c.value;
    var key := name + "=";
    if |c.name| < |name| {
      assert seg[|c.name|] == '=' && key[|c.name|] == name[|c.name|];
      assert name[|c.name|] in name;
    } else if |c.name| > |name| {
      assert seg[|name|] == c.name[|name|] && key[|name|] == '=';
      assert c.name[|name|] in c.name;
    } else {
      assert seg[..|name|] == c.name && key[..|name|] == name;
    }
  }

  /** Trimming a segment of a well-formed jar leaves its `name=value`. */
  lemma TrimSegment(jar: seq<Cookie>, k: nat)
    requires k < |jar| && WellFormed(jar[k])
    ensures Trim(Segments(jar)[k]) == jar[k].name + "=" + jar[k].value
  {
    var body := jar[k].name + "=" + jar[k].value;
    TrimOfTrimmed(body);
    if k > 0 {
      assert Segments(jar)[k] == [' '] + body;
      TrimDropsLeadingSpace(' ', body);
    } else {
      assert Segments(jar)[k] == body;
    }
  }

  /**
   * Reading a cookie back from the string the browser writes gives the decoded value of the
   * first cookie with that name, and nothing when the jar has none.
   */
  lemma {:induction false} LookupSerialized(jar: seq<Cookie>, name: string, decode: string -> string)
    requires forall k :: 0 <= k < |jar| ==> WellFormed(jar[k])
    requires '=' !in name
    ensures CookieValue(Serialize(jar), name, decode) ==
      match FirstNamed(jar, name)
      case None => None
      case Some(i) => Some(decode(jar[i].value))
  {
    if jar == [] {
      assert Serialize(jar) == "";
    } else {
      var segs := Segments(jar);
      forall k | 0 <= k < |segs| ensures ';' !in segs[k] {
        assert segs[k] == (if k == 0 then "" else " ") + jar[k].name + "=" + jar[k].value;
      }
      SplitJoin(segs, ';');
      assert Split(Serialize(jar), ';') == segs;
      forall k | 0 <= k < |jar|
        ensures SegmentMatches(Trim(segs[k]), name) <==> jar[k].name == name
      {
        TrimSegment(jar, k);
        SegmentMatchesIffSameName(jar[k], name);
      }
      var byName := FirstNamed(jar, name);
      var bySegment := FirstMatch(segs, name);
      if byName.Some? {
        assert bySegment.Some? && bySegment.value == byName.value;
        var i := byName.value;
        TrimSegment(jar, i);
        assert Trim(segs[i])[|name| + 1..] == jar[i].value;
      } else {
        assert bySegment.None?;
      }
      assert Serialize(jar) != "" by {
        assert |Segments(jar)[0]| > 0;
        JoinStartsWithFirst(segs, ";");
      }
    }
  }

  lemma JoinStartsWithFirst(parts: seq<string>, sep: string)
    requires |parts| >= 1
    ensures parts[0] <= Join(parts, sep)
  {
  }

  /** A name followed by anything but '=' is a different cookie: `csrftokenX=1` never answers `csrftoken`. */
  lemma LongerNameDoesNotMatch(jar: seq<Cookie>, decode: string -> string)
    requires jar == [Cookie("csrftokenX", "1"), Cookie("csrftoken", "2")]
    ensures CookieValue(Serialize(jar), CsrfCookieName, decode) == Some(decode("2"))
  {
    assert WellFormed(jar[0]) && WellFormed(jar[1]);
    LookupSerialized(jar, CsrfCookieName, decode);
    assert FirstNamed(jar, CsrfCookieName) == Some(1);
  }
}
