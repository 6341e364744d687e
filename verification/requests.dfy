/**
 * The meeting server requests: building the join and leave URLs from the
 * configured base, the join request body, reading the response text line by
 * line, and turning the response status into an optional result.
 */
module Requests {
  import opened Optional

  // ---------------------------------------------------------------------
  // URLs
  // ---------------------------------------------------------------------

  predicate EndsWithSlash(u: string)
  {
    |u| > 0 && u[|u| - 1] == '/'
  }

  /** The base URL with exactly one `/` guaranteed at its end: kept as is when it has one. */
  function NormaliseBase(u: string): (r: string)
    ensures EndsWithSlash(r)
    ensures u <= r && |r| <= |u| + 1
    ensures EndsWithSlash(u) <==> r == u
  {
    if EndsWithSlash(u) then u else u + "/"
  }

  /** Normalising twice is normalising once. */
  lemma NormaliseIdempotent(u: string)
    ensures NormaliseBase(NormaliseBase(u)) == NormaliseBase(u)
  {
  }

  /** Two bases normalise alike exactly when they are equal up to one trailing slash. */
  lemma NormaliseSameIff(a: string, b: string)
    ensures NormaliseBase(a) == NormaliseBase(b) <==>
              a == b || (!EndsWithSlash(a) && b == a + "/") || (!EndsWithSlash(b) && a == b + "/")
  {
    if NormaliseBase(a) == NormaliseBase(b) && !EndsWithSlash(a) && !EndsWithSlash(b) {
      assert a == (a + "/")[..|a|];
      assert b == (b + "/")[..|b|];
    }
  }

  /** The endpoint `name` under the base: the normalised base followed by `name`. */
  function Endpoint(base: string, name: string): (r: string)
    ensures |r| == |NormaliseBase(base)| + |name|
    ensures r[..|r| - |name|] == NormaliseBase(base) && r[|r| - |name|..] == name
  {
    var b := NormaliseBase(base);
    assert (b + name)[..|b|] == b && (b + name)[|b|..] == name;
    b + name
  }

  function JoinUrl(base: string): (r: string)
    ensures |r| >= |base| + 4 && |r| >= 5
    ensures base <= r
    ensures r[|r| - 4..] == "join" && r[|r| - 5] == '/'
    ensures EndsWithSlash(base) ==> r == base + "join"
    ensures !EndsWithSlash(base) ==> r == base + "/join"
  {
    Endpoint(base, "join")
  }

  function LeaveUrl(base: string): (r: string)
    ensures |r| >= |base| + 5 && |r| >= 6
    ensures base <= r
    ensures r[|r| - 5..] == "leave" && r[|r| - 6] == '/'
    ensures EndsWithSlash(base) ==> r == base + "leave"
    ensures !EndsWithSlash(base) ==> r == base + "/leave"
  {
    Endpoint(base, "leave")
  }

  /** The join and leave URLs of one base share everything before the endpoint name. */
  lemma JoinAndLeaveShareBase(base: string)
    ensures var j, l := JoinUrl(base), LeaveUrl(base);
            j[..|j| - 4] == l[..|l| - 5] == NormaliseBase(base)
  {
    var j, l := JoinUrl(base), LeaveUrl(base);
    assert j[..|j| - |"join"|] == NormaliseBase(base);
    assert l[..|l| - |"leave"|] == NormaliseBase(base);
  }

  // ---------------------------------------------------------------------
  // Request bodies
  // ---------------------------------------------------------------------

  /** How a Kotlin string template renders a nullable string: `null` for a missing value. */
  function Render(v: Option<string>): (r: string)
    ensures v.Some? ==> r == v.value
    ensures v.None? ==> r == "null"
  {
    if v.Some? then v.value else "null"
  }

  const TitlePrefix := "{\"title\":\""
  const NameSeparator := "\",\"name\":\""
  const BodySuffix := "\"}"

  /**
   * The join body the activity builds by hand: the two values are spliced
   * into a JSON object template with no escaping.
   */
  function JoinBody(meetingId: Option<string>, attendeeName: Option<string>): (b: string)
    ensures |b| == |TitlePrefix| + |Render(meetingId)| + |NameSeparator| + |Render(attendeeName)| + |BodySuffix|
    ensures TitlePrefix <= b
  {
    TitlePrefix + Render(meetingId) + NameSeparator + Render(attendeeName) + BodySuffix
  }

  predicate QuoteFree(s: string)
  {
    forall i :: 0 <= i < |s| ==> s[i] != '"'
  }

  /** The index of the first `"` in `s`, or `|s|` when there is none. */
  function QuoteIndex(s: string): (k: nat)
    ensures k <= |s| && QuoteFree(s[..k])
    ensures k < |s| ==> s[k] == '"'
  {
    if s == [] then 0
    else if s[0] == '"' then 0
    else
      var k := QuoteIndex(s[1..]);
      assert s[..k + 1] == [s[0]] + s[1..][..k];
      k + 1
  }

  /**
   * Reads the two values back from a join body: the title runs to the first
   * quote after the prefix, then the name separator and the suffix must
   * follow, with no quote inside the name.
   */
  function ParseJoinBody(b: string): (r: Option<(string, string)>)
    ensures r.Some? ==> QuoteFree(r.value.0) && QuoteFree(r.value.1)
  {
    if !(TitlePrefix <= b) then None
    else
      var rest := b[|TitlePrefix|..];
      var k := QuoteIndex(rest);
      var title, tail := rest[..k], rest[k..];
      if !(NameSeparator <= tail) then None
      else
        var nameEnd := tail[|NameSeparator|..];
        if |nameEnd| < |BodySuffix| || nameEnd[|nameEnd| - |BodySuffix|..] != BodySuffix then None
        else
          var name := nameEnd[..|nameEnd| - |BodySuffix|];
          if QuoteFree(name) then Some((title, name)) else None
  }

  /** With quote-free values, the body reads back to the values it was built from. */
  lemma JoinBodyRoundTrip(meetingId: Option<string>, attendeeName: Option<string>)
    requires QuoteFree(Render(meetingId)) && QuoteFree(Render(attendeeName))
    ensures ParseJoinBody(JoinBody(meetingId, attendeeName)) == Some((Render(meetingId), Render(attendeeName)))
  {
    var t, n := Render(meetingId), Render(attendeeName);
    var b := JoinBody(meetingId, attendeeName);
    assert b[|TitlePrefix|..] == t + NameSeparator + n + BodySuffix;
    TitleSplit(t, n);
    NameSplit(n);
  }

  /** After the title prefix, the first quote ends the title and starts the name separator. */
  lemma TitleSplit(t: string, n: string)
    requires QuoteFree(t)
    ensures var rest := t + NameSeparator + n + BodySuffix;
            && QuoteIndex(rest) == |t|
            && rest[..|t|] == t
            && rest[|t|..] == NameSeparator + (n + BodySuffix)
  {
    var rest := t + NameSeparator + n + BodySuffix;
    assert rest == t + (NameSeparator + n + BodySuffix);
    QuoteIndexAfterQuoteFree(t, NameSeparator + n + BodySuffix);
  }

  /** What follows the name separator is the name and the closing suffix. */
  lemma NameSplit(n: string)
    ensures var tail := NameSeparator + (n + BodySuffix);
            var nameEnd := tail[|NameSeparator|..];
            && NameSeparator <= tail
            && nameEnd == n + BodySuffix
            && nameEnd[|nameEnd| - |BodySuffix|..] == BodySuffix
            && nameEnd[..|nameEnd| - |BodySuffix|] == n
  {
    var tail := NameSeparator + (n + BodySuffix);
    assert tail[..|NameSeparator|] == NameSeparator;
    var nameEnd := tail[|NameSeparator|..];
    assert nameEnd == n + BodySuffix;
  }


  lemma {:induction false} QuoteIndexAfterQuoteFree(a: string, b: string)
    requires QuoteFree(a) && |b| > 0 && b[0] == '"'
    ensures QuoteIndex(a + b) == |a|
  {
    if a != [] {
      assert (a + b)[1..] == a[1..] + b;
      QuoteIndexAfterQuoteFree(a[1..], b);
    }
  }

  /** The hand-built body cannot tell a missing meeting id from the text `null`. */
  lemma MissingIdRendersAsNull(attendeeName: Option<string>)
    ensures JoinBody(None, attendeeName) == JoinBody(Some("null"), attendeeName)
  {
  }

  /**
   * Without escaping, a value holding the name separator moves text between
   * the two fields: two different pairs of values give one body.
   */
  lemma UnescapedBodyIsAmbiguous(x: string, y: string, z: string)
    ensures x + NameSeparator + y != x
    ensures JoinBody(Some(x + NameSeparator + y), Some(z)) == JoinBody(Some(x), Some(y + NameSeparator + z))
  {
    var head := TitlePrefix + x + NameSeparator;
    assert TitlePrefix + (x + NameSeparator + y) == head + y;
    assert head + (y + NameSeparator + z) == head + y + NameSeparator + z;
  }

  /**
   * The body maps the request helpers serialise: the leave body has the
   * single key `title`, the join body the keys `title` and `name`.
   */
  function LeaveBodyMap(meetingId: Option<string>): (m: map<string, Option<string>>)
    ensures m.Keys == {"title"} && m["title"] == meetingId
  {
    map["title" := meetingId]
  }

  function JoinBodyMap(meetingId: Option<string>, attendeeName: Option<string>): (m: map<string, Option<string>>)
    ensures m.Keys == {"title", "name"} && m["title"] == meetingId && m["name"] == attendeeName
  {
    map["title" := meetingId, "name" := attendeeName]
  }

  // ---------------------------------------------------------------------
  // Reading the response
  // ---------------------------------------------------------------------

  predicate IsTerminator(c: char)
  {
    c == '\n' || c == '\r'
  }

  /** The text with every line-terminator character dropped. */
  function StripTerminators(t: string): (r: string)
    ensures |r| <= |t|
    ensures forall i :: 0 <= i < |r| ==> !IsTerminator(r[i])
  {
    if t == [] then []
    else (if IsTerminator(t[0]) then [] else [t[0]]) + StripTerminators(t[1..])
  }

  lemma {:induction false} StripAppend(a: string, b: string)
    ensures StripTerminators(a + b) == StripTerminators(a) + StripTerminators(b)
  {
    if a == [] {
      assert a + b == b;
    } else {
      assert (a + b)[0] == a[0] && (a + b)[1..] == a[1..] + b;
      StripAppend(a[1..], b);
    }
  }

  /** The first index at or after `pos` holding a line terminator, or `|t|`. */
  function LineEnd(t: string, pos: nat): (e: nat)
    requires pos <= |t|
    ensures pos <= e <= |t|
    ensures forall i :: pos <= i < e ==> !IsTerminator(t[i])
    ensures e < |t| ==> IsTerminator(t[e])
    decreases |t| - pos
  {
    if pos == |t| || IsTerminator(t[pos]) then pos else LineEnd(t, pos + 1)
  }

  /**
   * One `readLine` of a buffered reader positioned at `pos`: nothing at the
   * end of the text; otherwise the characters up to the next `\n`, `\r` or
   * `\r\n`, and the position after that terminator.
   */
  function ReadLine(t: string, pos: nat): (r: Option<(string, nat)>)
    requires pos <= |t|
    ensures r.None? <==> pos == |t|
    ensures r.Some? ==>
              var (line, next) := r.value;
              && pos < next <= |t|
              && StripTerminators(t[pos..next]) == line
              && forall i :: 0 <= i < |line| ==> !IsTerminator(line[i])
  {
    if pos == |t| then None
    else
      var e := LineEnd(t, pos);
      var next := if e == |t| then e
                  else if t[e] == '\r' && e + 1 < |t| && t[e + 1] == '\n' then e + 2
                  else e + 1;
      LineStrips(t, pos, e, next);
      Some((t[pos..e], next))
  }

  lemma LineStrips(t: string, pos: nat, e: nat, next: nat)
    requires pos <= e <= next <= |t| && next <= e + 2
    requires forall i :: pos <= i < e ==> !IsTerminator(t[i])
    requires forall i :: e <= i < next ==> IsTerminator(t[i])
    ensures StripTerminators(t[pos..next]) == t[pos..e]
  {
    assert t[pos..next] == t[pos..e] + t[e..next];
    StripAppend(t[pos..e], t[e..next]);
    NoTerminatorsStrip(t[pos..e]);
    AllTerminatorsStrip(t[e..next]);
  }

  lemma {:induction false} NoTerminatorsStrip(s: string)
    requires forall i :: 0 <= i < |s| ==> !IsTerminator(s[i])
    ensures StripTerminators(s) == s
  {
    if s != [] {
      NoTerminatorsStrip(s[1..]);
    }
  }

  lemma {:induction false} AllTerminatorsStrip(s: string)
    requires forall i :: 0 <= i < |s| ==> IsTerminator(s[i])
    ensures StripTerminators(s) == []
  {
    if s != [] {
      AllTerminatorsStrip(s[1..]);
    }
  }

  /**
   * The response loop: read lines until the reader reports the end and
   * append each to the buffer. The buffer ends up as the text with its line
   * terminators dropped.
   */
  method ReadResponse(t: string) returns (response: string)
    ensures response == StripTerminators(t)
  {
    response := "";
    var pos := 0;
    var line := ReadLine(t, pos);
    while line.Some?
      invariant pos <= |t|
      invariant line == ReadLine(t, pos)
      invariant response == StripTerminators(t[..pos])
      decreases |t| - pos
    {
      var (text, next) := line.value;
      assert t[..next] == t[..pos] + t[pos..next];
      StripAppend(t[..pos], t[pos..next]);
      response := response + text;
      pos := next;
      line := ReadLine(t, pos);
    }
    assert t[..pos] == t;
  }

  // ---------------------------------------------------------------------
  // Status to result
  // ---------------------------------------------------------------------

  /** What the connection gave: an exception, or a status code with the response text. */
  datatype HttpOutcome = Threw | Responded(code: int, text: string)

  /** The response text with terminators dropped on status 200; nothing on any other status or an exception. */
  function ResultOf(o: HttpOutcome): (r: Option<string>)
    ensures r.Some? <==> o.Responded? && o.code == 200
    ensures r.Some? ==> r.value == StripTerminators(o.text)
  {
    if o.Responded? && o.code == 200 then Some(StripTerminators(o.text)) else None
  }

  /**
   * How a request helper ends. The URL object is built before the guarded
   * block, so a URL string that `java.net.URL` rejects (no protocol, or an
   * unknown one) makes the exception escape the helper; otherwise the body is
   * posted and the helper returns its optional result.
   */
  datatype Call<B> =
    | UrlRejected(url: string)
    | Sent(url: string, body: B, result: Option<string>)

  /**
   * The activity's `joinMeeting`: the hand-built body posted to the join URL.
   * Whether `java.net.URL` accepts a string is library behaviour and arrives
   * as `accepts`.
   */
  function ActivityJoinMeeting(base: string, meetingId: Option<string>, attendeeName: Option<string>,
                               accepts: string -> bool, o: HttpOutcome): (x: Call<string>)
    ensures x.url == JoinUrl(base)
    ensures x.Sent? <==> accepts(JoinUrl(base))
    ensures x.Sent? ==> x.body == JoinBody(meetingId, attendeeName)
    ensures x.Sent? ==> (x.result.Some? <==> o.Responded? && o.code == 200)
    ensures x.Sent? && x.result.Some? ==> x.result.value == StripTerminators(o.text)
  {
    var url := JoinUrl(base);
    if !accepts(url) then UrlRejected(url)
    else Sent(url, JoinBody(meetingId, attendeeName), ResultOf(o))
  }

  /** The request helper's `leaveMeeting`: the `title` map posted to the leave URL. */
  function LeaveMeeting(base: string, meetingId: Option<string>, accepts: string -> bool, o: HttpOutcome)
    : (x: Call<map<string, Option<string>>>)
    ensures x.url == LeaveUrl(base)
    ensures x.Sent? <==> accepts(LeaveUrl(base))
    ensures x.Sent? ==> x.body.Keys == {"title"} && x.body["title"] == meetingId
    ensures x.Sent? ==> (x.result.Some? <==> o.Responded? && o.code == 200)
    ensures x.Sent? && x.result.Some? ==> x.result.value == StripTerminators(o.text)
  {
    var url := LeaveUrl(base);
    if !accepts(url) then UrlRejected(url)
    else Sent(url, LeaveBodyMap(meetingId), ResultOf(o))
  }

  /** The request helper's `joinMeeting`: the `title` and `name` map posted to the join URL. */
  function JoinMeeting(base: string, meetingId: Option<string>, attendeeName: Option<string>,
                       accepts: string -> bool, o: HttpOutcome): (x: Call<map<string, Option<string>>>)
    ensures x.url == JoinUrl(base)
    ensures x.Sent? <==> accepts(JoinUrl(base))
    ensures x.Sent? ==> x.body.Keys == {"title", "name"} && x.body["title"] == meetingId && x.body["name"] == attendeeName
    ensures x.Sent? ==> (x.result.Some? <==> o.Responded? && o.code == 200)
    ensures x.Sent? && x.result.Some? ==> x.result.value == StripTerminators(o.text)
  {
    var url := JoinUrl(base);
    if !accepts(url) then UrlRejected(url)
    else Sent(url, JoinBodyMap(meetingId, attendeeName), ResultOf(o))
  }

  // ---------------------------------------------------------------------
  // Session configuration guard
  // ---------------------------------------------------------------------

  /**
   * Kotlin's `Char.isWhitespace`: Java whitespace plus the space separators,
   * so the no-break spaces count too.
   */
  predicate IsWhitespace(c: char)
  {
    || c == ' ' || c == '\t' || c == '\n' || c == '\U{000B}' || c == '\U{000C}' || c == '\r'
    || ('\U{001C}' <= c <= '\U{001F}')
    || c == '\U{00A0}' || c == '\U{1680}' || ('\U{2000}' <= c <= '\U{200A}')
    || c == '\U{2028}' || c == '\U{2029}' || c == '\U{202F}' || c == '\U{205F}' || c == '\U{3000}'
  }

  /** Kotlin's `isBlank`: empty or only whitespace. */
  predicate IsBlank(s: string)
  {
    forall i :: 0 <= i < |s| ==> IsWhitespace(s[i])
  }

  /**
   * `createSessionConfiguration`: nothing for a missing or blank response;
   * otherwise what parsing the response gave, nothing when it failed.
   * The parse itself is a JSON library call and arrives as `parsed`.
   */
  function CreateSessionConfiguration<C>(response: Option<string>, parsed: Option<C>): (r: Option<C>)
    ensures r.Some? <==> response.Some? && !IsBlank(response.value) && parsed.Some?
    ensures r.Some? ==> r == parsed
  {
    if response.None? || IsBlank(response.value) then None else parsed
  }
}
