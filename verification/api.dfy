/** The web client's request helper: the session token and its persisted
    copy, the headers and body `req` sends, how it reads a response, and the
    file name it takes from a download's Content-Disposition header. */
module Api {

  import opened Common
  import opened Strings
  import Uri
  import FileNames

  // ---------------------------------------------------------------------
  // The session token
  // ---------------------------------------------------------------------

  /** The token read back at start-up: `localStorage.getItem('token') || ''`. */
  function Restore(stored: Option<string>): (token: string)
    ensures stored.None? ==> token == ""
    ensures stored.Some? ==> token == stored.value
  {
    OrElse(OrEmpty(stored), "")
  }

  /** What `setToken` leaves in local storage: the token when it is
      non-empty, nothing when it is empty. */
  function Persisted(token: string): (stored: Option<string>)
    ensures stored.Some? <==> token != ""
    ensures stored.Some? ==> stored.value == token
  {
    if token != "" then Some(token) else None
  }

  /** A reload after `setToken(t)` starts with the same token `t`. */
  lemma ReloadKeepsToken(token: string)
    ensures Restore(Persisted(token)) == token
  {
  }

  /** A JSON value a caller passes as a request body. */
  datatype JsonValue =
    | Null
    | Bool(b: bool)
    | Number(n: int)
    | Str(s: string)
    | Array(items: seq<JsonValue>)
    | Object(members: seq<(string, JsonValue)>)

  /** JavaScript truthiness of a body value. */
  predicate Truthy(v: JsonValue)
  {
    !(v == Null || v == Bool(false) || v == Number(0) || v == Str(""))
  }

  /** `opts.body`: absent, a FormData of named fields, or any other value. */
  datatype Body = NoBody | Form(fields: seq<(string, string)>) | Data(value: JsonValue)

  /** `opts.body && !(opts.body instanceof FormData)`. */
  predicate SendsJson(body: Body)
  {
    body.Data? && Truthy(body.value)
  }

  /** What `fetch` is given as the body: the JSON text, or the original value. */
  datatype SentBody = JsonText(text: string) | AsGiven(body: Body)

  datatype Request = Request(headers: map<string, string>, body: SentBody)

  const AuthorizationHeader: string := "Authorization"
  const ContentTypeHeader: string := "Content-Type"

  /** `opts.headers || {}`. */
  function GivenHeaders(headers: Option<map<string, string>>): map<string, string>
  {
    if headers.Some? then headers.value else map[]
  }

  /** The client's module state: the current token and the `token` entry of
      local storage. */
  class Session {
    var token: string
    var stored: Option<string>

    /** Module start-up, with whatever local storage holds. */
    constructor(stored: Option<string>)
      ensures this.stored == stored
      ensures token == Restore(stored)
    {
      this.stored := stored;
      token := Restore(stored);
    }

    /** `setToken(t)`. */
    method SetToken(t: string)
      modifies this
      ensures token == t
      ensures stored == Persisted(t)
    {
      token := t;
      if t != "" {
        stored := Some(t);
      } else {
        stored := None;
      }
    }

    /** The headers and body `req` hands to `fetch`. `stringify` stands for
        `JSON.stringify`. */
    method Prepare(headers: Option<map<string, string>>, body: Body, stringify: JsonValue -> string)
      returns (request: Request)
      ensures forall k :: k in request.headers <==>
        (|| k in GivenHeaders(headers)
         || (k == AuthorizationHeader && token != "")
         || (k == ContentTypeHeader && SendsJson(body)))
      ensures token != "" ==> request.headers[AuthorizationHeader] == "Bearer " + token
      ensures SendsJson(body) ==> request.headers[ContentTypeHeader] == "application/json"
      ensures forall k :: (k in GivenHeaders(headers) && !(k == AuthorizationHeader && token != "")
                && !(k == ContentTypeHeader && SendsJson(body))) ==>
                request.headers[k] == GivenHeaders(headers)[k]
      ensures headers.None? ==> (AuthorizationHeader in request.headers <==> token != "")
      ensures headers.None? ==> (ContentTypeHeader in request.headers <==> SendsJson(body))
      ensures request.body == if SendsJson(body) then JsonText(stringify(body.value)) else AsGiven(body)
    {
      var h := GivenHeaders(headers);
      if token != "" {
        h := h[AuthorizationHeader := "Bearer " + token];
      }
      if SendsJson(body) {
        h := h[ContentTypeHeader := "application/json"];
      }
      var sent := if SendsJson(body) then JsonText(stringify(body.value)) else AsGiven(body);
      request := Request(h, sent);
    }

    /** The headers of the direct downloads: `token ? { Authorization: ... } : {}`. */
    function DownloadHeaders(): (h: map<string, string>)
      reads this
      ensures AuthorizationHeader in h <==> token != ""
      ensures forall k :: k in h ==> k == AuthorizationHeader && h[k] == "Bearer " + token
    {
      if token != "" then map[AuthorizationHeader := "Bearer " + token] else map[]
    }
  }

  /** A FormData upload is sent as it is, with no JSON Content-Type, so the
      browser supplies the multipart one. */
  lemma FormIsNotJson(fields: seq<(string, string)>)
    ensures !SendsJson(Form(fields))
  {
  }

  /** A falsy body is passed through as it is, and gets no JSON Content-Type. */
  lemma FalsyBodyIsNotJson(v: JsonValue)
    requires !Truthy(v)
    ensures !SendsJson(Data(v))
  {
  }

  // ---------------------------------------------------------------------
  // Reading a response
  // ---------------------------------------------------------------------

  /** What `req` sees of a response. `errorField` is the `error` member when
      the body parses as JSON carrying one; `None` otherwise. */
  datatype HttpResponse = HttpResponse(
    status: int, statusText: string, contentType: Option<string>, errorField: Option<string>, text: string)

  /** How `req` settles: it throws an Error with a message, or returns the
      body parsed as JSON, or returns it as text. */
  datatype Outcome = Thrown(message: string) | JsonBody(text: string) | TextBody(text: string)

  /** `res.ok`. */
  predicate IsOk(status: int)
  {
    200 <= status <= 299
  }

  function Settle(res: HttpResponse): (r: Outcome)
    ensures r.Thrown? <==> !IsOk(res.status)
    ensures r.Thrown? && res.errorField.Some? && res.errorField.value != "" ==> r.message == res.errorField.value
    ensures r.Thrown? && (res.errorField.None? || res.errorField.value == "") ==> r.message == res.statusText
    ensures r.JsonBody? <==> IsOk(res.status) && Contains(OrEmpty(res.contentType), "application/json")
    ensures !r.Thrown? ==> r.text == res.text
  {
    if !IsOk(res.status) then Thrown(OrElse(OrEmpty(res.errorField), res.statusText))
    else if Contains(OrEmpty(res.contentType), "application/json") then JsonBody(res.text)
    else TextBody(res.text)
  }

  /** The gradebook's CSV comes back as text, and the match on the media type
      is case-sensitive. */
  lemma SettleExamples(body: string)
    ensures Settle(HttpResponse(200, "OK", Some("text/csv; charset=utf-8"), None, body)) == TextBody(body)
    ensures Settle(HttpResponse(200, "OK", Some("application/json; charset=utf-8"), None, body)) == JsonBody(body)
    ensures Settle(HttpResponse(200, "OK", Some("Application/JSON"), None, body)) == TextBody(body)
    ensures Settle(HttpResponse(403, "Forbidden", None, Some("forbidden"), body)) == Thrown("forbidden")
  {
    assert OccursAt("application/json; charset=utf-8", "application/json", 0);
    forall i | 0 <= i <= |"Application/JSON"| - |"application/json"|
      ensures !OccursAt("Application/JSON", "application/json", i)
    {
      assert "Application/JSON"[0] != "application/json"[0];
    }
    forall i | 0 <= i <= |"text/csv; charset=utf-8"| - |"application/json"|
      ensures !OccursAt("text/csv; charset=utf-8", "application/json", i)
    {
      var s := "text/csv; charset=utf-8";
      assert s[i..i + 16][0] == s[i];
      assert s[i..i + 16][1] == s[i + 1];
    }
  }

  // ---------------------------------------------------------------------
  // The file name of a download
  // ---------------------------------------------------------------------

  /** Comparison under the `i` flag: ASCII letters match either case, every
      other character only itself. */
  predicate SameIgnoringCase(a: string, b: string)
  {
    |a| == |b| && forall k :: 0 <= k < |a| ==> UpperChar(a[k]) == UpperChar(b[k])
  }

  lemma SameIgnoringCaseRefl(a: string)
    ensures SameIgnoringCase(a, a)
  {
  }

  predicate MatchesAt(s: string, p: nat, pattern: string)
  {
    p + |pattern| <= |s| && SameIgnoringCase(s[p..p + |pattern|], pattern)
  }

  /** The longest run of characters outside `stop` starting at `q`: what a
      greedy `[^...]*` takes. */
  function RunFrom(s: string, q: nat, stop: set<char>): (r: string)
    requires q <= |s|
    ensures q + |r| <= |s| && r == s[q..q + |r|]
    ensures forall k :: 0 <= k < |r| ==> r[k] !in stop
    ensures q + |r| == |s| || s[q + |r|] in stop
    ensures r != [] <==> q < |s| && s[q] !in stop
    decreases |s| - q
  {
    if q == |s| || s[q] in stop then [] else [s[q]] + RunFrom(s, q + 1, stop)
  }

  /** A run of non-stop characters ended by a stop character or the end of
      the string is the one `RunFrom` takes. */
  lemma {:induction false} RunFromIs(s: string, q: nat, stop: set<char>, v: string)
    requires q + |v| <= |s| && s[q..q + |v|] == v
    requires forall k :: 0 <= k < |v| ==> v[k] !in stop
    requires q + |v| == |s| || s[q + |v|] in stop
    ensures RunFrom(s, q, stop) == v
    decreases |v|
  {
    if v != [] {
      assert s[q] == v[0];
      assert s[q + 1..q + 1 + |v[1..]|] == v[1..];
      RunFromIs(s, q + 1, stop, v[1..]);
      assert [v[0]] + v[1..] == v;
    }
  }

  /** The two regular expressions, in the order they are tried:
      `/filename\*=UTF-8''([^;]+)/i` and `/filename="?([^";]+)"?/i`. */
  datatype Form = Extended | Quoted

  function Prefix(form: Form): (p: string)
    ensures |p| > 8
  {
    match form
    case Extended => "filename*=UTF-8''"
    case Quoted => "filename="
  }

  /** The characters that end the captured group. */
  function Stops(form: Form): set<char>
  {
    match form
    case Extended => {';'}
    case Quoted => {'"', ';'}
  }

  /** Where the captured group starts after the prefix: one further on when
      the quoted form finds an opening quote. */
  function ValueStart(form: Form, s: string, p: nat): (q: nat)
    requires p + |Prefix(form)| <= |s|
    ensures q <= |s| + 1
  {
    var q := p + |Prefix(form)|;
    if form == Quoted && q < |s| && s[q] == '"' then q + 1 else q
  }

  /** The captured group of a match starting exactly at `p`, if there is one:
      the pattern matches at `p` exactly when the prefix does and a non-stop
      character follows it (after the opening quote, when there is one), and
      the group is the longest run of non-stop characters from there. With
      an opening quote and nothing after it, backtracking past the quote
      does not help, since the quote itself stops the bare run. */
  function MatchAt(form: Form, s: string, p: nat): (r: Option<string>)
    ensures r.Some? <==> (MatchesAt(s, p, Prefix(form)) && ValueStart(form, s, p) < |s|
      && s[ValueStart(form, s, p)] !in Stops(form))
    ensures r.Some? ==> r.value == RunFrom(s, ValueStart(form, s, p), Stops(form))
    ensures r.Some? ==> MatchesAt(s, p, Prefix(form)) && r.value != []
    ensures r.Some? && form == Extended ==> forall k :: 0 <= k < |r.value| ==> r.value[k] != ';'
    ensures r.Some? && form == Quoted ==> forall k :: 0 <= k < |r.value| ==> r.value[k] != ';' && r.value[k] != '"'
  {
    if !MatchesAt(s, p, Prefix(form)) then None
    else
      var q := p + |Prefix(form)|;
      match form
      case Extended =>
        var v := RunFrom(s, q, {';'});
        if v != [] then Some(v) else None
      case Quoted =>
        // `"?` is greedy: the opening quote is taken when a value follows it,
        // otherwise the regular expression backtracks and retries without it.
        var quoted := if q < |s| && s[q] == '"' then RunFrom(s, q + 1, {'"', ';'}) else [];
        if quoted != [] then Some(quoted)
        else
          var bare := RunFrom(s, q, {'"', ';'});
          if bare != [] then Some(bare) else None
  }

  /** `s.match(regex)` from position `p` on: the leftmost match. */
  function First(form: Form, s: string, p: nat): (r: Option<string>)
    requires p <= |s| + 1
    ensures r.Some? ==> r.value != []
    decreases |s| + 1 - p
  {
    if p > |s| then None
    else if MatchAt(form, s, p).Some? then MatchAt(form, s, p)
    else First(form, s, p + 1)
  }

  /** `extractFilename(res)`. `None` is the URIError `decodeURIComponent` throws. */
  function ExtractFilename(header: Option<string>): (r: Option<string>)
    ensures r.None? ==> First(Extended, OrEmpty(header), 0).Some?
    ensures First(Extended, OrEmpty(header), 0).Some? ==> r == Uri.Decode(First(Extended, OrEmpty(header), 0).value)
    ensures First(Extended, OrEmpty(header), 0).None? && First(Quoted, OrEmpty(header), 0).Some? ==>
      r == First(Quoted, OrEmpty(header), 0)
    ensures First(Extended, OrEmpty(header), 0).None? && First(Quoted, OrEmpty(header), 0).None? ==>
      r == Some("download")
  {
    var cd := OrEmpty(header);
    var extended := First(Extended, cd, 0);
    if extended.Some? then Uri.Decode(extended.value)
    else
      var quoted := First(Quoted, cd, 0);
      if quoted.Some? then quoted else Some("download")
  }

  /** The leftmost match is the first position that matches. */
  lemma {:induction false} FirstIsLeftmost(form: Form, s: string, p: nat, i: nat)
    requires p <= i <= |s| && MatchAt(form, s, i).Some?
    requires forall j :: p <= j < i ==> MatchAt(form, s, j).None?
    ensures First(form, s, p) == MatchAt(form, s, i)
    decreases i - p
  {
    if p < i {
      assert MatchAt(form, s, p).None?;
      FirstIsLeftmost(form, s, p + 1, i);
    }
  }

  /** With no position matching, there is no match. */
  lemma {:induction false} FirstNone(form: Form, s: string, p: nat)
    requires p <= |s| + 1
    requires forall i :: p <= i <= |s| ==> MatchAt(form, s, i).None?
    ensures First(form, s, p).None?
    decreases |s| + 1 - p
  {
    if p <= |s| {
      FirstNone(form, s, p + 1);
    }
  }

  /** No match starts at `p` when the character at `p + k` differs from the
      pattern's `k`-th, and that one is not a letter. */
  lemma NoMatchAt(form: Form, s: string, p: nat, k: nat)
    requires k < |Prefix(form)|
    requires var c := Prefix(form)[k]; !('a' <= c <= 'z') && !('A' <= c <= 'Z')
    requires p + k < |s| ==> s[p + k] != Prefix(form)[k]
    ensures MatchAt(form, s, p).None?
  {
    var pattern := Prefix(form);
    if p + |pattern| <= |s| {
      assert s[p..p + |pattern|][k] == s[p + k];
      assert UpperChar(s[p + k]) != UpperChar(pattern[k]);
    }
  }

  /** A header without `=` names no file: the result is "download". */
  lemma NoEqualsGivesDownload(cd: string)
    requires '=' !in cd
    ensures ExtractFilename(Some(cd)) == Some("download")
  {
    forall p | 0 <= p <= |cd|
      ensures MatchAt(Extended, cd, p).None? && MatchAt(Quoted, cd, p).None?
    {
      if p + 9 < |cd| { assert cd[p + 9] in cd; }
      NoMatchAt(Extended, cd, p, 9);
      if p + 8 < |cd| { assert cd[p + 8] in cd; }
      NoMatchAt(Quoted, cd, p, 8);
    }
    FirstNone(Extended, cd, 0);
    FirstNone(Quoted, cd, 0);
  }

  /** In `attachment; filename*=UTF-8''<v>` nothing matches before `filename`. */
  lemma ExtendedLeadSkipped(v: string)
    ensures forall j :: 0 <= j < 12 ==> MatchAt(Extended, "attachment; filename*=UTF-8''" + v, j).None?
  {
    var lead := "attachment; filename*=UTF-8''";
    var cd := lead + v;
    forall j | 0 <= j < 12
      ensures MatchAt(Extended, cd, j).None?
    {
      assert cd[j + 8] == lead[j + 8];
      NoMatchAt(Extended, cd, j, 8);
    }
  }

  /** In `attachment; filename*=UTF-8''<v>` the extended form matches at
      `filename` and captures `v`. */
  lemma ExtendedMatch(v: string)
    requires v != [] && ';' !in v
    ensures MatchAt(Extended, "attachment; filename*=UTF-8''" + v, 12) == Some(v)
  {
    var lead := "attachment; filename*=UTF-8''";
    var cd := lead + v;
    assert cd[..|lead|] == lead;
    assert cd[12..29] == Prefix(Extended);
    SameIgnoringCaseRefl(Prefix(Extended));
    RunToEnd(lead, v, {';'});
  }

  /** A run of non-stop characters to the end of the string is taken whole. */
  lemma RunToEnd(lead: string, v: string, stop: set<char>)
    requires forall c :: c in v ==> c !in stop
    ensures RunFrom(lead + v, |lead|, stop) == v
  {
    var s := lead + v;
    forall k | 0 <= k < |v|
      ensures v[k] !in stop
    {
      assert v[k] in v;
    }
    assert s[|lead|..|lead| + |v|] == v;
    RunFromIs(s, |lead|, stop, v);
  }

  /** `attachment; filename*=UTF-8''<v>` yields the decoding of `v`, when
      `v` is non-empty and holds no `;`. */
  lemma ExtendedHeader(v: string)
    requires v != [] && ';' !in v
    ensures ExtractFilename(Some("attachment; filename*=UTF-8''" + v)) == Uri.Decode(v)
  {
    ExtendedLeadSkipped(v);
    ExtendedMatch(v);
    FirstIsLeftmost(Extended, "attachment; filename*=UTF-8''" + v, 0, 12);
  }

  /** `attachment; filename="<v>"` holds no `filename*=UTF-8''` when `v`
      holds no `*`. */
  lemma QuotedHasNoExtended(v: string)
    requires forall k :: 0 <= k < |v| ==> v[k] != '*'
    ensures var cd := "attachment; filename=\"" + v + "\"";
      forall p :: 0 <= p <= |cd| ==> MatchAt(Extended, cd, p).None?
  {
    var lead := "attachment; filename=\"";
    var cd := lead + v + "\"";
    assert cd[..|lead|] == lead;
    assert cd[|cd| - 1] == '"';
    forall p | 0 <= p <= |cd|
      ensures MatchAt(Extended, cd, p).None?
    {
      if p + 8 < |lead| {
        assert cd[p + 8] == lead[p + 8];
      } else if p + 8 < |lead| + |v| {
        assert cd[p + 8] == v[p + 8 - |lead|];
      }
      NoMatchAt(Extended, cd, p, 8);
    }
  }

  /** In `attachment; filename="<v>"` the quoted form matches at `filename`
      and captures `v`, and nothing matches before. */
  lemma QuotedMatch(v: string)
    requires v != []
    requires forall k :: 0 <= k < |v| ==> v[k] != '"' && v[k] != ';'
    ensures MatchAt(Quoted, "attachment; filename=\"" + v + "\"", 12) == Some(v)
    ensures forall j :: 0 <= j < 12 ==> MatchAt(Quoted, "attachment; filename=\"" + v + "\"", j).None?
  {
    var lead := "attachment; filename=\"";
    var cd := lead + v + "\"";
    assert cd[..|lead|] == lead;
    forall j | 0 <= j < 12
      ensures MatchAt(Quoted, cd, j).None?
    {
      assert cd[j + 8] == lead[j + 8];
      NoMatchAt(Quoted, cd, j, 8);
    }
    assert cd[12..21] == Prefix(Quoted);
    assert cd[21] == '"';
    assert cd[22..22 + |v|] == v;
    assert cd[22 + |v|] == '"';
    RunFromIs(cd, 22, {'"', ';'}, v);
  }

  /** `attachment; filename="<v>"` yields `v`, when `v` is non-empty and holds
      none of `"`, `;`, `*` and `=`. */
  lemma QuotedHeader(v: string)
    requires v != []
    requires forall k :: 0 <= k < |v| ==> v[k] !in {'"', ';', '*', '='}
    ensures ExtractFilename(Some("attachment; filename=\"" + v + "\"")) == Some(v)
  {
    var cd := "attachment; filename=\"" + v + "\"";
    QuotedHasNoExtended(v);
    FirstNone(Extended, cd, 0);
    QuotedMatch(v);
    FirstIsLeftmost(Quoted, cd, 0, 12);
  }

  /** The server's `attachment; filename="<name>"` header parses back to the
      stored name, for every non-empty sanitised name. */
  lemma ContentDispositionRoundTrip(name: string)
    requires name != [] && FileNames.IsSafeName(name)
    ensures ExtractFilename(Some(FileNames.ContentDisposition(name))) == Some(name)
  {
    FileNames.BasenameOfSafeName(name);
    forall k | 0 <= k < |name|
      ensures name[k] !in {'"', ';', '*', '='}
    {
      assert FileNames.IsSafeChar(name[k]);
    }
    QuotedHeader(name);
  }

  /** The extended form of the header carries any non-empty name, percent-encoded. */
  lemma ExtendedRoundTrip(name: string)
    requires name != []
    ensures ExtractFilename(Some("attachment; filename*=UTF-8''" + Uri.Encode(name))) == Some(name)
  {
    var v := Uri.Encode(name);
    Uri.EncodeAlphabet(name);
    forall k | 0 <= k < |v|
      ensures v[k] != ';'
    {
    }
    ExtendedHeader(v);
    Uri.DecodeEncode(name);
  }

  /** A malformed escape in the extended form (such as a lone `%E9`, see
      `Uri.MalformedEscapesFail`) makes `extractFilename` throw. */
  lemma MalformedExtendedThrows(v: string)
    requires v != [] && ';' !in v && Uri.Decode(v).None?
    ensures ExtractFilename(Some("attachment; filename*=UTF-8''" + v)).None?
  {
    ExtendedHeader(v);
  }
}
