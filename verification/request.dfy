/**
  The HTTP handler of the bridge (request_callback): from the requested url
  and method to the response the local web server queues. The handler starts
  from "500, empty body, empty content type" and runs four independent `if`
  statements in turn, each of which may overwrite the draft; then it adds a
  Content-Type header when the body is non-empty and the four CORS and
  connection headers always.

  Urls and methods arrive as C strings, which cannot hold a NUL, so `strcmp`
  returning 0 is plain string equality here.
*/
module Request {

  /** The TCP port of the bridge, FIRMADOR_PORT, as the preprocessor spells it. */
  const PortText := "9795"

  const Ok := 200
  const InternalServerError := 500

  const MethodOptions := "OPTIONS"
  const MethodPost := "POST"

  const ContentTypeName := "Content-Type"
  const ScriptType := "text/javascript;charset=utf-8"
  const JsonType := "application/json;charset=utf-8"

  /** Body of "/" and "/nexu-info". */
  const VersionBody := "{ \"version\": \"1.10.5\"}"

  /** The url the served script posts to, through the bridge's own port. */
  const CertificatesTarget := "//localhost:" + PortText + "/rest/certificates"

  /** Body of "/nexu.js", up to the url its certificate request posts to. */
  const ScriptHead :=
    "function nexu_get_certificates(success, error)" +
    "{" +
    "req = new XMLHttpRequest();" +
    "req.open('POST', '"

  /** Body of "/nexu.js", after that url. */
  const ScriptTail :=
    "');" +
    "req.setRequestHeader('Content-Type', 'application/json');" +
    "req.send();" +
    "}" +
    "function nexu_sign_with_token_infos(success, error)" +
    "{" +
    "}"

  /** Body of "/nexu.js": a script whose certificate request posts back to the bridge. */
  const Script := ScriptHead + CertificatesTarget + ScriptTail

  datatype Header = Header(name: string, value: string)

  datatype Response = Response(status: int, body: string, headers: seq<Header>)

  /** The headers every response carries, in the order they are added. */
  const CommonHeaders := [
    Header("Access-Control-Allow-Headers", ContentTypeName),
    Header("Access-Control-Allow-Methods", "OPTIONS, GET, POST"),
    Header("Access-Control-Allow-Origin", "*"),
    Header("Connection", "close")
  ]

  /** The handler's local state while the `if` statements run: ret_code, page, content_type. */
  datatype Draft = Draft(status: int, page: string, contentType: string)

  const Initial := Draft(InternalServerError, "", "")

  /** The first `if`: the version document. */
  function VersionRoute(url: string, d: Draft): Draft {
    if url == "/" || url == "/nexu-info" then d.(status := Ok, page := VersionBody) else d
  }

  /** The second `if`: the script. */
  function ScriptRoute(url: string, d: Draft): Draft {
    if url == "/nexu.js" then d.(status := Ok, contentType := ScriptType, page := Script) else d
  }

  /**
    The third and fourth `if`: a REST path, where OPTIONS and POST succeed
    and POST also sets the JSON content type. Both are still stubs that send
    no body.
  */
  function RestRoute(url: string, path: string, verb: string, d: Draft): Draft {
    if url != path then d
    else
      var d1 := if verb == MethodOptions then d.(status := Ok) else d;
      if verb == MethodPost then d1.(status := Ok, contentType := JsonType) else d1
  }

  function Route(url: string, verb: string): Draft {
    var d := VersionRoute(url, Initial);
    var d := ScriptRoute(url, d);
    var d := RestRoute(url, "/rest/certificates", verb, d);
    RestRoute(url, "/rest/sign", verb, d)
  }

  predicate HasHeader(hs: seq<Header>, name: string) {
    exists i :: 0 <= i < |hs| && hs[i].name == name
  }

  lemma HasHeaderAppend(a: seq<Header>, b: seq<Header>, name: string)
    ensures HasHeader(a + b, name) <==> HasHeader(a, name) || HasHeader(b, name)
  {
    if HasHeader(a + b, name) {
      var i :| 0 <= i < |a + b| && (a + b)[i].name == name;
      if i >= |a| {
        assert b[i - |a|].name == name;
      }
    }
    if HasHeader(a, name) {
      var i :| 0 <= i < |a| && a[i].name == name;
      assert (a + b)[i].name == name;
    }
    if HasHeader(b, name) {
      var i :| 0 <= i < |b| && b[i].name == name;
      assert (a + b)[|a| + i].name == name;
    }
  }

  /**
    request_callback: the response for `url` requested with the HTTP method `verb`. Its
    status is 200 or 500; the CORS and connection headers are always there;
    a Content-Type header is present exactly when the body is non-empty; and
    status, body and content type are the ones the routing table gives.
  */
  function Respond(url: string, verb: string): (r: Response)
    ensures r.status == Ok || r.status == InternalServerError
    ensures forall h :: h in CommonHeaders ==> h in r.headers
    ensures HasHeader(r.headers, ContentTypeName) <==> r.body != ""
    ensures r.status == Table(url, verb).status && r.body == Table(url, verb).page
    ensures r.body != "" ==> r.headers[0] == Header(ContentTypeName, Table(url, verb).contentType)
    ensures |r.headers| == if r.body != "" then 5 else 4
  {
    var d := Route(url, verb);
    var typed := if d.page != "" then [Header(ContentTypeName, d.contentType)] else [];
    HasHeaderAppend(typed, CommonHeaders, ContentTypeName);
    assert !HasHeader(CommonHeaders, ContentTypeName) by {
      forall i | 0 <= i < |CommonHeaders|
        ensures CommonHeaders[i].name != ContentTypeName
      {
      }
    }
    assert d.page != "" ==> typed[0].name == ContentTypeName;
    Response(d.status, d.page, typed + CommonHeaders)
  }

  /** The urls the handler knows; any other url is an error, whatever its prefix. */
  predicate IsRestPath(url: string) {
    url == "/rest/certificates" || url == "/rest/sign"
  }

  /**
    The routing table, stated as a table rather than as the handler's
    sequence of overwrites: for every url and method, the status, the body
    and the content type it is answered with.
  */
  function Table(url: string, verb: string): Draft {
    if url == "/" || url == "/nexu-info" then Draft(Ok, VersionBody, "")
    else if url == "/nexu.js" then Draft(Ok, Script, ScriptType)
    else if IsRestPath(url) && verb == MethodPost then Draft(Ok, "", JsonType)
    else if IsRestPath(url) && verb == MethodOptions then Draft(Ok, "", "")
    else Draft(InternalServerError, "", "")
  }

  /** 200 is given exactly to the known urls, and on a REST path only to OPTIONS and POST. */
  lemma SucceedsExactly(url: string, verb: string)
    ensures Respond(url, verb).status == Ok <==>
      url == "/" || url == "/nexu-info" || url == "/nexu.js" ||
      (IsRestPath(url) && (verb == MethodOptions || verb == MethodPost))
  {
  }

  /** `t` occurs in `s` starting at position `i`. */
  predicate OccursAt(s: string, t: string, i: int) {
    0 <= i <= |s| - |t| && s[i..i + |t|] == t
  }

  /** The script's certificate request goes to the bridge's port on localhost. */
  lemma ScriptPostsToBridge()
    ensures exists i :: OccursAt(Script, "//localhost:9795/rest/certificates", i)
  {
    var i := |ScriptHead|;
    assert Script[i..i + |CertificatesTarget|] == CertificatesTarget;
    assert CertificatesTarget == "//localhost:9795/rest/certificates";
    assert OccursAt(Script, CertificatesTarget, i);
  }
}
