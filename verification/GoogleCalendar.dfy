/**
 * The pure helpers of the Google Calendar agent: moving the `agent` field between the
 * Eve shape of an event (`event.agent`) and the Google shape
 * (`event.extendedProperties.shared.agent`), the expiry time of an access token, the
 * Authorization header built from it (section 2.1 of RFC 6750), and the way error
 * replies of the calendar service are classified.
 */
module GoogleCalendar {
  import opened Results
  import opened JavaStrings

  // ----- JSON -----

  /** A JSON value as Jackson holds it; object members are keyed by name. */
  datatype Json =
    | JObject(fields: map<string, Json>)
    | JString(text: string)
    | JNumber(number: int)
    | JBool(truth: bool)
    | JArray(items: seq<Json>)
    | JNull

  /** An object node: the members of a JSON object. */
  type Node = map<string, Json>

  /** What a Jackson call throws here: `with(name)` on a member that is not an object
      (UnsupportedOperationException), or a cast of a member that is not an object to
      ObjectNode (ClassCastException). */
  datatype JsonError = NotAnObject(member: string) | NotCastable(member: string)

  /** `node.with(name)`: the member object, or a new empty one when the member is absent;
      a member of another kind throws. */
  function With(node: Node, name: string): (r: Result<Node, JsonError>)
    ensures r.Failure? <==> name in node && !node[name].JObject?
    ensures r.Success? && name in node ==> r.value == node[name].fields
    ensures r.Success? && name !in node ==> r.value == map[]
  {
    if name !in node then Success(map[])
    else if node[name].JObject? then Success(node[name].fields)
    else Failure(NotAnObject(name))
  }

  /** `(ObjectNode) node.get(name)`: `None` for an absent member (a Java null); a member
      that is not an object fails the cast. */
  function GetObject(node: Node, name: string): (r: Result<Option<Node>, JsonError>)
    ensures r.Failure? <==> name in node && !node[name].JObject?
    ensures r == Success(None) <==> name !in node
  {
    if name !in node then Success(None)
    else if node[name].JObject? then Success(Some(node[name].fields))
    else Failure(NotCastable(name))
  }

  /** `node.has(name) && node.get(name).isTextual()`. */
  predicate HasText(node: Node, name: string) {
    name in node && node[name].JString?
  }

  // ----- toGoogleEvent and toEveEvent -----

  /** The Google shape of an agent URL: `extendedProperties.shared.agent`. */
  ghost predicate SharedAgent(event: Node, agent: string) {
    && "extendedProperties" in event && event["extendedProperties"].JObject?
    && "shared" in event["extendedProperties"].fields
    && event["extendedProperties"].fields["shared"].JObject?
    && "agent" in event["extendedProperties"].fields["shared"].fields
    && event["extendedProperties"].fields["shared"].fields["agent"] == JString(agent)
  }

  /** `toGoogleEvent(event)`: a textual `agent` is copied to
      `extendedProperties.shared.agent`, creating the two objects when absent; the
      event is changed in place, so the result is the event afterwards. */
  function ToGoogleEvent(event: Node): (r: Result<Node, JsonError>)
    ensures !HasText(event, "agent") ==> r == Success(event)
    ensures HasText(event, "agent") && r.Success? ==> SharedAgent(r.value, event["agent"].text)
    ensures r.Success? ==> r.value.Keys == event.Keys + (if HasText(event, "agent") then {"extendedProperties"} else {})
    ensures r.Success? ==> forall k :: k in event && k != "extendedProperties" ==> r.value[k] == event[k]
  {
    if HasText(event, "agent") then
      var agent := event["agent"].text;
      match With(event, "extendedProperties")
      case Failure(e) => Failure(e)
      case Success(ext) =>
        match With(ext, "shared")
        case Failure(e) => Failure(e)
        case Success(shared) =>
          Success(event["extendedProperties" := JObject(ext["shared" := JObject(shared["agent" := JString(agent)])])])
    else Success(event)
  }

  /** `toGoogleEvent` fails exactly when the agent is textual and `extendedProperties`,
      or its `shared`, is present but not an object. */
  lemma ToGoogleEventFails(event: Node)
    ensures ToGoogleEvent(event).Failure? <==>
              HasText(event, "agent") &&
              ("extendedProperties" in event &&
               (!event["extendedProperties"].JObject? ||
                ("shared" in event["extendedProperties"].fields &&
                 !event["extendedProperties"].fields["shared"].JObject?)))
  {
  }

  /** `toGoogleEvent` keeps every other member of `extendedProperties` and of `shared`. */
  lemma ToGoogleEventKeepsOthers(event: Node)
    requires HasText(event, "agent") && ToGoogleEvent(event).Success?
    ensures var ext := ToGoogleEvent(event).value["extendedProperties"].fields;
            && (forall k :: k in ext && k != "shared" ==>
                  "extendedProperties" in event && k in event["extendedProperties"].fields &&
                  ext[k] == event["extendedProperties"].fields[k])
            && (forall k :: k in ext["shared"].fields && k != "agent" ==>
                  With(With(event, "extendedProperties").value, "shared").Success? &&
                  k in With(With(event, "extendedProperties").value, "shared").value &&
                  ext["shared"].fields[k] == With(With(event, "extendedProperties").value, "shared").value[k])
  {
  }

  /** `toEveEvent(event)`: when `extendedProperties.shared.agent` is textual it becomes
      `event.agent`; otherwise the event is left as it is. */
  function ToEveEvent(event: Node): (r: Result<Node, JsonError>)
    ensures r.Success? ==> r.value.Keys == event.Keys || r.value.Keys == event.Keys + {"agent"}
    ensures r.Success? ==> forall k :: k in event && k != "agent" ==> r.value[k] == event[k]
  {
    match GetObject(event, "extendedProperties")
    case Failure(e) => Failure(e)
    case Success(None) => Success(event)
    case Success(Some(ext)) =>
      match GetObject(ext, "shared")
      case Failure(e) => Failure(e)
      case Success(None) => Success(event)
      case Success(Some(shared)) =>
        if HasText(shared, "agent") then Success(event["agent" := shared["agent"]])
        else Success(event)
  }

  /** `toEveEvent` fails exactly when one of the two casts fails: `extendedProperties`, or
      the `shared` member inside it, is present but not an object. */
  lemma ToEveEventFails(event: Node)
    ensures ToEveEvent(event).Failure? <==>
              "extendedProperties" in event &&
              (!event["extendedProperties"].JObject? ||
               ("shared" in event["extendedProperties"].fields &&
                !event["extendedProperties"].fields["shared"].JObject?))
  {
  }

  /** `toEveEvent` sets the agent exactly from a textual shared agent, and otherwise
      changes nothing. */
  lemma ToEveEventSetsAgent(event: Node, agent: string)
    ensures SharedAgent(event, agent) ==> ToEveEvent(event) == Success(event["agent" := JString(agent)])
    ensures ToEveEvent(event).Success? && !(exists a :: SharedAgent(event, a)) ==> ToEveEvent(event) == Success(event)
  {
    if ToEveEvent(event).Success? && ToEveEvent(event) != Success(event) {
      var shared := event["extendedProperties"].fields["shared"].fields;
      assert SharedAgent(event, shared["agent"].text);
    }
  }

  /** Converting a converted event again changes nothing. */
  lemma ToEveEventIdempotent(event: Node)
    requires ToEveEvent(event).Success?
    ensures ToEveEvent(ToEveEvent(event).value) == ToEveEvent(event)
  {
    var e := ToEveEvent(event).value;
    if e != event {
      var shared := event["extendedProperties"].fields["shared"].fields;
      assert e == event["agent" := shared["agent"]];
      assert e["extendedProperties"] == event["extendedProperties"];
      assert e["agent" := shared["agent"]] == e;
    }
  }

  /** Round trip: an Eve event converted to the Google shape and back keeps its agent, and
      the conversion back changes nothing further. */
  lemma EveGoogleRoundTrip(event: Node)
    requires HasText(event, "agent") && ToGoogleEvent(event).Success?
    ensures ToEveEvent(ToGoogleEvent(event).value) == ToGoogleEvent(event)
    ensures ToGoogleEvent(event).value["agent"] == event["agent"]
  {
    var g := ToGoogleEvent(event).value;
    assert SharedAgent(g, event["agent"].text);
    ToEveEventSetsAgent(g, event["agent"].text);
    assert g["agent" := JString(event["agent"].text)] == g;
  }

  /** Round trip the other way: a Google event with a textual shared agent, converted to
      the Eve shape and back, is the converted event. */
  lemma GoogleEveRoundTrip(event: Node, agent: string)
    requires SharedAgent(event, agent)
    ensures ToEveEvent(event).Success?
    ensures ToGoogleEvent(ToEveEvent(event).value) == ToEveEvent(event)
  {
    ToEveEventSetsAgent(event, agent);
    var e := event["agent" := JString(agent)];
    var ext := e["extendedProperties"].fields;
    var shared := ext["shared"].fields;
    assert shared["agent" := JString(agent)] == shared;
    assert ext["shared" := JObject(shared)] == ext;
    assert e["extendedProperties" := JObject(ext)] == e;
  }

  // ----- tokens and headers -----

  /** Five minutes in milliseconds: the safety margin taken off a token's lifetime. */
  const SafetyMargin: int := 5 * 60 * 1000

  /** `calculateExpiresAt(expires_in)` with the current time `now` in milliseconds: no
      expiry for a null or zero lifetime, otherwise now plus the lifetime in seconds,
      less five minutes. */
  function CalculateExpiresAt(expiresIn: Option<int>, now: int): (r: Option<int>)
    ensures r.None? <==> expiresIn.None? || expiresIn.value == 0
    ensures r.Some? ==> r.value + SafetyMargin == now + expiresIn.value * 1000
  {
    if expiresIn.None? || expiresIn.value == 0 then None
    else Some(now + expiresIn.value * 1000 - SafetyMargin)
  }

  /** The tokens an Authorization object holds; `None` fields are Java nulls. */
  datatype Authorization = Authorization(accessToken: Option<string>, tokenType: Option<string>, expiresAt: Option<int>)

  /** `expires_at.isBeforeNow()` in `getAuthorization`: the token is due for a refresh. */
  predicate NeedsRefresh(auth: Option<Authorization>, now: int) {
    auth.Some? && auth.value.expiresAt.Some? && auth.value.expiresAt.value < now
  }

  /** A token issued at `issued` with a lifetime of `seconds` is refreshed from five
      minutes before that lifetime runs out, and never for a zero lifetime. */
  lemma RefreshFiveMinutesEarly(access: Option<string>, tokenType: Option<string>, seconds: int, issued: int, now: int)
    ensures var auth := Authorization(access, tokenType, CalculateExpiresAt(Some(seconds), issued));
            NeedsRefresh(Some(auth), now) <==> seconds != 0 && now - issued > seconds * 1000 - SafetyMargin
  {
  }

  /** Why `getAuthorizationHeaders` throws. */
  datatype AuthError = NoAccessToken | NoTokenType

  const AuthorizationHeader := "Authorization"

  /** `getAuthorizationHeaders()`: one header, `token_type SP access_token`; a missing
      authorization or access token throws first, then a missing token type. */
  function AuthorizationHeaders(auth: Option<Authorization>): (r: Result<map<string, string>, AuthError>)
    ensures r == Failure(NoAccessToken) <==> auth.None? || auth.value.accessToken.None?
    ensures r == Failure(NoTokenType) <==> auth.Some? && auth.value.accessToken.Some? && auth.value.tokenType.None?
    ensures r.Success? ==> r.value.Keys == {AuthorizationHeader}
  {
    if auth.None? || auth.value.accessToken.None? then Failure(NoAccessToken)
    else if auth.value.tokenType.None? then Failure(NoTokenType)
    else Success(map[AuthorizationHeader := auth.value.tokenType.value + " " + auth.value.accessToken.value])
  }

  /** The credentials of an Authorization value: the scheme up to the first space and the
      token after it. */
  function ParseCredentials(value: string): Option<(string, string)> {
    var i := IndexOf(value, ' ');
    if i == -1 then None else Some((value[..i], value[i + 1..]))
  }

  /** The header gives back its token type and access token, when the type has no space
      in it (as "Bearer" has none). */
  lemma AuthorizationHeaderRoundTrip(access: string, tokenType: string, expiresAt: Option<int>)
    requires Free(tokenType, ' ')
    ensures var r := AuthorizationHeaders(Some(Authorization(Some(access), Some(tokenType), expiresAt)));
            r.Success? && ParseCredentials(r.value[AuthorizationHeader]) == Some((tokenType, access))
  {
    var value := tokenType + " " + access;
    assert value[|tokenType|] == ' ' && value[..|tokenType|] == tokenType;
    assert IndexOf(value, ' ') == |tokenType|;
    assert value[|tokenType| + 1..] == access;
  }

  // ----- error replies -----

  /** `node.asInt()` for the kinds the service sends: an integral number cut to its low
      32 bits (as the long and big-integer nodes do), a boolean as 1 or 0, a string of
      decimal digits within the range of `int`; anything else reads as 0. */
  function AsInt(j: Json): int {
    match j
    case JNumber(n) => ToInt32(n)
    case JBool(b) => if b then 1 else 0
    case JString(s) => ParseInt(s).GetOr(0)
    case _ => 0
  }

  /** `node.asText()`: a string's text, a number's decimal form, "true" or "false",
      "null", and "" for an object or array. */
  function AsText(j: Json): string {
    match j
    case JString(s) => s
    case JNumber(n) => IntToString(n)
    case JBool(b) => if b then "true" else "false"
    case JNull => "null"
    case _ => ""
  }

  /** Only the string "cancelled" reads as the text "cancelled". */
  lemma AsTextCancelled(j: Json)
    ensures AsText(j) == "cancelled" <==> j == JString("cancelled")
  {
    if j.JNumber? {
      var s := IntToString(j.number);
      assert IsDigit(s[|s| - 1]);
      assert "cancelled"[8] == 'd';
    }
  }

  /** How a call to the service can fail: the entity is not found (JSON-RPC NOT_FOUND),
      the service reported another error (rethrown as is), a member had the wrong kind,
      a reply could not be parsed, or a non-empty reply without an error. */
  datatype CalendarError =
    | NotFound
    | ServiceError(error: Node)
    | BadJson(cause: JsonError)
    | Unparsable
    | UnexpectedReply(reply: string)

  /** The `error` member of a reply: NOT_FOUND for code 404 or 410, otherwise the error
      object itself; a member that is not an object fails the cast. */
  function ClassifyError(error: Json): (r: CalendarError)
    ensures r == NotFound <==> error.JObject? && "code" in error.fields && AsInt(error.fields["code"]) in {404, 410}
    ensures r.ServiceError? <==> error.JObject? && r != NotFound
    ensures r.ServiceError? ==> r.error == error.fields
    ensures !error.JObject? ==> r == BadJson(NotCastable("error"))
  {
    match error
    case JObject(fields) =>
      var code := if "code" in fields then Some(AsInt(fields["code"])) else None;
      if code.Some? && (code.value == 404 || code.value == 410) then NotFound
      else ServiceError(fields)
    case _ => BadJson(NotCastable("error"))
  }

  /** A numeric code is NOT_FOUND exactly when its low 32 bits read 404 or 410, so a
      code of 2^32 + 404 is NOT_FOUND as well. */
  lemma NumericCodeWraps(n: int)
    ensures ClassifyError(JObject(map["code" := JNumber(n)])) == NotFound
            <==> n % 0x1_0000_0000 == 404 || n % 0x1_0000_0000 == 410
  {
    var r := ToInt32(n);
    assert (n - r) % 0x1_0000_0000 == 0 && IntMin <= r <= IntMax;
    assert n % 0x1_0000_0000 == r % 0x1_0000_0000;
  }

  /** What `getEvent` makes of the parsed reply: convert it to the Eve shape, then fail
      on an `error` member or a cancelled status, else return the event. */
  function GetEvent(reply: Node): (r: Result<Node, CalendarError>)
    ensures r.Success? ==> "error" !in r.value && !("status" in r.value && r.value["status"] == JString("cancelled"))
    ensures r.Success? ==> ToEveEvent(reply) == Success(r.value)
    ensures r == Failure(NotFound) <==>
              ToEveEvent(reply).Success? &&
              (var e := ToEveEvent(reply).value;
               if "error" in e then ClassifyError(e["error"]) == NotFound
               else "status" in e && e["status"] == JString("cancelled"))
    ensures ToEveEvent(reply).Failure? ==> r == Failure(BadJson(ToEveEvent(reply).error))
    ensures ToEveEvent(reply).Success? && "error" in ToEveEvent(reply).value ==>
              r == Failure(ClassifyError(ToEveEvent(reply).value["error"]))
    ensures r.Success? <==>
              ToEveEvent(reply).Success? && "error" !in ToEveEvent(reply).value &&
              !("status" in ToEveEvent(reply).value && ToEveEvent(reply).value["status"] == JString("cancelled"))
  {
    match ToEveEvent(reply)
    case Failure(e) => Failure(BadJson(e))
    case Success(event) =>
      if "error" in event then Failure(ClassifyError(event["error"]))
      else if "status" in event && AsText(event["status"]) == "cancelled" then
        AsTextCancelled(event["status"]);
        Failure(NotFound)
      else
        AsTextCancelled(if "status" in event then event["status"] else JNull);
        Success(event)
  }

  /** What `deleteEvent` makes of the raw reply, with `parse` standing for the JSON parser
      (`None` when it throws): an empty reply is success, anything else fails. */
  function DeleteEvent(reply: string, parse: string -> Option<Node>): (r: Result<(), CalendarError>)
    ensures r.Success? <==> reply == ""
    ensures reply != "" && parse(reply).Some? && "error" in parse(reply).value ==>
              r == Failure(ClassifyError(parse(reply).value["error"]))
    ensures reply != "" && parse(reply).Some? && "error" !in parse(reply).value ==>
              r == Failure(UnexpectedReply(reply))
    ensures reply != "" && parse(reply).None? ==> r == Failure(Unparsable)
  {
    if reply == "" then Success(())
    else
      match parse(reply)
      case None => Failure(Unparsable)
      case Some(node) =>
        if "error" in node then Failure(ClassifyError(node["error"]))
        else Failure(UnexpectedReply(reply))
  }
}
