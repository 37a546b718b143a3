/**
 * The protected translation route of backend/server.js: the two provider
 * adapters (`translateLibre`, `translateGoogle`) reduced to what they make of
 * a provider's answer, the ordered fallback over the LibreTranslate servers
 * and the Google backup, and the bearer-token gate in front of it.
 * A provider call is not executed: its answer is an input of the model, and
 * `consulted` counts the calls the route would make.
 */
module TranslationFallback {
  import opened Wrappers
  import opened JsStrings
  import opened AuthGate

  const LibreServers: seq<string> :=
    ["https://translate.argosopentech.com/translate", "https://libretranslate.de/translate"]

  const GoogleApi := "Google Fallback"
  const ExhaustedApi := "all-blocked"
  const UnavailableSuffix := " (Translation service unavailable)"
  const MissingTextError := "Missing text"

  /** `data.translatedText || null`: `translatedText` is the field as received,
      `None` when the call failed, the body was not JSON or the field is absent. */
  function LibreOutput(translatedText: Option<string>): (r: Option<string>)
    ensures r.Some? <==> translatedText.Some? && translatedText.value != []
    ensures r.Some? ==> r == translatedText
  {
    match translatedText
    case Some(t) => if t == [] then None else Some(t)
    case None => None
  }

  /** `x[0]` of one segment; an empty segment yields `undefined`, which `join` renders as "". */
  function SegmentText(segment: seq<string>): string {
    if segment == [] then [] else segment[0]
  }

  function SegmentTexts(segments: seq<seq<string>>): (r: seq<string>)
    ensures |r| == |segments|
    ensures forall i :: 0 <= i < |segments| ==> r[i] == SegmentText(segments[i])
  {
    if segments == [] then [] else [SegmentText(segments[0])] + SegmentTexts(segments[1..])
  }

  /** `data[0].map((x) => x[0]).join("")` */
  function GoogleText(segments: seq<seq<string>>): string {
    Join(SegmentTexts(segments), "")
  }

  /** The Google text is the in-order concatenation of the segments' texts:
      splitting the segment list anywhere splits the text at the same place. */
  lemma GoogleTextAppend(a: seq<seq<string>>, b: seq<seq<string>>)
    ensures GoogleText(a + b) == GoogleText(a) + GoogleText(b)
  {
    SegmentTextsAppend(a, b);
    JoinEmptyAppend(SegmentTexts(a), SegmentTexts(b));
  }

  lemma {:induction false} SegmentTextsAppend(a: seq<seq<string>>, b: seq<seq<string>>)
    ensures SegmentTexts(a + b) == SegmentTexts(a) + SegmentTexts(b)
  {
    if a == [] {
      assert a + b == b;
    } else {
      assert (a + b)[0] == a[0];
      assert (a + b)[1..] == a[1..] + b;
      SegmentTextsAppend(a[1..], b);
    }
  }

  /** One segment contributes its first string and nothing else. */
  lemma GoogleTextSingle(first: string, rest: seq<string>)
    ensures GoogleText([[first] + rest]) == first
  {
  }

  /** `translateGoogle`: `data` is `data[0]` of the answer, `None` when the
      call or the JSON decoding failed. */
  function GoogleOutput(data: Option<seq<seq<string>>>): Option<string> {
    match data
    case Some(segments) => Some(GoogleText(segments))
    case None => None
  }

  /** `out && out !== text`: a provider's output is taken only when it is
      non-empty and differs from the input. */
  predicate Accepted(text: string, out: Option<string>) {
    out.Some? && out.value != [] && out.value != text
  }

  /** Index of the first LibreTranslate answer that is accepted. */
  function FirstAccepted(text: string, libre: seq<Option<string>>): (r: Option<nat>)
    ensures r.Some? ==> r.value < |libre| && Accepted(text, LibreOutput(libre[r.value]))
    ensures r.Some? ==> forall j :: 0 <= j < r.value ==> !Accepted(text, LibreOutput(libre[j]))
    ensures r.None? ==> forall j :: 0 <= j < |libre| ==> !Accepted(text, LibreOutput(libre[j]))
  {
    if libre == [] then None
    else if Accepted(text, LibreOutput(libre[0])) then Some(0)
    else match FirstAccepted(text, libre[1..])
      case None => None
      case Some(i) => Some(i + 1)
  }

  /** The route's JSON answer: `{error}` for a missing text, else
      `{translated, api, success}`. */
  datatype Response = MissingText | Translated(translated: string, api: string, success: bool)

  /** The answer the route gives, for the answers the providers give. */
  function Fallback(text: string, servers: seq<string>, libre: seq<Option<string>>, google: Option<seq<seq<string>>>)
    : Response
    requires |libre| == |servers|
  {
    if text == [] then MissingText
    else match FirstAccepted(text, libre)
      case Some(i) => Translated(libre[i].value, servers[i], true)
      case None =>
        if Accepted(text, GoogleOutput(google)) then Translated(GoogleOutput(google).value, GoogleApi, true)
        else Translated(text + UnavailableSuffix, ExhaustedApi, false)
  }

  /** How many providers the route calls: none for a missing text, the
      servers up to the first accepted one, or all of them and Google. */
  function Consulted(text: string, libre: seq<Option<string>>): nat {
    if text == [] then 0
    else match FirstAccepted(text, libre)
      case Some(i) => i + 1
      case None => |libre| + 1
  }

  /** The first server (in list order) with an accepted answer wins, and is named as `api`. */
  lemma FallbackPicksFirstServer(text: string, servers: seq<string>, libre: seq<Option<string>>,
                                 google: Option<seq<seq<string>>>, i: nat)
    requires |libre| == |servers| && text != []
    requires i < |libre| && Accepted(text, LibreOutput(libre[i]))
    requires forall j :: 0 <= j < i ==> !Accepted(text, LibreOutput(libre[j]))
    ensures Fallback(text, servers, libre, google) == Translated(libre[i].value, servers[i], true)
    ensures Consulted(text, libre) == i + 1
  {
  }

  /** When no server is accepted, an accepted Google text wins. */
  lemma FallbackUsesGoogle(text: string, servers: seq<string>, libre: seq<Option<string>>,
                           google: Option<seq<seq<string>>>)
    requires |libre| == |servers| && text != []
    requires forall j :: 0 <= j < |libre| ==> !Accepted(text, LibreOutput(libre[j]))
    requires Accepted(text, GoogleOutput(google))
    ensures Fallback(text, servers, libre, google) == Translated(GoogleText(google.value), GoogleApi, true)
    ensures Consulted(text, libre) == |libre| + 1
  {
  }

  /** When nothing is accepted the answer is the degraded one. */
  lemma FallbackExhausted(text: string, servers: seq<string>, libre: seq<Option<string>>,
                          google: Option<seq<seq<string>>>)
    requires |libre| == |servers| && text != []
    requires forall j :: 0 <= j < |libre| ==> !Accepted(text, LibreOutput(libre[j]))
    requires !Accepted(text, GoogleOutput(google))
    ensures Fallback(text, servers, libre, google) == Translated(text + UnavailableSuffix, ExhaustedApi, false)
  {
  }

  /** A successful answer is never empty and never the echoed input; an
      unsuccessful one is the input marked as unavailable, hence never empty. */
  lemma FallbackNeverEchoes(text: string, servers: seq<string>, libre: seq<Option<string>>,
                            google: Option<seq<seq<string>>>)
    requires |libre| == |servers|
    ensures var r := Fallback(text, servers, libre, google);
      && (r == MissingText <==> text == [])
      && (r.Translated? && r.success ==> r.translated != [] && r.translated != text)
      && (r.Translated? && !r.success ==> r.translated == text + UnavailableSuffix && r.api == ExhaustedApi)
  {
  }

  /** Two servers answer nothing and Google answers "Bonjour": Google's text is returned. */
  lemma FallbackExample()
    ensures Fallback("Hello", LibreServers, [None, None], Some([["Bonjour", "Hello"]]))
         == Translated("Bonjour", GoogleApi, true)
  {
    GoogleTextSingle("Bonjour", ["Hello"]);
  }

  /** The loop of the route: try each server in order, return on the first
      accepted answer, then try Google, then answer degraded. */
  method TranslateText(text: string, servers: seq<string>, libre: seq<Option<string>>,
                       google: Option<seq<seq<string>>>)
    returns (response: Response, consulted: nat)
    requires |libre| == |servers|
    ensures response == Fallback(text, servers, libre, google)
    ensures consulted == Consulted(text, libre)
  {
    if text == [] {
      return MissingText, 0;
    }
    consulted := 0;
    var i := 0;
    while i < |servers|
      invariant 0 <= i <= |servers| && consulted == i
      invariant forall j :: 0 <= j < i ==> !Accepted(text, LibreOutput(libre[j]))
    {
      var out := LibreOutput(libre[i]);
      consulted := consulted + 1;
      if out.Some? && out.value != [] && out.value != text {
        return Translated(out.value, servers[i], true), consulted;
      }
      i := i + 1;
    }
    var g := GoogleOutput(google);
    consulted := consulted + 1;
    if g.Some? && g.value != [] && g.value != text {
      return Translated(g.value, GoogleApi, true), consulted;
    }
    response := Translated(text + UnavailableSuffix, ExhaustedApi, false);
  }

  /** What `POST /api/translate` sends back: a 401 rejection from the gate, or
      the route's answer. */
  datatype Reply = Unauthorized(status: int, error: string) | Answered(response: Response)

  /** The route with its gate: the token is checked before any provider is called. */
  method HandleTranslate(header: string, verify: string -> Option<Claims>, text: string,
                         libre: seq<Option<string>>, google: Option<seq<seq<string>>>)
    returns (reply: Reply, consulted: nat)
    requires |libre| == |LibreServers|
    ensures Authorize(header, verify).Failure?
      ==> reply == Unauthorized(UnauthorizedStatus, AuthErrorMessage(Authorize(header, verify).error))
          && consulted == 0
    ensures Authorize(header, verify).Success?
      ==> reply == Answered(Fallback(text, LibreServers, libre, google)) && consulted == Consulted(text, libre)
  {
    var auth := Authorize(header, verify);
    if auth.Failure? {
      return Unauthorized(UnauthorizedStatus, AuthErrorMessage(auth.error)), 0;
    }
    var response;
    response, consulted := TranslateText(text, LibreServers, libre, google);
    reply := Answered(response);
  }
}
