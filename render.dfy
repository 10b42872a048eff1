/** The choice `print_body` makes between pretty-printing a response body as
    JSON and printing it as it came. The pretty-printer itself and the
    printing are outside the model: the decision records which of the two
    happens and to which text. */
module Render {
  import opened Wrappers

  /** A parsed media type: type, subtype and parameters, compared as a whole
      (as `Mime` values are compared), so `application/json; charset=utf-8`
      is a different value from `application/json`. */
  datatype Mime = Mime(top: string, sub: string, params: seq<(string, string)>)

  /** `mime::APPLICATION_JSON`: `application/json` with no parameters. */
  const ApplicationJson: Mime := Mime("application", "json", [])

  /** What is printed for the body. */
  datatype BodyOutput =
    | PrettyJson(source: string)  // the body handed to the JSON pretty-printer
    | Verbatim(text: string)      // the body printed unchanged

  /** `print_body`: a content type equal to `application/json` selects the
      pretty-printer, every other content type and a missing one select the
      body as it is. */
  function PrintBody(m: Option<Mime>, body: string): (out: BodyOutput)
    ensures out.PrettyJson? <==> m == Some(ApplicationJson)
    ensures out.PrettyJson? ==> out.source == body
    ensures out.Verbatim? ==> out.text == body
  {
    match m
    case Some(v) =>
      if v == ApplicationJson then PrettyJson(body) else Verbatim(body)
    case None => Verbatim(body)
  }

  /** A media type with parameters is never pretty-printed, even a JSON one. */
  lemma ParametersSelectVerbatim(m: Mime, body: string)
    requires m.params != []
    ensures PrintBody(Some(m), body) == Verbatim(body)
  {
  }

  /** A plain-text body and a missing content type give the body unchanged;
      a bare JSON content type gives the pretty-printer the body. */
  lemma ExampleOutputs()
    ensures PrintBody(Some(Mime("text", "plain", [])), "hello") == Verbatim("hello")
    ensures PrintBody(None, "hello") == Verbatim("hello")
    ensures PrintBody(Some(Mime("application", "json", [("charset", "utf-8")])), "{}") == Verbatim("{}")
    ensures PrintBody(Some(ApplicationJson), "{\"a\":1}") == PrettyJson("{\"a\":1}")
  {
    assert Mime("text", "plain", []) != ApplicationJson by {
      assert "text"[0] != "application"[0];
    }
  }
}
