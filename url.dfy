/** `parse_url`: the clap value parser for the URL argument. The URL parser
    of the HTTP library is not part of this model; it is the parameter
    `parse`, any function from text to a parsed URL or an error. */
module Urls {
  import opened Wrappers

  /** The text is accepted unchanged when `parse` accepts it; otherwise the
      parser's own error is passed on. */
  function ParseUrl<U, E>(parse: string -> Result<U, E>, s: string): (r: Result<string, E>)
    ensures r.Ok? <==> parse(s).Ok?
    ensures r.Ok? ==> r.value == s
    ensures r.Err? ==> r.error == parse(s).error
  {
    var _ :- parse(s);
    Ok(s)
  }
}
