/** The closed set of HTTP verbs the server understands, and their strict parser (src/http/method.rs). */
module HttpMethod {
  import opened Wrappers

  datatype Method = DELETE | GET | HEAD | POST | PUT

  /** The one request-line token each verb is parsed from. */
  function Token(m: Method): string
  {
    match m
    case DELETE => "DELETE"
    case GET => "GET"
    case HEAD => "HEAD"
    case POST => "POST"
    case PUT => "PUT"
  }

  /**
   * `Method::from_str`: an exact, case-sensitive match against the five
   * tokens; anything else fails with the message "Error".
   */
  function FromStr(s: string): (r: Result<Method, string>)
    ensures r.Ok? ==> Token(r.value) == s
    ensures r.Err? ==> r.error == "Error" && forall m: Method :: Token(m) != s
  {
    match s
    case "GET" => Ok(GET)
    case "DELETE" => Ok(DELETE)
    case "POST" => Ok(POST)
    case "PUT" => Ok(PUT)
    case "HEAD" => Ok(HEAD)
    case _ => Err("Error")
  }

  /** Every verb is parsed from its token: the parser covers the whole enumeration. */
  lemma FromStrToken(m: Method)
    ensures FromStr(Token(m)) == Ok(m)
  {
  }

  /** Distinct tokens parse to distinct verbs, and each verb has exactly one accepted spelling. */
  lemma FromStrInjective(s: string, t: string)
    requires FromStr(s).Ok? && FromStr(t).Ok?
    ensures FromStr(s) == FromStr(t) <==> s == t
  {
  }

  /** No case folding and no trimming: lower-case and padded verbs are refused. */
  lemma FromStrExact()
    ensures FromStr("get").Err? && FromStr(" GET").Err? && FromStr("GET ").Err?
    ensures FromStr("Post").Err? && FromStr("").Err?
  {
  }
}
