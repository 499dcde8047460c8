/**
 * The request-line parser on the buffers of its own unit tests
 * (src/http/request.rs, the `tests` module). Each outcome is derived from
 * the general lemmas of HttpRequest: the line is shown to split into its
 * three words, and the parse of a split line is known.
 */
module RequestExamples {
  import opened Wrappers
  import opened Text
  import opened Utf8
  import opened HttpMethod
  import opened Query
  import opened HttpRequest

  const GoodLine := "GET /home?name=Batman HTTP/1.1\r"
  const BadProtocolLine := "POST ?name=Batman HTTP/3.1\r"
  const BadMethodLine := "WRONG ?name=Batman HTTP/1.1\r"
  const PlainLine := "GET /home HTTP/1.1\r"
  const RootLine := "GET / HTTP/1.1\r"

  /** An ASCII byte-string literal parses as its text. */
  lemma ParseAscii(text: string)
    requires IsAscii(text)
    ensures Parse(AsciiBytes(text)) == ParseText(text)
  {
    ParseEncoded(text);
  }

  // ---------------------------------------------------------------------------
  // request_should_be_created_from_buffer

  lemma GoodLineWords()
    ensures GoodLine == "GET" + [' '] + "/home?name=Batman" + [' '] + "HTTP/1.1" + ['\r'] + ""
  {
  }

  lemma GoodLineSplits()
    ensures SplitsAs(GoodLine, "GET", "/home?name=Batman", "HTTP/1.1", "")
  {
    GoodLineWords();
    SplitsAsOf("GET", ' ', "/home?name=Batman", ' ', "HTTP/1.1", '\r', "");
  }

  lemma BatmanPieces()
    ensures Split("name=Batman", '&') == ["name=Batman"]
  {
    assert '&' !in "name=Batman";
    SplitNone("name=Batman", '&');
  }

  lemma BatmanKeyValue()
    ensures KeyValue("name=Batman") == ("name", "Batman")
  {
    assert "name=Batman" == "name" + "=" + "Batman";
    KeyValueOf("name=Batman", "name", "Batman");
  }

  lemma BatmanPairs()
    ensures Pairs(["name=Batman"]) == [("name", "Batman")]
  {
    BatmanKeyValue();
  }

  lemma BatmanCollect()
    ensures Collect([("name", "Batman")]).Keys == {"name"}
    ensures Collect([("name", "Batman")])["name"] == Single("Batman")
  {
    var pairs := [("name", "Batman")];
    assert Keys(pairs) == {"name"} by {
      assert pairs[0].0 == "name";
    }
    assert ValuesOf(pairs, "name") == ["Batman"] by {
      assert pairs[1..] == [];
    }
  }

  lemma BatmanQuery()
    ensures QueryOf("name=Batman").data.Keys == {"name"}
    ensures QueryOf("name=Batman").data["name"] == Single("Batman")
  {
    BatmanPieces();
    BatmanPairs();
    BatmanCollect();
  }

  lemma BatmanTarget()
    ensures RequestOf("/home?name=Batman", GET).path == "/home"
    ensures RequestOf("/home?name=Batman", GET).queryString == Some(QueryOf("name=Batman"))
  {
    assert "/home?name=Batman" == "/home" + ['?'] + "name=Batman";
    FindAfter("/home", '?', "name=Batman");
    assert "/home?name=Batman"[..5] == "/home" && "/home?name=Batman"[6..] == "name=Batman";
  }

  lemma GoodLineParses()
    ensures ParseText(GoodLine) == Ok(RequestOf("/home?name=Batman", GET))
  {
    GoodLineSplits();
    ParseIsCheckLine(GoodLine, "GET", "/home?name=Batman", "HTTP/1.1", "");
  }

  lemma GoodLineAscii()
    ensures IsAscii(GoodLine)
  {
  }

  /**
   * The buffer b"GET /home?name=Batman HTTP/1.1\r" gives path "/home", verb
   * GET, and a query string whose only key "name" holds Single("Batman").
   */
  lemma CreatedFromBuffer()
    ensures IsAscii(GoodLine)
    ensures var r := Parse(AsciiBytes(GoodLine));
      && r.Ok? && r.value.path == "/home" && r.value.verb == GET
      && r.value.queryString.Some?
      && r.value.queryString.value.data.Keys == {"name"}
      && r.value.queryString.value.data["name"] == Single("Batman")
  {
    GoodLineAscii();
    ParseAscii(GoodLine);
    GoodLineParses();
    BatmanTarget();
    BatmanQuery();
  }

  // ---------------------------------------------------------------------------
  // request_should_raise_error_when_parse_of_method_failed

  lemma OneWordParses()
    ensures ParseText("WRONG") == Err(InvalidRequest)
  {
    NoDelimiterCount("WRONG");
    InvalidRequestIff("WRONG");
  }

  lemma OneWordAscii()
    ensures IsAscii("WRONG")
  {
  }

  /** The buffer b"WRONG" has no separator: "Invalid Request". */
  lemma OneWord()
    ensures IsAscii("WRONG")
    ensures Parse(AsciiBytes("WRONG")) == Err(InvalidRequest)
    ensures Message(InvalidRequest) == "Invalid Request"
  {
    assert Message(InvalidRequest) == "Invalid Request";
    OneWordAscii();
    ParseAscii("WRONG");
    OneWordParses();
  }

  // ---------------------------------------------------------------------------
  // request_should_raise_error_when_parse_of_path_failed

  lemma TwoWordsCount()
    ensures DelimiterCount("GET / ") == 2
  {
    assert "GET / " == "GET" + " " + "/" + " ";
    NoDelimiterCount("GET");
    NoDelimiterCount("/");
    DelimiterCountConcat("GET", " ");
    DelimiterCountConcat("GET" + " ", "/");
    DelimiterCountConcat("GET" + " " + "/", " ");
  }

  lemma TwoWordsParses()
    ensures ParseText("GET / ") == Err(InvalidRequest)
  {
    TwoWordsCount();
    InvalidRequestIff("GET / ");
  }

  lemma TwoWordsAscii()
    ensures IsAscii("GET / ")
  {
  }

  /** The buffer b"GET / " has only two separators: "Invalid Request". */
  lemma TwoWords()
    ensures IsAscii("GET / ")
    ensures Parse(AsciiBytes("GET / ")) == Err(InvalidRequest)
    ensures Message(InvalidRequest) == "Invalid Request"
  {
    assert Message(InvalidRequest) == "Invalid Request";
    TwoWordsAscii();
    ParseAscii("GET / ");
    TwoWordsParses();
  }

  // ---------------------------------------------------------------------------
  // request_should_raise_error_when_received_unsupported_protocol

  lemma BadProtocolLineWords()
    ensures BadProtocolLine == "POST" + [' '] + "?name=Batman" + [' '] + "HTTP/3.1" + ['\r'] + ""
  {
  }

  lemma BadProtocolLineSplits()
    ensures SplitsAs(BadProtocolLine, "POST", "?name=Batman", "HTTP/3.1", "")
  {
    BadProtocolLineWords();
    SplitsAsOf("POST", ' ', "?name=Batman", ' ', "HTTP/3.1", '\r', "");
  }

  lemma BadProtocolLineParses()
    ensures ParseText(BadProtocolLine) == Err(InvalidProtocol)
  {
    BadProtocolLineSplits();
    ParseIsCheckLine(BadProtocolLine, "POST", "?name=Batman", "HTTP/3.1", "");
  }

  lemma BadProtocolLineAscii()
    ensures IsAscii(BadProtocolLine)
  {
  }

  /** The buffer b"POST ?name=Batman HTTP/3.1\r" names another protocol: "Invalid Protocol". */
  lemma UnsupportedProtocol()
    ensures IsAscii(BadProtocolLine)
    ensures Parse(AsciiBytes(BadProtocolLine)) == Err(InvalidProtocol)
    ensures Message(InvalidProtocol) == "Invalid Protocol"
  {
    assert Message(InvalidProtocol) == "Invalid Protocol";
    BadProtocolLineAscii();
    ParseAscii(BadProtocolLine);
    BadProtocolLineParses();
  }

  // ---------------------------------------------------------------------------
  // request_should_raise_error_when_parse_method_failed

  lemma BadMethodLineWords()
    ensures BadMethodLine == "WRONG" + [' '] + "?name=Batman" + [' '] + "HTTP/1.1" + ['\r'] + ""
  {
  }

  lemma BadMethodLineSplits()
    ensures SplitsAs(BadMethodLine, "WRONG", "?name=Batman", "HTTP/1.1", "")
  {
    BadMethodLineWords();
    SplitsAsOf("WRONG", ' ', "?name=Batman", ' ', "HTTP/1.1", '\r', "");
  }

  lemma WrongIsNoVerb()
    ensures FromStr("WRONG") == Err("Error")
  {
  }

  lemma BadMethodLineParses()
    ensures ParseText(BadMethodLine) == Err(InvalidMethod)
  {
    BadMethodLineSplits();
    ParseIsCheckLine(BadMethodLine, "WRONG", "?name=Batman", "HTTP/1.1", "");
    WrongIsNoVerb();
  }

  lemma BadMethodLineAscii()
    ensures IsAscii(BadMethodLine)
  {
  }

  /** The buffer b"WRONG ?name=Batman HTTP/1.1\r" has an unknown verb: "Invalid Method". */
  lemma UnknownMethod()
    ensures IsAscii(BadMethodLine)
    ensures Parse(AsciiBytes(BadMethodLine)) == Err(InvalidMethod)
    ensures Message(InvalidMethod) == "Invalid Method"
  {
    assert Message(InvalidMethod) == "Invalid Method";
    BadMethodLineAscii();
    ParseAscii(BadMethodLine);
    BadMethodLineParses();
  }

  // ---------------------------------------------------------------------------
  // Targets without `?`

  lemma PlainLineWords()
    ensures PlainLine == "GET" + [' '] + "/home" + [' '] + "HTTP/1.1" + ['\r'] + ""
  {
  }

  lemma PlainLineSplits()
    ensures SplitsAs(PlainLine, "GET", "/home", "HTTP/1.1", "")
  {
    PlainLineWords();
    SplitsAsOf("GET", ' ', "/home", ' ', "HTTP/1.1", '\r', "");
  }

  lemma PlainTarget()
    ensures RequestOf("/home", GET) == Request("", None, GET)
  {
    assert '?' !in "/home";
  }

  /** "GET /home HTTP/1.1\r": without a `?` the path stays empty and there is no query string. */
  lemma PlainLineParses()
    ensures ParseText(PlainLine) == Ok(Request("", None, GET))
  {
    PlainLineSplits();
    ParseIsCheckLine(PlainLine, "GET", "/home", "HTTP/1.1", "");
    PlainTarget();
  }

  lemma RootLineWords()
    ensures RootLine == "GET" + [' '] + "/" + [' '] + "HTTP/1.1" + ['\r'] + ""
  {
  }

  lemma RootLineSplits()
    ensures SplitsAs(RootLine, "GET", "/", "HTTP/1.1", "")
  {
    RootLineWords();
    SplitsAsOf("GET", ' ', "/", ' ', "HTTP/1.1", '\r', "");
  }

  /**
   * "GET / HTTP/1.1\r", as written, gives the empty path rather than "/", the
   * one path the website handler serves a page for; the intended definition
   * gives "/".
   */
  lemma RootPathIsEmpty()
    ensures ParseText(RootLine) == Ok(Request("", None, GET))
    ensures IntendedRequestOf("/", GET) == Request("/", None, GET)
  {
    RootLineSplits();
    ParseIsCheckLine(RootLine, "GET", "/", "HTTP/1.1", "");
    assert '?' !in "/";
  }

  /**
   * As written, the path "/" is reached only through a target with a `?`:
   * "/?" gives the path "/" and the query string of the empty text.
   */
  lemma RootWithQuery()
    ensures RequestOf("/?", GET) == Request("/", Some(QueryOf("")), GET)
  {
    assert "/?" == "/" + ['?'] + "";
    FindAfter("/", '?', "");
    assert "/?"[..1] == "/" && "/?"[2..] == "";
  }
}
