/**
 * The request-line parser (src/http/request.rs): a received buffer is
 * decoded as UTF-8, cut into three words at spaces or carriage returns, the
 * third word is checked against "HTTP/1.1", the first is parsed as a verb,
 * and the second is split at its first `?` into a path and a query string.
 */
module HttpRequest {
  import opened Wrappers
  import opened Text
  import opened Utf8
  import opened HttpMethod
  import opened Query

  /** The ways parsing a request can fail. */
  datatype ParseError = InvalidRequest | InvalidEncoding | InvalidProtocol | InvalidMethod

  /**
   * A parsed request. `queryString` is present exactly when the target had a
   * `?`; the fields are what the accessors `path`, `query_string` and
   * `method` return (the last as `verb`, `method` being a keyword here).
   */
  datatype Request = Request(path: string, queryString: Option<QueryString>, verb: Method)

  /** The fixed human-readable message of each error. */
  function Message(e: ParseError): string
  {
    match e
    case InvalidRequest => "Invalid Request"
    case InvalidEncoding => "Invalid Encoding"
    case InvalidProtocol => "Invalid Protocol"
    case InvalidMethod => "Invalid Method"
  }

  /** The four messages are pairwise distinct, so a message identifies its error. */
  lemma MessageInjective(e1: ParseError, e2: ParseError)
    ensures Message(e1) == Message(e2) <==> e1 == e2
  {
    if e1 != e2 {
      var m1, m2 := Message(e1), Message(e2);
      assert |m1| != |m2| || m1[8] != m2[8];
    }
  }

  /** `From<Utf8Error>`: a buffer that is not UTF-8 is an encoding error. */
  function FromUtf8Error(e: Utf8Error): (r: ParseError)
    ensures Message(r) == "Invalid Encoding"
  {
    InvalidEncoding
  }

  /** `From<String>`: the verb parser's error is a method error. */
  function FromMethodError(e: string): (r: ParseError)
    ensures Message(r) == "Invalid Method"
  {
    InvalidMethod
  }

  // ---------------------------------------------------------------------------
  // Splitting the request line into words

  /** The tokenizer's two separators: space and carriage return. */
  predicate IsDelimiter(c: char)
  {
    c == ' ' || c == '\r'
  }

  /** A text with no separator in it. */
  predicate NoDelimiter(s: string)
  {
    forall k :: 0 <= k < |s| ==> !IsDelimiter(s[k])
  }

  /** Position of the first separator in `s` (counted in characters). */
  function FirstDelimiter(s: string): (r: Option<nat>)
    ensures r.None? <==> NoDelimiter(s)
    ensures r.Some? ==> r.value < |s| && IsDelimiter(s[r.value]) && NoDelimiter(s[..r.value])
  {
    if s == [] then None
    else if IsDelimiter(s[0]) then Some(0)
    else match FirstDelimiter(s[1..])
      case None => None
      case Some(i) =>
        assert s[..i + 1] == [s[0]] + s[1..][..i];
        Some(i + 1)
  }

  /**
   * The word before the first separator and the text after it, or None when
   * `s` has no separator.
   */
  function NextWord(s: string): Option<(string, string)>
  {
    match FirstDelimiter(s)
    case None => None
    case Some(i) => Some((s[..i], s[i + 1..]))
  }

  /**
   * A word is taken exactly when the text has a separator; the word has no
   * separator in it, and the text is the word, the first separator (which of
   * the two it was is forgotten) and the rest.
   */
  lemma NextWordSplits(s: string)
    ensures NextWord(s).None? <==> NoDelimiter(s)
    ensures NextWord(s).Some? ==> var (word, rest) := NextWord(s).value;
      && NoDelimiter(word)
      && |word| < |s| && IsDelimiter(s[|word|])
      && s == word + [s[|word|]] + rest
  {
    if FirstDelimiter(s).Some? {
      var i := FirstDelimiter(s).value;
      assert s == s[..i] + [s[i]] + s[i + 1..];
    }
  }

  /** The word is determined by the text: it ends at the first separator, wherever that is. */
  lemma NextWordAt(s: string, i: nat)
    requires i < |s| && IsDelimiter(s[i]) && NoDelimiter(s[..i])
    ensures NextWord(s) == Some((s[..i], s[i + 1..]))
  {
  }

  /**
   * `get_next_word`: scan for the first space or carriage return and return
   * the text before it and the text after it; None when there is none.
   */
  method GetNextWord(request: string) returns (r: Option<(string, string)>)
    ensures r == NextWord(request)
  {
    var i := 0;
    while i < |request|
      invariant i <= |request|
      invariant NoDelimiter(request[..i])
    {
      var mark := request[i];
      if mark == ' ' || mark == '\r' {
        return Some((request[..i], request[i + 1..]));
      }
      assert request[..i + 1] == request[..i] + [mark];
      i := i + 1;
    }
    assert request[..i] == request;
    return None;
  }

  /** How many separators `s` contains. */
  function DelimiterCount(s: string): nat
  {
    if s == [] then 0 else (if IsDelimiter(s[0]) then 1 else 0) + DelimiterCount(s[1..])
  }

  /** Taking a word consumes exactly one separator. */
  lemma {:induction false} DelimiterCountNextWord(s: string)
    ensures NextWord(s).None? ==> DelimiterCount(s) == 0
    ensures NextWord(s).Some? ==> DelimiterCount(s) == 1 + DelimiterCount(NextWord(s).value.1)
  {
    NextWordSplits(s);
    if NextWord(s).None? {
      NoDelimiterCount(s);
    } else {
      var (word, rest) := NextWord(s).value;
      NoDelimiterCount(word);
      var tail := [s[|word|]] + rest;
      assert s == word + tail && tail[0] == s[|word|] && tail[1..] == rest;
      DelimiterCountConcat(word, tail);
    }
  }

  lemma {:induction false} NoDelimiterCount(s: string)
    requires NoDelimiter(s)
    ensures DelimiterCount(s) == 0
  {
    if s != [] {
      NoDelimiterCount(s[1..]);
    }
  }

  lemma {:induction false} DelimiterCountConcat(a: string, b: string)
    ensures DelimiterCount(a + b) == DelimiterCount(a) + DelimiterCount(b)
  {
    if a == [] {
      assert a + b == b;
    } else {
      assert (a + b)[0] == a[0] && (a + b)[1..] == a[1..] + b;
      DelimiterCountConcat(a[1..], b);
    }
  }

  // ---------------------------------------------------------------------------
  // The request

  /**
   * `text` is the verb word, a separator, the target word, a separator,
   * the protocol word, a separator, and `rest`: the three words are the
   * slices of `text` between its first three separators.
   */
  predicate SplitsAs(text: string, verb: string, target: string, protocol: string, rest: string)
  {
    var i := |verb|;
    var j := i + 1 + |target|;
    var k := j + 1 + |protocol|;
    && NoDelimiter(verb) && NoDelimiter(target) && NoDelimiter(protocol)
    && k < |text| && IsDelimiter(text[i]) && IsDelimiter(text[j]) && IsDelimiter(text[k])
    && text[..i] == verb && text[i + 1..j] == target && text[j + 1..k] == protocol && text[k + 1..] == rest
  }

  /**
   * How a target's path and query relate to it: with a `?`, the path is the
   * text before the first `?` and the query is parsed from the text after it;
   * without one, the path is left empty and there is no query.
   */
  predicate TargetParts(target: string, path: string, query: Option<QueryString>)
  {
    if '?' in target then
      && |path| < |target| && '?' !in path
      && target[..|path|] == path && target[|path|] == '?'
      && query == Some(QueryOf(target[|path| + 1..]))
    else
      path == "" && query == None
  }

  /**
   * The request for a target and a parsed verb: with a `?`, the path is the
   * text before the first `?` and the query string is parsed from the text
   * after it; without one, the path stays empty and there is no query.
   */
  function RequestOf(target: string, verb: Method): (r: Request)
    ensures r.verb == verb && TargetParts(target, r.path, r.queryString)
  {
    match Find(target, '?')
    case None => Request("", None, verb)
    case Some(i) =>
      assert target[..|target[..i]|] == target[..i];
      Request(target[..i], Some(QueryOf(target[i + 1..])), verb)
  }

  /**
   * The evidently intended request for a target: as RequestOf when there is
   * a `?`, and the whole target as the path when there is none.
   */
  function IntendedRequestOf(target: string, verb: Method): (r: Request)
    ensures r.verb == verb
    ensures '?' !in target ==> r.path == target && r.queryString == None
    ensures '?' in target ==> r == RequestOf(target, verb)
  {
    match Find(target, '?')
    case None => Request(target, None, verb)
    case Some(_) => RequestOf(target, verb)
  }

  /**
   * The checks made once three words have been taken: the protocol first,
   * then the verb. These are the only errors they can report.
   */
  function CheckLine(verb: string, target: string, protocol: string): (r: Result<Request, ParseError>)
    ensures r.Err? ==> r.error == InvalidProtocol || r.error == InvalidMethod
  {
    if protocol != "HTTP/1.1" then Err(InvalidProtocol)
    else match FromStr(verb)
      case Err(e) => Err(FromMethodError(e))
      case Ok(m) => Ok(RequestOf(target, m))
  }

  /** What `Request::try_from` produces once the buffer has been decoded to `text`. */
  function ParseText(text: string): Result<Request, ParseError>
  {
    match NextWord(text)
    case None => Err(InvalidRequest)
    case Some((verb, afterMethod)) =>
      match NextWord(afterMethod)
      case None => Err(InvalidRequest)
      case Some((target, afterTarget)) =>
        match NextWord(afterTarget)
        case None => Err(InvalidRequest)
        case Some((protocol, _)) => CheckLine(verb, target, protocol)
  }

  /** What `Request::try_from` produces from a received buffer. */
  function Parse(buffer: seq<byte>): Result<Request, ParseError>
  {
    match Decode(buffer)
    case Err(e) => Err(FromUtf8Error(e))
    case Ok(text) => ParseText(text)
  }

  /**
   * `Request::try_from`: decode, take three words, check the protocol, parse
   * the verb, then split the target at its first `?`. The first failing step
   * decides the error.
   */
  method TryFrom(buffer: seq<byte>) returns (r: Result<Request, ParseError>)
    ensures r == Parse(buffer)
  {
    var decoded := Decode(buffer);
    if decoded.Err? {
      return Err(FromUtf8Error(decoded.error));
    }
    var request := decoded.value;
    var first := GetNextWord(request);
    if first.None? {
      return Err(InvalidRequest);
    }
    var (verb, afterMethod) := first.value;
    var second := GetNextWord(afterMethod);
    if second.None? {
      return Err(InvalidRequest);
    }
    var (pathAndQuery, afterTarget) := second.value;
    var third := GetNextWord(afterTarget);
    if third.None? {
      return Err(InvalidRequest);
    }
    var protocol := third.value.0;
    if protocol != "HTTP/1.1" {
      return Err(InvalidProtocol);
    }
    var parsed := FromStr(verb);
    if parsed.Err? {
      return Err(FromMethodError(parsed.error));
    }
    var path := "";
    var queryString: Option<QueryString> := None;
    var mark := Find(pathAndQuery, '?');
    if mark.Some? {
      var query := Query.From(pathAndQuery[mark.value + 1..]);
      queryString := Some(query);
      path := pathAndQuery[..mark.value];
    }
    return Ok(Request(path, queryString, parsed.value));
  }

  // ---------------------------------------------------------------------------
  // Properties of the parse

  /** A buffer that is not UTF-8 fails with InvalidEncoding before any word is taken. */
  lemma EncodingFirst(buffer: seq<byte>)
    ensures Decode(buffer).Err? <==> Parse(buffer) == Err(InvalidEncoding)
    ensures Decode(buffer).Ok? ==> Parse(buffer) == ParseText(Decode(buffer).value)
  {
    if Decode(buffer).Ok? {
      var text := Decode(buffer).value;
      assert ParseText(text) != Err(InvalidEncoding);
    }
  }

  /** A buffer that encodes a text parses as that text. */
  lemma ParseEncoded(text: string)
    ensures Parse(Encode(text)) == ParseText(text)
  {
    DecodeEncode(text);
  }

  /** InvalidRequest is reported exactly when the text has fewer than three separators. */
  lemma InvalidRequestIff(text: string)
    ensures ParseText(text) == Err(InvalidRequest) <==> DelimiterCount(text) < 3
  {
    DelimiterCountNextWord(text);
    if NextWord(text).Some? {
      var afterMethod := NextWord(text).value.1;
      DelimiterCountNextWord(afterMethod);
      if NextWord(afterMethod).Some? {
        var afterTarget := NextWord(afterMethod).value.1;
        DelimiterCountNextWord(afterTarget);
        if NextWord(afterTarget).Some? {
          assert ParseText(text) != Err(InvalidRequest);
        }
      }
    }
  }

  /** Three words, each followed by a separator, and anything after them form a request line. */
  lemma SplitsAsOf(verb: string, d1: char, target: string, d2: char, protocol: string, d3: char, rest: string)
    requires NoDelimiter(verb) && NoDelimiter(target) && NoDelimiter(protocol)
    requires IsDelimiter(d1) && IsDelimiter(d2) && IsDelimiter(d3)
    ensures SplitsAs(verb + [d1] + target + [d2] + protocol + [d3] + rest, verb, target, protocol, rest)
  {
    var t2 := verb + [d1] + target;
    var t4 := t2 + [d2] + protocol;
    var text := t4 + [d3] + rest;
    var i := |verb|;
    var j := i + 1 + |target|;
    var k := j + 1 + |protocol|;
    Cut(text, t4, d3, rest);
    Cut(t4, t2, d2, protocol);
    Cut(t2, verb, d1, target);
    assert |t2| == j && |t4| == k;
    SliceOfPrefix(text, 0, i, k);
    SliceOfPrefix(t4, 0, i, j);
    assert text[..i] == verb;
    SliceOfPrefix(text, i + 1, j, k);
    SliceOfPrefix(t4, i + 1, j, j);
    assert text[i + 1..j] == target;
    SliceOfPrefix(text, j + 1, k, k);
    assert text[j + 1..k] == protocol;
    assert text[i] == t4[i] == t2[i] == d1;
    assert text[j] == t4[j] == d2;
  }

  /** A stretch of `text` without separators is a slice without separators. */
  lemma NoDelimiterSlice(text: string, a: nat, b: nat)
    requires a <= b <= |text|
    requires forall k :: a <= k < b ==> !IsDelimiter(text[k])
    ensures NoDelimiter(text[a..b])
  {
    forall k | 0 <= k < b - a
      ensures !IsDelimiter(text[a..b][k])
    {
      assert text[a..b][k] == text[a + k];
    }
  }

  /** The first separator of a suffix of `text`, as a position in `text`. */
  lemma FirstDelimiterFrom(text: string, a: nat)
    requires a <= |text|
    ensures FirstDelimiter(text[a..]).Some? ==>
      var i := a + FirstDelimiter(text[a..]).value;
      && i < |text| && IsDelimiter(text[i])
      && forall k :: a <= k < i ==> !IsDelimiter(text[k])
  {
    if FirstDelimiter(text[a..]).Some? {
      var s := text[a..];
      var i := FirstDelimiter(s).value;
      forall k | a <= k < a + i
        ensures !IsDelimiter(text[k])
      {
        assert text[k] == s[..i][k - a];
      }
    }
  }

  /** The word taken from a suffix of `text` ends at the first separator at or after `a`. */
  lemma NextWordFrom(text: string, a: nat, i: nat)
    requires a <= i < |text| && IsDelimiter(text[i])
    requires forall k :: a <= k < i ==> !IsDelimiter(text[k])
    ensures NextWord(text[a..]) == Some((text[a..i], text[i + 1..]))
  {
    var s := text[a..];
    NoDelimiterSlice(text, a, i);
    assert s[..i - a] == text[a..i] && s[i - a] == text[i];
    NextWordAt(s, i - a);
    assert s[i - a + 1..] == text[i + 1..];
  }

  /** Three separators, with none before them or between them, split `text` into a request line. */
  lemma SplitsAt(text: string, i: nat, j: nat, k: nat)
    requires i < j < k < |text|
    requires IsDelimiter(text[i]) && IsDelimiter(text[j]) && IsDelimiter(text[k])
    requires forall n :: 0 <= n < i ==> !IsDelimiter(text[n])
    requires forall n :: i + 1 <= n < j ==> !IsDelimiter(text[n])
    requires forall n :: j + 1 <= n < k ==> !IsDelimiter(text[n])
    ensures SplitsAs(text, text[..i], text[i + 1..j], text[j + 1..k], text[k + 1..])
  {
    NoDelimiterSlice(text, 0, i);
    NoDelimiterSlice(text, i + 1, j);
    NoDelimiterSlice(text, j + 1, k);
    assert text[..i] == text[0..i];
  }

  /** The first separator at or after position `a`, when the rest of the text has one. */
  lemma NextDelimiter(text: string, a: nat) returns (i: nat)
    requires a <= |text| && DelimiterCount(text[a..]) > 0
    ensures a <= i < |text| && IsDelimiter(text[i])
    ensures forall n :: a <= n < i ==> !IsDelimiter(text[n])
    ensures DelimiterCount(text[i + 1..]) == DelimiterCount(text[a..]) - 1
  {
    DelimiterCountNextWord(text[a..]);
    FirstDelimiterFrom(text, a);
    i := a + FirstDelimiter(text[a..]).value;
    assert text[a..][i - a + 1..] == text[i + 1..];
  }

  /** The first three separators of a text that has at least three. */
  lemma FirstThreeDelimiters(text: string) returns (i: nat, j: nat, k: nat)
    requires DelimiterCount(text) >= 3
    ensures i < j < k < |text|
    ensures IsDelimiter(text[i]) && IsDelimiter(text[j]) && IsDelimiter(text[k])
    ensures forall n :: 0 <= n < i ==> !IsDelimiter(text[n])
    ensures forall n :: i + 1 <= n < j ==> !IsDelimiter(text[n])
    ensures forall n :: j + 1 <= n < k ==> !IsDelimiter(text[n])
  {
    assert text[0..] == text;
    i := NextDelimiter(text, 0);
    j := NextDelimiter(text, i + 1);
    k := NextDelimiter(text, j + 1);
  }

  /** Text with at least three separators splits into a request line. */
  lemma SplitsAsExists(text: string)
    requires DelimiterCount(text) >= 3
    ensures exists m, t, p, rest :: SplitsAs(text, m, t, p, rest)
  {
    var i, j, k := FirstThreeDelimiters(text);
    SplitsAt(text, i, j, k);
  }

  /**
   * The outcome for a request line, in the order the checks are made: a
   * protocol other than "HTTP/1.1" is InvalidProtocol whatever the verb; with
   * the right protocol an unknown verb is InvalidMethod; otherwise the parse
   * succeeds with that verb and the target's path and query. What follows the
   * third separator is ignored.
   */
  lemma ParseRequestLine(text: string, verb: string, target: string, protocol: string, rest: string)
    requires SplitsAs(text, verb, target, protocol, rest)
    ensures protocol != "HTTP/1.1" ==> ParseText(text) == Err(InvalidProtocol)
    ensures protocol == "HTTP/1.1" && FromStr(verb).Err? ==> ParseText(text) == Err(InvalidMethod)
    ensures protocol == "HTTP/1.1" && FromStr(verb).Ok? ==>
      && ParseText(text).Ok?
      && ParseText(text).value.verb == FromStr(verb).value
      && TargetParts(target, ParseText(text).value.path, ParseText(text).value.queryString)
  {
    ParseIsCheckLine(text, verb, target, protocol, rest);
  }

  /** A request line parses as the checks on its three words; what follows the third separator plays no part. */
  lemma ParseIsCheckLine(text: string, verb: string, target: string, protocol: string, rest: string)
    requires SplitsAs(text, verb, target, protocol, rest)
    ensures ParseText(text) == CheckLine(verb, target, protocol)
  {
    VerbWord(text, verb, target, protocol, rest);
    TargetWord(text, verb, target, protocol, rest);
    ProtocolWord(text, verb, target, protocol, rest);
  }

  /** A word found at position `a` of `text`, followed by a separator, is the word taken from there. */
  lemma WordAt(text: string, a: nat, word: string)
    requires a + |word| < |text| && text[a..a + |word|] == word
    requires NoDelimiter(word) && IsDelimiter(text[a + |word|])
    ensures NextWord(text[a..]) == Some((word, text[a + |word| + 1..]))
  {
    forall k | a <= k < a + |word|
      ensures !IsDelimiter(text[k])
    {
      assert text[k] == word[k - a];
    }
    NextWordFrom(text, a, a + |word|);
  }

  /** The first word the tokenizer takes from a request line is its verb. */
  lemma VerbWord(text: string, verb: string, target: string, protocol: string, rest: string)
    requires SplitsAs(text, verb, target, protocol, rest)
    ensures NextWord(text) == Some((verb, text[|verb| + 1..]))
  {
    NextWordAt(text, |verb|);
  }

  /** The second word the tokenizer takes from a request line is its target. */
  lemma TargetWord(text: string, verb: string, target: string, protocol: string, rest: string)
    requires SplitsAs(text, verb, target, protocol, rest)
    ensures NextWord(text[|verb| + 1..]) == Some((target, text[|verb| + 1 + |target| + 1..]))
  {
    WordAt(text, |verb| + 1, target);
  }

  /** The third word the tokenizer takes from a request line is its protocol. */
  lemma ProtocolWord(text: string, verb: string, target: string, protocol: string, rest: string)
    requires SplitsAs(text, verb, target, protocol, rest)
    ensures NextWord(text[|verb| + 1 + |target| + 1..]) == Some((protocol, rest))
  {
    WordAt(text, |verb| + 1 + |target| + 1, protocol);
  }

  /** A successful parse always comes from a request line with protocol "HTTP/1.1" and a known verb. */
  lemma ParseOk(text: string)
    requires ParseText(text).Ok?
    ensures exists m, t, rest ::
      && SplitsAs(text, m, t, "HTTP/1.1", rest)
      && FromStr(m) == Ok(ParseText(text).value.verb)
      && TargetParts(t, ParseText(text).value.path, ParseText(text).value.queryString)
  {
    InvalidRequestIff(text);
    SplitsAsExists(text);
    var m, t, p, rest :| SplitsAs(text, m, t, p, rest);
    ParseRequestLine(text, m, t, p, rest);
  }
}
