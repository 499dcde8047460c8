# HTTP request-line parser, modelled in Dafny

This project models the request parser of a small Rust HTTP server. The parser is `src/http/request.rs`, `src/http/query_string.rs` and `src/http/method.rs`. It receives a byte buffer and works in these steps:

1. It decodes the buffer as UTF-8.
2. It takes three words, each ended by a space or a carriage return.
3. It checks that the third word is `HTTP/1.1`.
4. It parses the first word as one of five verbs.
5. It splits the second word (the target) at its first `?`. The text before the `?` is the path. The text after it goes to the query-string parser.
6. The query-string parser splits that text at `&`, splits each piece at its first `=`, and collects the values of repeated keys in order.

Every failure is one of four `ParseError` variants. The first failing step decides which one.

Modules, one per source concern:

- `Wrappers` (`wrappers.dfy`): `Option` and `Result`.
- `Text` (`text.dfy`): `str::find` and `str::split` on one character, with `Join` as the inverse of `Split`.
- `Utf8` (`utf8.dfy`): `str::from_utf8` as `Decode`. It follows the well-formedness table of the Unicode Standard (Table 3-7). `Encode` is its inverse.
- `HttpMethod` (`method.dfy`): `Method` and `Method::from_str`.
- `Query` (`query_string.dfy`):
  - `Value` and `QueryString`.
  - `QueryString::from` as the method `From`. Its `for` loop is a `while` loop. The map it updates is proved equal to the reference map `QueryOf`.
  - The module's unit test.
- `HttpRequest` (`request.dfy`):
  - `ParseError`, `message` and the two `From` conversions.
  - `get_next_word` as the method `GetNextWord`, proved against the function `NextWord`.
  - `Request::try_from` as the method `TryFrom`, proved against the function `Parse`.
  - The properties of the parse.
- `RequestExamples` (`request_examples.dfy`): the unit tests of `request.rs`, derived from the general lemmas.
- `ByteTokenizer` (`next_word_bytes.dfy`): `get_next_word` as written, on bytes (see Findings).

A target without `?` gives the empty path and no query string (`src/http/request.rs:45-51`). The code initialises `path` to `""` and assigns it only when a `?` is found. This looks unintended, but the parse here follows the code; see Findings.

## Model

| member | source | states |
|---|---|---|
| Text.Find | src/http/query_string.rs:22 | `str::find` on one character: None exactly when the character is absent; otherwise the position of its first occurrence. The position counts characters where Rust returns a byte offset; the slices taken at it (src/http/query_string.rs:23-24, src/http/request.rs:49-50) are the same because `=` and `?` are single bytes and the slicing is modelled on characters too. |
| Text.Split | src/http/query_string.rs:18 | `str::split` on one character: at least one piece, no piece contains the separator, and joining the pieces with it gives back the input. |
| Text.SplitJoin | src/http/query_string.rs:18 | Splitting the join of separator-free pieces gives back exactly those pieces. |
| Text.SplitNone | src/http/query_string.rs:18 | Text without the separator is a single piece, itself. |
| Text.FindAfter | src/http/request.rs:48 | The first occurrence of a character is right after a prefix that lacks it. |
| Utf8.EncodeChar | src/http/request.rs:34 | A scalar value takes one to four bytes, and one byte exactly when it is ASCII. |
| Utf8.DecodeChar | src/http/request.rs:34 | A well-formed head sequence takes between one byte and the bytes available. |
| Utf8.Decode | src/http/request.rs:34 | `str::from_utf8`: any accepted buffer re-encodes to itself and holds no more characters than bytes. |
| Utf8.DecodeEncode | src/http/request.rs:34 | Every text's UTF-8 encoding is accepted and decodes back to the text. |
| Utf8.EncodeConcat | src/http/request.rs:34 | Encoding distributes over concatenation. |
| Utf8.EncodeAscii | src/http/request.rs:34 | ASCII text encodes byte for character. |
| Utf8.AsciiBytes | src/http/request.rs:132 | A byte-string literal in ASCII is the UTF-8 encoding of its text. |
| Utf8.RejectsMalformed | src/http/request.rs:34 | Stray continuation bytes, overlong forms, surrogates, values above U+10FFFF and truncated sequences are refused. |
| HttpMethod.FromStr | src/http/method.rs:15-24 | A success returns the verb whose token is the input. A failure carries "Error", and then no verb has the input as its token. |
| HttpMethod.FromStrToken | src/http/method.rs:16-21 | Each of the five verbs is parsed from its own token, so the parser covers the enumeration. |
| HttpMethod.FromStrInjective | src/http/method.rs:16-21 | Two accepted strings give the same verb exactly when they are equal. |
| HttpMethod.FromStrExact | src/http/method.rs:16-22 | Matching is exact: "get", " GET", "GET ", "Post" and "" are refused. |
| Query.KeyValue | src/http/query_string.rs:19-25 | The split of one piece at its first `=`; its properties are stated by KeyValueSplits and KeyValueOf. |
| Query.KeyValueSplits | src/http/query_string.rs:19-25 | A piece splits at its first `=`. The key has no `=`, and key, `=` and value rebuild the piece. A piece without `=` is all key with the empty value. |
| Query.KeyValueOf | src/http/query_string.rs:22-24 | The value keeps every later `=`: key, `=`, then anything splits back into that key and value. |
| Query.ValuesOfKeys | src/http/query_string.rs:27-31 | A key has values exactly when some piece names it. |
| Query.CollectStep | src/http/query_string.rs:27-31 | Adding a pair changes only that key's entry. The entry becomes its earlier values plus the new one; every other key is unchanged. |
| Query.MergedEntry | src/http/query_string.rs:27-31 | The `entry().and_modify().or_insert()` step: Single(prev) becomes Multiple([prev, val]), Multiple(vs) becomes Multiple(vs + [val]), and an absent key gets Single(val). |
| Query.CollectEntry | src/http/query_string.rs:18-31 | The key set is exactly the keys of the pieces. Each key holds its values in the order they appear: Single when there is one, Multiple (two or more) otherwise. |
| Query.Enter | src/http/query_string.rs:27-31 | The `entry().and_modify().or_insert()` update: entered into the map of some pairs, one more pair gives the map of those pairs followed by it. |
| Query.From | src/http/query_string.rs:14-35 | `QueryString::from` is total. Its loop keeps the map equal to the reference map of the pieces processed so far, and it returns the reference map of the whole input. |
| Query.Example | src/http/query_string.rs:66-82 | "a=1&b=2&c&d=&e===&d=7&d=abc" gives a, b, c and e one value each ("1", "2", "", "==") and d the values "", "7", "abc" in order. |
| Query.EmptyQuery | src/http/query_string.rs:18-20 | The empty query string is one empty piece: key "" with Single(""). |
| HttpRequest.Message | src/http/request.rs:74-82 | The fixed message of each of the four errors; MessageInjective states that they are pairwise distinct. |
| HttpRequest.MessageInjective | src/http/request.rs:74-82 | The four messages are pairwise distinct. |
| HttpRequest.FromUtf8Error | src/http/request.rs:85-89 | A decoding error becomes the error whose message is "Invalid Encoding". |
| HttpRequest.FromMethodError | src/http/request.rs:91-95 | A verb parse error becomes the error whose message is "Invalid Method". |
| HttpRequest.FirstDelimiter | src/http/request.rs:58-62 | None exactly when the text has no space or CR. Otherwise it returns a separator position with none before it. |
| HttpRequest.NextWord | src/http/request.rs:57-65 | The character-level `get_next_word`: the text before the first separator and the text after it. Its properties are stated by NextWordSplits and NextWordAt, and GetNextWord is proved to compute it. |
| HttpRequest.NextWordSplits | src/http/request.rs:57-65 | `get_next_word` gives a word exactly when the text has a separator. The word has none, and the text is the word, the first separator, and the rest. |
| HttpRequest.NextWordAt | src/http/request.rs:58-60 | A separator with none before it ends the word that is taken. |
| HttpRequest.GetNextWord | src/http/request.rs:57-65 | The scanning loop with its early return computes NextWord. |
| HttpRequest.DelimiterCountNextWord | src/http/request.rs:57-65 | Taking a word consumes exactly one separator; no word is taken only from text with none. |
| HttpRequest.RequestOf | src/http/request.rs:45-51 | The verb is the parsed one. With a `?`, the path is the text before the first `?` (so it has no `?`) and the query string is parsed from the text after it. Without one, the path is "" and there is no query string. |
| HttpRequest.IntendedRequestOf | src/http/request.rs:45-51 | Corrected target split: without `?` the whole target is the path; with `?`, as RequestOf. |
| HttpRequest.CheckLine | src/http/request.rs:40-44 | Once three words are taken, the only possible failures are InvalidProtocol and InvalidMethod. |
| HttpRequest.ParseText | src/http/request.rs:36-53 | `try_from` after decoding: three words, then CheckLine. Its outcomes are stated by InvalidRequestIff, ParseIsCheckLine, ParseRequestLine and ParseOk. |
| HttpRequest.Parse | src/http/request.rs:33-54 | `try_from` on the buffer: decoding first, then ParseText. Its outcomes are stated by EncodingFirst and ParseEncoded, and TryFrom is proved to compute it. |
| HttpRequest.TryFrom | src/http/request.rs:33-54 | The step-by-step `try_from` computes Parse. |
| HttpRequest.EncodingFirst | src/http/request.rs:34 | A buffer fails with InvalidEncoding exactly when it is not UTF-8. Otherwise its parse is the parse of its text. |
| HttpRequest.ParseEncoded | src/http/request.rs:34 | The buffer holding a text's encoding parses as that text. |
| HttpRequest.InvalidRequestIff | src/http/request.rs:36-38 | InvalidRequest is reported exactly when the text has fewer than three separators. |
| HttpRequest.SplitsAsOf | src/http/request.rs:36-38 | Three separator-free words, each followed by a separator, then anything, form a request line with those words. |
| HttpRequest.SplitsAsExists | src/http/request.rs:36-38 | Text with at least three separators splits into a request line. |
| HttpRequest.VerbWord | src/http/request.rs:36 | The first word taken from a request line is its verb. |
| HttpRequest.TargetWord | src/http/request.rs:37 | The second word taken is its target. |
| HttpRequest.ProtocolWord | src/http/request.rs:38 | The third word taken is its protocol, and the rest is what follows the third separator. |
| HttpRequest.ParseIsCheckLine | src/http/request.rs:36-53 | A request line parses as the checks on its three words, whatever follows the third separator. |
| HttpRequest.ParseRequestLine | src/http/request.rs:38-53 | A protocol other than "HTTP/1.1" gives InvalidProtocol whatever the verb; otherwise an unknown verb gives InvalidMethod; otherwise the result is Ok with that verb and the target's path and query. |
| HttpRequest.ParseOk | src/http/request.rs:38-53 | A successful parse comes from a request line whose third word is exactly "HTTP/1.1" and whose first word is the token of the returned verb. |
| RequestExamples.CreatedFromBuffer | src/http/request.rs:131-147 | b"GET /home?name=Batman HTTP/1.1\r" gives path "/home", GET, and a query whose only key "name" holds Single("Batman"). |
| RequestExamples.OneWord | src/http/request.rs:159-162 | b"WRONG" fails with "Invalid Request". |
| RequestExamples.TwoWords | src/http/request.rs:165-168 | b"GET / " fails with "Invalid Request". |
| RequestExamples.UnsupportedProtocol | src/http/request.rs:171-174 | b"POST ?name=Batman HTTP/3.1\r" fails with "Invalid Protocol". |
| RequestExamples.UnknownMethod | src/http/request.rs:177-180 | b"WRONG ?name=Batman HTTP/1.1\r" fails with "Invalid Method". |
| RequestExamples.PlainLineParses | src/http/request.rs:45-51 | "GET /home HTTP/1.1\r" gives the empty path and no query string. |
| RequestExamples.RootPathIsEmpty | src/http/request.rs:45-51 | "GET / HTTP/1.1\r" gives path "" as written; the corrected split gives "/". |
| RequestExamples.RootWithQuery | src/http/request.rs:45-51 | As written, the target "/?" gives the path "/" and the query string of the empty text. |
| ByteTokenizer.NextWordAsWritten | src/http/request.rs:57-62 | `get_next_word` as written, on bytes. There is no word exactly when the text has no separator. Otherwise the byte offset of the cut is the character index of the first separator: the word is that many bytes, one byte is skipped and the rest follows. It panics exactly when that offset or the next one falls inside a character. |
| ByteTokenizer.NextWordEncoded | src/http/request.rs:57-62 | The character-level word, separator and rest encode to consecutive parts of the buffer. This is the byte split the code intends. |
| ByteTokenizer.AsWrittenAgreesIffAsciiWord | src/http/request.rs:57-62 | The code as written gives the bytes of the character-level word and rest exactly when the word before the first separator is ASCII, whatever follows the separator. |
| ByteTokenizer.CharIndexUsedAsByteIndex | src/http/request.rs:58-60 | On "éa b" the code as written returns word "é" and rest " b"; the intended result is "éa" and "b". |
| ByteTokenizer.CharIndexInsideCharacter | src/http/request.rs:58-60 | On "é b" the code as written slices inside "é" and panics. |

## Left out

- The position and detail carried by `Utf8Error`: the model has one error value, because the parser discards it (src/http/request.rs:86).
- The `Display`, `Debug` and `Error` implementations of `ParseError`: they only print `message()`.
- The accessors `path`, `query_string` and `method`: they are the fields of the `Request` datatype. `method` is named `verb` because `method` is a Dafny keyword.
- Lifetimes and borrowing: borrowed slices are modelled as substrings (copies).
- `HashMap` iteration order: a Dafny `map` has none.
- The server loop, the 1024-byte read buffer, the website handler and `main`: these are I/O and are not part of this model.
- The test-only `Method::to_u8` helper: the tests' verb comparison is stated as equality of `Method` values.
- HttpRequest.TryFrom: the tokenizer it uses is the character-level one (the corrected `get_next_word`), not the code's byte slicing. The code as written is modelled separately as ByteTokenizer.NextWordAsWritten. A panic is a value of that model, not an abort.
- HttpRequest.TryFrom: the target split keeps the code's behaviour (an empty path without `?`). IntendedRequestOf stands beside it and is not wired into the parse.

## Findings

| source | as written | input that shows it | evidently intended | confidence | as-written member | corrected member |
|---|---|---|---|---|---|---|
| src/http/request.rs:58-60 | The separator's position is counted in characters by `chars().enumerate()` but used as a byte offset to slice the `&str`. | "éa b" (bytes C3 A9 61 20 62) gives word "é" and rest " b"; "é b" (bytes C3 A9 20 62) panics, since byte 1 lies inside "é". | The word is the text before the first separator and the rest the text after it ("éa", "b"), i.e. the byte offset from `char_indices`. | high (not executed) | ByteTokenizer.NextWordAsWritten, ByteTokenizer.CharIndexUsedAsByteIndex | HttpRequest.NextWord, HttpRequest.NextWordSplits, ByteTokenizer.NextWordEncoded |
| src/http/request.rs:45-51 | `path` starts as `""` and is assigned only when the target has a `?`. | "GET / HTTP/1.1\r" gives path "". A target without `?`, such as `/`, never reaches the handler's "/" arm (src/website_handler.rs:33-34); only targets like `/?…` do. | Without `?`, the whole target is the path. | high (not executed) | HttpRequest.RequestOf, RequestExamples.RootPathIsEmpty, RequestExamples.RootWithQuery | HttpRequest.IntendedRequestOf |
