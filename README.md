# httpie request construction, modelled in Dafny

A model of the request-building and response-formatting logic of a small
httpie-like command-line HTTP client written in Rust (`httpie/src/main.rs`).
The client takes `get <url>` or `post <url> key=value ...`. It checks the URL,
turns each `key=value` token into a `KvPair`, and collects the pairs into the
JSON body of the POST request. It then prints the response, pretty-printing
the body when its content type is `application/json`.

Modules:

- `Wrappers` (wrappers.dfy): `Option` and `Result`, standing for Rust's
  `Option` and `anyhow::Result`, so that `?` can be written as `:-`.
- `Segments` (segments.dfy): `str::split` with a one-character pattern. It
  comes with its inverse `Join`, a count of the separators (`SplitLength`:
  n separators give n + 1 pieces), and the text before the first separator.
- `KvPairs` (kv_pair.dfy): `KvPair::from_str` and `parse_kv_pair`. A
  reference predicate `SplitsAs` describes, independently of `Split`, which
  (key, value) a token parses to.
- `PostBody` (body.dfy): the insertion loop of `post` as a method. It is
  proved equal to the left fold `BodyOf`, and the key-set, last-write-wins and
  size facts are proved about `BodyOf`.
- `Render` (render.dfy): the decision `print_body` makes.
- `Urls` (url.dfy): `parse_url`, over the HTTP library's URL parser given as
  a parameter.

The token parser follows the code, which differs from a "split on the first
`=`" description of it. `s.split("=")` cuts the token at every `=` and only
the first two pieces are used. So `a=b=c` gives key `a` and value `b`, and
everything from the second `=` on is dropped. A token without any `=`,
including the empty token, fails with the message `Failed to parse <token>`.
Empty keys and values are accepted.

## Model

| member | source | states |
|---|---|---|
| `Segments.Split` | httpie/src/main.rs:56 | splitting gives at least one piece, and no piece contains the separator |
| `Segments.SplitLength` | httpie/src/main.rs:56 | a string with n separators splits into exactly n + 1 pieces |
| `Segments.SplitHead` | httpie/src/main.rs:56-59 | the first piece is the text before the first separator, or the whole string if there is none |
| `Segments.JoinSplit` | httpie/src/main.rs:56 | joining the pieces with the separator gives back the original string |
| `Segments.SplitJoin` | httpie/src/main.rs:56 | splitting a join of separator-free pieces gives back those pieces |
| `KvPairs.SecondPieceIffSeparator` | httpie/src/main.rs:56-60 | the second `next()` on the split token yields a piece exactly when the token contains `=` |
| `KvPairs.FromStr` | httpie/src/main.rs:55-62 | parsing fails exactly when the token has no `=`, and the error is `Failed to parse ` followed by the token |
| `KvPairs.ParseKvPair` | httpie/src/main.rs:73-75 | the value parser succeeds exactly when the token has a `=`; on success the pair fits `SplitsAs`; on failure it passes on the error that names the token |
| `KvPairs.KeyAlwaysPresent` | httpie/src/main.rs:59 | the first `next()` never fails, so only a missing second piece makes parsing fail |
| `KvPairs.ParsedKey` | httpie/src/main.rs:56-59 | on success the key is exactly the text before the first `=` |
| `KvPairs.ParsedValue` | httpie/src/main.rs:56-60 | on success the value is the text between the first and second `=`, or up to the end if there is no second `=` |
| `KvPairs.ParsedPartsHaveNoSeparator` | httpie/src/main.rs:56-61 | neither the parsed key nor the parsed value contains `=` |
| `KvPairs.ParseSplitsAs` | httpie/src/main.rs:55-62 | a successful parse gives a (key, value) that fits `SplitsAs`: the token starts with `key=value`, followed by the end or by another `=` |
| `KvPairs.SplitsAsParses` | httpie/src/main.rs:55-62 | any (key, value) that fits `SplitsAs` is what the token parses to |
| `KvPairs.ParseIffSplitsAs` | httpie/src/main.rs:55-62 | both directions: the token parses to (k, v) if and only if it fits `SplitsAs` with (k, v) |
| `KvPairs.PrintParse` | httpie/src/main.rs:55-62 | a pair printed as `k=v` parses back to the same pair when neither part contains `=` |
| `KvPairs.ExampleSecondSeparator` | httpie/src/main.rs:56-60 | `a=b=c` parses to key `a` and value `b` |
| `KvPairs.ExampleEmptyParts` | httpie/src/main.rs:56-61 | `=v` parses to (``, `v`) and `k=` parses to (`k`, ``) |
| `KvPairs.ExampleRejected` | httpie/src/main.rs:56-60 | the empty token and `abc` fail, and each error message contains the token |
| `PostBody.BuildBody` | httpie/src/main.rs:86-89 | the insertion loop produces exactly the left fold `BodyOf` of the pairs |
| `PostBody.BodyKeys` | httpie/src/main.rs:86-89 | the body's keys are exactly the keys that occur in the pairs |
| `PostBody.LastWriteWins` | httpie/src/main.rs:86-89 | a pair whose key does not appear again later gives that key's value in the body |
| `PostBody.BodyValueIsLastOccurrence` | httpie/src/main.rs:86-89 | each body entry is some pair whose key does not appear in any later pair |
| `PostBody.BodySize` | httpie/src/main.rs:86-89 | the body has at most as many entries as there are pairs, and exactly as many if and only if all keys are distinct |
| `PostBody.BodyFromParsedTokens` | httpie/src/main.rs:86-89 | a body built from tokens that `ParseKvPair` accepted has no `=` in any key or value |
| `PostBody.ExampleBodies` | httpie/src/main.rs:86-89 | `name=tom age=18` gives a two-entry body; `name=tom name=jerry` gives `name` the value `jerry` |
| `Render.PrintBody` | httpie/src/main.rs:119-127 | the JSON pretty-printer is chosen exactly when the content type is present and equals `application/json`; otherwise the body is printed unchanged |
| `Render.ParametersSelectVerbatim` | httpie/src/main.rs:122 | a media type with parameters, even a JSON one, is printed as is |
| `Render.ExampleOutputs` | httpie/src/main.rs:119-127 | `text/plain` and a missing content type print `hello` unchanged; bare `application/json` sends the body to the pretty-printer |
| `Urls.ParseUrl` | httpie/src/main.rs:66-70 | a URL is accepted exactly when the library parser accepts it, and it is returned unchanged; otherwise the parser's error is passed on |

## Left out

- Command-line parsing through clap (`Opts`, `SubCommand`, `Get`, `Post`): library plumbing. How clap applies the value parsers to each argument, and stops at the first failure, is not modelled. `BodyFromParsedTokens` assumes every token was accepted.
- The URL syntax itself: the HTTP library's URL parser is a foreign parser. It appears only as the `parse` parameter of `Urls.ParseUrl`.
- Sending the GET and POST requests, reading the response, async execution and the tokio runtime: network I/O and concurrency.
- The fixed headers `X-POWERED-BY` and `User-Agent`: they are built in `main` but never attached, because the client is created by `Client::new()`. The model does not claim they are sent.
- `get_content_type`: it parses the `Content-Type` header with a foreign MIME library, and its `unwrap` calls can panic on a malformed header. `Render.PrintBody` receives the already-parsed `Option<Mime>`.
- `Render.Mime`: models the MIME library's equality as structural equality of type, subtype and parameter list. It does not model the MIME parser's case normalisation.
- JSON pretty-printing (`jsonxf::pretty_print`), including the panic of its `unwrap` on a body that is not JSON: foreign code. `Render.PrintBody` records only that the body goes to the pretty-printer.
- Printing the status line, headers and body, and the terminal colours: output only.
- Serialising the body map to JSON in the request: a foreign serializer. The model stops at the map `BodyOf`.
