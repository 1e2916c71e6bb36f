# Ip2GeoClient: the request URL and the lookup decision, in Dafny

`Ip2GeoClient` is a thin Java client for the ip2geo lookup API. Most of it is
glue over `java.net.http` and Jackson. This project models the part of it that
decides things:

- **`buildUrl`** (`Ip2GeoClient.BuildUrl` and `Ip2GeoClient.AppendQuery`). It
  builds the request URL:
  - the base `https://api.ip2geoapi.com/ip`, plus `/` and the encoded address
    when one is given;
  - then, when the parameter map is not empty, `?` and one `encode(k)=encode(v)`
    item per map entry, joined by `&`.

  It is modelled as a method. The `StringBuilder` is a string variable that
  grows. The `HashMap` is a `map` filled by conditional puts. The entry loop
  keeps the `first` flag. The method is proved equal to the specification
  function `Ip2GeoClient.Url`.
- **`encode`**, which is `URLEncoder.encode(v, UTF_8)`. It is the
  `application/x-www-form-urlencoded` byte serializer of section 5.2 of the
  WHATWG URL Standard:
  - the string is taken to UTF-8 (`Utf8`, RFC 3629);
  - ASCII alphanumerics and `. - * _` stay as they are;
  - a space becomes `+`;
  - every other byte becomes `%XY` with upper-case hex (`FormEncoding`).
- **`lookup`** (`Ip2GeoClient.Lookup`). It makes the callback/format argument
  check, makes one request to the built URL, and dispatches on the format:
  - the JSON formats return what the parser made of the body;
  - every other format returns the raw body;
  - all failures inside the `try` become one wrapped error.

  The transport is the parameter `send` (URL to exchange). The JSON library is
  the parameter `parse` (body to parse result).

The order in which a `HashMap` hands out its entries is unspecified. Every
URL-building member therefore takes `order`, any duplicate-free listing of the
map's keys (`IsIterationOrder`). Every property holds for all such orders.

The URL functions take the encoder as a parameter. The URL lemmas are proved
for any encoder that is *URL-safe* (`IsUrlSafe`): its output never holds `?`,
`&` or `=`, and form-decoding gives back its input. `FormEncodingIsUrlSafe`
proves that the client's encoder, `FormEncoding.Encode`, is URL-safe, so each
of those lemmas holds of the URL `BuildUrl` returns.

To state the round trip, the project has a reference reader for URLs,
`Ip2GeoClient.ParseUrl`:
- it splits at the first `?`, then on `&`, then each item on its one `=`;
- it form-decodes every piece with `FormEncoding.Decode`. That decoder agrees
  with `URLDecoder` on well-formed input, which includes everything `Encode`
  emits. Elsewhere it is stricter: it refuses malformed UTF-8, where
  `URLDecoder` substitutes U+FFFD, and it accepts only ASCII hex digits.

The Javadoc of `lookup` (lines 36-41) says it throws only on transport failure,
and the comment at line 70 says the same of its `catch`. The code does more,
and the model follows the code:

- It throws `IllegalArgumentException` (lines 43-47) whenever `callback` is
  non-null and `format` is not exactly `jsonp`, so an empty callback is
  rejected too.
- A body that fails to parse as JSON makes Jackson raise an exception that is
  itself an `IOException` (line 63). It reaches the same `catch` and comes out
  as the same `RuntimeException("Unable to reach Ip2Geo API")` as a transport
  failure (lines 69-71). There is no separate decode error.
- An empty `format` is still put into the map (lines 89-91), so the URL carries
  `format=`.

## Model

| member | source | states |
|---|---|---|
| Utf8.Encode | src/main/java/com/ip2geo/Ip2GeoClient.java:112 | The charset step of `encode`: a string's UTF-8 form is 1 to 4 bytes per character. `Utf8.DecodeEncode` proves it loses nothing. |
| Utf8.EncodeScalar | src/main/java/com/ip2geo/Ip2GeoClient.java:111-113 | The UTF-8 form of one character is 1 to 4 bytes. It is one byte, the character itself, exactly for ASCII. The bytes after the first are continuation bytes. |
| Utf8.DecodeEncode | src/main/java/com/ip2geo/Ip2GeoClient.java:111-113 | Strict UTF-8 decoding gives back every string from its encoding. |
| FormEncoding.SerializeByte | src/main/java/com/ip2geo/Ip2GeoClient.java:111-113 | One byte becomes 1 to 3 characters, all inside the form alphabet, and a space becomes `+`. |
| FormEncoding.Serialize | src/main/java/com/ip2geo/Ip2GeoClient.java:111-113 | The serialized bytes stay inside the alphabet: unreserved characters, `+`, and `%` followed by two upper-case hex digits. The output is 1 to 3 characters per byte. |
| FormEncoding.EncodeChar | src/main/java/com/ip2geo/Ip2GeoClient.java:111-113 | One character encodes to a non-empty string inside the alphabet. |
| FormEncoding.Encode | src/main/java/com/ip2geo/Ip2GeoClient.java:111-113 | `encode`'s output is inside the alphabet, so it never holds `&`, `=`, `?`, `/` or `#`. It is empty exactly when the input is. |
| FormEncoding.EncodeIsSerialize | src/main/java/com/ip2geo/Ip2GeoClient.java:111-113 | Encoding character by character equals serializing the string's whole UTF-8 form. |
| FormEncoding.SerializeConcat | src/main/java/com/ip2geo/Ip2GeoClient.java:111-113 | The byte serializer distributes over concatenation. |
| FormEncoding.DeserializeSerialize | src/main/java/com/ip2geo/Ip2GeoClient.java:111-113 | The form decoder gives back every byte sequence from its serialization. |
| FormEncoding.DecodeEncode | src/main/java/com/ip2geo/Ip2GeoClient.java:111-113 | Form-decoding gives back every string from `encode` of it. |
| FormEncoding.EncodeInjective | src/main/java/com/ip2geo/Ip2GeoClient.java:111-113 | Distinct strings never encode alike. |
| FormEncoding.EncodeUnreserved | src/main/java/com/ip2geo/Ip2GeoClient.java:111-113 | A string made only of ASCII alphanumerics, `. - * _` and spaces encodes character for character: each space becomes `+`, and everything else stays as it is. |
| Ip2GeoClient.Path | src/main/java/com/ip2geo/Ip2GeoClient.java:78-82 | The path is the bare base exactly when the address is null or empty. `Ip2GeoClient.UrlPath` and `Ip2GeoClient.PathHasNoQuery` state the rest. |
| Ip2GeoClient.Params | src/main/java/com/ip2geo/Ip2GeoClient.java:84-94 | The map holds no names but `key`, `format` and `callback`, and a given callback is always there. `Ip2GeoClient.ParamsPresence` gives all three presence rules. |
| Ip2GeoClient.Query | src/main/java/com/ip2geo/Ip2GeoClient.java:96-106 | The query is empty exactly when there are no entries, and otherwise starts with `?`. `Ip2GeoClient.QueryShape` states its full shape. |
| Ip2GeoClient.Url | src/main/java/com/ip2geo/Ip2GeoClient.java:75-109 | The URL is the bare path exactly when the iteration visits no entries. It is the specification `BuildUrl` is proved against. `Ip2GeoClient.UrlRoundTrip` and `Ip2GeoClient.QueryShape` carry its properties. |
| Ip2GeoClient.BuildUrl | src/main/java/com/ip2geo/Ip2GeoClient.java:75-109 | The URL built step by step is exactly `Url`: the path from `ip`, then the query of the map filled by the three conditional puts, in the map's iteration order. |
| Ip2GeoClient.AppendQuery | src/main/java/com/ip2geo/Ip2GeoClient.java:96-106 | The `first`-flag loop appends nothing when there are no entries. Otherwise it appends `?` and the entries' items joined by single `&`s, for any encoder. |
| Ip2GeoClient.IterationOrderLength | src/main/java/com/ip2geo/Ip2GeoClient.java:99 | The entry loop visits each key of the map exactly once, so it runs once per parameter. |
| Ip2GeoClient.EmptyIterationOrder | src/main/java/com/ip2geo/Ip2GeoClient.java:96 | The `isEmpty` test on the map agrees with the iteration having no entries. |
| Ip2GeoClient.ParamsPresence | src/main/java/com/ip2geo/Ip2GeoClient.java:84-94 | `key` is present iff the API key is non-null and non-empty. `format` is present iff the format is non-null, `""` included. `callback` is present iff the callback is non-null. Each maps to its argument, and no other name appears. |
| Ip2GeoClient.ParamEntryInParams | src/main/java/com/ip2geo/Ip2GeoClient.java:84-94 | A pair is in the parameter map exactly when one of the three presence rules admits it. |
| Ip2GeoClient.PathHasNoQuery | src/main/java/com/ip2geo/Ip2GeoClient.java:78-82 | With a URL-safe encoder the path holds no `?`, whatever the address. |
| Ip2GeoClient.UrlPath | src/main/java/com/ip2geo/Ip2GeoClient.java:78-82 | The URL up to its first `?` is the base exactly when the address is null or empty. Otherwise it is the base, `/` and the encoded address. |
| Ip2GeoClient.FormEncodingIsUrlSafe | src/main/java/com/ip2geo/Ip2GeoClient.java:111-113 | `encode` never emits `?`, `&` or `=`, and form-decoding inverts it. So every URL lemma applies to the client's URL. |
| Ip2GeoClient.QueryShape | src/main/java/com/ip2geo/Ip2GeoClient.java:96-106 | The URL holds `?` iff there are parameters. The n parameters give n items `encode(k)=encode(v)`, in iteration order. The query holds exactly n-1 `&`, none at either end, and splitting on `&` gives the items back. |
| Ip2GeoClient.JoinedItemsShape | src/main/java/com/ip2geo/Ip2GeoClient.java:100-104 | Items joined by `&` split back into the items. The join has one `&` fewer than items and none at either end. |
| Ip2GeoClient.ParseItemOfItem | src/main/java/com/ip2geo/Ip2GeoClient.java:102-104 | One item splits on its single `=` and decodes back to its key and value. |
| Ip2GeoClient.UrlRoundTrip | src/main/java/com/ip2geo/Ip2GeoClient.java:78-106 | Reading the URL back gives the address (empty when there was none) and the map's entries, in iteration order. |
| Ip2GeoClient.QueryDecodesToParams | src/main/java/com/ip2geo/Ip2GeoClient.java:96-106 | For every iteration order, the decoded query is the parameter map: one entry per parameter, and nothing else. |
| Ip2GeoClient.BuiltUrlCarriesArguments | src/main/java/com/ip2geo/Ip2GeoClient.java:75-109 | End to end, the URL reads back as the address and exactly the argument pairs the presence rules admit, each once. |
| Ip2GeoClient.Respond | src/main/java/com/ip2geo/Ip2GeoClient.java:58-72 | Any error here is the wrapped one with the message "Unable to reach Ip2Geo API". A failed exchange always raises it. A response under a non-JSON format returns its body. `Ip2GeoClient.RespondIgnoresStatus` proves the status is never read. |
| Ip2GeoClient.RespondIgnoresStatus | src/main/java/com/ip2geo/Ip2GeoClient.java:58-67 | Two responses with the same body get the same answer. |
| Ip2GeoClient.Lookup | src/main/java/com/ip2geo/Ip2GeoClient.java:42-73 | `lookup` sends at most one request. It sends none, and raises the argument error, exactly when a callback comes without the format `jsonp`. The `Lookup…` lemmas below carry its other properties. |
| Ip2GeoClient.LookupArgumentCheck | src/main/java/com/ip2geo/Ip2GeoClient.java:43-47 | The argument error comes iff a callback is given (even `""`) and the format is not exactly `jsonp`. It carries the source's message. No request is sent, and it is never the wrapped error. |
| Ip2GeoClient.RejectedLookupIgnoresTransport | src/main/java/com/ip2geo/Ip2GeoClient.java:43-47 | A rejected call comes out the same whatever the transport and the parser do. |
| Ip2GeoClient.AcceptedLookupSendsUrl | src/main/java/com/ip2geo/Ip2GeoClient.java:49-59 | An accepted call sends exactly one request, to the URL `buildUrl` makes. |
| Ip2GeoClient.LookupDispatch | src/main/java/com/ip2geo/Ip2GeoClient.java:61-67 | With a response, a null or exactly `json` format returns the parser's object or null, or raises the wrapped error on a parse failure. Every other format returns the body unchanged. |
| Ip2GeoClient.LookupIgnoresStatus | src/main/java/com/ip2geo/Ip2GeoClient.java:58-67 | The status code is never read: responses with the same body give the same result. |
| Ip2GeoClient.RawFormatIgnoresParser | src/main/java/com/ip2geo/Ip2GeoClient.java:66-67 | The non-JSON formats never run the parser. |
| Ip2GeoClient.LookupFailuresCollapse | src/main/java/com/ip2geo/Ip2GeoClient.java:49-72 | The wrapped error comes iff the call passed the argument check and the transport failed or the JSON body did not parse. It is the one error with the message "Unable to reach Ip2Geo API". Nothing else is ever raised besides the argument error. |

## Left out

- The constructors (lines 24-34) build an `HttpClient` with a connect timeout and
  an `ObjectMapper`. Only the API key, which the URL reads, is modelled
  (`Client`). Timeouts and the exception `Duration`/`HttpClient` raise for a
  bad timeout are network configuration.
- The `HttpRequest` with its 60-second timeout and `httpClient.send` (lines
  52-59) are I/O. They are the parameter `send`. It delivers a response (status
  and body), an I/O failure or an interruption. Unchecked exceptions the HTTP
  library may raise are not modelled.
- `URI.create` (line 53) is library validation. The model takes the URL as
  accepted; it is built only from the base and encoded parts.
- Jackson's `readValue` (line 63) is a foreign library. It is the parameter
  `parse`. It yields an object, JSON `null`, or a failure. JSON numbers are kept
  as their literal text.
- `HashMap` iteration order (line 99) is unspecified. It is the parameter
  `order`, and no property fixes one.
- `StringBuilder` is a string variable the method reassigns. There is no
  aliasing to model.
- Java strings may hold unpaired surrogates, which `URLEncoder` replaces.
  Dafny strings are sequences of Unicode scalar values, so such strings are not
  modelled.
- `ParseUrl`, `ParseItem` and `FormEncoding.Decode` are not in the client. They
  are a reference reader, used to state what the URL carries.
