# Docker Registry v2 client: login handshake, challenge reading and probes in Dafny

This project models the decision and string logic of the v2 registry
`Client` of a Rust Docker Registry HTTP API v2 client (`src/v2/mod.rs`). It
covers these parts of the client:

- **Request signing** (`new_request`). Every request built by
  `new_request` carries the held token as `Authorization: Bearer <token>`
  and the configured `User-Agent`, and nothing else. That is every request
  except login's token request, which is built bare and carries only the
  Basic credentials, if any are configured.
- **Reachability probes** (`is_v2_supported`, `is_auth`). The probe sends
  `GET <base>/v2/`. `is_v2_supported` answers yes exactly when the status
  is 200 or 401 and the `Docker-Distribution-API-Version` header arrived as
  the single line `registry/2.0`. `is_auth` answers yes exactly on 200.
- **The login handshake** (`login`), in this order:
  1. Probe the base endpoint.
  2. Demand exactly one `www-authenticate` line. This is checked before the
     status is looked at.
  3. Branch on the status: 200 means no token is needed, 401 means read the
     challenge, anything else is an error.
  4. Decode the challenge bytes as UTF-8.
  5. Read the challenge items.
  6. Build the token endpoint: the realm, then `?service=` if a service was
     read, then one `&scope=` per scope the caller asked for.
  7. Send a token request that carries Basic credentials if any are
     configured.
  8. On a 200 whose body deserialises, replace the client's token.
- **The challenge reading**, exactly as the code does it:
  - Every leading `Bearer ` is removed.
  - The rest is cut at every comma, ignoring quotes.
  - Each item is cut at every `=`. The key is the text before the first `=`
    and the value is the text up to the second.
  - All leading and trailing quotes are trimmed from the value.
  - Only `realm` and `service` items that have a value, and `scope` items,
    are accepted. Any other item fails the whole login.
  - When an item repeats, the last one wins. A missing realm is left empty.
- **The catalog request** (`get_catalog`). It sends `GET <base>/v2/_catalog`,
  adding `?n=<limit>` when a limit is given. A non-200 status and an
  undecodable body are both reported as the status error.
- **The records**: `Client`, `TokenAuth`, `Catalog`, `ApiError`, `Errors`.

How the model is built:

- Networking is replaced by values. Each operation takes the reply its
  request would receive, or a transport failure.
- Each operation returns a `Call`: the list of requests it sent, and its
  result.
- hyper's URL check and serde's deserialisation are parameters (`uriOk`,
  `decodeToken`, `decodeCatalog`).
- Header lookup follows hyper:
  - names match without regard to ASCII case;
  - the lines of one name stay in arrival order;
  - `Raw::one` gives a value only for a single line;
  - `raw == "text"` holds for one line equal to the UTF-8 bytes of the text.
- `String::from_utf8` is a validating UTF-8 decoder, following table 3-7 of
  the Unicode Standard. It is proved to be the exact inverse of the encoder,
  in both directions.

Modules:

- `Wrappers`: `Option` and `Result`.
- `Text`:
  - `split`/`join`, with `Split` and `Join` proved mutual inverses;
  - `trim_start_matches` and `trim_matches`;
  - decimal formatting of the catalog limit, and parsing it back.
- `Utf8`: the encoder and decoder, and both round trips.
- `Http`: responses, header lines, the typed outgoing request.
- `ClientErrors`: the error kinds.
- `Challenge`: the challenge reading and the token endpoint.
- `Registry`: the client operations.

## Model

| member | source | states |
|---|---|---|
| Registry.NewRequest | src/v2/mod.rs:43-54 | a request presents the held token as Bearer credential exactly when the client holds one, carries the configured user agent, and keeps the method and URL it was given |
| Registry.SupportsV2 | src/v2/mod.rs:56-70 | the probe response means "v2 supported" iff its status is 200 or 401 and the API-version header arrived as exactly one line equal to `registry/2.0`; any other status, a missing header, or a repeated header is a no |
| Registry.SupportsV2IgnoresOtherHeaders | src/v2/mod.rs:64-69 | adding a header line of another name never changes the answer |
| Registry.IsV2Supported | src/v2/mod.rs:56-73 | an invalid base URL fails with the URL error before any request is sent; otherwise exactly one signed request goes to `<base>/v2/`, only a transport failure is an error, and it is the transport error, and the answer is true exactly under the SupportsV2 condition |
| Registry.IsAuth | src/v2/mod.rs:75-85 | same request and error behaviour as the v2 probe: the URL error before sending, the transport error for no reply; the answer is true exactly when the status is 200 |
| Registry.ProbeDecision | src/v2/mod.rs:95-104 | no `www-authenticate` line means a missing-header error, more than one line means a multiple-headers error, whatever the status; with exactly one line, 200 needs no token, 401 hands the line's bytes on as the challenge, and any other status is an unexpected-status error |
| Registry.TokenRequest | src/v2/mod.rs:127-134 | the token request goes to the given URL, carries the configured user name and password as Basic credentials exactly when credentials are configured, presents no Bearer token and carries no user agent |
| Registry.Exchange | src/v2/mod.rs:136-159 | the exchange succeeds iff the token reply is a 200 whose body deserialises, and then only the client's token changes, to that body's token; a non-200 reply is the status error |
| Registry.Login | src/v2/mod.rs:87-161 | at most two requests are sent; none exactly when the base URL is invalid, and then the result is the invalid-URL error; the first is the signed probe and the second the token request; Basic credentials appear only on the second request; a successful login changes nothing but the token, leaves the client as it was when it sent a single request, and otherwise stores the token of a 200 token reply |
| Registry.LoginNeedsHeaderFirst | src/v2/mod.rs:95-101 | a probe reply without the header fails login with the missing-header error after one request, even with status 200 |
| Registry.LoginRejectsRepeatedHeader | src/v2/mod.rs:95-99 | a header sent as several lines fails login after one request, whatever the status |
| Registry.LoginWithoutChallenge | src/v2/mod.rs:100-104 | with the header present once, a 200 probe returns the client unchanged after one request, and a status other than 200 or 401 is an unexpected-status error |
| Registry.LoginBadChallenge | src/v2/mod.rs:105-115 | a challenge that is not UTF-8 or holds an unaccepted item fails login after the probe alone, with the UTF-8 error exactly when the bytes are not UTF-8 |
| Registry.LoginBadTokenEndpoint | src/v2/mod.rs:118-124 | an invalid token endpoint fails login after the probe alone |
| Registry.LoginStoresToken | src/v2/mod.rs:118-160 | for any well-formed challenge and any 200 token reply whose body deserialises, exactly the probe and a token request to the endpoint built from the challenge are sent, and the client's token becomes the reply's token, whatever it held before |
| Registry.LoginProbeUnanswered | src/v2/mod.rs:92-94 | a probe that gets no response fails login with the transport error after that one request |
| Registry.LoginExchangeFails | src/v2/mod.rs:135-158 | after the token request is sent, no response gives the transport error and a 200 whose body does not deserialise gives the deserialisation error; either way the requests sent are the probe and then the token request to the endpoint built from the challenge and the scopes, and the client keeps its token |
| Registry.LoginTokenRefused | src/v2/mod.rs:136-142 | a token reply other than 200 fails login after the probe and the token request to the endpoint built from the challenge and the scopes, and the client keeps its old token |
| Registry.LoginThenSign | src/v2/mod.rs:43-54 | login changes only the token, only through a successful exchange, and every request signed afterwards presents the new token |
| Registry.CatalogUrl | src/v2/mod.rs:164-168 | the catalog URL starts with `<base>/v2/_catalog`, is exactly that when no limit is given, and otherwise continues with `?n=` |
| Registry.CatalogUrlRoundTrip | src/v2/mod.rs:164-170 | the limit, or its absence, can be read back from the catalog URL, so different limits give different URLs |
| Registry.GetCatalog | src/v2/mod.rs:163-195 | one signed request to the catalog URL unless that URL is invalid, which is the URL error; success iff the reply is a 200 whose body deserialises, with that catalog as the result; a reply that never arrives is the transport error, and any reply that arrived but failed is the status error |
| Challenge.Parse | src/v2/mod.rs:105 | the challenge fails with the UTF-8 error exactly when its bytes are not well-formed UTF-8, and otherwise is the reading of the decoded text; no other error than the UTF-8 error and the unsupported-key error can come out |
| Challenge.Items | src/v2/mod.rs:108 | the items hold no comma and, joined back with commas, give the challenge text with every leading `Bearer ` removed, which does not itself start with `Bearer ` |
| Challenge.Classify | src/v2/mod.rs:109-115 | an item is a realm item iff it starts with `realm=`, a service item iff it starts with `service=`, a scope item iff it is `scope` or starts with `scope=`, and unsupported otherwise; a realm or service value has no quote at either end |
| Challenge.ClassifyValue | src/v2/mod.rs:109-113 | the value kept from a realm item is the text after `realm=` up to the next `=`, and from a service item the text after `service=` up to the next `=`, each with only runs of double quotes taken off its two ends |
| Challenge.Fold | src/v2/mod.rs:106-116 | the item loop succeeds iff no item is unsupported, and its only error is the unsupported-key error |
| Challenge.ParseText | src/v2/mod.rs:106-116 | the reading succeeds iff every item is an accepted realm, service or scope item; it fails only with the unsupported-key error; on success the realm is the value of the last realm item, or empty if there is none, and the service is the value of the last service item, if any |
| Challenge.FoldRealm | src/v2/mod.rs:106-111 | on success the realm is the last realm value seen, or the starting realm when there is none |
| Challenge.FoldService | src/v2/mod.rs:107-112 | on success the service is the last service value seen, or the starting service when there is none |
| Challenge.ItemFields | src/v2/mod.rs:109-110 | an item `k=v` followed by nothing or by a further `=…` has key `k` and value `v`: text after a second `=` is dropped |
| Challenge.RenderRoundTrip | src/v2/mod.rs:108-116 | a challenge written as a registry writes it, with plain realm and service values, reads back as exactly that realm and service, whatever the scopes that hold no comma |
| Challenge.BearerPrefixOptional | src/v2/mod.rs:108 | a leading `Bearer ` changes nothing about the reading |
| Challenge.QuotedCommaRejected | src/v2/mod.rs:108-114 | a quoted scope holding a comma is cut at that comma, and the piece after it fails the whole reading as an unsupported key |
| Challenge.SpaceAfterCommaRejected | src/v2/mod.rs:108-114 | keys are not trimmed: a space after a comma makes the next item unsupported |
| Challenge.MissingRealmIsEmpty | src/v2/mod.rs:106-112 | a challenge without a realm reads as the empty realm, not as an error |
| Challenge.BuildTokenEndpoint | src/v2/mod.rs:118-123 | the string built by appending the service query, then one scope query per scope, equals the token endpoint |
| Challenge.ScopeQueryRecoversScopes | src/v2/mod.rs:121-123 | cutting the scope part of the endpoint at `&` gives back one `scope=<sc>` per requested scope, in order, when no scope holds `&` |
| Challenge.TokenEndpoint | src/v2/mod.rs:118-123 | the endpoint starts with the realm, which is followed by `?` exactly when a service was read, otherwise by `&` when there is a scope, and is the realm alone when there is neither |
| Challenge.TokenEndpointRecovers | src/v2/mod.rs:118-123 | cutting the whole endpoint at `&` gives back the realm followed by `?service=<sv>` when a service was read, then one `scope=<sc>` per requested scope in order, when none of them holds `&` |
| Text.SplitJoin | src/v2/mod.rs:108-109 | `split` undoes joining pieces that do not hold the separator |
| Text.Split | src/v2/mod.rs:108-109 | the pieces of a split hold no separator, glue back to the input, and there is a single piece exactly when the separator does not occur |
| Text.TrimStartMatches | src/v2/mod.rs:108 | the result no longer starts with the prefix; an empty prefix removes nothing |
| Text.TrimStartMatchesShape | src/v2/mod.rs:108 | what was removed is a whole number of copies of the prefix |
| Text.TrimStartMatchesRepeat | src/v2/mod.rs:108 | any number of copies of the prefix in front of a text that does not start with it are removed, and nothing more |
| Text.TrimMatches | src/v2/mod.rs:111-112 | the result neither starts nor ends with the trimmed character |
| Text.TrimMatchesShape | src/v2/mod.rs:111-112 | what was trimmed on either side is a run of the trimmed character |
| Text.TrimMatchesUnwraps | src/v2/mod.rs:111-112 | a value that neither starts nor ends with the character comes back unchanged from any number of surrounding copies |
| Text.ParseDecimalOfDecimal | src/v2/mod.rs:166-167 | the decimal form of the limit reads back as the same number |
| Utf8.Decode | src/v2/mod.rs:105 | accepted bytes decode to between a quarter of their length and their length in characters, and only the empty sequence decodes to the empty text |
| Utf8.DecodeEncode | src/v2/mod.rs:105 | decoding the UTF-8 encoding of any text gives that text back |
| Utf8.EncodeDecode | src/v2/mod.rs:105 | every byte sequence the decoder accepts is the encoding of what it decodes to |
| Http.Lines | src/v2/mod.rs:95-96 | the lines found under a name are there exactly when some header has that name, up to ASCII case, and each is the value of such a header |
| Http.LinesAppend | src/v2/mod.rs:95-96 | the lines of one name keep their arrival order |

## Left out

- Networking is not modelled. This covers hyper's client, the tokio reactor
  (`Core::new`, `tcore.run`), TLS and the streaming of bodies. Replies are
  parameters, and a transport failure is one value (`TransportFailed`).
- `hyper::Uri::from_str` is not modelled: its verdict is the parameter
  `uriOk`.
- serde_json deserialisation of `TokenAuth` and `Catalog` is not modelled:
  the decoders are the parameters `decodeToken` and `decodeCatalog`.
- Registry.Exchange: its `requires BodyIsText` stands for the
  `String::from_utf8(..).unwrap()` on a 200 body. The source panics there,
  and panics are not modelled, so a 200 token reply must carry UTF-8.
- Registry.GetCatalog: its `requires BodyIsText` stands for the same unwrap,
  for the same reason.
- Registry.Login: its `requires BodyIsText` stands for the same unwrap, for
  the same reason.
- The `hclient` field and `configure`/`Config` (the builder in `config.rs`)
  are not part of this model. Client values are built directly.
- `is_v2_supported`, `is_auth` and `get_catalog` return futures. Their
  outcome is modelled as an immediate result: nothing about laziness or
  scheduling is stated.
- The submodules for manifests, tags and blobs are not part of this model.
  Nor are the registry's error envelope (`ApiError`, `Errors`), beyond the
  record shapes.
- `trace!` logging is not modelled.
- Error messages are not modelled. Each failure is a constructor of
  `ClientErrors.Error`, without the message text or the wrapped library
  error.
- A challenge without a realm is read as the empty realm, not as an error,
  so the token endpoint then starts with `?service=` or `&scope=`, or is
  empty.
- Kept as the code does it, though a reader of section 3 of RFC 6750 might
  expect otherwise:
  - any challenge item other than realm, service or scope fails the login;
  - the status is checked only after the header checks, so a 200 probe
    without a `www-authenticate` header fails the login.
- The catalog request asks for one page only: the program follows no `Link`
  header, so there is no pagination to model.
- Challenge.ParseText: states the reading over the classified items.
  It does not state it over the raw text. The cutting into items is stated
  by Challenge.Items, and what each item says, its unquoted value included,
  by Challenge.Classify and Challenge.ClassifyValue.
