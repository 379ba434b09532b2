# Delegate script of the Amsterdam IIIF image server, in Dafny

The image server (Cantaloupe, an IIIF Image API server) loads a Ruby
"delegate script", `config/delegates.rb`, and calls the hooks of its
`CustomDelegate` class on every request. The host fills in a request context
first. The hooks then decide three things:

- whether the request is authorized (always, in this version);
- which source to read the image from (`FilesystemSource` or `HttpSource`,
  chosen by the `USE_LOCAL_SOURCE` environment variable);
- where the image is in that source. This is a path under `/images/` for the
  filesystem. For HTTP it is a URI built from a per-namespace template; the
  `edepot` namespace also gets an `Authorization` header.

The identifier has the form `namespace:local-id` and is split on its first
colon. For `edepot` identifiers, `$` stands for `/` and the result is
percent-decoded.

The model consists of pure functions over the identifier and the two
environment variables the script reads. Each variable is an
`Option<string>`, and `None` means unset.

- `wrappers.dfy`: `Option`, standing for Ruby's `nil`.
- `uri_escape.dfy`: Ruby's `URI.decode`, a single left-to-right pass that
  turns every `%HH` into the octet `HH` and copies everything else. Beside it
  is an encoder for unreserved characters (section 2.3 of RFC 3986). The
  decoder is proved to be its left inverse.
- `delegates.dfy`: the hooks and the constants `IMAGES_DIR` (`/images/`),
  `IMAGES_EDEPOT_LOCAL_DIR` (`/images/edepot/`) and `PLACEHOLDER_IMAGE`
  (`duckhorse.jpg`), plus the three base URIs of the HTTP templates.
- `host.dfy`: how the host composes the hooks for one request, as the
  harness `config/delegates_test.rb` does. It calls `authorize`, then
  `source`, then the location hook of that source, and takes the URL from
  the `uri` field when the result is a hash.

Facts about this version of the code that the model keeps as written:

- An identifier without a colon has the whole identifier as its local id,
  because `parts.last` of a one-element split is that element.
- The source depends on `USE_LOCAL_SOURCE` alone. It is `HttpSource` exactly
  when the flag is the string `false`.
- The `edepot` filesystem path is always the placeholder image.
- `authorize` returns `true` and reads no whitelist or role header.

## Model

| member | source | states |
|---|---|---|
| `Delegates.IndexOf` | config/delegates.rb:87 | the position found holds the separator and none comes before it; `None` exactly when the separator does not occur |
| `Delegates.SplitOnce` | config/delegates.rb:87 | `split(':', 2)`: no fields exactly for the empty string; one field, the whole string, exactly when there is no colon; otherwise two fields, the first colon-free, that rejoin with the colon to the input |
| `Delegates.IdentifierParts` | config/delegates.rb:85-89 | `None` exactly for the empty identifier; with a colon, a colon-free namespace and a local id such that `namespace + ":" + local` is the identifier; without one, both parts are the whole identifier |
| `Delegates.PartsOfJoined` | config/delegates.rb:85-89 | for a colon-free namespace, `namespace:local` splits back into exactly that namespace and local id, so later colons stay in the local id |
| `Delegates.PartsOfBare` | config/delegates.rb:87-88 | an identifier without a colon is both its namespace and its local id |
| `Delegates.EdepotNamespace` | config/delegates.rb:85-89 | the namespace is `edepot` exactly for the identifier `edepot` itself and for identifiers starting with `edepot:` |
| `Delegates.EdepotSplitExample` | config/delegates.rb:85-89 | `edepot:SA$00037$SA00000244_00002.jpg` splits into `edepot` and `SA$00037$SA00000244_00002.jpg` |
| `Delegates.DecodeEdepotIdentifier` | config/delegates.rb:91-93 | keeps the length; position by position, every `$` becomes `/` and every other character stays |
| `Delegates.DecodeEdepotProperties` | config/delegates.rb:91-93 | the output has no `$`; a `$`-free input is unchanged; decoding is idempotent |
| `Delegates.EdepotDecodeExample` | config/delegates.rb:91-93 | `SA$00037$x.jpg` decodes to `SA/00037/x.jpg` |
| `Delegates.Authorize` | config/delegates.rb:123-128 | every request is authorized |
| `Delegates.ExtraIiif2InformationResponseKeys` | config/delegates.rb:138-155 | no key is added to the information response |
| `Delegates.Redactions` | config/delegates.rb:305-307 | no region is redacted |
| `Delegates.Source` | config/delegates.rb:157-171 | `HttpSource` exactly when `USE_LOCAL_SOURCE` is the string `false`; `FilesystemSource` for any other value and when unset |
| `Delegates.SourceIgnoresIdentifier` | config/delegates.rb:157-171 | two requests with the same environment get the same source whatever their identifiers |
| `Delegates.FilesystemSourcePathname` | config/delegates.rb:185-200 | every path starts with `/images/`; the `edepot` namespace gets `/images/edepot/duckhorse.jpg`; any other namespace gets `/images/` followed by the whole original identifier |
| `Delegates.FilesystemPathnameByPrefix` | config/delegates.rb:190-199 | the same two cases in terms of the raw identifier: `edepot` or an `edepot:` prefix gives the placeholder, anything else `/images/` plus the identifier |
| `Delegates.FilesystemPathnameInjective` | config/delegates.rb:197-199 | outside the `edepot` namespace, two identifiers get the same path exactly when they are equal |
| `Delegates.HttpSourceResourceInfo` | config/delegates.rb:216-236 | a result exactly for a non-empty identifier whose namespace is `objectstore`, `beeldbank` or `edepot`; for `objectstore` and `beeldbank`, the template's base followed by the local id verbatim; for `edepot`, a hash whose `uri` is the edepot base followed by the percent-decoding of the local id with `$` read as `/`, and whose only header is `Authorization`, mapped to `HCP_AUTHORIZATION` |
| `Delegates.ObjectstoreResourceInfo` | config/delegates.rb:221-222 | `objectstore:<id>` gives the object store base URI followed by `<id>` verbatim |
| `Delegates.BeeldbankResourceInfo` | config/delegates.rb:223-224 | `beeldbank:<id>` gives the download URI with `<id>` verbatim as its `id` query value |
| `Delegates.EdepotResourceInfo` | config/delegates.rb:225-234 | `edepot:<id>` gives the edepot base URI followed by the percent-decoding of `<id>` with `$` read as `/`, and the single `Authorization` header carrying the secret |
| `Delegates.EdepotDollarPath` | config/delegates.rb:225-230 | an edepot id without `%` reaches the edepot with only its `$` turned into `/` |
| `Delegates.EdepotEncodedPath` | config/delegates.rb:225-230 | an edepot id that is the percent-encoding of a path reaches the edepot as exactly that path |
| `Delegates.BareObjectstoreResourceInfo` | config/delegates.rb:220-222 | the colon-free identifier `objectstore` is its own local id and gives the object store base followed by `objectstore` |
| `Delegates.BareBeeldbankResourceInfo` | config/delegates.rb:223-224 | the colon-free identifier `beeldbank` gives the download URI with `beeldbank` as its `id` value |
| `Delegates.BareEdepotResourceInfo` | config/delegates.rb:225-234 | the colon-free identifier `edepot` gives the edepot base followed by `edepot`, with the single `Authorization` header |
| `Delegates.UnknownNamespaceNotFound` | config/delegates.rb:220-236 | any other namespace gives no resource info (the `case` has no `else`) |
| `UriEscape.PercentDecode` | config/delegates.rb:227 | the output is never longer than the input; an input without a well-formed `%HH` is unchanged; one with a well-formed `%HH` gets strictly shorter |
| `UriEscape.DecodeEncode` | config/delegates.rb:227 | decoding the percent-encoding of any string gives that string back |
| `UriEscape.DecodeIsSinglePass` | config/delegates.rb:227 | decoding is one pass: `%2541` decodes to `%41`, and only a second decoding gives `A` |
| `Host.HandleRequest` | config/delegates_test.rb:40-60 | a request is never forbidden; it resolves to a file exactly when the source is the filesystem, and that file is the path `filesystemsource_pathname` returns; an HTTP location is what `httpsource_resource_info` returned; it is not found exactly when the source is HTTP and `httpsource_resource_info` returned `nil` |
| `Host.ResponseUrl` | config/delegates_test.rb:64-68 | there is a URL exactly when a location was found: the path of a file, and the URI string or the hash's `uri` field of an HTTP location |
| `Host.LocalSourceAlwaysFound` | config/delegates_test.rb:54-57 | unless `USE_LOCAL_SOURCE` is `false`, every identifier resolves to a file whose path starts with `/images/` |
| `Host.HttpSourceFoundIff` | config/delegates_test.rb:58-59 | with the HTTP source, a request is found exactly when its namespace has a URI template, and then it is a remote location |
| `Host.ObjectstoreEndToEnd` | config/delegates_test.rb:54-70 | `objectstore:<id>` with the HTTP source yields the URL `<objectstore base><id>` |
| `Host.EdepotEndToEnd` | config/delegates_test.rb:54-68 | `edepot:<id>` is fetched from the edepot with the secret header under the HTTP source, and gets the placeholder image under the local source |

## Left out

- Logging (`log`, the Java logger lookup): output only. The `log` calls are dropped.
- Reading `ENV`: `USE_LOCAL_SOURCE` and `HCP_AUTHORIZATION` are parameters of the hooks.
- Delegates.Source: requires a non-empty identifier. In Ruby, `"".split(':', 2)` is `[]`, so both parts are `nil`, and the trace log's `'...' + nil` raises. That crash is not modelled.
- Delegates.FilesystemSourcePathname: requires a non-empty identifier, for the same reason (its first log line raises on a `nil` namespace). `httpsource_resource_info` does not log, returns `nil` for the empty identifier, and is modelled without that requirement.
- Delegates.FilesystemSourcePathname: the `identifier.split('$')` in the `edepot` branch only feeds a log line, so it is not modelled.
- UriEscape.PercentDecode: `%HH` becomes the character with code `HH`. Reassembling multi-byte UTF-8 sequences and the string's encoding tag are not modelled.
- UriEscape.PercentEncode: characters beyond one octet are copied, not encoded as UTF-8 bytes.
- Request context keys other than `identifier` (`client_ip`, `cookies`, `request_headers`, sizes and operations): no hook reads them.
- The stub hooks `azurestoragesource_blob_key`, `jdbcsource_database_identifier`, `jdbcsource_media_type`, `jdbcsource_lookup_sql`, `s3source_object_info` and `overlay`: they have empty bodies, return `nil` and hold no logic.
- The richer authorization verdict (a hash with a status code, redirect or challenge): it is only documented in the comment at `config/delegates.rb:102-119`, and this version of `authorize` returns `true`. The whitelist logic was removed from `authorize` (`config/delegates.rb:124-126`).
- The host's choice of hook by source name: it becomes a `match` on `SourceKind`.
- The harness's argument checks, its `raise`s and its output (`config/delegates_test.rb:1-24`, `41-48`, `70-77`).
