/**
  The delegate script of the image server (`CustomDelegate`): the hooks the
  IIIF host calls on every request to authorize it, to choose a storage
  source and to locate the image in that source.

  The request context is the host-supplied hash; only its `identifier` key is
  read. The two environment variables the script reads (`USE_LOCAL_SOURCE`
  and `HCP_AUTHORIZATION`) are passed in explicitly; `None` means unset.
*/
module Delegates {
  import opened Wrappers
  import UriEscape

  const IMAGES_DIR: string := "/images/"
  const IMAGES_EDEPOT_LOCAL_DIR: string := IMAGES_DIR + "edepot/"
  const PLACEHOLDER_IMAGE: string := "duckhorse.jpg"

  const OBJECTSTORE_BASE: string := "https://f8d5776e78674418b6f9a605807e069a.objectstore.eu/Images/"
  const BEELDBANK_BASE: string := "https://beeldbank.amsterdam.nl/component/ams_memorixbeeld_download/?format=download&id="
  const EDEPOT_BASE: string := "https://bwt.uitplaatsing.hcp-a.basis.lan/rest/"
  const AUTHORIZATION_HEADER: string := "Authorization"

  /** The namespaces the HTTP source knows a URI template for. */
  const HTTP_NAMESPACES: set<string> := {"objectstore", "beeldbank", "edepot"}

  /** The request context, as far as the hooks read it. */
  datatype Context = Context(identifier: string)

  /** The process environment, as far as the hooks read it. */
  datatype Environment = Environment(useLocalSource: Option<string>, hcpAuthorization: Option<string>)

  /** The source names the `source` hook answers with. */
  datatype SourceKind = FilesystemSource | HttpSource

  /**
    What the HTTP source is told: either a plain URI string, or a hash with a
    `uri` and request `headers` (a header value is `None` when the variable it
    is read from is unset).
  */
  datatype ResourceInfo =
    | UriString(uri: string)
    | UriWithHeaders(uri: string, headers: map<string, Option<string>>)

  /** A region to black out (the `x`, `y`, `width`, `height` hash). */
  datatype Redaction = Redaction(x: nat, y: nat, width: nat, height: nat)

  /** The namespace part and the local part of an identifier. */
  datatype Parts = Parts(namespace: string, local: string)

  /** Position of the first occurrence of `c` in `s`, if any. */
  function IndexOf(s: string, c: char): (r: Option<nat>)
    ensures r.Some? ==> r.value < |s| && s[r.value] == c && c !in s[..r.value]
    ensures r.None? <==> c !in s
  {
    if s == [] then None
    else if s[0] == c then Some(0)
    else match IndexOf(s[1..], c)
      case None => None
      case Some(k) =>
        assert s[..k + 1] == [s[0]] + s[1..][..k];
        Some(k + 1)
  }

  /**
    Ruby's `s.split(sep, 2)`: the empty string gives no fields; otherwise the
    string is cut at the first `sep` only, and a trailing empty field is kept.
  */
  function SplitOnce(s: string, sep: char): (parts: seq<string>)
    ensures parts == [] <==> s == []
    ensures |parts| <= 2
    ensures |parts| == 1 <==> s != [] && sep !in s
    ensures |parts| == 1 ==> parts[0] == s
    ensures |parts| == 2 ==> sep !in parts[0] && parts[0] + [sep] + parts[1] == s
  {
    if s == [] then []
    else match IndexOf(s, sep)
      case None => [s]
      case Some(k) =>
        assert s[..k] + [sep] + s[k + 1..] == s;
        [s[..k], s[k + 1..]]
  }

  /**
    `identifier_parts`: the first and the last field of the identifier split on
    its first colon; `None` (both parts `nil`) for the empty identifier.
  */
  function IdentifierParts(ctx: Context): (p: Option<Parts>)
    ensures p.None? <==> ctx.identifier == ""
    ensures p.Some? && ':' in ctx.identifier ==>
      ':' !in p.value.namespace && p.value.namespace + ":" + p.value.local == ctx.identifier
    ensures p.Some? && ':' !in ctx.identifier ==>
      p.value.namespace == ctx.identifier && p.value.local == ctx.identifier
  {
    var parts := SplitOnce(ctx.identifier, ':');
    if parts == [] then None else Some(Parts(parts[0], parts[|parts| - 1]))
  }

  /** The split is determined: a colon-free prefix followed by a colon is the namespace. */
  lemma {:induction false} PartsOfJoined(namespace: string, local: string)
    requires ':' !in namespace
    ensures IdentifierParts(Context(namespace + ":" + local)) == Some(Parts(namespace, local))
  {
    var id := namespace + ":" + local;
    assert id[|namespace|] == ':';
    var k := IndexOf(id, ':').value;
    assert k == |namespace|;
    assert id[..k] == namespace;
    assert id[k + 1..] == local;
  }

  /** An identifier without a colon is both its own namespace and its own local id. */
  lemma PartsOfBare(identifier: string)
    requires identifier != "" && ':' !in identifier
    ensures IdentifierParts(Context(identifier)) == Some(Parts(identifier, identifier))
  {
  }

  /** The namespace is `edepot` exactly for `edepot` itself and for identifiers starting `edepot:`. */
  lemma EdepotNamespace(ctx: Context)
    requires ctx.identifier != ""
    ensures IdentifierParts(ctx).value.namespace == "edepot" <==>
      ctx.identifier == "edepot" || "edepot:" <= ctx.identifier
  {
    var id := ctx.identifier;
    var p := IdentifierParts(ctx).value;
    if "edepot:" <= id {
      assert id == "edepot" + ":" + id[7..];
      PartsOfJoined("edepot", id[7..]);
    }
  }

  /** `decode_edepot_identifier`: every `$` becomes `/`. */
  function DecodeEdepotIdentifier(s: string): (r: string)
    ensures |r| == |s|
    ensures forall i :: 0 <= i < |s| ==> r[i] == (if s[i] == '$' then '/' else s[i])
  {
    if s == [] then [] else [if s[0] == '$' then '/' else s[0]] + DecodeEdepotIdentifier(s[1..])
  }

  lemma DecodeEdepotProperties(s: string)
    ensures '$' !in DecodeEdepotIdentifier(s)
    ensures '$' !in s ==> DecodeEdepotIdentifier(s) == s
    ensures DecodeEdepotIdentifier(DecodeEdepotIdentifier(s)) == DecodeEdepotIdentifier(s)
  {
  }

  /** `authorize`: every request is authorized (access control is left to a proxy in front). */
  function Authorize(ctx: Context): (authorized: bool)
    ensures authorized
  {
    true
  }

  /** `extra_iiif2_information_response_keys`: nothing is added to the information response. */
  function ExtraIiif2InformationResponseKeys(ctx: Context): (keys: map<string, string>)
    ensures keys == map[]
  {
    map[]
  }

  /** `redactions`: no region is ever redacted. */
  function Redactions(ctx: Context): (regions: seq<Redaction>)
    ensures regions == []
  {
    []
  }

  /**
    `source`: the HTTP source exactly when `USE_LOCAL_SOURCE` is the string
    `false`; the filesystem when it is anything else or unset.
  */
  function Source(ctx: Context, env: Environment): (kind: SourceKind)
    requires ctx.identifier != ""
    ensures kind == HttpSource <==> env.useLocalSource == Some("false")
  {
    if env.useLocalSource == Some("false") then HttpSource else FilesystemSource
  }

  /** The identifier plays no part in the choice of source. */
  lemma SourceIgnoresIdentifier(ctx1: Context, ctx2: Context, env: Environment)
    requires ctx1.identifier != "" && ctx2.identifier != ""
    ensures Source(ctx1, env) == Source(ctx2, env)
  {
  }

  /**
    `filesystemsource_pathname`: the placeholder image for the `edepot`
    namespace, otherwise the images directory followed by the whole original
    identifier (namespace included).
  */
  function FilesystemSourcePathname(ctx: Context): (path: string)
    requires ctx.identifier != ""
    ensures IMAGES_DIR <= path
    ensures IdentifierParts(ctx).value.namespace == "edepot" ==> path == IMAGES_EDEPOT_LOCAL_DIR + PLACEHOLDER_IMAGE
    ensures IdentifierParts(ctx).value.namespace != "edepot" ==> path[|IMAGES_DIR|..] == ctx.identifier
  {
    var parts := IdentifierParts(ctx).value;
    if parts.namespace == "edepot" then IMAGES_EDEPOT_LOCAL_DIR + PLACEHOLDER_IMAGE
    else IMAGES_DIR + ctx.identifier
  }

  /** The path in terms of the raw identifier. */
  lemma FilesystemPathnameByPrefix(ctx: Context)
    requires ctx.identifier != ""
    ensures ctx.identifier == "edepot" || "edepot:" <= ctx.identifier ==>
      FilesystemSourcePathname(ctx) == IMAGES_EDEPOT_LOCAL_DIR + PLACEHOLDER_IMAGE
    ensures !(ctx.identifier == "edepot" || "edepot:" <= ctx.identifier) ==>
      FilesystemSourcePathname(ctx) == IMAGES_DIR + ctx.identifier
  {
    EdepotNamespace(ctx);
  }

  /** Outside the `edepot` namespace distinct identifiers get distinct paths. */
  lemma FilesystemPathnameInjective(ctx1: Context, ctx2: Context)
    requires ctx1.identifier != "" && ctx2.identifier != ""
    requires IdentifierParts(ctx1).value.namespace != "edepot"
    requires IdentifierParts(ctx2).value.namespace != "edepot"
    ensures FilesystemSourcePathname(ctx1) == FilesystemSourcePathname(ctx2) <==> ctx1 == ctx2
  {
  }

  /**
    `httpsource_resource_info`: a URI built from the per-namespace template,
    or `None` for a namespace without one (and for the empty identifier,
    whose namespace is `nil`).
  */
  function HttpSourceResourceInfo(ctx: Context, env: Environment): (info: Option<ResourceInfo>)
    ensures info.Some? <==> ctx.identifier != "" && IdentifierParts(ctx).value.namespace in HTTP_NAMESPACES
    ensures ctx.identifier != "" && IdentifierParts(ctx).value.namespace == "objectstore" ==>
      info == Some(UriString(OBJECTSTORE_BASE + IdentifierParts(ctx).value.local))
    ensures ctx.identifier != "" && IdentifierParts(ctx).value.namespace == "beeldbank" ==>
      info == Some(UriString(BEELDBANK_BASE + IdentifierParts(ctx).value.local))
    ensures ctx.identifier != "" && IdentifierParts(ctx).value.namespace == "edepot" ==>
      info == Some(UriWithHeaders(
        EDEPOT_BASE + UriEscape.PercentDecode(DecodeEdepotIdentifier(IdentifierParts(ctx).value.local)),
        map[AUTHORIZATION_HEADER := env.hcpAuthorization]))
  {
    match IdentifierParts(ctx)
    case None => None
    case Some(Parts(namespace, local)) =>
      if namespace == "objectstore" then Some(UriString(OBJECTSTORE_BASE + local))
      else if namespace == "beeldbank" then Some(UriString(BEELDBANK_BASE + local))
      else if namespace == "edepot" then
        var edepotIdentifier := DecodeEdepotIdentifier(local);
        var uri := UriEscape.PercentDecode(edepotIdentifier);
        Some(UriWithHeaders(EDEPOT_BASE + uri, map[AUTHORIZATION_HEADER := env.hcpAuthorization]))
      else None
  }

  /** `objectstore:<id>` gives the object store URI with `<id>` appended verbatim. */
  lemma ObjectstoreResourceInfo(local: string, env: Environment)
    ensures HttpSourceResourceInfo(Context("objectstore:" + local), env) == Some(UriString(OBJECTSTORE_BASE + local))
  {
    assert "objectstore:" + local == "objectstore" + ":" + local;
    PartsOfJoined("objectstore", local);
  }

  /** `beeldbank:<id>` gives the download URI with `<id>` as the query value, verbatim. */
  lemma BeeldbankResourceInfo(local: string, env: Environment)
    ensures HttpSourceResourceInfo(Context("beeldbank:" + local), env) == Some(UriString(BEELDBANK_BASE + local))
  {
    assert "beeldbank:" + local == "beeldbank" + ":" + local;
    PartsOfJoined("beeldbank", local);
    assert "beeldbank"[0] != "objectstore"[0];
  }

  /** `edepot:<id>` gives the edepot URI of the decoded id, with the secret as the only header. */
  lemma EdepotResourceInfo(local: string, env: Environment)
    ensures HttpSourceResourceInfo(Context("edepot:" + local), env) ==
      Some(UriWithHeaders(EDEPOT_BASE + UriEscape.PercentDecode(DecodeEdepotIdentifier(local)),
                          map[AUTHORIZATION_HEADER := env.hcpAuthorization]))
  {
    assert "edepot:" + local == "edepot" + ":" + local;
    PartsOfJoined("edepot", local);
    assert "edepot"[0] != "objectstore"[0] && "edepot"[0] != "beeldbank"[0];
  }

  /** A `$`-separated edepot id without `%` reaches the edepot with `$` read as `/`. */
  lemma EdepotDollarPath(local: string, env: Environment)
    requires '%' !in local
    ensures HttpSourceResourceInfo(Context("edepot:" + local), env) ==
      Some(UriWithHeaders(EDEPOT_BASE + DecodeEdepotIdentifier(local), map[AUTHORIZATION_HEADER := env.hcpAuthorization]))
  {
    EdepotResourceInfo(local, env);
  }

  /** A percent-encoded edepot path reaches the edepot exactly as it was before encoding. */
  lemma EdepotEncodedPath(path: string, env: Environment)
    ensures HttpSourceResourceInfo(Context("edepot:" + UriEscape.PercentEncode(path)), env) ==
      Some(UriWithHeaders(EDEPOT_BASE + path, map[AUTHORIZATION_HEADER := env.hcpAuthorization]))
  {
    var local := UriEscape.PercentEncode(path);
    EdepotResourceInfo(local, env);
    DecodeEdepotProperties(local);
    UriEscape.DecodeEncode(path);
  }

  /** Every other namespace is not found. */
  lemma UnknownNamespaceNotFound(namespace: string, local: string, env: Environment)
    requires ':' !in namespace && namespace !in HTTP_NAMESPACES
    ensures HttpSourceResourceInfo(Context(namespace + ":" + local), env) == None
  {
    PartsOfJoined(namespace, local);
  }

  /**
    An identifier that is just a namespace name is its own local id, so it is
    appended to that namespace's template; here `objectstore`.
  */
  lemma BareObjectstoreResourceInfo(ctx: Context, env: Environment)
    requires ctx.identifier == "objectstore"
    ensures HttpSourceResourceInfo(ctx, env) == Some(UriString(OBJECTSTORE_BASE + ctx.identifier))
  {
    assert ':' !in ctx.identifier;
    PartsOfBare(ctx.identifier);
  }

  /** The same for the bare identifier `beeldbank`. */
  lemma BareBeeldbankResourceInfo(ctx: Context, env: Environment)
    requires ctx.identifier == "beeldbank"
    ensures HttpSourceResourceInfo(ctx, env) == Some(UriString(BEELDBANK_BASE + ctx.identifier))
  {
    assert ':' !in ctx.identifier;
    PartsOfBare(ctx.identifier);
  }

  /** The same for the bare identifier `edepot`, which decodes to itself. */
  lemma BareEdepotResourceInfo(ctx: Context, env: Environment)
    requires ctx.identifier == "edepot"
    ensures HttpSourceResourceInfo(ctx, env) ==
      Some(UriWithHeaders(EDEPOT_BASE + ctx.identifier, map[AUTHORIZATION_HEADER := env.hcpAuthorization]))
  {
    var id := ctx.identifier;
    assert ':' !in id && '$' !in id && '%' !in id;
    PartsOfBare(id);
    DecodeEdepotProperties(id);
  }

  /** Worked example: an edepot identifier splits at its colon only. */
  lemma EdepotSplitExample()
    ensures IdentifierParts(Context("edepot:SA$00037$SA00000244_00002.jpg")) ==
      Some(Parts("edepot", "SA$00037$SA00000244_00002.jpg"))
  {
    assert "edepot:SA$00037$SA00000244_00002.jpg" == "edepot" + ":" + "SA$00037$SA00000244_00002.jpg";
    PartsOfJoined("edepot", "SA$00037$SA00000244_00002.jpg");
  }

  /** Worked example: the `$` separators of an edepot id become path separators. */
  lemma EdepotDecodeExample(local: string, decoded: string)
    requires local == "SA$00037$x.jpg"
    requires decoded == "SA/00037/x.jpg"
    ensures DecodeEdepotIdentifier(local) == decoded
  {
    var r := DecodeEdepotIdentifier(local);
    assert |r| == |decoded|;
    forall i | 0 <= i < |local| ensures r[i] == decoded[i] {
    }
  }

}
