/**
  How the image server composes the delegate's hooks for one request: it asks
  `authorize` first, then `source`, then the location hook of the source it was
  told to use; of an HTTP resource hash only the `uri` is the URL.
*/
module Host {
  import opened Wrappers
  import opened Delegates
  import UriEscape

  /** Where the image is read from. */
  datatype Location = FilePath(path: string) | Remote(info: ResourceInfo)

  /** The outcome of resolving one request. */
  datatype Response = Forbidden | NotFound | Found(location: Location)

  /** Authorize, choose the source, and ask that source's location hook. */
  function HandleRequest(ctx: Context, env: Environment): (r: Response)
    requires ctx.identifier != ""
    ensures r != Forbidden
    ensures r.Found? && r.location.FilePath? <==> Source(ctx, env) == FilesystemSource
    ensures r.Found? && r.location.FilePath? ==> r.location.path == FilesystemSourcePathname(ctx)
    ensures r.Found? && r.location.Remote? ==> Some(r.location.info) == HttpSourceResourceInfo(ctx, env)
    ensures r.NotFound? <==> Source(ctx, env) == HttpSource && HttpSourceResourceInfo(ctx, env).None?
  {
    if !Authorize(ctx) then Forbidden
    else match Source(ctx, env)
      case FilesystemSource => Found(FilePath(FilesystemSourcePathname(ctx)))
      case HttpSource =>
        match HttpSourceResourceInfo(ctx, env)
        case None => NotFound
        case Some(info) => Found(Remote(info))
  }

  /** The URL of a response: the path, the URI string, or the `uri` field of the hash. */
  function ResponseUrl(r: Response): (url: Option<string>)
    ensures url.Some? <==> r.Found?
    ensures r.Found? && r.location.FilePath? ==> url == Some(r.location.path)
    ensures r.Found? && r.location.Remote? ==> url == Some(r.location.info.uri)
  {
    match r
    case Found(FilePath(path)) => Some(path)
    case Found(Remote(UriString(uri))) => Some(uri)
    case Found(Remote(UriWithHeaders(uri, _))) => Some(uri)
    case _ => None
  }

  /** Unless `USE_LOCAL_SOURCE` is `false`, every identifier resolves to a file under the images directory. */
  lemma LocalSourceAlwaysFound(ctx: Context, env: Environment)
    requires ctx.identifier != ""
    requires env.useLocalSource != Some("false")
    ensures HandleRequest(ctx, env).Found?
    ensures HandleRequest(ctx, env).location.FilePath?
    ensures IMAGES_DIR <= ResponseUrl(HandleRequest(ctx, env)).value
  {
  }

  /** With the HTTP source, an identifier is found exactly when its namespace has a URI template. */
  lemma HttpSourceFoundIff(ctx: Context, env: Environment)
    requires ctx.identifier != ""
    requires env.useLocalSource == Some("false")
    ensures HandleRequest(ctx, env).Found? <==> IdentifierParts(ctx).value.namespace in HTTP_NAMESPACES
    ensures HandleRequest(ctx, env).Found? ==> HandleRequest(ctx, env).location.Remote?
  {
  }

  /** End to end: an object store identifier resolves to its object store URL. */
  lemma ObjectstoreEndToEnd(local: string, secret: Option<string>)
    ensures ResponseUrl(HandleRequest(Context("objectstore:" + local), Environment(Some("false"), secret))) ==
      Some(OBJECTSTORE_BASE + local)
  {
    ObjectstoreResourceInfo(local, Environment(Some("false"), secret));
  }

  /**
    End to end: an edepot identifier is fetched from the edepot with the secret
    as its only header, or, with the local source, replaced by the placeholder.
  */
  lemma EdepotEndToEnd(local: string, useLocalSource: Option<string>, secret: Option<string>)
    ensures var env := Environment(useLocalSource, secret);
      HandleRequest(Context("edepot:" + local), env) ==
        if useLocalSource == Some("false") then
          Found(Remote(UriWithHeaders(EDEPOT_BASE + UriEscape.PercentDecode(DecodeEdepotIdentifier(local)),
                                      map[AUTHORIZATION_HEADER := secret])))
        else Found(FilePath(IMAGES_EDEPOT_LOCAL_DIR + PLACEHOLDER_IMAGE))
  {
    var ctx := Context("edepot:" + local);
    EdepotResourceInfo(local, Environment(useLocalSource, secret));
    FilesystemPathnameByPrefix(ctx);
  }

}
