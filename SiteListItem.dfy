/** One probe target of the site list: an HTTP method and an absolute
    http or https URI, checked once when the item is built and never
    changed afterwards (the properties have private setters; here the
    item is an immutable datatype value). */
module SiteListItems {
  import opened Wrappers

  /** `System.Net.Http.HttpMethod`: the seven methods the site list can
      name, and any other method a caller may construct. */
  datatype HttpMethod = Delete | Get | Head | Options | Post | Put | Trace | Other(name: string)

  /** `HttpMethod.ToString()`: the method's name. */
  function MethodName(m: HttpMethod): string
  {
    match m
    case Delete => "DELETE"
    case Get => "GET"
    case Head => "HEAD"
    case Options => "OPTIONS"
    case Post => "POST"
    case Put => "PUT"
    case Trace => "TRACE"
    case Other(name) => name
  }

  /** What the model needs of a `System.Uri`: whether it is absolute, its
      scheme and its `AbsoluteUri` text. Uri parsing itself is not modelled. */
  datatype Uri = Uri(isAbsolute: bool, scheme: string, absoluteUri: string)

  /** The exceptions the constructor throws. */
  datatype Error =
    | ArgumentNull(paramName: string)
    | Argument(message: string, paramName: string)
    | NotSupported(message: string)

  datatype SiteListItem = SiteListItem(httpMethod: HttpMethod, uri: Uri)

  /** `Uri.UriSchemeHttps` or `Uri.UriSchemeHttp`, compared ordinally. */
  predicate IsHttpScheme(scheme: string)
  {
    scheme == "https" || scheme == "http"
  }

  predicate IsSupportedUri(uri: Uri)
  {
    uri.isAbsolute && IsHttpScheme(uri.scheme)
  }

  /** What every constructed item satisfies. */
  predicate Valid(item: SiteListItem)
  {
    IsSupportedUri(item.uri)
  }

  /** The constructor `SiteListItem(HttpMethod method, Uri uri)`; None stands
      for a null argument and Failure for the exception thrown. */
  function New(httpMethod: Option<HttpMethod>, uri: Option<Uri>): (r: Result<SiteListItem, Error>)
    ensures uri.None? ==> r == Failure(ArgumentNull("uri"))
    ensures uri.Some? && !uri.value.isAbsolute ==>
      r == Failure(Argument("URI should be absolute.", "uri"))
    ensures uri.Some? && uri.value.isAbsolute && !IsHttpScheme(uri.value.scheme) ==>
      r == Failure(NotSupported("Only HTTPS and HTTP uri supported."))
    ensures r.Success? <==> uri.Some? && IsSupportedUri(uri.value)
    ensures r.Success? ==> Valid(r.value) && r.value.uri == uri.value
    ensures r.Success? && httpMethod.None? ==> r.value.httpMethod == Get
    ensures r.Success? && httpMethod.Some? ==> r.value.httpMethod == httpMethod.value
  {
    match uri
    case None => Failure(ArgumentNull("uri"))
    case Some(u) =>
      if !u.isAbsolute then Failure(Argument("URI should be absolute.", "uri"))
      else if u.scheme != "https" && u.scheme != "http" then
        Failure(NotSupported("Only HTTPS and HTTP uri supported."))
      else
        var m := if httpMethod.None? then Get else httpMethod.value;
        Success(SiteListItem(m, u))
  }

  /** `ToString()`: the method, one space, the absolute URI. */
  function ToString(item: SiteListItem): string
  {
    MethodName(item.httpMethod) + " " + item.uri.absoluteUri
  }

  /** Rebuilding a valid item from its own method and URI gives it back, so
      the constructor accepts exactly the valid items and keeps both parts. */
  lemma NewRebuildsValidItem(item: SiteListItem)
    ensures Valid(item) ==> New(Some(item.httpMethod), Some(item.uri)) == Success(item)
    ensures New(Some(item.httpMethod), Some(item.uri)).Success? <==> Valid(item)
  {
  }

  /** A null method and an explicit GET build the same item. */
  lemma NullMethodIsGet(uri: Option<Uri>)
    ensures New(None, uri) == New(Some(Get), uri)
  {
  }

  /** `ToString` splits back, at its first space, into the method name and the
      absolute URI, as long as the method name holds no space. */
  lemma ToStringSplits(item: SiteListItem)
    requires forall i :: 0 <= i < |MethodName(item.httpMethod)| ==> MethodName(item.httpMethod)[i] != ' '
    ensures var s, n := ToString(item), |MethodName(item.httpMethod)|;
      n < |s| && s[n] == ' ' && (forall i :: 0 <= i < n ==> s[i] != ' ')
      && s[..n] == MethodName(item.httpMethod) && s[n + 1..] == item.uri.absoluteUri
  {
  }
}
