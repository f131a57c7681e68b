/** The client-side helpers that sit between the validators and the HTTP layer: request
    URLs, the upload MIME type, and the order in which `authenticate` checks its input
    before it builds anything.

    Percent-encoding (`urlencoding::encode`) is a parameter of the search URL builder;
    the HTTP exchange itself is not part of this model. */
module Laserfiche {
  import opened Results
  import opened Text
  import opened Validation

  /** The Rust `i32` range of the search paging options. */
  const I32_MIN: int := -0x8000_0000
  const I32_MAX: int := 0x7FFF_FFFF
  type i32 = x: int | I32_MIN <= x <= I32_MAX

  /** A Laserfiche API server: host address and repository name. */
  datatype ApiServer = ApiServer(address: string, repository: string)

  // ---------------------------------------------------------------------------
  // Request URLs
  // ---------------------------------------------------------------------------

  /** The repository root: `https://{address}/LFRepositoryAPI/v1/Repositories/{repository}`. */
  function BuildBaseUrl(server: ApiServer): string {
    "https://" + server.address + "/LFRepositoryAPI/v1/Repositories/" + server.repository
  }

  /** The token endpoint of the repository. */
  function BuildTokenUrl(server: ApiServer): string {
    BuildBaseUrl(server) + "/Token"
  }

  /** The URL of one entry; the id is validated first and an invalid id yields no URL. */
  function BuildEntriesUrl(server: ApiServer, id: i64): (r: Checked<string>)
    ensures r.Ok? <==> 1 <= id <= MAX_ENTRY_ID
    ensures r.Err? ==> r.error == InvalidEntryId(id)
  {
    var validated :- ValidateEntryId(id);
    Ok(BuildBaseUrl(server) + "/Entries/" + IntToDecimal(validated))
  }

  /** The path segments of a URL built on the repository root. */
  function BaseSegments(server: ApiServer): seq<string> {
    ["https:", "", server.address, "LFRepositoryAPI", "v1", "Repositories", server.repository]
  }

  /** One `name=value` query parameter. */
  function Parameter(name: string, value: string): string {
    name + "=" + value
  }

  /** `url.push_str(&format!("&{name}={value}"))`. */
  function AppendParameter(url: string, name: string, value: string): string {
    url + "&" + Parameter(name, value)
  }

  /** The search URL: the query first, then each paging option that is present, in the
      order order-by, select, skip, top. Text values are percent-encoded by `encode`;
      the numbers are written in decimal. */
  function BuildSearchUrl(server: ApiServer, query: string, orderBy: Option<string>, select: Option<string>,
                          skip: Option<i32>, top: Option<i32>, encode: string -> string): string
  {
    var url := BuildBaseUrl(server) + "/Entries/Search?" + Parameter("q", encode(query));
    var url := if orderBy.Some? then AppendParameter(url, "$orderby", encode(orderBy.value)) else url;
    var url := if select.Some? then AppendParameter(url, "$select", encode(select.value)) else url;
    var url := if skip.Some? then AppendParameter(url, "$skip", IntToDecimal(skip.value)) else url;
    if top.Some? then AppendParameter(url, "$top", IntToDecimal(top.value)) else url
  }

  /** The query parameters of a search, in the order they are appended. */
  function SearchParameters(query: string, orderBy: Option<string>, select: Option<string>,
                            skip: Option<i32>, top: Option<i32>, encode: string -> string): seq<string>
  {
    [Parameter("q", encode(query))]
    + (if orderBy.Some? then [Parameter("$orderby", encode(orderBy.value))] else [])
    + (if select.Some? then [Parameter("$select", encode(select.value))] else [])
    + (if skip.Some? then [Parameter("$skip", IntToDecimal(skip.value))] else [])
    + (if top.Some? then [Parameter("$top", IntToDecimal(top.value))] else [])
  }

  // ---------------------------------------------------------------------------
  // Authentication
  // ---------------------------------------------------------------------------

  /** What `authenticate` sends: the validated server it records, the token URL and the
      password-grant form. */
  datatype TokenRequest = TokenRequest(server: ApiServer, url: string, form: seq<(string, string)>)

  /** The password-grant form fields, in order. */
  function BuildAuthParams(username: string, password: string): seq<(string, string)>
  {
    [("grant_type", "password"), ("username", username), ("password", password)]
  }

  /** The address is validated before the repository name, and both before any URL is
      built; the first failure is the result. */
  function Authenticate(server: ApiServer, username: string, password: string): (r: Checked<TokenRequest>)
    ensures ValidateServerAddress(server.address).Err? ==>
      r == Err(ValidateServerAddress(server.address).error)
    ensures ValidateServerAddress(server.address).Ok? && ValidateRepositoryName(server.repository).Err? ==>
      r == Err(ValidateRepositoryName(server.repository).error)
    ensures r.Ok? <==> ValidateServerAddress(server.address).Ok? && ValidateRepositoryName(server.repository).Ok?
    ensures r.Ok? ==> r.value.server == server && r.value.url == BuildTokenUrl(server)
    ensures r.Ok? ==> r.value.form == BuildAuthParams(username, password)
  {
    var address :- ValidateServerAddress(server.address);
    var repository :- ValidateRepositoryName(server.repository);
    var validated := ApiServer(address, repository);
    Ok(TokenRequest(validated, BuildTokenUrl(validated), BuildAuthParams(username, password)))
  }

  // ---------------------------------------------------------------------------
  // MIME type of an upload
  // ---------------------------------------------------------------------------

  /** `rsplit('.').next()`: the text after the last dot, or the whole name when it has
      none. */
  function Extension(name: string): (ext: string)
    ensures '.' !in ext
    ensures |ext| <= |name| && ext == name[|name| - |ext|..]
    ensures |ext| < |name| ==> name[|name| - |ext| - 1] == '.'
  {
    var start := ExtensionStart(name, |name|);
    assert forall c :: c in name[start..] ==> c != '.' by {
      forall c | c in name[start..] ensures c != '.' {
        var m :| 0 <= m < |name[start..]| && name[start..][m] == c;
        assert name[start + m] == c;
      }
    }
    name[start..]
  }

  /** Where the text after the last dot before position `i` begins. */
  function ExtensionStart(name: string, i: nat): (start: nat)
    requires i <= |name|
    ensures start <= i
    ensures forall m :: start <= m < i ==> name[m] != '.'
    ensures start > 0 ==> name[start - 1] == '.'
    decreases i
  {
    if i == 0 then 0
    else if name[i - 1] == '.' then i
    else ExtensionStart(name, i - 1)
  }

  /** The fixed extension table of the uploader; anything else is a byte stream. */
  function MimeForExtension(ext: string): string {
    match ext
    case "pdf" => "application/pdf"
    case "png" => "image/png"
    case "jpg" | "jpeg" => "image/jpeg"
    case "gif" => "image/gif"
    case "tiff" | "tif" => "image/tiff"
    case "doc" => "application/msword"
    case "docx" => "application/vnd.openxmlformats-officedocument.wordprocessingml.document"
    case "xls" => "application/vnd.ms-excel"
    case "xlsx" => "application/vnd.openxmlformats-officedocument.spreadsheetml.sheet"
    case "ppt" => "application/vnd.ms-powerpoint"
    case "pptx" => "application/vnd.openxmlformats-officedocument.presentationml.presentation"
    case "txt" => "text/plain"
    case "csv" => "text/csv"
    case "xml" => "application/xml"
    case "json" => "application/json"
    case _ => "application/octet-stream"
  }

  /** The MIME type of a file, from its lower-cased extension. */
  function DetectMimeType(fileName: string): string {
    MimeForExtension(Lower(Extension(fileName)))
  }
}
