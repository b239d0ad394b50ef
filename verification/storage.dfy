/** `StorageService`: turns an asset path into a URL on the asset host and
    downloads it. The network is a parameter: `parses` says whether Foundation
    accepts a URL text, `fetch` what a request for a URL returns. Also holds
    the byte type and the key-value caches the services read through. */
module Storage {
  import opened Wrappers
  import opened Text

  type Bytes = seq<bv8>

  /** One directory of the on-disk cache, keyed by file name. A read that
      throws is treated as a miss by every caller (`try?`), so a failed read
      and an absent key are the same thing here. */
  type CacheDir = map<string, Bytes>

  /** Reads through the cache. */
  function Retrieve(c: CacheDir, key: string): Option<Bytes> {
    if key in c then Some(c[key]) else None
  }

  /** Writes `data` under `key` unless the write fails; callers ignore the
      failure (`try?`). */
  function StoreOrSkip(c: CacheDir, key: string, data: Bytes, succeeds: bool): (c': CacheDir)
    ensures succeeds ==> Retrieve(c', key) == Some(data)
    ensures !succeeds ==> c' == c
    ensures forall k :: k != key ==> Retrieve(c', k) == Retrieve(c, k)
  {
    if succeeds then c[key := data] else c
  }

  const BaseUrl: string := "https://adventisthymnarium.rockvilletollandsda.church"

  /** `path.replacingOccurrences(of: "//", with: "/")`. */
  function CleanPath(path: string): string {
    ReplaceAll(path, "//", "/")
  }

  /** The URL text requested for an asset path. */
  function AssetUrlText(path: string): string {
    BaseUrl + "/" + CleanPath(path)
  }

  /** What a request returns: Foundation refused to build the URL, the
      transfer failed, the response was not HTTP, or an HTTP status and body. */
  datatype Exchange = TransportFailure | NonHttpResponse | HttpResponse(status: int, body: Bytes)

  datatype Network = Network(parses: string -> bool, fetch: string -> Exchange)

  datatype Reason = InvalidUrlPath | DownloadFailed(status: Option<int>)

  /** An `NSError` thrown by the service. */
  datatype StorageError = StorageError(domain: string, code: int, reason: Reason)

  /** `downloadAsset(path:)`: the body of a status-200 HTTP response, and
      otherwise an error of domain "StorageService" and code -1. The status
      error raised inside the `do` block carries the HTTP status as its code,
      but the `catch` wraps every error again with code -1, keeping the status
      only in the message. */
  function DownloadAsset(path: string, net: Network): (r: Result<Bytes, StorageError>)
    ensures r.Ok? <==> net.parses(AssetUrlText(path))
                       && net.fetch(AssetUrlText(path)).HttpResponse?
                       && net.fetch(AssetUrlText(path)).status == 200
    ensures r.Ok? ==> r.value == net.fetch(AssetUrlText(path)).body
    ensures r.Err? ==> r.error.domain == "StorageService" && r.error.code == -1
  {
    var url := AssetUrlText(path);
    if !net.parses(url) then Err(StorageError("StorageService", -1, InvalidUrlPath))
    else
      match net.fetch(url)
      case HttpResponse(status, body) =>
        if status == 200 then Ok(body)
        else Err(StorageError("StorageService", -1, DownloadFailed(Some(status))))
      case _ => Err(StorageError("StorageService", -1, DownloadFailed(None)))
  }

  /** `getAssetURL(path:)`. */
  function GetAssetUrl(path: string, net: Network): Option<string> {
    if net.parses(AssetUrlText(path)) then Some(AssetUrlText(path)) else None
  }

  /** A download only succeeds for a path whose URL `getAssetURL` also gives,
      and it fetched exactly that URL. */
  lemma DownloadUsesAssetUrl(path: string, net: Network)
    requires DownloadAsset(path, net).Ok?
    ensures GetAssetUrl(path, net).Some?
    ensures DownloadAsset(path, net).value == net.fetch(GetAssetUrl(path, net).value).body
  {
  }

  /** Path cleaning leaves a path without "//" unchanged and otherwise is the
      split-and-join of the path at "//" with "/". */
  lemma CleanPathSpec(path: string)
    ensures !Contains(path, "//") ==> CleanPath(path) == path
    ensures CleanPath(path) == Join(Split(path, "//"), "/")
  {
    if !Contains(path, "//") {
      ReplaceAbsent(path, "//", "/");
    }
    ReplaceIsSplitJoin(path, "//", "/");
  }

  /** Occurrences are replaced left to right without overlap, so a triple
      slash keeps two. */
  lemma CleanPathTripleSlash()
    ensures CleanPath("a///b") == "a//b"
  {
    assert "a///b"[..2][0] == 'a';
    assert "///b"[..2] == "//";
    assert "/b"[..2][1] == 'b';
    assert "a///b"[1..] == "///b";
    assert "///b"[2..] == "/b";
    assert "/b"[1..] == "b";
    assert "b"[1..] == "";
  }
}
