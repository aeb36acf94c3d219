/** The two base addresses `from_url` derives from the page address, by
    splitting it at every `/`. */
module Urls {
  import opened Strings

  /** `'/'.join(url.split('/')[:-1]) + '/'`: the page's directory. */
  function RelativeUrl(url: string): string
  {
    var parts := Split(url, '/');
    Join(parts[..|parts| - 1], "/") + "/"
  }

  /** `'/'.join(url.split('/')[:3])`: scheme and host of an absolute address. */
  function RootUrl(url: string): string
  {
    var parts := Split(url, '/');
    Join(parts[..if |parts| < 3 then |parts| else 3], "/")
  }

  /** `url.split('/')[-1]`: the part after the last `/`. */
  function LastSegment(url: string): string
  {
    var parts := Split(url, '/');
    parts[|parts| - 1]
  }

  /** The directory followed by the last segment gives back the address, as long
      as it holds a `/` at all (otherwise the directory is `/` and the address
      does not start with one). */
  lemma RelativeUrlThenLastSegment(url: string)
    requires '/' in url
    ensures RelativeUrl(url) + LastSegment(url) == url
    ensures '/' !in LastSegment(url)
  {
    var parts := Split(url, '/');
    JoinSplit(url, '/');
    SplitPiecesLackSeparator(url, '/');
    assert |parts| != 1;
    JoinLast(parts, "/");
    assert parts[|parts| - 1] in parts;
  }

  /** Without a `/` the directory is just `/`. */
  lemma RelativeUrlWithoutSlash(url: string)
    requires '/' !in url
    ensures RelativeUrl(url) == "/"
  {
    SplitWithoutSeparator(url, '/');
  }

  /** The root address is a prefix of the address. */
  lemma RootUrlIsPrefix(url: string)
    ensures RootUrl(url) <= url
  {
    var parts := Split(url, '/');
    JoinSplit(url, '/');
    JoinPrefix(parts, if |parts| < 3 then |parts| else 3, "/");
  }

  /** `scheme://host/path` splits into the scheme, an empty piece, the host and
      the pieces of the path. */
  lemma SplitAbsolute(scheme: string, host: string, path: string)
    requires '/' !in scheme && '/' !in host
    ensures Split(scheme + "//" + host + "/" + path, '/') == [scheme, "", host] + Split(path, '/')
  {
    var afterHost := host + ['/'] + path;
    var afterScheme := "" + ['/'] + afterHost;
    assert scheme + "//" + host + "/" + path == scheme + ['/'] + afterScheme;
    SplitAfterPiece(host, path, '/');
    SplitAfterPiece("", afterHost, '/');
    SplitAfterPiece(scheme, afterScheme, '/');
  }

  /** For `scheme://host/path` the root address is `scheme://host`. */
  lemma RootUrlOfAbsolute(scheme: string, host: string, path: string)
    requires '/' !in scheme && '/' !in host
    ensures RootUrl(scheme + "//" + host + "/" + path) == scheme + "//" + host
  {
    var parts := Split(scheme + "//" + host + "/" + path, '/');
    SplitAbsolute(scheme, host, path);
    assert parts[..3] == [scheme, "", host];
    assert [scheme, "", host][1..] == ["", host] && ["", host][1..] == [host];
    assert Join(["", host], "/") == "/" + host;
    assert scheme + "/" + ("/" + host) == scheme + "//" + host;
  }
}
