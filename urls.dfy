/** The names `Downloader.__init__` derives from the manifest URL, and the
    playlist `download` builds from the manifest's segment URIs. */
module Urls {
  import opened Text

  /** The last path component of the manifest URL: `m3u8_url.rsplit('/', 1)[-1]`.
      It holds no `/` and is the tail of the URL, right after its last `/`
      when there is one. */
  function LastComponent(url: string): (c: string)
    ensures '/' !in c
    ensures |c| <= |url| && c == url[|url| - |c|..]
    ensures '/' in url ==> |c| < |url| && url[|url| - |c| - 1] == '/'
    ensures '/' !in url ==> c == url
  {
    var parts := RSplitOnce(url, '/');
    assert |parts| == 2 ==> url == parts[0] + ['/'] + parts[1];
    parts[|parts| - 1]
  }

  /** `base_url`: everything before the last `/` of the manifest URL, plus `/`.
      With a `/` in the URL this is exactly the URL up to and including its last
      `/`; without one, it is the whole URL followed by `/`. */
  function BaseUrl(url: string): (b: string)
    ensures |b| >= 1 && b[|b| - 1] == '/'
    ensures '/' in url ==> b + LastComponent(url) == url
    ensures '/' !in url ==> b == url + "/"
  {
    RSplitOnce(url, '/')[0] + "/"
  }

  /** `ep_name`: the last path component cut at its first `.`. It holds neither
      `/` nor `.`, it is a prefix of the last component, and it stops only at a
      `.` or at the end of that component. */
  function EpName(url: string): (e: string)
    ensures '/' !in e && '.' !in e
    ensures var c := LastComponent(url);
      |e| <= |c| && e == c[..|e|] && (|e| < |c| ==> c[|e|] == '.')
  {
    var c := LastComponent(url);
    SplitFirstIsPrefix(c, '.');
    var e := Split(c, '.')[0];
    PrefixAvoids(e, c, '/');
    e
  }

  /** `self.playlist`: one URL per segment, in segment order, each the base URL
      followed by the segment's URI. */
  function Playlist(baseUrl: string, uris: seq<string>): (p: seq<string>)
  {
    seq(|uris|, i requires 0 <= i < |uris| => baseUrl + uris[i])
  }

  /** The playlist has one entry per segment, and every entry starts with the
      base URL and gives back the segment's URI once the base is stripped. */
  lemma PlaylistRecoversUris(baseUrl: string, uris: seq<string>)
    ensures var p := Playlist(baseUrl, uris);
      |p| == |uris| &&
      forall i :: 0 <= i < |p| ==>
        |p[i]| == |baseUrl| + |uris[i]| && p[i][..|baseUrl|] == baseUrl && p[i][|baseUrl|..] == uris[i]
  {
    var p := Playlist(baseUrl, uris);
    forall i | 0 <= i < |p|
      ensures p[i][..|baseUrl|] == baseUrl && p[i][|baseUrl|..] == uris[i]
    {
      assert p[i] == baseUrl + uris[i];
    }
  }

  /** Building the playlist keeps segment order: the playlist of a manifest
      that lists `u` then `v` is the playlist of `u` followed by that of `v`. */
  lemma PlaylistPreservesOrder(baseUrl: string, u: seq<string>, v: seq<string>)
    ensures Playlist(baseUrl, u + v) == Playlist(baseUrl, u) + Playlist(baseUrl, v)
  {
    var l, r := Playlist(baseUrl, u + v), Playlist(baseUrl, u) + Playlist(baseUrl, v);
    assert |l| == |r|;
    forall i | 0 <= i < |l| ensures l[i] == r[i] {
      if i < |u| {
        assert (u + v)[i] == u[i];
      } else {
        assert (u + v)[i] == v[i - |u|];
      }
    }
  }
}
