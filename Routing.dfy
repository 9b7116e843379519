/** The dispatch of `get_video_info(url)` (app.py:201-218): a link is either
    fetched as one video or as a playlist. The query string of the link is
    decoded by the standard library; the model receives the first values of
    its `v` and `list` parameters. */
module Routing {
  import opened Wrappers
  import opened Text
  import opened Helpers

  /** Which fetcher the link goes to, and with which link. */
  datatype Route = VideoInfo(url: string) | PlaylistInfo(url: string)

  const WatchMarker := "watch?v="
  const WatchPrefix := "https://www.youtube.com/watch?v="

  /** A query value Python treats as true: present and not empty. */
  predicate Truthy(v: Option<string>) {
    v.Some? && v.value != []
  }

  /** `get_video_info(url)` with `v` and `list` the first values of the
      query parameters of the same name (None when absent). */
  function RouteUrl(url: string, v: Option<string>, list: Option<string>): (r: Route)
    ensures r.url == Strip(url) || (r.VideoInfo? && Truthy(v) && Truthy(list) && r.url == WatchPrefix + v.value)
    ensures !(Contains(Strip(url), WatchMarker) && Truthy(v) && Truthy(list)) ==> r.url == Strip(url)
    ensures r.PlaylistInfo? <==>
      !(Contains(Strip(url), WatchMarker) && Truthy(v) && Truthy(list)) &&
      (Contains(Lower(Strip(url)), "playlist") || Contains(Lower(Strip(url)), "list="))
  {
    var u := Strip(url);
    if Contains(u, WatchMarker) && Truthy(v) && Truthy(list) then VideoInfo(WatchPrefix + v.value)
    else if Contains(Lower(u), "playlist") || Contains(Lower(u), "list=") then PlaylistInfo(u)
    else VideoInfo(u)
  }

  /** A watch link that also names a playlist is fetched as the single video,
      through a link reduced to its video id; the playlist is dropped. */
  lemma WatchInListIsVideo(url: string, v: string, list: string)
    requires Contains(Strip(url), WatchMarker) && v != [] && list != []
    ensures RouteUrl(url, Some(v), Some(list)) == VideoInfo(WatchPrefix + v)
  {
  }

  /** The reduced link carries no `list=` parameter, for any video id without
      an `=` in it: the playlist really is dropped. */
  lemma ReducedLinkHasNoList(v: string)
    requires '=' !in v
    ensures !Contains(WatchPrefix + v, "list=")
  {
    var c := WatchPrefix + v;
    assert forall i :: OccursAt(c, "list=", i) ==> c[i + 4] == '=';
  }

  /** Only a link that mentions "list" (in any letter case) is fetched as a
      playlist. */
  lemma PlaylistMentionsList(url: string, v: Option<string>, list: Option<string>)
    requires RouteUrl(url, v, list).PlaylistInfo?
    ensures Contains(Lower(Strip(url)), "list")
  {
    var low := Lower(Strip(url));
    ListInMarkers();
    if Contains(low, "playlist") {
      var i :| OccursAt(low, "playlist", i);
      OccursWithin(low, "playlist", i, 4, "list");
    } else {
      var i :| OccursAt(low, "list=", i);
      OccursWithin(low, "list=", i, 0, "list");
    }
  }

  lemma ListInMarkers()
    ensures "playlist"[4..8] == "list" && "list="[0..4] == "list"
  {
  }

  /** Surrounding whitespace does not change the route. */
  lemma RouteIgnoresWhitespace(url: string, v: Option<string>, list: Option<string>)
    ensures RouteUrl(Strip(url), v, list) == RouteUrl(url, v, list)
  {
    StripStripped(Strip(url));
  }
}
