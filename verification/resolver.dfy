/**
 * Turning the command line's query into the URL of a DBLP profile page:
 * `find_dblp_profile_by_name` and the resolution step of `cli` in
 * scholar_graph.py.
 *
 * The author search is a parameter: `search` maps a name to what the search
 * result page holds (the URL built with `quote_plus`, the HTTP request and
 * the HTML parsing are not modelled).  A `SearchPage` keeps exactly what the
 * lookup reads from that page.
 */
module Resolver {
  import opened Wrappers
  import opened Text

  /** The path segment of every DBLP profile URL. */
  const ProfileMarker: string := "/pid/"
  /** A query starting with this is taken to be a URL already. */
  const UrlPrefix: string := "http"

  /** The first `<li class="entry author">` of a search result page, reduced
      to the `href` of its first anchor that has one. */
  datatype EntryItem = EntryItem(firstLink: Option<string>)

  /** A search result page: its first "entry author" item, if any, and the
      `href` of every anchor of the page, in document order. */
  datatype SearchPage = SearchPage(entryAuthor: Option<EntryItem>, links: seq<string>)

  /** Why a query could not be resolved: no profile found for it. */
  datatype ResolveError = NotFound(query: string)

  /** The first link of `links` containing the profile marker: absent exactly
      when no link contains it. */
  function FirstProfileLink(links: seq<string>): (r: Option<string>)
    ensures r.None? <==> forall i :: 0 <= i < |links| ==> !Contains(links[i], ProfileMarker)
    ensures r.Some? ==>
      exists i :: 0 <= i < |links| && links[i] == r.value &&
        Contains(r.value, ProfileMarker) &&
        forall k :: 0 <= k < i ==> !Contains(links[k], ProfileMarker)
  {
    if links == [] then None
    else if Contains(links[0], ProfileMarker) then Some(links[0])
    else
      var r := FirstProfileLink(links[1..]);
      assert forall i :: 1 <= i < |links| ==> links[i] == links[1..][i - 1];
      if r.Some? then
        var j :| 0 <= j < |links[1..]| && links[1..][j] == r.value &&
          Contains(r.value, ProfileMarker) &&
          forall k :: 0 <= k < j ==> !Contains(links[1..][k], ProfileMarker);
        assert links[j + 1] == r.value;
        r
      else r
  }

  /** The first link of the entry-author item, when it is a profile link. */
  function PreferredLink(page: SearchPage): Option<string> {
    match page.entryAuthor
    case Some(EntryItem(Some(link))) =>
      if Contains(link, ProfileMarker) then Some(link) else None
    case _ => None
  }

  /** `find_dblp_profile_by_name` on the page the search returned: the
      entry-author item wins when its first link is a profile link; any other
      page yields its first profile link in document order, and nothing when
      it has none. */
  function FindProfile(page: SearchPage): (r: Option<string>)
    ensures r.Some? ==> Contains(r.value, ProfileMarker)
    ensures PreferredLink(page).Some? ==> r == page.entryAuthor.value.firstLink
    ensures PreferredLink(page).None? ==>
      (r.None? <==> forall i :: 0 <= i < |page.links| ==> !Contains(page.links[i], ProfileMarker))
    ensures PreferredLink(page).None? && r.Some? ==>
      exists i :: 0 <= i < |page.links| && page.links[i] == r.value &&
        forall k :: 0 <= k < i ==> !Contains(page.links[k], ProfileMarker)
  {
    match page.entryAuthor
    case Some(EntryItem(Some(link))) =>
      if Contains(link, ProfileMarker) then Some(link) else FirstProfileLink(page.links)
    case _ => FirstProfileLink(page.links)
  }

  /** The resolution step of `cli`: a query starting with "http" is the URL
      itself and no search is made; otherwise the name is searched for, and
      an absent or empty result is the "could not find a DBLP profile"
      failure. */
  function Resolve(query: string, search: string -> SearchPage): (r: Result<string, ResolveError>)
    ensures StartsWith(query, UrlPrefix) ==> r == Success(query)
    ensures !StartsWith(query, UrlPrefix) ==>
      (r.Failure? <==> FindProfile(search(query)).None?) &&
      (r.Success? ==> Some(r.value) == FindProfile(search(query)) && Contains(r.value, ProfileMarker))
    ensures r.Failure? ==> r.error == NotFound(query)
  {
    if StartsWith(query, UrlPrefix) then Success(query)
    else
      match FindProfile(search(query))
      case None => Failure(NotFound(query))
      case Some(url) =>
        if url == "" then Failure(NotFound(query)) else Success(url)
  }

  /** A found profile link is never empty, so the emptiness test of `cli`
      never rejects one. */
  lemma ProfileLinkNotEmpty(url: string)
    requires Contains(url, ProfileMarker)
    ensures url != ""
  {
    var i :| 0 <= i <= |url| && StartsWith(url[i..], ProfileMarker);
  }
}
