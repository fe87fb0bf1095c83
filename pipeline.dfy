/** `main` up to the choice of the variant: unwrap the link, decode it, fetch
    and read the manifest, fetch and parse the playlist, take the second
    variant. The two HTTP fetches are parameters: `fetchManifest` maps the
    decoded manifest URL to the parsed body (None when `fetch_json` would
    exit), and `fetchPlaylist` maps the playlist location to the lines of the
    response (None when `fetch_m3u8_playlist` catches a request failure). */
module Pipeline {
  import opened Results
  import opened Text
  import Percent
  import Link
  import Manifest
  import Playlist

  /** `playlist[1][1]`: the URL of the second variant. Indexing None raises
      TypeError and a short list raises IndexError; neither is caught. */
  function SelectVariant(playlist: Option<seq<Playlist.Variant>>): (r: Result<string>)
    ensures r.Ok? <==> playlist.Some? && |playlist.value| >= 2
    ensures r.Ok? ==> r.value == playlist.value[1].url
    ensures playlist.None? ==> r == Err(NoPlaylist)
    ensures playlist.Some? && |playlist.value| < 2 ==> r == Err(IndexOutOfRange)
  {
    match playlist
    case None => Err(NoPlaylist)
    case Some(vs) => if |vs| < 2 then Err(IndexOutOfRange) else Ok(vs[1].url)
  }

  /** `fetch_m3u8_playlist`: a request failure degrades to None; otherwise the
      lines are parsed, and the UnboundLocalError of the parse escapes. */
  function FetchPlaylist(video: Manifest.Json, fetchPlaylist: Manifest.Json -> Option<seq<string>>)
    : (r: Result<Option<seq<Playlist.Variant>>>)
    ensures fetchPlaylist(video).None? ==> r == Ok(None)
    ensures fetchPlaylist(video).Some? ==>
      match Playlist.Parse(fetchPlaylist(video).value)
      case Ok(vs) => r == Ok(Some(vs))
      case Err(e) => r == Err(e)
  {
    match fetchPlaylist(video)
    case None => Ok(None)
    case Some(lines) =>
      var vs :- Playlist.Parse(lines);
      Ok(Some(vs))
  }

  /** What a run resolves: the playlist location the manifest names (what the
      downloader is then given) and the URL of the selected variant. */
  datatype Resolved = Resolved(video: Manifest.Json, variantUrl: string)

  /** The stages of `main` in order; the first failure ends the run. */
  function Resolve(
    link: seq<byte>,
    fetchManifest: seq<byte> -> Option<Manifest.Json>,
    fetchPlaylist: Manifest.Json -> Option<seq<string>>
  ): (r: Result<Resolved>)
    // a link without the marker is rejected before anything is fetched
    ensures !Occurs(link, Link.DefaultMarker) ==> r == Err(InvalidUrl)
    // success means every stage succeeded on the previous stage's output
    ensures r.Ok? ==>
      && Link.UnwrapShareLink(link).Ok?
      && var manifestUrl := Percent.Decode(Link.UnwrapShareLink(link).value);
      && fetchManifest(manifestUrl).Some?
      && Manifest.ExtractVideoUrl(fetchManifest(manifestUrl).value) == Ok(r.value.video)
      && fetchPlaylist(r.value.video).Some?
      && var parsed := Playlist.Parse(fetchPlaylist(r.value.video).value);
      && parsed.Ok?
      && |parsed.value| >= 2
      && r.value.variantUrl == parsed.value[1].url
    // and conversely, when every stage succeeds so does the run
    ensures Link.UnwrapShareLink(link).Ok? ==>
      var manifestUrl := Percent.Decode(Link.UnwrapShareLink(link).value);
      fetchManifest(manifestUrl).Some? ==>
      var video := Manifest.ExtractVideoUrl(fetchManifest(manifestUrl).value);
      video.Ok? && fetchPlaylist(video.value).Some? ==>
      var parsed := Playlist.Parse(fetchPlaylist(video.value).value);
      parsed.Ok? && |parsed.value| >= 2 ==> r.Ok?
  {
    var encoded :- Link.UnwrapShareLink(link);
    var manifestUrl := Percent.Decode(encoded);
    var doc :- if fetchManifest(manifestUrl).Some? then Ok(fetchManifest(manifestUrl).value) else Err(FetchFailed);
    var video :- Manifest.ExtractVideoUrl(doc);
    var playlist :- FetchPlaylist(video, fetchPlaylist);
    var url :- SelectVariant(playlist);
    Ok(Resolved(video, url))
  }

  /** Each stage's failure is the run's: a failed manifest fetch, a failed
      extraction, a failed playlist request, an unbound resolution and a short
      playlist each end the run with their own failure. */
  lemma ResolveFailures(
    link: seq<byte>,
    fetchManifest: seq<byte> -> Option<Manifest.Json>,
    fetchPlaylist: Manifest.Json -> Option<seq<string>>)
    ensures Link.UnwrapShareLink(link).Ok? ==>
      var manifestUrl := Percent.Decode(Link.UnwrapShareLink(link).value);
      && (fetchManifest(manifestUrl).None? ==> Resolve(link, fetchManifest, fetchPlaylist) == Err(FetchFailed))
      && (fetchManifest(manifestUrl).Some? ==>
            var video := Manifest.ExtractVideoUrl(fetchManifest(manifestUrl).value);
            && (video.Err? ==> Resolve(link, fetchManifest, fetchPlaylist) == Err(video.error))
            && (video.Ok? ==>
                  && (fetchPlaylist(video.value).None? ==> Resolve(link, fetchManifest, fetchPlaylist) == Err(NoPlaylist))
                  && (fetchPlaylist(video.value).Some? ==>
                        var parsed := Playlist.Parse(fetchPlaylist(video.value).value);
                        && (parsed.Err? ==> Resolve(link, fetchManifest, fetchPlaylist) == Err(UnboundResolution))
                        && (parsed.Ok? && |parsed.value| < 2 ==>
                              Resolve(link, fetchManifest, fetchPlaylist) == Err(IndexOutOfRange)))))
  {
    if Link.UnwrapShareLink(link).Ok? {
      var manifestUrl := Percent.Decode(Link.UnwrapShareLink(link).value);
      if fetchManifest(manifestUrl).Some? {
        var video := Manifest.ExtractVideoUrl(fetchManifest(manifestUrl).value);
        if video.Ok? && fetchPlaylist(video.value).Some? {
          Playlist.ParseFails(fetchPlaylist(video.value).value);
        }
      }
    }
  }

  /** The selected URL, read off the playlist document: the stripped line after
      the second stream-info block that has a following line. */
  lemma {:induction false} SelectedIsSecondBlock(lines: seq<string>)
    requires Playlist.Parse(lines).Ok?
    requires SelectVariant(Some(Playlist.Parse(lines).value)).Ok?
    ensures |Playlist.VariantStarts(lines, 0)| >= 2
    ensures SelectVariant(Some(Playlist.Parse(lines).value)).value
      == Strip(lines[Playlist.VariantStarts(lines, 0)[1] + 1])
  {
    Playlist.ParseFromUrls(lines, 0, None);
  }

  /** A playlist without stream-info lines parses, and then selection fails. */
  lemma SelectFromEmptyDocument(lines: seq<string>)
    requires forall j | 0 <= j < |lines| :: !Playlist.IsStreamInf(lines[j])
    ensures Playlist.Parse(lines).Ok?
    ensures SelectVariant(Some(Playlist.Parse(lines).value)) == Err(IndexOutOfRange)
  {
    Playlist.ParseNoStreamInf(lines);
  }
}
