/** Failure outcomes of the downloader pipeline.

    Every `exit(...)` of the script and every exception it does not catch
    becomes a `Failure` carried by `Result.Err`; nothing terminates a run
    except returning one of these. */
module Results {

  datatype Option<T> = None | Some(value: T)

  datatype Failure =
    /** `split_url`: the marker does not occur in the link ("Invalid URL"). */
    | InvalidUrl
    /** `split_url`: `str.split` raises ValueError on an empty separator. */
    | EmptySeparator
    /** `fetch_json`: the request failed or the body is not JSON. */
    | FetchFailed
    /** `extract_video_url`: "entry" is missing or falsy ("No entry found in JSON data"). */
    | NoEntryFound
    /** `extract_video_url`: a caught KeyError or TypeError ("Error extracting video URL"). */
    | ExtractionError
    /** `extract_video_url`: `.get` is called on a value that is not a dict (not caught). */
    | AttributeError
    /** The playlist parse reads `resolution` before any block assigned it (not caught). */
    | UnboundResolution
    /** `main`: the playlist fetch returned None, which cannot be indexed (not caught). */
    | NoPlaylist
    /** `main`: the playlist has fewer than two variants (not caught). */
    | IndexOutOfRange

  datatype Result<T> = Ok(value: T) | Err(error: Failure) {
    predicate IsFailure() {
      Err?
    }

    function PropagateFailure<U>(): Result<U>
      requires Err?
    {
      Err(error)
    }

    function Extract(): T
      requires Ok?
    {
      value
    }
  }
}
