/** `split_url`: the share link carries the percent-encoded manifest URL after
    a fixed marker. The link is taken as its UTF-8 bytes; because UTF-8 is
    self-synchronising, the first occurrence of the marker's bytes is the
    first occurrence of the marker's characters. */
module Link {
  import opened Results
  import opened Text

  /** The default `split_marker`, "https://tv.volleyballworld.com/player?self-link=",
      as its ASCII bytes. */
  const DefaultMarker: seq<byte> := [
    104, 116, 116, 112, 115, 58, 47, 47, 116, 118, 46, 118, 111, 108, 108, 101,
    121, 98, 97, 108, 108, 119, 111, 114, 108, 100, 46, 99, 111, 109, 47, 112,
    108, 97, 121, 101, 114, 63, 115, 101, 108, 102, 45, 108, 105, 110, 107, 61]

  /** `full_url.split(split_marker, 1)[1]` guarded by `split_marker in full_url`. */
  function SplitUrl(full: seq<byte>, marker: seq<byte>): (r: Result<seq<byte>>)
    ensures r.Ok? <==> marker != [] && Occurs(full, marker)
    ensures r == Err(InvalidUrl) <==> marker != [] && !Occurs(full, marker)
    ensures r == Err(EmptySeparator) <==> marker == []
    ensures r.Ok? ==>
      var k := |full| - |marker| - |r.value|;
      && 0 <= k
      && full == full[..k] + marker + r.value
      && (forall j: nat | j < k :: !OccursAt(full, marker, j))
      && !Occurs(full[..k], marker)
  {
    if marker == [] then
      // `"" in s` holds for every s, but `s.split("", 1)` raises ValueError.
      assert OccursAt(full, marker, 0);
      Err(EmptySeparator)
    else
      match FindFrom(full, marker, 0)
      case None => Err(InvalidUrl)
      case Some(k) =>
        var rest := full[k + |marker|..];
        assert full == full[..k] + marker + rest;
        PrefixHasNoMarker(full, marker, k);
        Ok(rest)
  }

  /** An occurrence inside a prefix is an occurrence in the whole. */
  lemma PrefixHasNoMarker(full: seq<byte>, marker: seq<byte>, k: nat)
    requires marker != [] && k <= |full|
    requires forall j: nat | j < k :: !OccursAt(full, marker, j)
    ensures !Occurs(full[..k], marker)
  {
    forall j: nat | j <= k && OccursAt(full[..k], marker, j)
      ensures false
    {
      assert full[..k][j..j + |marker|] == full[j..j + |marker|];
      assert OccursAt(full, marker, j);
    }
  }

  /** The unwrapping stage, with the marker the script uses. */
  function UnwrapShareLink(link: seq<byte>): (r: Result<seq<byte>>)
    ensures r.Ok? <==> Occurs(link, DefaultMarker)
    ensures r.Err? ==> r.error == InvalidUrl
  {
    assert |DefaultMarker| > 0;
    SplitUrl(link, DefaultMarker)
  }

  /** Unwrapping a link built as marker + payload gives the payload back, however
      many further markers the payload holds. */
  lemma {:induction false} UnwrapBuilt(marker: seq<byte>, payload: seq<byte>)
    requires marker != []
    ensures SplitUrl(marker + payload, marker) == Ok(payload)
  {
    var full := marker + payload;
    assert OccursAt(full, marker, 0);
    var r := SplitUrl(full, marker);
    assert |full| - |marker| - |r.value| == 0;
  }
}
