/** The line loop of `fetch_m3u8_playlist`: a single forward pass over the
    lines of an HLS master playlist (the `#EXT-X-STREAM-INF` tag of section
    4.3.4.2 of RFC 8216, naively parsed) that pairs each stream-info line it
    reaches with the line after it, which it consumes as the URL. */
module Playlist {
  import opened Results
  import opened Text

  /** One `(resolution, url)` tuple of the parsed playlist. */
  datatype Variant = Variant(resolution: string, url: string)

  const StreamInfTag: string := "#EXT-X-STREAM-INF:"
  const ResolutionKey: string := "RESOLUTION="

  /** `lines[i].strip().startswith('#EXT-X-STREAM-INF:')` */
  predicate IsStreamInf(line: string)
  {
    StartsWith(Strip(line), StreamInfTag)
  }

  /** `line.split(',')` of the stripped line; tokens are not stripped. */
  function Attributes(line: string): (attrs: seq<string>)
  {
    SplitOn(Strip(line), ',')
  }

  /** A stream-info line is a tag line: stripped, it starts with `#`. */
  lemma StreamInfIsTag(line: string)
    requires IsStreamInf(line)
    ensures Strip(line) != [] && Strip(line)[0] == '#'
  {
    assert Strip(line)[..|StreamInfTag|] == StreamInfTag;
  }

  /** The tokens lose nothing: there is at least one, the first is the
      stripped line up to its first `,`, and rejoined with `,` they give the
      stripped line back. */
  lemma AttributesShape(line: string)
    ensures |Attributes(line)| >= 1
    ensures Attributes(line)[0] == PrefixBefore(Strip(line), ',')
    ensures JoinWith(Attributes(line), ',') == Strip(line)
  {
    SplitOnHead(Strip(line), ',');
    JoinSplit(Strip(line), ',');
  }

  /** `attr.startswith('RESOLUTION=')` */
  predicate IsResolutionAttr(attr: string) {
    StartsWith(attr, ResolutionKey)
  }

  /** `attr.split('=')[1]`, which exists because `attr` holds the `=` of `RESOLUTION=`. */
  function ResolutionValue(attr: string): (v: string)
    requires IsResolutionAttr(attr)
    // a prefix of what follows the key, without `=`
    ensures '=' !in v
    ensures |ResolutionKey| + |v| <= |attr| && attr[|ResolutionKey|..|ResolutionKey| + |v|] == v
  {
    assert attr == "RESOLUTION" + ['='] + attr[|ResolutionKey|..];
    SplitOnConcat("RESOLUTION", '=', attr[|ResolutionKey|..]);
    SplitOnHead(attr[|ResolutionKey|..], '=');
    SplitOn(attr, '=')[1]
  }

  /** The label is the text between the first and the second `=` (or the end),
      and the first `=` is the one that closes `RESOLUTION=`. */
  lemma ResolutionValueBetween(attr: string)
    requires IsResolutionAttr(attr)
    ensures ResolutionValue(attr) == PrefixBefore(attr[|ResolutionKey|..], '=')
  {
    assert attr == "RESOLUTION" + ['='] + attr[|ResolutionKey|..];
    SplitOnConcat("RESOLUTION", '=', attr[|ResolutionKey|..]);
    SplitOnHead(attr[|ResolutionKey|..], '=');
  }

  /** The label given by the last `RESOLUTION=` token, if any. */
  function LastResolution(attrs: seq<string>): (r: Option<string>)
    // a label never holds the `=` that ends a `split('=')` part
    ensures r.Some? ==> '=' !in r.value
    decreases |attrs|
  {
    if attrs == [] then None
    else
      var last := attrs[|attrs| - 1];
      if IsResolutionAttr(last) then Some(ResolutionValue(last))
      else LastResolution(attrs[..|attrs| - 1])
  }

  /** The last matching token decides: none matches exactly when there is no
      label, and otherwise the label is the value of a matching token after
      which no other token matches. */
  lemma {:induction false} LastResolutionSpec(attrs: seq<string>)
    ensures LastResolution(attrs).None? <==> forall k | 0 <= k < |attrs| :: !IsResolutionAttr(attrs[k])
    ensures LastResolution(attrs).Some? ==>
      exists k | 0 <= k < |attrs| ::
        && IsResolutionAttr(attrs[k])
        && LastResolution(attrs).value == ResolutionValue(attrs[k])
        && (forall m | k < m < |attrs| :: !IsResolutionAttr(attrs[m]))
    decreases |attrs|
  {
    if attrs != [] {
      var last := attrs[|attrs| - 1];
      var earlier := attrs[..|attrs| - 1];
      if !IsResolutionAttr(last) {
        LastResolutionSpec(earlier);
        assert forall k | 0 <= k < |earlier| :: earlier[k] == attrs[k];
      }
    }
  }

  /** `resolution` after the inner `for` loop over `attrs` when it held `prev`
      before (None: never assigned). */
  function Carry(attrs: seq<string>, prev: Option<string>): (r: Option<string>)
    // once set, `resolution` is never unset; it is unset after a block exactly
    // when it was unset before and the block brings no label
    ensures prev.Some? ==> r.Some?
    ensures r.None? <==> prev.None? && LastResolution(attrs).None?
  {
    if LastResolution(attrs).Some? then LastResolution(attrs) else prev
  }

  /** The pass from cursor `i` with `resolution` holding `res`: the variants
      appended from there on, or the UnboundLocalError raised on the way. */
  function ParseFrom(lines: seq<string>, i: nat, res: Option<string>): (r: Result<seq<Variant>>)
    // the only failure is the unbound `resolution`
    ensures r.Err? ==> r.error == UnboundResolution
    decreases |lines| - i
  {
    if i >= |lines| then Ok([])
    else if IsStreamInf(lines[i]) then
      var res' := Carry(Attributes(lines[i]), res);
      if i + 1 < |lines| then
        if res'.None? then Err(UnboundResolution)
        else
          match ParseFrom(lines, i + 2, res')
          case Err(e) => Err(e)
          case Ok(vs) => Ok([Variant(res'.value, Strip(lines[i + 1]))] + vs)
      else Ok([])
    else ParseFrom(lines, i + 1, res)
  }

  /** The whole pass: cursor at the first line, `resolution` unassigned. */
  function Parse(lines: seq<string>): (r: Result<seq<Variant>>)
    ensures r.Err? ==> r.error == UnboundResolution
  {
    ParseFrom(lines, 0, None)
  }

  /** The variants found so far, followed by those still to come. */
  function Prepend(done: seq<Variant>, rest: Result<seq<Variant>>): Result<seq<Variant>> {
    match rest
    case Err(e) => Err(e)
    case Ok(vs) => Ok(done + vs)
  }

  /** One step of the pass at a line that is not a stream-info line. */
  lemma ParseFromOther(lines: seq<string>, i: nat, res: Option<string>)
    requires i < |lines| && !IsStreamInf(lines[i])
    ensures ParseFrom(lines, i, res) == ParseFrom(lines, i + 1, res)
  {
  }

  /** One step of the pass at a stream-info line that has a following line. */
  lemma ParseFromBlock(lines: seq<string>, i: nat, res: Option<string>)
    requires i + 1 < |lines| && IsStreamInf(lines[i])
    ensures var res' := Carry(Attributes(lines[i]), res);
      ParseFrom(lines, i, res) ==
        if res'.None? then Err(UnboundResolution)
        else Prepend([Variant(res'.value, Strip(lines[i + 1]))], ParseFrom(lines, i + 2, res'))
  {
  }

  /** Appending in two goes is appending once. */
  lemma PrependTwice(a: seq<Variant>, b: seq<Variant>, rest: Result<seq<Variant>>)
    ensures Prepend(a, Prepend(b, rest)) == Prepend(a + b, rest)
  {
    if rest.Ok? {
      assert a + (b + rest.value) == (a + b) + rest.value;
    }
  }

  /** The loop at main.py:119-137, taking the lines as input. */
  method ParsePlaylist(lines: seq<string>) returns (r: Result<seq<Variant>>)
    ensures r == Parse(lines)
  {
    var playlist: seq<Variant> := [];
    var resolution: Option<string> := None;
    var i := 0;
    assert Prepend([], Parse(lines)) == Parse(lines) by {
      if Parse(lines).Ok? {
        assert [] + Parse(lines).value == Parse(lines).value;
      }
    }
    while i < |lines|
      invariant 0 <= i <= |lines| + 1
      invariant Parse(lines) == Prepend(playlist, ParseFrom(lines, i, resolution))
      decreases |lines| + 1 - i
    {
      var line := Strip(lines[i]);
      if StartsWith(line, StreamInfTag) {
        var attributes := SplitOn(line, ',');
        ghost var before := resolution;
        for j := 0 to |attributes|
          invariant resolution == Carry(attributes[..j], before)
        {
          var attr := attributes[j];
          assert attributes[..j + 1][..j] == attributes[..j];
          if StartsWith(attr, ResolutionKey) {
            resolution := Some(ResolutionValue(attr));
          }
        }
        assert attributes[..|attributes|] == attributes;
        i := i + 1;
        if i < |lines| {
          ParseFromBlock(lines, i - 1, before);
          if resolution.None? {
            return Err(UnboundResolution);
          }
          var url := Strip(lines[i]);
          PrependTwice(playlist, [Variant(resolution.value, url)], ParseFrom(lines, i + 1, resolution));
          playlist := playlist + [Variant(resolution.value, url)];
        }
      } else {
        ParseFromOther(lines, i, resolution);
      }
      i := i + 1;
    }
    assert playlist + [] == playlist;
    return Ok(playlist);
  }

  /** The cursor positions, from `i` on, of the stream-info lines that the
      pass visits and that have a following line: one per variant. Each is a
      stream-info line that is not the last line. */
  function VariantStarts(lines: seq<string>, i: nat): (p: seq<nat>)
    ensures forall k | 0 <= k < |p| :: i <= p[k] && p[k] + 1 < |lines| && IsStreamInf(lines[p[k]])
    decreases |lines| - i
  {
    if i >= |lines| then []
    else if IsStreamInf(lines[i]) then
      if i + 1 < |lines| then [i] + VariantStarts(lines, i + 2) else []
    else VariantStarts(lines, i + 1)
  }

  /** Strictly increasing, with at least one line between neighbours. */
  predicate Spaced(p: seq<nat>) {
    forall k, m | 0 <= k < m < |p| :: p[k] + 2 <= p[m]
  }

  /** Each variant's URL is the stripped line right after its start. */
  predicate UrlsFollow(lines: seq<string>, p: seq<nat>, vs: seq<Variant>) {
    && |vs| == |p|
    && (forall k | 0 <= k < |p| :: p[k] + 1 < |lines|)
    && (forall k | 0 <= k < |vs| :: vs[k].url == Strip(lines[p[k] + 1]))
  }

  /** Each variant's label is its block's last `RESOLUTION=` value or, when the
      block has none, the label before it (`res` for the first). */
  predicate LabelsCarry(lines: seq<string>, p: seq<nat>, vs: seq<Variant>, res: Option<string>) {
    && |vs| == |p|
    && (forall k | 0 <= k < |p| :: p[k] < |lines|)
    && (forall k | 0 <= k < |vs| ::
          Carry(Attributes(lines[p[k]]), LabelBefore(vs, k, res)) == Some(vs[k].resolution))
  }

  /** The value `resolution` holds when the `k`-th block starts. */
  function LabelBefore(vs: seq<Variant>, k: nat, res: Option<string>): Option<string>
    requires k <= |vs|
  {
    if k == 0 then res else Some(vs[k - 1].resolution)
  }

  /** Starts are in document order, and the line after a start is consumed as
      its URL, never itself a start, even when it is a stream-info line. */
  lemma {:induction false} VariantStartsOrdered(lines: seq<string>, i: nat)
    ensures Spaced(VariantStarts(lines, i))
    decreases |lines| - i
  {
    if i < |lines| {
      if IsStreamInf(lines[i]) {
        if i + 1 < |lines| {
          VariantStartsOrdered(lines, i + 2);
          var p, p' := VariantStarts(lines, i), VariantStarts(lines, i + 2);
          assert p == [i] + p';
          forall k, m | 0 <= k < m < |p| ensures p[k] + 2 <= p[m] {
            assert p[m] == p'[m - 1];
            if k > 0 {
              assert p[k] == p'[k - 1];
            }
          }
        }
      } else {
        VariantStartsOrdered(lines, i + 1);
      }
    }
  }

  /** No block is skipped: every stream-info line with a successor is either a
      start or the URL line consumed after one. */
  lemma {:induction false} VariantStartsComplete(lines: seq<string>, i: nat, j: nat)
    requires i <= j && j + 1 < |lines| && IsStreamInf(lines[j])
    ensures j in VariantStarts(lines, i) || (j >= 1 && j - 1 in VariantStarts(lines, i))
    decreases |lines| - i
  {
    if IsStreamInf(lines[i]) {
      if j >= i + 2 {
        VariantStartsComplete(lines, i + 2, j);
      }
    } else if j > i {
      VariantStartsComplete(lines, i + 1, j);
    }
  }

  /** The pass from `i` fails exactly when the first block has no label to
      use, and then with UnboundLocalError. */
  lemma {:induction false} ParseFromFails(lines: seq<string>, i: nat, res: Option<string>)
    ensures var p := VariantStarts(lines, i);
      ParseFrom(lines, i, res).Err? <==> |p| > 0 && Carry(Attributes(lines[p[0]]), res).None?
    ensures ParseFrom(lines, i, res).Err? ==> ParseFrom(lines, i, res).error == UnboundResolution
    decreases |lines| - i
  {
    if i < |lines| {
      if IsStreamInf(lines[i]) {
        if i + 1 < |lines| {
          var res' := Carry(Attributes(lines[i]), res);
          if res'.Some? {
            ParseFromFails(lines, i + 2, res');
          }
        }
      } else {
        ParseFromFails(lines, i + 1, res);
      }
    }
  }

  /** A successful pass from `i` yields exactly one variant per start. */
  lemma {:induction false} ParseFromCount(lines: seq<string>, i: nat, res: Option<string>)
    requires ParseFrom(lines, i, res).Ok?
    ensures |ParseFrom(lines, i, res).value| == |VariantStarts(lines, i)|
    decreases |lines| - i
  {
    if i < |lines| {
      if IsStreamInf(lines[i]) {
        if i + 1 < |lines| {
          ParseFromBlock(lines, i, res);
          ParseFromCount(lines, i + 2, Carry(Attributes(lines[i]), res));
        }
      } else {
        ParseFromOther(lines, i, res);
        ParseFromCount(lines, i + 1, res);
      }
    }
  }

  /** The `k`-th variant of a successful pass from `i` has as URL the stripped
      line after the `k`-th start. */
  lemma {:induction false} ParseFromUrlAt(lines: seq<string>, i: nat, res: Option<string>, k: nat)
    requires ParseFrom(lines, i, res).Ok? && k < |ParseFrom(lines, i, res).value|
    ensures k < |VariantStarts(lines, i)|
    ensures ParseFrom(lines, i, res).value[k].url == Strip(lines[VariantStarts(lines, i)[k] + 1])
    decreases |lines| - i
  {
    ParseFromCount(lines, i, res);
    if IsStreamInf(lines[i]) {
      var res' := Carry(Attributes(lines[i]), res);
      ParseFromBlock(lines, i, res);
      if k > 0 {
        ParseFromUrlAt(lines, i + 2, res', k - 1);
        assert ParseFrom(lines, i, res).value[k] == ParseFrom(lines, i + 2, res').value[k - 1];
        assert VariantStarts(lines, i)[k] == VariantStarts(lines, i + 2)[k - 1];
      }
    } else {
      ParseFromOther(lines, i, res);
      ParseFromUrlAt(lines, i + 1, res, k);
    }
  }

  /** The label of the `k`-th variant of a successful pass from `i` is its
      block's last `RESOLUTION=` value or, failing that, the label before it
      (`res` for the first). */
  lemma {:induction false} ParseFromLabelAt(lines: seq<string>, i: nat, res: Option<string>, k: nat)
    requires ParseFrom(lines, i, res).Ok? && k < |ParseFrom(lines, i, res).value|
    ensures k < |VariantStarts(lines, i)|
    ensures Carry(Attributes(lines[VariantStarts(lines, i)[k]]), LabelBefore(ParseFrom(lines, i, res).value, k, res))
            == Some(ParseFrom(lines, i, res).value[k].resolution)
    decreases |lines| - i
  {
    ParseFromCount(lines, i, res);
    if IsStreamInf(lines[i]) {
      var res' := Carry(Attributes(lines[i]), res);
      ParseFromBlock(lines, i, res);
      if k > 0 {
        ParseFromLabelAt(lines, i + 2, res', k - 1);
        var vs, vs' := ParseFrom(lines, i, res).value, ParseFrom(lines, i + 2, res').value;
        assert vs[k] == vs'[k - 1];
        assert vs[k - 1] == if k == 1 then Variant(res'.value, Strip(lines[i + 1])) else vs'[k - 2];
        assert VariantStarts(lines, i)[k] == VariantStarts(lines, i + 2)[k - 1];
      }
    } else {
      ParseFromOther(lines, i, res);
      ParseFromLabelAt(lines, i + 1, res, k);
    }
  }

  /** A successful pass from `i` yields one variant per start, its URL the
      stripped line after the start. */
  lemma ParseFromUrls(lines: seq<string>, i: nat, res: Option<string>)
    requires ParseFrom(lines, i, res).Ok?
    ensures UrlsFollow(lines, VariantStarts(lines, i), ParseFrom(lines, i, res).value)
  {
    ParseFromCount(lines, i, res);
    forall k | 0 <= k < |ParseFrom(lines, i, res).value|
      ensures ParseFrom(lines, i, res).value[k].url == Strip(lines[VariantStarts(lines, i)[k] + 1])
    {
      ParseFromUrlAt(lines, i, res, k);
    }
  }

  /** In a successful pass from `i`, each variant's label is its block's last
      `RESOLUTION=` value or, failing that, the previous variant's label. */
  lemma ParseFromLabels(lines: seq<string>, i: nat, res: Option<string>)
    requires ParseFrom(lines, i, res).Ok?
    ensures LabelsCarry(lines, VariantStarts(lines, i), ParseFrom(lines, i, res).value, res)
  {
    ParseFromCount(lines, i, res);
    var p, vs := VariantStarts(lines, i), ParseFrom(lines, i, res).value;
    forall k | 0 <= k < |vs|
      ensures Carry(Attributes(lines[p[k]]), LabelBefore(vs, k, res)) == Some(vs[k].resolution)
    {
      ParseFromLabelAt(lines, i, res, k);
    }
  }

  /** The number of stream-info lines from index `i` on. */
  function StreamInfCount(lines: seq<string>, i: nat): nat
    decreases |lines| - i
  {
    if i >= |lines| then 0
    else (if IsStreamInf(lines[i]) then 1 else 0) + StreamInfCount(lines, i + 1)
  }

  /** There are never more variants than stream-info lines. */
  lemma {:induction false} VariantStartsBound(lines: seq<string>, i: nat)
    ensures |VariantStarts(lines, i)| <= StreamInfCount(lines, i)
    decreases |lines| - i
  {
    if i < |lines| {
      if IsStreamInf(lines[i]) {
        if i + 1 < |lines| {
          VariantStartsBound(lines, i + 2);
          assert StreamInfCount(lines, i + 1) >= StreamInfCount(lines, i + 2);
        }
      } else {
        VariantStartsBound(lines, i + 1);
      }
    }
  }

  /** Counting from `i`, a document part without stream-info lines has none. */
  lemma {:induction false} NoStreamInfCount(lines: seq<string>, i: nat)
    requires forall j | i <= j < |lines| :: !IsStreamInf(lines[j])
    ensures StreamInfCount(lines, i) == 0
    decreases |lines| - i
  {
    if i < |lines| {
      NoStreamInfCount(lines, i + 1);
    }
  }

  /** A successful parse yields at most one variant per stream-info line. */
  lemma ParseBound(lines: seq<string>)
    requires Parse(lines).Ok?
    ensures |Parse(lines).value| <= StreamInfCount(lines, 0)
  {
    ParseFromUrls(lines, 0, None);
    VariantStartsBound(lines, 0);
  }

  /** A document without stream-info lines parses to the empty playlist; it is
      a valid, if useless, result. */
  lemma ParseNoStreamInf(lines: seq<string>)
    requires forall j | 0 <= j < |lines| :: !IsStreamInf(lines[j])
    ensures Parse(lines) == Ok([])
  {
    NoStreamInfCount(lines, 0);
    VariantStartsBound(lines, 0);
    ParseFromFails(lines, 0, None);
    ParseFromUrls(lines, 0, None);
  }

  /** A successful parse, read off the document: the variants stand in document
      order, one per start, each with the stripped line after its start as URL
      (consumed even when empty or itself a stream-info line), and each with
      its block's last `RESOLUTION=` value as label or, when the block has
      none, the label of the variant before it. */
  lemma ParseVariants(lines: seq<string>)
    requires Parse(lines).Ok?
    ensures Spaced(VariantStarts(lines, 0))
    ensures UrlsFollow(lines, VariantStarts(lines, 0), Parse(lines).value)
    ensures LabelsCarry(lines, VariantStarts(lines, 0), Parse(lines).value, None)
  {
    VariantStartsOrdered(lines, 0);
    ParseFromUrls(lines, 0, None);
    ParseFromLabels(lines, 0, None);
  }

  /** The pass fails precisely when the first block that has a following line
      carries no `RESOLUTION=` token, since `resolution` is then read unbound. */
  lemma ParseFails(lines: seq<string>)
    ensures var p := VariantStarts(lines, 0);
      Parse(lines).Err? <==> |p| > 0 && LastResolution(Attributes(lines[p[0]])).None?
    ensures Parse(lines).Err? ==> Parse(lines).error == UnboundResolution
  {
    ParseFromFails(lines, 0, None);
  }

  /** The first token of a stream-info line still carries the tag, so it is
      never taken for a `RESOLUTION=` token. */
  lemma TagTokenNeverMatches(line: string)
    requires IsStreamInf(line)
    ensures !IsResolutionAttr(Attributes(line)[0])
  {
    var s := Strip(line);
    StreamInfIsTag(line);
    SplitOnHead(s, ',');
    var first := PrefixBefore(s, ',');
    assert ',' !in StreamInfTag;
    assert |first| >= 1;
    assert first[0] == s[0];
  }
}
