/** Concrete playlists worked through the parse, and the shapes of line they
    are made of. */
module Scenarios {
  import opened Results
  import opened Text
  import opened Playlist
  import Pipeline

  /** `#EXT-X-STREAM-INF:<attrs>,RESOLUTION=<value>` */
  function Labelled(attrs: string, value: string): string {
    StreamInfTag + attrs + [','] + ResolutionKey + value
  }

  /** `#EXT-X-STREAM-INF:<attrs>`, with no resolution attribute. */
  function Unlabelled(attrs: string): string {
    StreamInfTag + attrs
  }

  /** A URL line: not a tag, no white space around it. */
  predicate IsUrlLine(u: string) {
    u != [] && u[0] != '#' && !IsSpace(u[0]) && !IsSpace(u[|u| - 1])
  }

  /** Attributes and a resolution value that keep a labelled line well formed. */
  predicate IsLabel(attrs: string, value: string) {
    ',' !in attrs && ',' !in value && '=' !in value && value != [] && !IsSpace(value[|value| - 1])
  }

  /** Attributes that keep an unlabelled line well formed. */
  predicate IsBareAttrs(attrs: string) {
    ',' !in attrs && attrs != [] && !IsSpace(attrs[|attrs| - 1])
  }

  /** A line that is not a tag and has no white space around it: a URL line. */
  lemma UrlLine(u: string)
    requires IsUrlLine(u)
    ensures Strip(u) == u && !IsStreamInf(u)
  {
    StripUnchanged(u);
  }

  /** A labelled tag line is a tag line whose label is the resolution's value. */
  lemma LabelledLine(attrs: string, value: string)
    requires IsLabel(attrs, value)
    ensures Strip(Labelled(attrs, value)) == Labelled(attrs, value)
    ensures IsStreamInf(Labelled(attrs, value))
    ensures LastResolution(Attributes(Labelled(attrs, value))) == Some(value)
  {
    var head, last := StreamInfTag + attrs, ResolutionKey + value;
    var line := Labelled(attrs, value);
    assert line == head + [','] + last;
    assert line[|line| - 1] == value[|value| - 1];
    StripUnchanged(line);
    assert line[..|StreamInfTag|] == StreamInfTag;
    assert ',' !in StreamInfTag;
    assert ',' !in head;
    assert ',' !in last;
    SplitOnConcat(head, ',', last);
    SplitOnPlain(last, ',');
    assert Attributes(line) == [head, last];
    assert last[..|ResolutionKey|] == ResolutionKey;
    ResolutionValueBetween(last);
    assert last[|ResolutionKey|..] == value;
    PrefixBeforeAll(value, '=');
    assert Attributes(line)[..1] == [head];
  }

  /** An unlabelled tag line is a tag line with no label of its own. */
  lemma UnlabelledLine(attrs: string)
    requires IsBareAttrs(attrs)
    ensures IsStreamInf(Unlabelled(attrs))
    ensures LastResolution(Attributes(Unlabelled(attrs))) == None
  {
    var line := Unlabelled(attrs);
    assert line[|line| - 1] == attrs[|attrs| - 1];
    StripUnchanged(line);
    assert line[..|StreamInfTag|] == StreamInfTag;
    assert ',' !in StreamInfTag;
    SplitOnPlain(line, ',');
    assert line[0] == '#';
    assert Attributes(line)[..0] == [];
  }

  /** Two blocks, each with its own label: both variants in order, and the
      second one is selected. */
  lemma TwoBlocks(a1: string, v1: string, u1: string, a2: string, v2: string, u2: string)
    requires IsLabel(a1, v1) && IsLabel(a2, v2) && IsUrlLine(u1) && IsUrlLine(u2)
    ensures var lines := [Labelled(a1, v1), u1, Labelled(a2, v2), u2];
      && Parse(lines) == Ok([Variant(v1, u1), Variant(v2, u2)])
      && Pipeline.SelectVariant(Some(Parse(lines).value)) == Ok(u2)
  {
    var lines := [Labelled(a1, v1), u1, Labelled(a2, v2), u2];
    LabelledLine(a1, v1);
    LabelledLine(a2, v2);
    UrlLine(u1);
    UrlLine(u2);
    assert ParseFrom(lines, 4, Some(v2)) == Ok([]);
    ParseFromBlock(lines, 2, Some(v1));
    assert [Variant(v2, u2)] + [] == [Variant(v2, u2)];
    assert ParseFrom(lines, 2, Some(v1)) == Ok([Variant(v2, u2)]);
    ParseFromBlock(lines, 0, None);
    assert ParseFrom(lines, 0, None) == Prepend([Variant(v1, u1)], ParseFrom(lines, 2, Some(v1)));
    assert [Variant(v1, u1)] + [Variant(v2, u2)] == [Variant(v1, u1), Variant(v2, u2)];
  }

  /** A block without a resolution reuses the label of the block before it. */
  lemma StaleLabel(a1: string, v1: string, u1: string, a2: string, u2: string)
    requires IsLabel(a1, v1) && IsBareAttrs(a2) && IsUrlLine(u1) && IsUrlLine(u2)
    ensures Parse([Labelled(a1, v1), u1, Unlabelled(a2), u2]) == Ok([Variant(v1, u1), Variant(v1, u2)])
  {
    var lines := [Labelled(a1, v1), u1, Unlabelled(a2), u2];
    LabelledLine(a1, v1);
    UnlabelledLine(a2);
    UrlLine(u1);
    UrlLine(u2);
    assert ParseFrom(lines, 4, Some(v1)) == Ok([]);
    ParseFromBlock(lines, 2, Some(v1));
    assert [Variant(v1, u2)] + [] == [Variant(v1, u2)];
    assert ParseFrom(lines, 2, Some(v1)) == Ok([Variant(v1, u2)]);
    ParseFromBlock(lines, 0, None);
    assert [Variant(v1, u1)] + [Variant(v1, u2)] == [Variant(v1, u1), Variant(v1, u2)];
  }

  /** A first block without a resolution fails, whatever follows its URL line. */
  lemma UnboundFirst(a: string, u: string, rest: seq<string>)
    requires IsBareAttrs(a)
    ensures Parse([Unlabelled(a), u] + rest) == Err(UnboundResolution)
  {
    var lines := [Unlabelled(a), u] + rest;
    UnlabelledLine(a);
    assert lines[0] == Unlabelled(a);
    ParseFromBlock(lines, 0, None);
  }

  /** A tag on the last line adds nothing, even without a resolution. */
  lemma TrailingTag(u: string, a: string)
    requires IsUrlLine(u) && IsBareAttrs(a)
    ensures Parse([u, Unlabelled(a)]) == Ok([])
  {
    var lines := [u, Unlabelled(a)];
    UrlLine(u);
    UnlabelledLine(a);
    ParseFromOther(lines, 0, None);
  }

  /** The line after a tag is always taken as its URL, even when it is a tag
      itself; the parse then goes on after it. */
  lemma TagTakenAsUrl(a1: string, v1: string, a2: string, v2: string, u: string)
    requires IsLabel(a1, v1) && IsLabel(a2, v2) && IsUrlLine(u)
    ensures Parse([Labelled(a1, v1), Labelled(a2, v2), u]) == Ok([Variant(v1, Labelled(a2, v2))])
  {
    var lines := [Labelled(a1, v1), Labelled(a2, v2), u];
    LabelledLine(a1, v1);
    LabelledLine(a2, v2);
    UrlLine(u);
    assert ParseFrom(lines, 3, Some(v1)) == Ok([]);
    ParseFromOther(lines, 2, Some(v1));
    ParseFromBlock(lines, 0, None);
    assert [Variant(v1, Labelled(a2, v2))] + [] == [Variant(v1, Labelled(a2, v2))];
  }
}
