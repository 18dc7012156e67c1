/** The playlist parser and the selective exporter of the backend (`M3UParser` in backend/main.py).
    Each method is proved against a specification function: `Run` for `Parse`, `ExportFrom` for
    `ExportSelection`. What those functions promise is proved in ParseReference and ExportProperties. */
module Backend {
  import opened Text

  /** One playlist entry as the backend returns it (the pydantic `Channel` record). */
  datatype Channel = Channel(
    name: string,
    group: string,
    tvgId: string,
    tvgName: string,
    tvgLogo: string,
    url: string,
    rawInfo: string,
    index: int)

  /** The `current_channel` dictionary: an `#EXTINF` line read, its URL not yet seen. */
  datatype PendingChannel = PendingChannel(
    name: string,
    group: string,
    tvgId: string,
    tvgName: string,
    tvgLogo: string,
    rawInfo: string,
    index: int)

  const ExtInfTag: string := "#EXTINF:"
  const UrlPrefix: string := "http"
  const HeaderTag: string := "#EXTM3U"

  // ---------------------------------------------------------------------------
  // Field extraction from one #EXTINF line

  /** The text `key="` that opens an attribute value. */
  function Opening(key: string): string {
    key + "=\""
  }

  /** The pattern `key="([^"]*)"` matches `line` at position `p`, capturing `value`: `key="`
      at `p`, then `value`, which holds no quote, then a quote. */
  ghost predicate MatchesAt(line: string, key: string, p: int, value: string) {
    && OccursAt(line, Opening(key), p)
    && OccursAt(line, value, p + |Opening(key)|)
    && '"' !in value
    && p + |Opening(key)| + |value| < |line|
    && line[p + |Opening(key)| + |value|] == '"'
  }

  /** `value` is the group `re.search('key="([^"]*)"', line)` captures: the capture of the
      leftmost match. */
  ghost predicate Captures(line: string, key: string, value: string) {
    exists p :: MatchesAt(line, key, p, value) && forall q, w :: 0 <= q < p ==> !MatchesAt(line, key, q, w)
  }

  /** The text from `start` up to the next quote, or "" when no quote follows. */
  function CaptureFrom(line: string, start: nat): (value: string)
    ensures '"' !in value
  {
    var close := Find(line, "\"", start);
    if close.None? then ""
    else
      FirstCaptureQuoteFree(line, start, close.value);
      line[start..close.value]
  }

  /** The value of attribute `key` in `line`, or "" when `key="…"` is not there
      (`re.search('key="([^"]*)"', line)` followed by `group(1)` or "", main.py:41-44, 51-54). */
  function Attribute(line: string, key: string): (value: string)
    ensures '"' !in value
  {
    var opening := Find(line, Opening(key), 0);
    if opening.None? then "" else CaptureFrom(line, opening.value + |Opening(key)|)
  }

  /** A quote occurs at `j` exactly when `line[j]` is a quote. */
  lemma QuoteAt(line: string, j: int)
    ensures OccursAt(line, "\"", j) <==> 0 <= j < |line| && line[j] == '"'
  {
    if 0 <= j < |line| {
      assert line[j..j + 1] == [line[j]];
    }
  }

  /** The capture of a match holds no quote, so the line has none between `key="` and the
      closing quote. */
  lemma CaptureQuoteFree(line: string, key: string, p: int, value: string)
    requires MatchesAt(line, key, p, value)
    ensures forall j :: p + |Opening(key)| <= j < p + |Opening(key)| + |value| ==> line[j] != '"'
  {
    var start := p + |Opening(key)|;
    forall j | start <= j < start + |value| ensures line[j] != '"' {
      assert line[j] == line[start..start + |value|][j - start] == value[j - start];
    }
  }

  /** Without a quote after the first `key="` the pattern never matches. */
  lemma NoCloseNoMatch(line: string, key: string, p0: int, p: int, value: string)
    requires Find(line, Opening(key), 0) == Some(p0)
    requires Find(line, "\"", p0 + |Opening(key)|).None?
    ensures !MatchesAt(line, key, p, value)
  {
    if MatchesAt(line, key, p, value) {
      QuoteAt(line, p + |Opening(key)| + |value|);
    }
  }

  /** Before the first `key="` the pattern cannot match. */
  lemma NoMatchBefore(line: string, key: string, p0: int)
    requires Find(line, Opening(key), 0) == Some(p0)
    ensures forall q, w :: 0 <= q < p0 ==> !MatchesAt(line, key, q, w)
  {
  }

  /** The text between the first `key="` and the next quote holds no quote. */
  lemma FirstCaptureQuoteFree(line: string, start: nat, q: int)
    requires Find(line, "\"", start) == Some(q)
    ensures '"' !in line[start..q] && line[q] == '"'
  {
    var v0 := line[start..q];
    forall j | 0 <= j < |v0| ensures v0[j] != '"' {
      QuoteAt(line, start + j);
    }
    QuoteAt(line, q);
  }

  /** When `key="` first occurs at `p0`, `Attribute` captures from just after it. */
  lemma AttributeAfterOpening(line: string, key: string, p0: nat)
    requires Find(line, Opening(key), 0) == Some(p0)
    ensures Attribute(line, key) == CaptureFrom(line, p0 + |Opening(key)|)
  {
  }

  /** When the next quote after `start` is at `q`, the capture is the text in between. */
  lemma CaptureUpTo(line: string, start: nat, q: int)
    requires Find(line, "\"", start) == Some(q)
    ensures CaptureFrom(line, start) == line[start..q]
  {
  }

  /** When `key="` first occurs at `p0` and the next quote is at `q`, `Attribute` returns the
      text in between. */
  lemma AttributeBetween(line: string, key: string, p0: nat, q: int)
    requires Find(line, Opening(key), 0) == Some(p0)
    requires Find(line, "\"", p0 + |Opening(key)|) == Some(q)
    ensures Attribute(line, key) == line[p0 + |Opening(key)|..q]
  {
    AttributeAfterOpening(line, key, p0);
    CaptureUpTo(line, p0 + |Opening(key)|, q);
  }

  /** ... and the pattern matches at `p0` with that text. */
  lemma MatchAtFirst(line: string, key: string, p0: int, q: int)
    requires Find(line, Opening(key), 0) == Some(p0)
    requires Find(line, "\"", p0 + |Opening(key)|) == Some(q)
    ensures MatchesAt(line, key, p0, line[p0 + |Opening(key)|..q])
  {
    var start := p0 + |Opening(key)|;
    FirstCaptureQuoteFree(line, start, q);
    assert OccursAt(line, line[start..q], start);
  }

  /** ... which is the leftmost match, so its text is the capture. */
  lemma CapturedAtFirst(line: string, key: string, p0: int, q: int)
    requires Find(line, Opening(key), 0) == Some(p0)
    requires Find(line, "\"", p0 + |Opening(key)|) == Some(q)
    ensures Captures(line, key, line[p0 + |Opening(key)|..q])
  {
    MatchAtFirst(line, key, p0, q);
    NoMatchBefore(line, key, p0);
  }

  /** A leftmost match starts at the first `key="` when there is a match there. */
  lemma LeftmostAtFirst(line: string, key: string, p0: int, p: int, value: string, v0: string)
    requires Find(line, Opening(key), 0) == Some(p0)
    requires MatchesAt(line, key, p0, v0)
    requires MatchesAt(line, key, p, value)
    requires forall q', w :: 0 <= q' < p ==> !MatchesAt(line, key, q', w)
    ensures p == p0
  {
    assert !(p0 < p);
  }

  /** The capture of a match at `p0` runs up to the first quote after `key="`. */
  lemma CaptureEndsAtNextQuote(line: string, key: string, p0: nat, q: int, value: string)
    requires Find(line, "\"", p0 + |Opening(key)|) == Some(q)
    requires MatchesAt(line, key, p0, value)
    ensures value == line[p0 + |Opening(key)|..q]
  {
    var start := p0 + |Opening(key)|;
    CaptureQuoteFree(line, key, p0, value);
    QuoteAt(line, start + |value|);
    QuoteAt(line, q);
    assert start + |value| == q;
  }

  /** The leftmost match is the one at the first `key="`, and its capture ends at the next quote. */
  lemma LeftmostIsFirst(line: string, key: string, p0: int, q: int, p: int, value: string)
    requires Find(line, Opening(key), 0) == Some(p0)
    requires Find(line, "\"", p0 + |Opening(key)|) == Some(q)
    requires MatchesAt(line, key, p, value)
    requires forall q', w :: 0 <= q' < p ==> !MatchesAt(line, key, q', w)
    ensures value == line[p0 + |Opening(key)|..q]
  {
    MatchAtFirst(line, key, p0, q);
    LeftmostAtFirst(line, key, p0, p, value, line[p0 + |Opening(key)|..q]);
    CaptureEndsAtNextQuote(line, key, p0, q, value);
  }

  /** `Attribute` returns exactly the capture of `re.search('key="([^"]*)"', line)`, and ""
      when the pattern does not match. */
  lemma AttributeIsCapture(line: string, key: string, value: string)
    ensures Captures(line, key, value) ==> Attribute(line, key) == value
    ensures Attribute(line, key) != "" ==> Captures(line, key, Attribute(line, key))
  {
    match Find(line, Opening(key), 0)
    case None =>
    case Some(p0) =>
      match Find(line, "\"", p0 + |Opening(key)|)
      case None =>
        if Captures(line, key, value) {
          var p :| MatchesAt(line, key, p, value);
          NoCloseNoMatch(line, key, p0, p, value);
        }
      case Some(q) =>
        AttributeBetween(line, key, p0, q);
        CapturedAtFirst(line, key, p0, q);
        if Captures(line, key, value) {
          var p :| MatchesAt(line, key, p, value) && forall q', w :: 0 <= q' < p ==> !MatchesAt(line, key, q', w);
          LeftmostIsFirst(line, key, p0, q, p, value);
        }
  }

  /** The display name: the text after the last comma, or "" when the line has no comma
      (main.py:47). */
  function DisplayName(line: string): (name: string)
    ensures ',' !in name
    ensures ',' in line ==> EndsWith(line, "," + name)
    ensures ',' !in line ==> name == ""
  {
    if ',' in line then
      var pieces := Split(line, ',');
      LastPieceFollowsLastSeparator(line, ',');
      pieces[|pieces| - 1]
    else ""
  }

  /** `m.group(1) if m else ""` for `m = re.search('key="([^"]*)"', line)`: the capture of the
      leftmost match, or "" when the pattern matches nowhere. */
  ghost predicate FieldFrom(line: string, key: string, value: string) {
    Captures(line, key, value) || (value == "" && forall v :: !Captures(line, key, v))
  }

  lemma AttributeIsField(line: string, key: string)
    ensures FieldFrom(line, key, Attribute(line, key))
  {
    AttributeIsCapture(line, key, Attribute(line, key));
    if !Captures(line, key, Attribute(line, key)) {
      forall v ensures !Captures(line, key, v) {
        AttributeIsCapture(line, key, v);
      }
    }
  }

  /** The pending channel an `#EXTINF` line opens (main.py:40-57): it keeps the line and the
      index; InfoEntryFields states what its other fields are. */
  function InfoEntry(line: string, index: int): (p: PendingChannel)
    ensures p.rawInfo == line && p.index == index
  {
    PendingChannel(
      DisplayName(line),
      Attribute(line, "group-title"),
      Attribute(line, "tvg-id"),
      Attribute(line, "tvg-name"),
      Attribute(line, "tvg-logo"),
      line,
      index)
  }

  /** Each attribute of the pending channel is what its pattern captures, or "" when the
      pattern matches nowhere, and the name is what follows the last comma, or "" when the line
      has no comma (main.py:41-55). */
  lemma InfoEntryFields(line: string, index: int)
    ensures var p := InfoEntry(line, index);
      && ',' !in p.name && (',' in line ==> EndsWith(line, "," + p.name)) && (',' !in line ==> p.name == "")
      && FieldFrom(line, "group-title", p.group) && FieldFrom(line, "tvg-id", p.tvgId)
      && FieldFrom(line, "tvg-name", p.tvgName) && FieldFrom(line, "tvg-logo", p.tvgLogo)
  {
    AttributeIsField(line, "group-title");
    AttributeIsField(line, "tvg-id");
    AttributeIsField(line, "tvg-name");
    AttributeIsField(line, "tvg-logo");
  }

  /** The channel record a pending entry becomes once its URL line is read (main.py:61-62). */
  function Complete(p: PendingChannel, url: string): Channel {
    Channel(p.name, p.group, p.tvgId, p.tvgName, p.tvgLogo, url, p.rawInfo, p.index)
  }

  // ---------------------------------------------------------------------------
  // Parsing, as a state machine over the lines

  /** The parser's local state between two lines: `current_channel`, `index` and the
      channels this call has appended so far. */
  datatype ParseState = ParseState(pending: Option<PendingChannel>, index: int, emitted: seq<Channel>)

  const Initial: ParseState := ParseState(None, 0, [])

  /** One iteration of the loop at main.py:33-64 on the raw line `raw`. */
  function Step(st: ParseState, raw: string): ParseState {
    var line := Strip(raw);
    if line == "" then st
    else if StartsWith(line, ExtInfTag) then st.(pending := Some(InfoEntry(line, st.index)))
    else if StartsWith(line, UrlPrefix) then
      match st.pending
      case Some(p) => ParseState(None, st.index + 1, st.emitted + [Complete(p, line)])
      case None => st
    else st
  }

  /** The loop run from state `st` over the remaining `lines`. */
  function Run(st: ParseState, lines: seq<string>): ParseState
    decreases |lines|
  {
    if |lines| == 0 then st else Run(Step(st, lines[0]), lines[1..])
  }

  /** The channels one call of `parse` appends for `content`. */
  function ParsedChannels(content: string): seq<Channel> {
    Run(Initial, Split(content, '\n')).emitted
  }

  // ---------------------------------------------------------------------------
  // Export, as a function over the lines

  /** The lines `export_selection` appends for `lines`, where `ordinal` is the number of
      `#EXTINF` lines before them: a selected `#EXTINF` line and the raw line after it, both
      stripped (main.py:74-82). */
  function ExportFrom(lines: seq<string>, indices: seq<int>, ordinal: int): seq<string>
    decreases |lines|
  {
    if |lines| == 0 then []
    else
      var line := Strip(lines[0]);
      if StartsWith(line, ExtInfTag) then
        var picked :=
          if ordinal in indices then [line] + (if 1 < |lines| then [Strip(lines[1])] else [])
          else [];
        picked + ExportFrom(lines[1..], indices, ordinal + 1)
      else ExportFrom(lines[1..], indices, ordinal)
  }

  /** The lines of the exported playlist, header first. */
  function ExportedLines(indices: seq<int>, content: string): seq<string> {
    [HeaderTag] + ExportFrom(Split(content, '\n'), indices, 0)
  }

  /** The text `export_selection` returns. */
  function ExportedText(indices: seq<int>, content: string): string {
    Join(ExportedLines(indices, content), '\n')
  }

  /** One more line consumed by the loop: the run from `lines[i..]` is the run of one step. */
  lemma RunStep(st: ParseState, lines: seq<string>, i: int)
    requires 0 <= i < |lines|
    ensures Run(st, lines[i..]) == Run(Step(st, lines[i]), lines[i + 1..])
  {
    assert lines[i..][0] == lines[i] && lines[i..][1..] == lines[i + 1..];
  }

  /** One more line consumed by the export loop. */
  lemma ExportFromStep(lines: seq<string>, i: int, indices: seq<int>, ordinal: int)
    requires 0 <= i < |lines|
    ensures var line := Strip(lines[i]);
      ExportFrom(lines[i..], indices, ordinal) ==
        if StartsWith(line, ExtInfTag) then
          (if ordinal in indices then [line] + (if i + 1 < |lines| then [Strip(lines[i + 1])] else []) else [])
          + ExportFrom(lines[i + 1..], indices, ordinal + 1)
        else ExportFrom(lines[i + 1..], indices, ordinal)
  {
    assert lines[i..][0] == lines[i] && lines[i..][1..] == lines[i + 1..];
    assert i + 1 < |lines| ==> lines[i..][1] == lines[i + 1];
  }

  // ---------------------------------------------------------------------------
  // The parser object

  class M3UParser {
    /** `self.channels`: every channel parsed by this object, across calls. */
    var channels: seq<Channel>

    constructor ()
      ensures channels == []
    {
      channels := [];
    }

    /** `parse` (main.py:28-66): appends the channels of `content` to `channels` and
        returns the whole list. */
    method Parse(content: string) returns (result: seq<Channel>)
      modifies this
      ensures channels == old(channels) + ParsedChannels(content)
      ensures result == channels
    {
      var lines := Split(content, '\n');
      var current: Option<PendingChannel> := None;
      var index := 0;
      ghost var before := channels;
      assert channels[|before|..] == [] && lines[0..] == lines;
      for i := 0 to |lines|
        invariant |before| <= |channels| && channels[..|before|] == before
        invariant Run(ParseState(current, index, channels[|before|..]), lines[i..]) == Run(Initial, lines)
      {
        ghost var st := ParseState(current, index, channels[|before|..]);
        ghost var next := Step(st, lines[i]);
        RunStep(st, lines, i);
        var line := Strip(lines[i]);
        if line == "" {
          assert next == st;
          continue;
        }
        if StartsWith(line, ExtInfTag) {
          current := Some(InfoEntry(line, index));
        } else if StartsWith(line, UrlPrefix) {
          if current.Some? {
            channels := channels + [Complete(current.value, line)];
            current := None;
            index := index + 1;
            assert channels[|before|..] == st.emitted + [Complete(st.pending.value, line)];
          }
        }
        assert ParseState(current, index, channels[|before|..]) == next;
      }
      assert channels[|before|..] == ParsedChannels(content);
      assert channels == before + channels[|before|..];
      result := channels;
    }

    /** `export_selection` (main.py:68-84): the header, then every `#EXTINF` line whose
        ordinal is in `indices` together with the line after it. */
    method ExportSelection(indices: seq<int>, originalContent: string) returns (text: string)
      ensures text == ExportedText(indices, originalContent)
    {
      var lines := Split(originalContent, '\n');
      var selected := [HeaderTag];
      var currentIndex := 0;
      var i := 0;
      while i < |lines|
        invariant 0 <= i <= |lines|
        invariant selected + ExportFrom(lines[i..], indices, currentIndex) == ExportedLines(indices, originalContent)
      {
        ExportFromStep(lines, i, indices, currentIndex);
        var line := Strip(lines[i]);
        if StartsWith(line, ExtInfTag) {
          if currentIndex in indices {
            selected := selected + [line];
            if i + 1 < |lines| {
              selected := selected + [Strip(lines[i + 1])];
            }
          }
          currentIndex := currentIndex + 1;
        }
        i := i + 1;
      }
      assert lines[i..] == [];
      assert selected == ExportedLines(indices, originalContent);
      text := Join(selected, '\n');
    }
  }
}
