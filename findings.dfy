/** Two inputs on which `export_selection` does not export the channel that `parse` numbered
    with the selected index, and the export by parsed channel that was evidently intended. */
module Findings {
  import opened Text
  import opened Backend
  import opened ParseReference
  import opened ExportProperties
  import opened Viewer

  /** Export by parse index: the header, then the `#EXTINF` line and URL of each parsed
      channel whose index is selected, in index order. */
  function ExportParsedSelection(indices: seq<int>, content: string): string {
    Join([HeaderTag] + Selected(ParsedChannels(content), indices), '\n')
  }

  const BlankGap: seq<string> := ["#EXTINF:a", "", "httpx"]

  lemma BlankGapJoined()
    ensures Join(BlankGap, '\n') == BlankGapText
  {
    assert BlankGap[1..][1..] == ["httpx"];
    assert Join(BlankGap[1..], '\n') == "\nhttpx";
  }

  lemma BlankGapNoBreaks()
    ensures forall i :: 0 <= i < |BlankGap| ==> '\n' !in BlankGap[i]
  {
  }

  lemma BlankGapSplit()
    ensures Split(BlankGapText, '\n') == BlankGap
  {
    BlankGapNoBreaks();
    BlankGapJoined();
    SplitJoin(BlankGap, '\n');
  }

  lemma BlankGapStripped()
    ensures Strip(BlankGap[0]) == BlankGap[0] && Strip(BlankGap[1]) == BlankGap[1] && Strip(BlankGap[2]) == BlankGap[2]
  {
  }

  lemma BlankGapRun()
    ensures Run(Initial, BlankGap).emitted == [Complete(InfoEntry("#EXTINF:a", 0), "httpx")]
  {
    BlankGapStripped();
    var st1 := Step(Initial, BlankGap[0]);
    assert StartsWith(BlankGap[0], ExtInfTag);
    assert st1 == ParseState(Some(InfoEntry(BlankGap[0], 0)), 0, []);
    assert Step(st1, BlankGap[1]) == st1;
    assert !StartsWith(BlankGap[2], ExtInfTag) && StartsWith(BlankGap[2], UrlPrefix);
    RunStep(Initial, BlankGap, 0);
    RunStep(st1, BlankGap, 1);
    RunStep(st1, BlankGap, 2);
    assert BlankGap[0..] == BlankGap;
  }

  lemma BlankGapExportLast()
    ensures ExportFrom(BlankGap[2..], [0], 1) == []
  {
    BlankGapStripped();
    assert !StartsWith(BlankGap[2], ExtInfTag);
    ExportFromStep(BlankGap, 2, [0], 1);
  }

  lemma BlankGapExportMiddle()
    ensures ExportFrom(BlankGap[1..], [0], 1) == []
  {
    BlankGapStripped();
    BlankGapExportLast();
    ExportFromStep(BlankGap, 1, [0], 1);
  }

  lemma BlankGapExport()
    ensures ExportFrom(BlankGap, [0], 0) == ["#EXTINF:a", ""]
  {
    BlankGapStripped();
    BlankGapExportMiddle();
    assert StartsWith(BlankGap[0], ExtInfTag);
    ExportFromStep(BlankGap, 0, [0], 0);
    assert BlankGap[0..] == BlankGap;
  }

  const BlankGapText: string := "#EXTINF:a\n\nhttpx"
  const BlankGapChannel: Channel := Complete(InfoEntry("#EXTINF:a", 0), "httpx")

  lemma BlankGapParsed()
    ensures ParsedChannels(BlankGapText) == [BlankGapChannel]
  {
    BlankGapSplit();
    BlankGapRun();
  }

  lemma BlankGapExported()
    ensures ExportedLines([0], BlankGapText) == [HeaderTag, "#EXTINF:a", ""]
  {
    BlankGapSplit();
    BlankGapExport();
  }

  lemma BlankGapCorrected()
    ensures ExportParsedSelection([0], BlankGapText) == Join([HeaderTag, "#EXTINF:a", "httpx"], '\n')
  {
    BlankGapParsed();
    assert Selected([BlankGapChannel], [0]) == ["#EXTINF:a", "httpx"];
  }

  /** A blank line between an `#EXTINF` line and its URL: `parse` gives channel 0 the URL, but
      exporting index 0 writes the `#EXTINF` line and the blank line, and the URL is lost. */
  lemma UrlLostAfterBlankLine()
    ensures ParsedChannels(BlankGapText) == [BlankGapChannel] && BlankGapChannel.url == "httpx"
    ensures ExportedLines([0], BlankGapText) == [HeaderTag, "#EXTINF:a", ""]
    ensures ExportParsedSelection([0], BlankGapText) == Join([HeaderTag, "#EXTINF:a", "httpx"], '\n')
  {
    BlankGapParsed();
    BlankGapExported();
    BlankGapCorrected();
  }

  const OrphanInfo: seq<string> := ["#EXTINF:a", "#EXTINF:b", "httpx"]

  lemma OrphanInfoJoined()
    ensures Join(OrphanInfo, '\n') == OrphanInfoText
  {
    assert OrphanInfo[1..][1..] == ["httpx"];
    assert Join(OrphanInfo[1..], '\n') == "#EXTINF:b\nhttpx";
  }

  lemma OrphanInfoNoBreaks()
    ensures forall i :: 0 <= i < |OrphanInfo| ==> '\n' !in OrphanInfo[i]
  {
  }

  lemma OrphanInfoSplit()
    ensures Split(OrphanInfoText, '\n') == OrphanInfo
  {
    OrphanInfoNoBreaks();
    OrphanInfoJoined();
    SplitJoin(OrphanInfo, '\n');
  }

  lemma OrphanInfoStripped()
    ensures Strip(OrphanInfo[0]) == OrphanInfo[0] && Strip(OrphanInfo[1]) == OrphanInfo[1] && Strip(OrphanInfo[2]) == OrphanInfo[2]
  {
  }

  /** The parser's states over the three lines: the second `#EXTINF` line replaces the first. */
  lemma OrphanInfoSteps()
    ensures Step(Initial, OrphanInfo[0]) == ParseState(Some(InfoEntry(OrphanInfo[0], 0)), 0, [])
    ensures Step(ParseState(Some(InfoEntry(OrphanInfo[0], 0)), 0, []), OrphanInfo[1]) == ParseState(Some(InfoEntry(OrphanInfo[1], 0)), 0, [])
    ensures Step(ParseState(Some(InfoEntry(OrphanInfo[1], 0)), 0, []), OrphanInfo[2]) == ParseState(None, 1, [OrphanInfoChannel])
  {
    OrphanInfoStripped();
    assert StartsWith(OrphanInfo[0], ExtInfTag) && StartsWith(OrphanInfo[1], ExtInfTag);
    assert !StartsWith(OrphanInfo[2], ExtInfTag) && StartsWith(OrphanInfo[2], UrlPrefix);
  }

  lemma OrphanInfoRun()
    ensures Run(Initial, OrphanInfo).emitted == [OrphanInfoChannel]
  {
    OrphanInfoSteps();
    var st1 := ParseState(Some(InfoEntry(OrphanInfo[0], 0)), 0, []);
    var st2 := ParseState(Some(InfoEntry(OrphanInfo[1], 0)), 0, []);
    RunStep(Initial, OrphanInfo, 0);
    RunStep(st1, OrphanInfo, 1);
    RunStep(st2, OrphanInfo, 2);
    assert OrphanInfo[0..] == OrphanInfo;
  }

  lemma OrphanInfoExportLast()
    ensures ExportFrom(OrphanInfo[2..], [0], 2) == []
  {
    OrphanInfoStripped();
    assert !StartsWith(OrphanInfo[2], ExtInfTag);
    ExportFromStep(OrphanInfo, 2, [0], 2);
  }

  lemma OrphanInfoExportMiddle()
    ensures ExportFrom(OrphanInfo[1..], [0], 1) == []
  {
    OrphanInfoStripped();
    OrphanInfoExportLast();
    ExportFromStep(OrphanInfo, 1, [0], 1);
  }

  lemma OrphanInfoExport()
    ensures ExportFrom(OrphanInfo, [0], 0) == ["#EXTINF:a", "#EXTINF:b"]
  {
    OrphanInfoStripped();
    OrphanInfoExportMiddle();
    assert StartsWith(OrphanInfo[0], ExtInfTag);
    ExportFromStep(OrphanInfo, 0, [0], 0);
    assert OrphanInfo[0..] == OrphanInfo;
  }

  const OrphanInfoText: string := "#EXTINF:a\n#EXTINF:b\nhttpx"
  const OrphanInfoChannel: Channel := Complete(InfoEntry("#EXTINF:b", 0), "httpx")

  lemma OrphanInfoParsed()
    ensures ParsedChannels(OrphanInfoText) == [OrphanInfoChannel]
  {
    OrphanInfoSplit();
    OrphanInfoRun();
  }

  lemma OrphanInfoExported()
    ensures ExportedLines([0], OrphanInfoText) == [HeaderTag, "#EXTINF:a", "#EXTINF:b"]
  {
    OrphanInfoSplit();
    OrphanInfoExport();
  }

  lemma OrphanInfoCorrected()
    ensures ExportParsedSelection([0], OrphanInfoText) == Join([HeaderTag, "#EXTINF:b", "httpx"], '\n')
  {
    OrphanInfoParsed();
    assert Selected([OrphanInfoChannel], [0]) == ["#EXTINF:b", "httpx"];
  }

  /** An `#EXTINF` line with no URL before the next one: `parse` drops it and numbers the next
      channel 0, but export counts it as ordinal 0, so exporting index 0 writes the dropped
      entry and the `#EXTINF` line of channel 0, and no URL. */
  lemma OrphanInfoShiftsSelection()
    ensures ParsedChannels(OrphanInfoText) == [OrphanInfoChannel] && OrphanInfoChannel.rawInfo == "#EXTINF:b"
    ensures ExportedLines([0], OrphanInfoText) == [HeaderTag, "#EXTINF:a", "#EXTINF:b"]
    ensures ExportParsedSelection([0], OrphanInfoText) == Join([HeaderTag, "#EXTINF:b", "httpx"], '\n')
  {
    OrphanInfoParsed();
    OrphanInfoExported();
    OrphanInfoCorrected();
  }

  // ---------------------------------------------------------------------------
  // The corrected export

  /** No channel in `cs` is selected. */
  lemma {:induction false} SelectedNone(cs: seq<Channel>, indices: seq<int>)
    requires forall j :: 0 <= j < |cs| ==> cs[j].index !in indices
    ensures Selected(cs, indices) == []
    decreases |cs|
  {
    if |cs| > 0 {
      SelectedNone(cs[1..], indices);
    }
  }

  /** Channels numbered consecutively from `base`: selecting `base + k` picks exactly channel `k`. */
  lemma {:induction false} SelectedOne(cs: seq<Channel>, base: int, k: int)
    requires forall j :: 0 <= j < |cs| ==> cs[j].index == base + j
    requires 0 <= k < |cs|
    ensures Selected(cs, [base + k]) == [cs[k].rawInfo, cs[k].url]
    decreases |cs|
  {
    if k == 0 {
      SelectedNone(cs[1..], [base]);
    } else {
      SelectedOne(cs[1..], base + 1, k - 1);
    }
  }

  /** Selecting the index of a parsed channel picks exactly that channel. */
  lemma SelectedParsedChannel(content: string, k: int)
    requires 0 <= k < |ParsedChannels(content)|
    ensures Selected(ParsedChannels(content), [k]) == [ParsedChannels(content)[k].rawInfo, ParsedChannels(content)[k].url]
  {
    ParsedIndicesConsecutive(content);
    SelectedOne(ParsedChannels(content), 0, k);
  }

  /** Exporting the index of any parsed channel writes the header, that channel's `#EXTINF` line
      and its URL, whatever lines surround them in the playlist. */
  lemma CorrectedExportsEachChannel(content: string, k: int)
    requires 0 <= k < |ParsedChannels(content)|
    ensures var c := ParsedChannels(content)[k];
      && StartsWith(c.url, UrlPrefix)
      && ExportParsedSelection([k], content) == Join([HeaderTag, c.rawInfo, c.url], '\n')
  {
    var c := ParsedChannels(content)[k];
    ParsedChannelOrigin(content, k);
    SelectedParsedChannel(content, k);
    assert [HeaderTag] + [c.rawInfo, c.url] == [HeaderTag, c.rawInfo, c.url];
  }

  /** On a playlist where every `#EXTINF` line is followed by its URL, the corrected export and
      `export_selection` write the same text. */
  lemma CorrectedAgreesWhenWellFormed(content: string, indices: seq<int>)
    requires WellFormed(Split(content, '\n'))
    ensures ExportParsedSelection(indices, content) == ExportedText(indices, content)
  {
    ExportRoundTrip(content, indices);
  }

  /** End to end with the corrected export and no condition on the playlist: the indices the
      viewer sends for a selection of parsed channels export exactly those channels, each as
      its `#EXTINF` line and its URL, in playlist order. */
  lemma CorrectedExportOfSelectedChannels(content: string, selected: seq<Channel>)
    requires forall c :: c in selected ==> c in ParsedChannels(content)
    ensures ExportParsedSelection(ExportIndices(selected), content)
      == Join([HeaderTag] + Picked(ParsedChannels(content), selected), '\n')
  {
    var cs := ParsedChannels(content);
    var indices := ExportIndices(selected);
    forall k | 0 <= k < |cs| ensures cs[k].index in indices <==> cs[k] in selected {
      IndexSelectsChannel(content, selected, k);
    }
    SelectedIsPicked(cs, indices, selected);
  }
}
