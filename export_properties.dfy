/** What `export_selection` (backend/main.py:68-84) promises, proved about its specification
    `Backend.ExportFrom`, and the round trip from `parse` to `export_selection`. */
module ExportProperties {
  import opened Text
  import opened Backend
  import opened ParseReference

  // ---------------------------------------------------------------------------
  // Shape of the output

  /** Every exported line is a stripped input line, so none holds a line break. */
  lemma {:induction false} ExportFromHasNoBreaks(lines: seq<string>, indices: seq<int>, ordinal: int)
    requires forall i :: 0 <= i < |lines| ==> '\n' !in lines[i]
    ensures forall i :: 0 <= i < |ExportFrom(lines, indices, ordinal)| ==> '\n' !in ExportFrom(lines, indices, ordinal)[i]
    decreases |lines|
  {
    if |lines| > 0 {
      StripKeepsAbsent(lines[0], '\n');
      if 1 < |lines| {
        StripKeepsAbsent(lines[1], '\n');
      }
      var next := if StartsWith(Strip(lines[0]), ExtInfTag) then ordinal + 1 else ordinal;
      ExportFromHasNoBreaks(lines[1..], indices, next);
    }
  }

  /** The exported text, split into lines, is exactly the header and the picked lines: the lines
      are joined with single line breaks and no break is added at the end. */
  lemma ExportedTextLines(indices: seq<int>, content: string)
    ensures Split(ExportedText(indices, content), '\n') == ExportedLines(indices, content)
    ensures Split(ExportedText(indices, content), '\n')[0] == HeaderTag
  {
    var lines := Split(content, '\n');
    ExportFromHasNoBreaks(lines, indices, 0);
    var out := ExportedLines(indices, content);
    forall i | 0 <= i < |out| ensures '\n' !in out[i] {
      if i > 0 {
        assert out[i] == ExportFrom(lines, indices, 0)[i - 1];
      }
    }
    SplitJoin(out, '\n');
  }

  /** The text always starts with the `#EXTM3U` header. */
  lemma ExportStartsWithHeader(indices: seq<int>, content: string)
    ensures StartsWith(ExportedText(indices, content), HeaderTag)
  {
    var out := ExportedLines(indices, content);
    if |out| > 1 {
      assert ExportedText(indices, content) == HeaderTag + ([('\n')] + Join(out[1..], '\n'));
    }
  }

  lemma {:induction false} ExportFromNothing(lines: seq<string>, ordinal: int)
    ensures ExportFrom(lines, [], ordinal) == []
    decreases |lines|
  {
    if |lines| > 0 {
      ExportFromNothing(lines[1..], if StartsWith(Strip(lines[0]), ExtInfTag) then ordinal + 1 else ordinal);
    }
  }

  /** Exporting an empty selection gives just the header line. */
  lemma ExportEmptySelection(content: string)
    ensures ExportedText([], content) == HeaderTag
  {
    ExportFromNothing(Split(content, '\n'), 0);
  }

  /** Only membership of the ordinals that exist matters. */
  lemma {:induction false} ExportFromDependsOnMembership(lines: seq<string>, a: seq<int>, b: seq<int>, ordinal: int)
    requires forall x :: ordinal <= x < ordinal + InfoLineCount(lines) ==> (x in a <==> x in b)
    ensures ExportFrom(lines, a, ordinal) == ExportFrom(lines, b, ordinal)
    decreases |lines|
  {
    if |lines| > 0 {
      var isInfo := StartsWith(Strip(lines[0]), ExtInfTag);
      ExportFromDependsOnMembership(lines[1..], a, b, if isInfo then ordinal + 1 else ordinal);
    }
  }

  /** The order and the repetitions in `indices` do not matter, nor do indices that name no
      `#EXTINF` line: two index lists that agree on which existing ordinals they contain export
      the same text. */
  lemma ExportDependsOnlyOnSelectedOrdinals(content: string, a: seq<int>, b: seq<int>)
    requires forall x :: 0 <= x < InfoLineCount(Split(content, '\n')) ==> (x in a <==> x in b)
    ensures ExportedText(a, content) == ExportedText(b, content)
  {
    ExportFromDependsOnMembership(Split(content, '\n'), a, b, 0);
  }

  /** At most two lines per `#EXTINF` line are exported. */
  lemma {:induction false} ExportFromBounded(lines: seq<string>, indices: seq<int>, ordinal: int)
    ensures |ExportFrom(lines, indices, ordinal)| <= 2 * InfoLineCount(lines)
    decreases |lines|
  {
    if |lines| > 0 {
      var isInfo := StartsWith(Strip(lines[0]), ExtInfTag);
      ExportFromBounded(lines[1..], indices, if isInfo then ordinal + 1 else ordinal);
    }
  }

  // ---------------------------------------------------------------------------
  // Round trip from parse to export

  /** Every `#EXTINF` line is immediately followed by a line that, stripped, starts with `http`. */
  ghost predicate WellFormed(lines: seq<string>) {
    forall i :: 0 <= i < |lines| && StartsWith(Strip(lines[i]), ExtInfTag) ==>
      i + 1 < |lines| && StartsWith(Strip(lines[i + 1]), UrlPrefix)
  }

  /** The `#EXTINF` line and URL of each channel whose index is in `indices`, in list order. */
  function Selected(cs: seq<Channel>, indices: seq<int>): seq<string>
    decreases |cs|
  {
    if |cs| == 0 then []
    else (if cs[0].index in indices then [cs[0].rawInfo, cs[0].url] else []) + Selected(cs[1..], indices)
  }

  lemma {:induction false} SelectedAppend(a: seq<Channel>, b: seq<Channel>, indices: seq<int>)
    ensures Selected(a + b, indices) == Selected(a, indices) + Selected(b, indices)
    decreases |a|
  {
    if |a| == 0 {
      assert a + b == b;
    } else {
      assert (a + b)[1..] == a[1..] + b;
      SelectedAppend(a[1..], b, indices);
    }
  }

  /** An `#EXTINF` line followed by its URL line: the parser emits one channel. */
  lemma RunOverEntry(st: ParseState, lines: seq<string>)
    requires st.pending.None? && 2 <= |lines|
    requires StartsWith(Strip(lines[0]), ExtInfTag) && StartsWith(Strip(lines[1]), UrlPrefix)
    ensures Run(st, lines) == Run(AfterEntry(st, lines), lines[2..])
  {
    var l0 := Strip(lines[0]);
    var st1 := st.(pending := Some(InfoEntry(l0, st.index)));
    InfoLineStep(st, lines[0]);
    UrlLineStep(st1, lines[1]);
    assert lines[1..][0] == lines[1] && lines[1..][1..] == lines[2..];
  }

  lemma InfoLineStep(st: ParseState, raw: string)
    requires StartsWith(Strip(raw), ExtInfTag)
    ensures Step(st, raw) == st.(pending := Some(InfoEntry(Strip(raw), st.index)))
  {
    var line := Strip(raw);
    assert |line| >= |ExtInfTag|;
  }

  lemma UrlLineStep(st: ParseState, raw: string)
    requires st.pending.Some? && StartsWith(Strip(raw), UrlPrefix)
    ensures Step(st, raw) == ParseState(None, st.index + 1, st.emitted + [Complete(st.pending.value, Strip(raw))])
  {
    var line := Strip(raw);
    assert |line| >= |UrlPrefix| && line[0] == 'h';
  }

  /** Any other line leaves a parser with nothing pending unchanged. */
  lemma RunOverOther(st: ParseState, lines: seq<string>)
    requires st.pending.None? && 1 <= |lines|
    requires !StartsWith(Strip(lines[0]), ExtInfTag)
    ensures Run(st, lines) == Run(st, lines[1..])
  {
    StepByClass(st, lines[0]);
  }

  /** The export of an `#EXTINF` line followed by its URL line. */
  lemma ExportOverEntry(lines: seq<string>, indices: seq<int>, ordinal: int)
    requires 2 <= |lines|
    requires StartsWith(Strip(lines[0]), ExtInfTag) && StartsWith(Strip(lines[1]), UrlPrefix)
    ensures ExportFrom(lines, indices, ordinal) ==
      (if ordinal in indices then [Strip(lines[0]), Strip(lines[1])] else []) + ExportFrom(lines[2..], indices, ordinal + 1)
  {
    assert Strip(lines[1])[0] == 'h';
    assert lines[1..][0] == lines[1] && lines[1..][1..] == lines[2..];
  }

  /** Dropping leading lines keeps a playlist well formed. */
  lemma WellFormedDrop(lines: seq<string>, k: nat)
    requires WellFormed(lines) && k <= |lines|
    ensures WellFormed(lines[k..])
  {
    forall i | 0 <= i < |lines[k..]| && StartsWith(Strip(lines[k..][i]), ExtInfTag)
      ensures i + 1 < |lines[k..]| && StartsWith(Strip(lines[k..][i + 1]), UrlPrefix)
    {
      assert lines[k..][i] == lines[i + k];
    }
  }

  /** What the parser emits and what the export picks agree from state `st` on. */
  ghost predicate ExportsSelected(st: ParseState, lines: seq<string>, indices: seq<int>) {
    Selected(Run(st, lines).emitted, indices) == Selected(st.emitted, indices) + ExportFrom(lines, indices, st.index)
  }

  /** The parser state after an `#EXTINF` line and its URL line. */
  function AfterEntry(st: ParseState, lines: seq<string>): ParseState
    requires 2 <= |lines|
  {
    ParseState(None, st.index + 1, st.emitted + [Complete(InfoEntry(Strip(lines[0]), st.index), Strip(lines[1]))])
  }

  /** The agreement carries back over an `#EXTINF` line and its URL line. */
  lemma ExportsSelectedOverEntry(st: ParseState, lines: seq<string>, indices: seq<int>)
    requires st.pending.None? && 2 <= |lines|
    requires StartsWith(Strip(lines[0]), ExtInfTag) && StartsWith(Strip(lines[1]), UrlPrefix)
    requires ExportsSelected(AfterEntry(st, lines), lines[2..], indices)
    ensures ExportsSelected(st, lines, indices)
  {
    var next := AfterEntry(st, lines);
    var c := Complete(InfoEntry(Strip(lines[0]), st.index), Strip(lines[1]));
    var rest := ExportFrom(lines[2..], indices, st.index + 1);
    assert Selected(Run(st, lines).emitted, indices) == Selected(next.emitted, indices) + rest by {
      RunOverEntry(st, lines);
    }
    assert ExportFrom(lines, indices, st.index) == (if c.index in indices then [c.rawInfo, c.url] else []) + rest by {
      ExportOverEntry(lines, indices, st.index);
    }
    assert next.emitted == st.emitted + [c];
    SelectedOverEntry(st.emitted, c, Run(st, lines).emitted, ExportFrom(lines, indices, st.index), rest, indices);
  }

  /** The list algebra of the step above: one more emitted channel on the parse side, its two
      lines or nothing on the export side. */
  lemma SelectedOverEntry(emitted: seq<Channel>, c: Channel, run: seq<Channel>, exported: seq<string>,
                          rest: seq<string>, indices: seq<int>)
    requires Selected(run, indices) == Selected(emitted + [c], indices) + rest
    requires exported == (if c.index in indices then [c.rawInfo, c.url] else []) + rest
    ensures Selected(run, indices) == Selected(emitted, indices) + exported
  {
    SelectedAppend(emitted, [c], indices);
    SelectedOne(c, indices);
  }

  /** A single channel is picked exactly when its index is selected. */
  lemma SelectedOne(c: Channel, indices: seq<int>)
    ensures Selected([c], indices) == if c.index in indices then [c.rawInfo, c.url] else []
  {
    assert [c][1..] == [];
  }

  /** The agreement carries back over any other line. */
  lemma ExportsSelectedOverOther(st: ParseState, lines: seq<string>, indices: seq<int>)
    requires st.pending.None? && 1 <= |lines|
    requires !StartsWith(Strip(lines[0]), ExtInfTag)
    requires ExportsSelected(st, lines[1..], indices)
    ensures ExportsSelected(st, lines, indices)
  {
    RunOverOther(st, lines);
  }

  /** Parsing from a state with nothing pending and exporting from the same ordinal pick the
      same lines. */
  lemma {:induction false} RunExportsSelected(st: ParseState, lines: seq<string>, indices: seq<int>)
    requires st.pending.None? && WellFormed(lines)
    ensures ExportsSelected(st, lines, indices)
    decreases |lines|
  {
    if |lines| == 0 {
    } else if StartsWith(Strip(lines[0]), ExtInfTag) {
      WellFormedDrop(lines, 2);
      RunExportsSelected(AfterEntry(st, lines), lines[2..], indices);
      ExportsSelectedOverEntry(st, lines, indices);
    } else {
      WellFormedDrop(lines, 1);
      RunExportsSelected(st, lines[1..], indices);
      ExportsSelectedOverOther(st, lines, indices);
    }
  }

  /** Round trip: when every `#EXTINF` line is directly followed by its URL line, exporting
      `indices` gives the header and then, in index order, the `#EXTINF` line and URL of
      exactly the parsed channels whose index is in `indices`. */
  lemma ExportRoundTrip(content: string, indices: seq<int>)
    requires WellFormed(Split(content, '\n'))
    ensures ExportedLines(indices, content) == [HeaderTag] + Selected(ParsedChannels(content), indices)
    ensures ExportedText(indices, content) == Join([HeaderTag] + Selected(ParsedChannels(content), indices), '\n')
  {
    RunExportsSelected(Initial, Split(content, '\n'), indices);
  }
}
