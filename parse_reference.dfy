/** A second, independent description of what `parse` produces, and the properties of the
    parsed channel list proved from it.

    The loop in backend/main.py:33-64 is a state machine (`Backend.Step`). Here the same
    result is described without state: classify each line, keep the `#EXTINF` and URL lines,
    and pair every `#EXTINF` line with the URL line that comes right after it among those. */
module ParseReference {
  import opened Text
  import opened Backend

  /** What one raw line is to the parser, after stripping. */
  datatype Token = Info(line: string) | Link(url: string) | Skip

  function Classify(raw: string): Token {
    var line := Strip(raw);
    if line == "" then Skip
    else if StartsWith(line, ExtInfTag) then Info(line)
    else if StartsWith(line, UrlPrefix) then Link(line)
    else Skip
  }

  /** The `#EXTINF` and URL lines of `lines`, classified, in file order. */
  function Significant(lines: seq<string>): seq<Token>
    decreases |lines|
  {
    if |lines| == 0 then []
    else
      var t := Classify(lines[0]);
      (if t.Skip? then [] else [t]) + Significant(lines[1..])
  }

  /** An `#EXTINF` line and the URL line that completes it. */
  datatype Entry = Entry(info: string, url: string)

  /** Every `#EXTINF` token immediately followed by a URL token, paired with it. */
  function Pairs(ts: seq<Token>): seq<Entry>
    decreases |ts|
  {
    if |ts| < 2 then []
    else if ts[0].Info? && ts[1].Link? then [Entry(ts[0].line, ts[1].url)] + Pairs(ts[2..])
    else Pairs(ts[1..])
  }

  /** The channel records of `es`, numbered from `first`. */
  function Numbered(es: seq<Entry>, first: int): seq<Channel>
    decreases |es|
  {
    if |es| == 0 then []
    else [Complete(InfoEntry(es[0].info, first), es[0].url)] + Numbered(es[1..], first + 1)
  }

  /** The channels of `content` by the stateless description. */
  function ReferenceChannels(content: string): seq<Channel> {
    Numbered(Pairs(Significant(Split(content, '\n'))), 0)
  }

  // ---------------------------------------------------------------------------
  // The state machine computes the reference

  /** The token a parser state still holds: its pending `#EXTINF` line, if any. */
  function Carried(st: ParseState): seq<Token> {
    if st.pending.Some? then [Info(st.pending.value.rawInfo)] else []
  }

  /** A pending entry is the one its own `#EXTINF` line opens at the current index. */
  ghost predicate Consistent(st: ParseState) {
    st.pending.Some? ==> st.pending.value == InfoEntry(st.pending.value.rawInfo, st.index)
  }

  /** One step of the state machine, by the class of the line. */
  lemma StepByClass(st: ParseState, raw: string)
    ensures Step(st, raw) == match Classify(raw)
      case Skip => st
      case Info(l) => st.(pending := Some(InfoEntry(l, st.index)))
      case Link(u) =>
        if st.pending.Some? then ParseState(None, st.index + 1, st.emitted + [Complete(st.pending.value, u)])
        else st
  {
    var line := Strip(raw);
    if StartsWith(line, ExtInfTag) {
      assert line != "";
    } else if StartsWith(line, UrlPrefix) {
      assert line != "";
    }
  }

  /** A pending `#EXTINF` token followed by another one pairs with nothing. */
  lemma PairsDropsReplaced(carried: seq<Token>, l: string, rest: seq<Token>)
    requires |carried| <= 1 && forall t :: t in carried ==> t.Info?
    ensures Pairs(carried + ([Info(l)] + rest)) == Pairs([Info(l)] + rest)
  {
    if |carried| == 1 {
      assert (carried + ([Info(l)] + rest))[1..] == [Info(l)] + rest;
    } else {
      assert carried + ([Info(l)] + rest) == [Info(l)] + rest;
    }
  }

  /** A URL token with no `#EXTINF` token before it pairs with nothing. */
  lemma PairsDropsOrphan(u: string, rest: seq<Token>)
    ensures Pairs([Link(u)] + rest) == Pairs(rest)
  {
    if |rest| > 0 {
      assert ([Link(u)] + rest)[1..] == rest;
    }
  }

  /** A pending `#EXTINF` token followed by a URL token makes an entry. */
  lemma PairsCompletes(l: string, u: string, rest: seq<Token>)
    ensures Pairs([Info(l)] + ([Link(u)] + rest)) == [Entry(l, u)] + Pairs(rest)
  {
    assert ([Info(l)] + ([Link(u)] + rest))[2..] == rest;
  }

  /** The tokens one raw line contributes to Significant. */
  function TokensOf(raw: string): seq<Token> {
    var t := Classify(raw);
    if t.Skip? then [] else [t]
  }

  /** The equation of StepMatchesPairs, for a given next state. */
  ghost predicate StepTrades(st: ParseState, next: ParseState, ts: seq<Token>, rest: seq<Token>) {
    next.emitted + Numbered(Pairs(Carried(next) + rest), next.index)
      == st.emitted + Numbered(Pairs(Carried(st) + (ts + rest)), st.index)
  }

  lemma InfoStepMatchesPairs(st: ParseState, l: string, rest: seq<Token>)
    ensures StepTrades(st, st.(pending := Some(InfoEntry(l, st.index))), [Info(l)], rest)
  {
    var next := st.(pending := Some(InfoEntry(l, st.index)));
    PairsDropsReplaced(Carried(st), l, rest);
    assert Carried(next) == [Info(l)];
  }

  lemma LinkStepMatchesPairs(st: ParseState, u: string, rest: seq<Token>)
    requires Consistent(st)
    ensures var next := if st.pending.Some? then ParseState(None, st.index + 1, st.emitted + [Complete(st.pending.value, u)]) else st;
      StepTrades(st, next, [Link(u)], rest)
  {
    if st.pending.Some? {
      var p := st.pending.value;
      var next := ParseState(None, st.index + 1, st.emitted + [Complete(p, u)]);
      PairsCompletes(p.rawInfo, u, rest);
      assert Carried(st) + ([Link(u)] + rest) == [Info(p.rawInfo)] + ([Link(u)] + rest);
      assert Carried(next) + rest == rest;
      assert Numbered([Entry(p.rawInfo, u)] + Pairs(rest), st.index)
          == [Complete(InfoEntry(p.rawInfo, st.index), u)] + Numbered(Pairs(rest), st.index + 1);
    } else {
      PairsDropsOrphan(u, rest);
      assert Carried(st) + ([Link(u)] + rest) == [Link(u)] + rest;
      assert Carried(st) + rest == rest;
    }
  }

  /** One step keeps the state consistent and trades the line's token for what it emits. */
  lemma StepMatchesPairs(st: ParseState, raw: string, rest: seq<Token>)
    requires Consistent(st)
    ensures Consistent(Step(st, raw))
    ensures StepTrades(st, Step(st, raw), TokensOf(raw), rest)
  {
    StepByClass(st, raw);
    match Classify(raw)
    case Skip =>
      assert TokensOf(raw) + rest == rest;
    case Info(l) =>
      InfoStepMatchesPairs(st, l, rest);
    case Link(u) =>
      LinkStepMatchesPairs(st, u, rest);
  }

  lemma {:induction false} RunMatchesPairs(st: ParseState, lines: seq<string>)
    requires Consistent(st)
    ensures Run(st, lines).emitted == st.emitted + Numbered(Pairs(Carried(st) + Significant(lines)), st.index)
    decreases |lines|
  {
    if |lines| == 0 {
      assert Carried(st) + Significant(lines) == Carried(st);
    } else {
      var next := Step(st, lines[0]);
      StepMatchesPairs(st, lines[0], Significant(lines[1..]));
      RunMatchesPairs(next, lines[1..]);
      assert Significant(lines) == TokensOf(lines[0]) + Significant(lines[1..]);
    }
  }

  /** `parse` and the stateless description give the same channels. */
  lemma ParseMatchesReference(content: string)
    ensures ParsedChannels(content) == ReferenceChannels(content)
  {
    RunMatchesPairs(Initial, Split(content, '\n'));
    assert Carried(Initial) + Significant(Split(content, '\n')) == Significant(Split(content, '\n'));
  }

  // ---------------------------------------------------------------------------
  // Properties of the reference

  lemma {:induction false} NumberedAt(es: seq<Entry>, first: int)
    ensures |Numbered(es, first)| == |es|
    ensures forall k :: 0 <= k < |es| ==>
      Numbered(es, first)[k] == Complete(InfoEntry(es[k].info, first + k), es[k].url)
    decreases |es|
  {
    if |es| > 0 {
      NumberedAt(es[1..], first + 1);
    }
  }

  /** Every entry pairs an `#EXTINF` token with the URL token right after it... */
  lemma {:induction false} PairIsAdjacent(ts: seq<Token>, k: int)
    requires 0 <= k < |Pairs(ts)|
    ensures exists i :: 0 <= i < |ts| - 1 && ts[i] == Info(Pairs(ts)[k].info) && ts[i + 1] == Link(Pairs(ts)[k].url)
    decreases |ts|
  {
    var e := Pairs(ts)[k];
    if ts[0].Info? && ts[1].Link? {
      if k == 0 {
        assert ts[0] == Info(e.info) && ts[1] == Link(e.url);
      } else {
        PairIsAdjacent(ts[2..], k - 1);
        var i :| 0 <= i < |ts[2..]| - 1 && ts[2..][i] == Info(e.info) && ts[2..][i + 1] == Link(e.url);
        assert ts[i + 2] == ts[2..][i] && ts[i + 3] == ts[2..][i + 1];
      }
    } else {
      PairIsAdjacent(ts[1..], k);
      var i :| 0 <= i < |ts[1..]| - 1 && ts[1..][i] == Info(e.info) && ts[1..][i + 1] == Link(e.url);
      assert ts[i + 1] == ts[1..][i] && ts[i + 2] == ts[1..][i + 1];
    }
  }

  /** ...and every `#EXTINF` token right before a URL token gives an entry. */
  lemma {:induction false} AdjacentArePaired(ts: seq<Token>, i: int)
    requires 0 <= i < |ts| - 1 && ts[i].Info? && ts[i + 1].Link?
    ensures Entry(ts[i].line, ts[i + 1].url) in Pairs(ts)
    decreases |ts|
  {
    if ts[0].Info? && ts[1].Link? {
      if i >= 2 {
        AdjacentArePaired(ts[2..], i - 2);
      }
    } else {
      AdjacentArePaired(ts[1..], i - 1);
    }
  }

  function CountInfo(ts: seq<Token>): nat
    decreases |ts|
  {
    if |ts| == 0 then 0 else (if ts[0].Info? then 1 else 0) + CountInfo(ts[1..])
  }

  function CountLink(ts: seq<Token>): nat
    decreases |ts|
  {
    if |ts| == 0 then 0 else (if ts[0].Link? then 1 else 0) + CountLink(ts[1..])
  }

  lemma {:induction false} PairsBounded(ts: seq<Token>)
    ensures |Pairs(ts)| <= CountInfo(ts) && |Pairs(ts)| <= CountLink(ts)
    decreases |ts|
  {
    if |ts| >= 2 {
      if ts[0].Info? && ts[1].Link? {
        PairsBounded(ts[2..]);
        assert ts[1..][1..] == ts[2..];
      } else {
        PairsBounded(ts[1..]);
      }
    }
  }

  /** The number of lines that, stripped, start with `#EXTINF:`. */
  function InfoLineCount(lines: seq<string>): nat
    decreases |lines|
  {
    if |lines| == 0 then 0
    else (if StartsWith(Strip(lines[0]), ExtInfTag) then 1 else 0) + InfoLineCount(lines[1..])
  }

  /** The number of lines that, stripped, start with `http`. */
  function UrlLineCount(lines: seq<string>): nat
    decreases |lines|
  {
    if |lines| == 0 then 0
    else (if StartsWith(Strip(lines[0]), UrlPrefix) then 1 else 0) + UrlLineCount(lines[1..])
  }

  lemma {:induction false} SignificantCounts(lines: seq<string>)
    ensures CountInfo(Significant(lines)) == InfoLineCount(lines)
    ensures CountLink(Significant(lines)) == UrlLineCount(lines)
    decreases |lines|
  {
    if |lines| > 0 {
      SignificantCounts(lines[1..]);
      var t := Classify(lines[0]);
      var line := Strip(lines[0]);
      assert StartsWith(line, ExtInfTag) ==> !StartsWith(line, UrlPrefix) by {
        if StartsWith(line, ExtInfTag) { assert line[0] == '#'; }
      }
      assert t.Info? <==> StartsWith(line, ExtInfTag);
      assert t.Link? <==> StartsWith(line, UrlPrefix);
      if !t.Skip? {
        assert Significant(lines) == [t] + Significant(lines[1..]);
        assert Significant(lines)[1..] == Significant(lines[1..]);
      } else {
        assert Significant(lines) == Significant(lines[1..]);
      }
    }
  }

  // ---------------------------------------------------------------------------
  // What parse promises

  /** Channels are numbered 0, 1, 2, ... in file order. */
  lemma ParsedIndicesConsecutive(content: string)
    ensures forall k :: 0 <= k < |ParsedChannels(content)| ==> ParsedChannels(content)[k].index == k
  {
    ParseMatchesReference(content);
    NumberedAt(Pairs(Significant(Split(content, '\n'))), 0);
  }

  /** Every channel comes from an `#EXTINF` line and the URL line that is the next
      `#EXTINF`-or-URL line after it; its fields are those extracted from the `#EXTINF` line. */
  lemma ParsedChannelOrigin(content: string, k: int)
    requires 0 <= k < |ParsedChannels(content)|
    ensures var c := ParsedChannels(content)[k];
      && StartsWith(c.rawInfo, ExtInfTag) && Strip(c.rawInfo) == c.rawInfo
      && StartsWith(c.url, UrlPrefix) && Strip(c.url) == c.url
      && c == Complete(InfoEntry(c.rawInfo, k), c.url)
      && exists i :: 0 <= i < |Significant(Split(content, '\n'))| - 1
          && Significant(Split(content, '\n'))[i] == Info(c.rawInfo)
          && Significant(Split(content, '\n'))[i + 1] == Link(c.url)
  {
    var ts := Significant(Split(content, '\n'));
    ParseMatchesReference(content);
    NumberedAt(Pairs(ts), 0);
    PairIsAdjacent(ts, k);
    var c := ParsedChannels(content)[k];
    var i :| 0 <= i < |ts| - 1 && ts[i] == Info(Pairs(ts)[k].info) && ts[i + 1] == Link(Pairs(ts)[k].url);
    SignificantTokensStripped(Split(content, '\n'), i);
    SignificantTokensStripped(Split(content, '\n'), i + 1);
  }

  /** Conversely, every `#EXTINF` line whose next `#EXTINF`-or-URL line is a URL line gives a channel. */
  lemma EveryCompletedEntryParsed(content: string, i: int)
    requires var ts := Significant(Split(content, '\n'));
      0 <= i < |ts| - 1 && ts[i].Info? && ts[i + 1].Link?
    ensures var ts := Significant(Split(content, '\n'));
      exists k :: 0 <= k < |ParsedChannels(content)|
        && ParsedChannels(content)[k].rawInfo == ts[i].line
        && ParsedChannels(content)[k].url == ts[i + 1].url
  {
    var ts := Significant(Split(content, '\n'));
    ParseMatchesReference(content);
    NumberedAt(Pairs(ts), 0);
    AdjacentArePaired(ts, i);
    var k :| 0 <= k < |Pairs(ts)| && Pairs(ts)[k] == Entry(ts[i].line, ts[i + 1].url);
    assert ParsedChannels(content)[k].rawInfo == ts[i].line;
  }

  /** A classified token holds a stripped line with the right prefix. */
  lemma {:induction false} SignificantTokensStripped(lines: seq<string>, i: int)
    requires 0 <= i < |Significant(lines)|
    ensures var t := Significant(lines)[i];
      && !t.Skip?
      && (t.Info? ==> StartsWith(t.line, ExtInfTag) && Strip(t.line) == t.line)
      && (t.Link? ==> StartsWith(t.url, UrlPrefix) && Strip(t.url) == t.url)
    decreases |lines|
  {
    var t := Classify(lines[0]);
    if !t.Skip? && i == 0 {
      StripIdempotent(lines[0]);
    } else {
      var j := if t.Skip? then i else i - 1;
      SignificantTokensStripped(lines[1..], j);
      assert Significant(lines)[i] == Significant(lines[1..])[j];
    }
  }

  /** There are never more channels than `#EXTINF` lines, nor more than URL lines: a second
      `#EXTINF` before a URL drops the first, and a URL with no `#EXTINF` before it is ignored. */
  lemma ChannelCountBounded(content: string)
    ensures |ParsedChannels(content)| <= InfoLineCount(Split(content, '\n'))
    ensures |ParsedChannels(content)| <= UrlLineCount(Split(content, '\n'))
  {
    var ts := Significant(Split(content, '\n'));
    ParseMatchesReference(content);
    NumberedAt(Pairs(ts), 0);
    PairsBounded(ts);
    SignificantCounts(Split(content, '\n'));
  }
}
