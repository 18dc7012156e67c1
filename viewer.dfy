/** The logic of the React viewer (frontend/src/components/M3UViewer.jsx) that is not
    rendering: the export filename, the export request, the group filter options and the
    row-edit update of the table state. */
module Viewer {
  import opened Text
  import opened Backend
  import opened Arrays
  import opened ParseReference
  import opened ExportProperties

  // ---------------------------------------------------------------------------
  // Export filename (M3UViewer.jsx:121-123)

  const Extension: string := ".m3u"

  /** The filename the download is saved under: kept when its lower-case form already ends
      with `.m3u`, otherwise `.m3u` is appended. */
  function NormalizeFilename(name: string): (r: string)
    ensures EndsWith(Lower(r), Extension)
    ensures StartsWith(r, name)
    ensures r == name <==> EndsWith(Lower(name), Extension)
    ensures !EndsWith(Lower(name), Extension) ==> r == name + Extension
  {
    if EndsWith(Lower(name), Extension) then name
    else
      LowerAppend(name, Extension);
      assert Lower(Extension) == Extension;
      assert (name + Extension)[..|name|] == name;
      name + Extension
  }

  /** A normalised name is left alone by a second normalisation. */
  lemma NormalizeIdempotent(name: string)
    ensures NormalizeFilename(NormalizeFilename(name)) == NormalizeFilename(name)
  {
    var r := NormalizeFilename(name);
    assert EndsWith(Lower(r), Extension);
  }

  // ---------------------------------------------------------------------------
  // The export request (M3UViewer.jsx:94-110)

  /** The JSON body posted to `/export`. */
  datatype ExportBody = ExportBody(indices: seq<int>, originalContent: string, modifiedChannels: map<int, Channel>)

  /** What pressing export does: warn that nothing is selected, or post the body and save the
      answer under `filename`. */
  datatype ExportAction = WarnNoSelection | PostExport(body: ExportBody, filename: string)

  /** `selectedChannels.map(channel => channel.index)`. */
  function ExportIndices(selected: seq<Channel>): (indices: seq<int>)
    ensures |indices| == |selected|
    ensures forall i :: 0 <= i < |selected| ==> indices[i] == selected[i].index
  {
    seq(|selected|, i requires 0 <= i < |selected| => selected[i].index)
  }

  /** `handleExport`, without the network and the download. */
  function HandleExport(selected: seq<Channel>, originalContent: string, modifiedChannels: map<int, Channel>,
                        exportFilename: string): (action: ExportAction)
    ensures action.WarnNoSelection? <==> |selected| == 0
    ensures action.PostExport? ==>
      && |action.body.indices| == |selected|
      && (forall i :: 0 <= i < |selected| ==> action.body.indices[i] == selected[i].index)
      && action.body.originalContent == originalContent
      && action.body.modifiedChannels == modifiedChannels
      && action.filename == NormalizeFilename(exportFilename)
      && EndsWith(Lower(action.filename), Extension)
  {
    if |selected| == 0 then WarnNoSelection
    else PostExport(ExportBody(ExportIndices(selected), originalContent, modifiedChannels), NormalizeFilename(exportFilename))
  }

  /** The `#EXTINF` line and URL of each channel of `cs` that is in `selected`, in the order of `cs`. */
  function Picked(cs: seq<Channel>, selected: seq<Channel>): seq<string>
    decreases |cs|
  {
    if |cs| == 0 then []
    else (if cs[0] in selected then [cs[0].rawInfo, cs[0].url] else []) + Picked(cs[1..], selected)
  }

  lemma {:induction false} SelectedIsPicked(cs: seq<Channel>, indices: seq<int>, selected: seq<Channel>)
    requires forall k :: 0 <= k < |cs| ==> (cs[k].index in indices <==> cs[k] in selected)
    ensures Selected(cs, indices) == Picked(cs, selected)
    decreases |cs|
  {
    if |cs| > 0 {
      assert cs[0].index in indices <==> cs[0] in selected;
      forall k | 0 <= k < |cs[1..]| ensures cs[1..][k].index in indices <==> cs[1..][k] in selected {
        assert cs[1..][k] == cs[k + 1];
      }
      SelectedIsPicked(cs[1..], indices, selected);
    }
  }

  /** Selecting parsed channels by their index field selects exactly those channels. */
  lemma IndexSelectsChannel(content: string, selected: seq<Channel>, k: int)
    requires forall c :: c in selected ==> c in ParsedChannels(content)
    requires 0 <= k < |ParsedChannels(content)|
    ensures ParsedChannels(content)[k].index in ExportIndices(selected) <==> ParsedChannels(content)[k] in selected
  {
    var cs := ParsedChannels(content);
    var indices := ExportIndices(selected);
    ParsedIndicesConsecutive(content);
    if cs[k].index in indices {
      var i :| 0 <= i < |indices| && indices[i] == cs[k].index;
      assert selected[i] in selected;
      var j :| 0 <= j < |cs| && cs[j] == selected[i];
      assert cs[j].index == j;
    }
    if cs[k] in selected {
      var i :| 0 <= i < |selected| && selected[i] == cs[k];
      assert indices[i] == cs[k].index;
    }
  }

  /** End to end: when the uploaded text is well formed, exporting a non-empty selection posts
      a request whose answer is the header followed by the `#EXTINF` line and URL of exactly
      the parsed channels whose index some selected row carries, in file order, saved under the
      normalised filename. Only the `index` fields of the selected rows matter: their other
      fields, which row edits change, and the edit map never reach the text. */
  lemma ExportOfSelectedChannels(content: string, selected: seq<Channel>, modifiedChannels: map<int, Channel>,
                                 exportFilename: string)
    requires WellFormed(Split(content, '\n'))
    requires |selected| > 0
    ensures var action := HandleExport(selected, content, modifiedChannels, exportFilename);
      && action.PostExport?
      && action.filename == NormalizeFilename(exportFilename)
      && ExportedText(action.body.indices, action.body.originalContent)
         == Join([HeaderTag] + Selected(ParsedChannels(content), ExportIndices(selected)), '\n')
      && forall k :: 0 <= k < |ParsedChannels(content)| ==>
           (ParsedChannels(content)[k].index in action.body.indices <==> exists c :: c in selected && c.index == k)
  {
    var cs := ParsedChannels(content);
    var indices := ExportIndices(selected);
    ParsedIndicesConsecutive(content);
    forall k | 0 <= k < |cs| ensures cs[k].index in indices <==> exists c :: c in selected && c.index == k {
      if cs[k].index in indices {
        var i :| 0 <= i < |indices| && indices[i] == cs[k].index;
        assert selected[i] in selected && selected[i].index == k;
      }
      if exists c :: c in selected && c.index == k {
        var c :| c in selected && c.index == k;
        var i :| 0 <= i < |selected| && selected[i] == c;
        assert indices[i] == k;
      }
    }
    ExportRoundTrip(content, indices);
  }

  // ---------------------------------------------------------------------------
  // Group filter options (M3UViewer.jsx:161-165)

  /** One option of the group dropdown: `{ label, value }`, the label kept as `caption`. */
  datatype GroupOption = GroupOption(caption: string, value: string)

  /** `channels.map(channel => channel.group)`. */
  function Groups(cs: seq<Channel>): (gs: seq<string>)
    ensures |gs| == |cs|
    ensures forall i :: 0 <= i < |cs| ==> gs[i] == cs[i].group
  {
    seq(|cs|, i requires 0 <= i < |cs| => cs[i].group)
  }

  /** `.filter((value, index, self) => value && self.indexOf(value) === index)` applied to the
      positions `from` onwards of `vs`. */
  function FirstOccurrences(vs: seq<string>, from: nat): seq<string>
    decreases |vs| - from
  {
    if from >= |vs| then []
    else (if vs[from] != "" && IndexOf(vs, vs[from]) == from then [vs[from]] else []) + FirstOccurrences(vs, from + 1)
  }

  /** The filter keeps `x` exactly when it is non-empty and first occurs at `from` or later. */
  lemma {:induction false} FirstOccurrencesMember(vs: seq<string>, from: nat, x: string)
    ensures x in FirstOccurrences(vs, from) <==> x != "" && x in vs && from <= IndexOf(vs, x)
    decreases |vs| - from
  {
    if from < |vs| {
      FirstOccurrencesMember(vs, from + 1, x);
      var keep := vs[from] != "" && IndexOf(vs, vs[from]) == from;
      var head := if keep then [vs[from]] else [];
      assert FirstOccurrences(vs, from) == head + FirstOccurrences(vs, from + 1);
      if x != vs[from] {
        var p := IndexOf(vs, x);
        assert p != from;
        assert x !in head;
      }
    }
  }

  /** The filter keeps no value twice. */
  lemma {:induction false} FirstOccurrencesDistinct(vs: seq<string>, from: nat)
    ensures Distinct(FirstOccurrences(vs, from))
    decreases |vs| - from
  {
    if from < |vs| {
      FirstOccurrencesDistinct(vs, from + 1);
      var rest := FirstOccurrences(vs, from + 1);
      if vs[from] != "" && IndexOf(vs, vs[from]) == from {
        FirstOccurrencesMember(vs, from + 1, vs[from]);
        var r := [vs[from]] + rest;
        assert FirstOccurrences(vs, from) == r;
        forall i, j | 0 <= i < j < |r| ensures r[i] != r[j] {
          assert r[j] == rest[j - 1];
          if i > 0 {
            assert r[i] == rest[i - 1];
          }
        }
      } else {
        assert FirstOccurrences(vs, from) == rest;
      }
    }
  }

  /** `uniqueGroups`: one option per non-empty group, its label equal to its value, the labels
      strictly ascending (so none repeats), and nothing else. */
  function UniqueGroups(cs: seq<Channel>): (options: seq<GroupOption>)
    ensures forall o :: o in options ==> o.caption == o.value
    ensures Ascending(Labels(options))
    ensures forall x :: x in Labels(options) <==> x != "" && HasGroup(cs, x)
  {
    var gs := Sort(FirstOccurrences(Groups(cs), 0));
    SortedGroups(cs);
    var options := seq(|gs|, i requires 0 <= i < |gs| => GroupOption(gs[i], gs[i]));
    assert Labels(options) == gs;
    options
  }

  /** The captions (`label`s) of a list of options. */
  function Labels(options: seq<GroupOption>): (ls: seq<string>)
    ensures |ls| == |options|
    ensures forall i :: 0 <= i < |options| ==> ls[i] == options[i].caption
  {
    seq(|options|, i requires 0 <= i < |options| => options[i].caption)
  }

  /** Some channel of `cs` is in `group`. */
  ghost predicate HasGroup(cs: seq<Channel>, group: string) {
    exists c :: c in cs && c.group == group
  }

  /** The filtered, sorted groups are strictly ascending and are exactly the non-empty groups. */
  lemma SortedGroups(cs: seq<Channel>)
    ensures Ascending(Sort(FirstOccurrences(Groups(cs), 0)))
    ensures forall x :: x in Sort(FirstOccurrences(Groups(cs), 0)) <==> x != "" && HasGroup(cs, x)
  {
    var gs := Groups(cs);
    var kept := FirstOccurrences(gs, 0);
    FirstOccurrencesDistinct(gs, 0);
    SortAscending(kept);
    var sorted := Sort(kept);
    forall x ensures x in sorted <==> x != "" && HasGroup(cs, x) {
      assert x in sorted <==> x in multiset(kept);
      FirstOccurrencesMember(gs, 0, x);
      GroupsHas(cs, x);
    }
  }

  lemma GroupsHas(cs: seq<Channel>, x: string)
    ensures x in Groups(cs) <==> HasGroup(cs, x)
  {
    var gs := Groups(cs);
    if x in gs {
      var i :| 0 <= i < |gs| && gs[i] == x;
      assert cs[i] in cs;
    }
    if HasGroup(cs, x) {
      var c :| c in cs && c.group == x;
      var i :| 0 <= i < |cs| && cs[i] == c;
      assert gs[i] == x;
    }
  }

  /** The options are the one strictly ascending listing of the non-empty groups. */
  lemma UniqueGroupsCanonical(cs: seq<Channel>, listing: seq<string>)
    requires Ascending(listing)
    requires forall x :: x in listing <==> x != "" && HasGroup(cs, x)
    ensures Labels(UniqueGroups(cs)) == listing
  {
    AscendingUnique(Labels(UniqueGroups(cs)), listing);
  }

  // ---------------------------------------------------------------------------
  // Row edits (M3UViewer.jsx:47-57)

  /** The viewer's table state: the rows shown and the edits made to them, by row position. */
  class ChannelTable {
    var channels: seq<Channel>
    var modifiedChannels: map<int, Channel>

    /** The edit map agrees with the table: every recorded edit is what the row at that position
        now holds, so applying the edits to the rows would change nothing. The constructor
        establishes it and every row edit keeps it; a new upload, which replaces the rows but
        keeps the edit map, is not part of this model. */
    ghost predicate Valid()
      reads this
    {
      forall k :: k in modifiedChannels ==> 0 <= k < |channels| && channels[k] == modifiedChannels[k]
    }

    /** The initial state: no rows and no edits. */
    constructor ()
      ensures channels == [] && modifiedChannels == map[]
      ensures Valid()
    {
      channels := [];
      modifiedChannels := map[];
    }

    /** `onRowEditComplete`: row `index` becomes `newData` and the edit is recorded under
        `index`, replacing an earlier edit of the same row; all other rows and edits stay. */
    method OnRowEditComplete(newData: Channel, index: int)
      requires 0 <= index < |channels|
      modifies this
      ensures channels == old(channels)[index := newData]
      ensures modifiedChannels == old(modifiedChannels)[index := newData]
      ensures |channels| == old(|channels|)
      ensures forall k :: 0 <= k < |channels| && k != index ==> channels[k] == old(channels[k])
      ensures forall k :: k in old(modifiedChannels) && k != index ==> modifiedChannels[k] == old(modifiedChannels[k])
      ensures old(Valid()) ==> Valid()
    {
      var edited := channels;
      edited := edited[index := newData];
      modifiedChannels := modifiedChannels[index := newData];
      channels := edited;
    }
  }
}
