/** The string built-ins of Python and JavaScript that the playlist code relies on:
    `str.split`, `str.join`, `str.strip`, `str.startswith`, `String.prototype.toLowerCase` and
    `String.prototype.endsWith`, and `Find`, the substring search in terms of which the
    attribute regular expressions are modelled. Strings are `seq<char>`. */
module Text {

  datatype Option<T> = None | Some(value: T)

  // ---------------------------------------------------------------------------
  // Prefixes and suffixes

  predicate StartsWith(s: string, prefix: string) {
    |prefix| <= |s| && s[..|prefix|] == prefix
  }

  predicate EndsWith(s: string, suffix: string) {
    |suffix| <= |s| && s[|s| - |suffix|..] == suffix
  }

  // ---------------------------------------------------------------------------
  // split and join on one separator character

  /** Python's `s.split(sep)` for a one-character separator: the pieces between
      separators, empty pieces included; there is always at least one piece. */
  function Split(s: string, sep: char): (pieces: seq<string>)
    ensures |pieces| >= 1
    ensures forall i :: 0 <= i < |pieces| ==> sep !in pieces[i]
    ensures sep !in s ==> pieces == [s]
    ensures sep in s ==> |pieces| > 1
  {
    if |s| == 0 then [""]
    else
      var rest := Split(s[1..], sep);
      if s[0] == sep then [""] + rest
      else
        assert s == [s[0]] + s[1..];
        [[s[0]] + rest[0]] + rest[1..]
  }

  /** Python's `sep.join(pieces)`. */
  function Join(pieces: seq<string>, sep: char): string {
    if |pieces| == 0 then ""
    else if |pieces| == 1 then pieces[0]
    else pieces[0] + [sep] + Join(pieces[1..], sep)
  }

  /** Splitting a string that starts with a separator-free part `a`: `a` is glued to the first piece. */
  lemma {:induction false} SplitPrefix(a: string, t: string, sep: char)
    requires sep !in a
    ensures Split(a + t, sep) == [a + Split(t, sep)[0]] + Split(t, sep)[1..]
  {
    if |a| > 0 {
      assert (a + t)[1..] == a[1..] + t;
      SplitPrefix(a[1..], t, sep);
      assert [a[0]] + (a[1..] + Split(t, sep)[0]) == a + Split(t, sep)[0];
    } else {
      assert a + t == t;
      assert a + Split(t, sep)[0] == Split(t, sep)[0];
      assert Split(t, sep) == [Split(t, sep)[0]] + Split(t, sep)[1..];
    }
  }

  /** Gluing `a` to the front of the first piece glues it to the front of the join. */
  lemma JoinGlued(a: string, pieces: seq<string>, sep: char)
    requires |pieces| >= 1
    ensures Join([a + pieces[0]] + pieces[1..], sep) == a + Join(pieces, sep)
  {
    if |pieces| > 1 {
      assert ([a + pieces[0]] + pieces[1..])[1..] == pieces[1..];
      assert (a + pieces[0]) + [sep] + Join(pieces[1..], sep) == a + (pieces[0] + [sep] + Join(pieces[1..], sep));
    }
  }

  /** Joining the pieces of a split gives the string back. */
  lemma {:induction false} JoinSplit(s: string, sep: char)
    ensures Join(Split(s, sep), sep) == s
  {
    if |s| > 0 {
      var rest := Split(s[1..], sep);
      JoinSplit(s[1..], sep);
      if s[0] == sep {
        assert ([""] + rest)[1..] == rest;
        assert s == [sep] + s[1..];
      } else {
        JoinGlued([s[0]], rest, sep);
        assert s == [s[0]] + s[1..];
      }
    }
  }

  /** Splitting a join of separator-free pieces gives the pieces back. */
  lemma {:induction false} SplitJoin(pieces: seq<string>, sep: char)
    requires |pieces| >= 1
    requires forall i :: 0 <= i < |pieces| ==> sep !in pieces[i]
    ensures Split(Join(pieces, sep), sep) == pieces
  {
    if |pieces| == 1 {
      SplitPrefix(pieces[0], "", sep);
      assert pieces[0] + "" == pieces[0];
    } else {
      var tail := Join(pieces[1..], sep);
      SplitJoin(pieces[1..], sep);
      SplitPrefix(pieces[0], [sep] + tail, sep);
      assert ([sep] + tail)[1..] == tail;
      assert Split([sep] + tail, sep) == [""] + pieces[1..];
      assert pieces[0] + [sep] + tail == pieces[0] + ([sep] + tail);
      assert pieces[0] + "" == pieces[0];
    }
  }

  /** When `sep` occurs in `s`, the last piece of the split is exactly the text after the last `sep`. */
  lemma {:induction false} LastPieceFollowsLastSeparator(s: string, sep: char)
    requires sep in s
    ensures var pieces := Split(s, sep); EndsWith(s, [sep] + pieces[|pieces| - 1])
  {
    var pieces := Split(s, sep);
    var rest := Split(s[1..], sep);
    if sep in s[1..] {
      LastPieceFollowsLastSeparator(s[1..], sep);
      assert pieces[|pieces| - 1] == rest[|rest| - 1];
      var suffix := [sep] + rest[|rest| - 1];
      assert s[1..][|s| - 1 - |suffix|..] == suffix;
      assert s[|s| - |suffix|..] == s[1..][|s| - 1 - |suffix|..];
    } else {
      assert s[0] == sep;
      assert pieces == [""] + [s[1..]];
      assert s == [sep] + s[1..];
    }
  }

  // ---------------------------------------------------------------------------
  // strip

  /** The characters Python's `str.isspace()` accepts, which `str.strip()` removes. */
  predicate IsSpace(c: char) {
    || '\t' <= c <= '\r'
    || '\U{1C}' <= c <= '\U{1F}'
    || c == ' '
    || c == '\U{85}'
    || c == '\U{A0}'
    || c == '\U{1680}'
    || '\U{2000}' <= c <= '\U{200A}'
    || c == '\U{2028}'
    || c == '\U{2029}'
    || c == '\U{202F}'
    || c == '\U{205F}'
    || c == '\U{3000}'
  }

  /** The number of whitespace characters at the start of `s`. */
  function LeadingSpaces(s: string): (n: nat)
    ensures n <= |s|
    ensures forall i :: 0 <= i < n ==> IsSpace(s[i])
    ensures n < |s| ==> !IsSpace(s[n])
  {
    if |s| > 0 && IsSpace(s[0]) then 1 + LeadingSpaces(s[1..]) else 0
  }

  /** The number of whitespace characters at the end of `s`. */
  function TrailingSpaces(s: string): (n: nat)
    ensures n <= |s|
    ensures forall i :: |s| - n <= i < |s| ==> IsSpace(s[i])
    ensures n < |s| ==> !IsSpace(s[|s| - 1 - n])
  {
    if |s| > 0 && IsSpace(s[|s| - 1]) then 1 + TrailingSpaces(s[..|s| - 1]) else 0
  }

  /** `r` is `s` with whitespace only removed at both ends, `r` starting at `lo`. */
  ghost predicate TrimmedAt(s: string, r: string, lo: int) {
    && 0 <= lo && lo + |r| <= |s|
    && s[lo..lo + |r|] == r
    && (forall i :: 0 <= i < lo ==> IsSpace(s[i]))
    && (forall i :: lo + |r| <= i < |s| ==> IsSpace(s[i]))
  }

  /** Neither end of `r` is whitespace. */
  predicate Unpadded(r: string) {
    r == [] || (!IsSpace(r[0]) && !IsSpace(r[|r| - 1]))
  }

  /** Python's `s.strip()`: removes all leading and trailing whitespace. */
  function Strip(s: string): (r: string)
    ensures |r| <= |s|
    decreases |s|
  {
    if |s| > 0 && IsSpace(s[0]) then Strip(s[1..])
    else if |s| > 0 && IsSpace(s[|s| - 1]) then Strip(s[..|s| - 1])
    else s
  }

  /** `Strip(s)` is unpadded and is what trimming `s` at both ends leaves. */
  ghost predicate StripsTo(s: string) {
    Unpadded(Strip(s)) && TrimmedAt(s, Strip(s), LeadingSpaces(s))
  }

  lemma StripsToFront(s: string)
    requires |s| > 0 && IsSpace(s[0]) && StripsTo(s[1..])
    ensures StripsTo(s)
  {
    var r := Strip(s);
    var lo := LeadingSpaces(s[1..]);
    assert s[1 + lo..1 + lo + |r|] == s[1..][lo..lo + |r|];
    assert forall i :: 1 + lo + |r| <= i < |s| ==> s[i] == s[1..][i - 1];
  }

  lemma StripsToBack(s: string)
    requires |s| > 0 && !IsSpace(s[0]) && IsSpace(s[|s| - 1]) && StripsTo(s[..|s| - 1])
    ensures StripsTo(s)
  {
    var r := Strip(s);
    var t := s[..|s| - 1];
    assert |s| >= 2;
    assert t[0] == s[0];
    assert s[0..|r|] == t[0..|r|];
  }

  /** What Strip computes: the part of `s` between its leading and its trailing whitespace. */
  lemma {:induction false} StripTrims(s: string)
    ensures Unpadded(Strip(s))
    ensures TrimmedAt(s, Strip(s), LeadingSpaces(s))
    decreases |s|
  {
    if |s| > 0 && IsSpace(s[0]) {
      StripTrims(s[1..]);
      StripsToFront(s);
    } else if |s| > 0 && IsSpace(s[|s| - 1]) {
      StripTrims(s[..|s| - 1]);
      StripsToBack(s);
    } else {
      assert s[0..|s|] == s;
    }
  }

  /** Any way of trimming only whitespace that leaves no whitespace at either end gives Strip(s). */
  lemma StripUnique(s: string, r: string, lo: int)
    requires TrimmedAt(s, r, lo) && Unpadded(r)
    ensures r == Strip(s)
  {
    StripTrims(s);
    var lo' := LeadingSpaces(s);
    var r' := Strip(s);
    if r != [] && r' != [] {
      assert s[lo] == r[0] && s[lo'] == r'[0];
      assert lo == lo';
      assert s[lo + |r| - 1] == r[|r| - 1] && s[lo' + |r'| - 1] == r'[|r'| - 1];
      assert |r| == |r'|;
    }
  }

  /** Stripping twice is stripping once. */
  lemma StripIdempotent(s: string)
    ensures Strip(Strip(s)) == Strip(s)
  {
    StripTrims(s);
  }

  /** Stripping never introduces a character, so a line without `c` stays without it. */
  lemma StripKeepsAbsent(s: string, c: char)
    requires c !in s
    ensures c !in Strip(s)
  {
    StripTrims(s);
    var r := Strip(s);
    var lo := LeadingSpaces(s);
    forall i | 0 <= i < |r| ensures r[i] != c {
      assert r[i] == s[lo + i];
    }
  }

  // ---------------------------------------------------------------------------
  // Substring search

  /** `pat` occurs in `s` starting at position `i`. */
  predicate OccursAt(s: string, pat: string, i: int) {
    0 <= i && i + |pat| <= |s| && s[i..i + |pat|] == pat
  }

  /** The first position at or after `start` where `pat` occurs, if any. */
  function Find(s: string, pat: string, start: nat): (r: Option<nat>)
    decreases |s| - start
    ensures r.Some? ==> start <= r.value && OccursAt(s, pat, r.value)
    ensures r.Some? ==> forall j :: start <= j < r.value ==> !OccursAt(s, pat, j)
    ensures r.None? ==> forall j :: start <= j ==> !OccursAt(s, pat, j)
  {
    if start + |pat| > |s| then None
    else if s[start..start + |pat|] == pat then Some(start)
    else Find(s, pat, start + 1)
  }

  // ---------------------------------------------------------------------------
  // lower case

  /** JavaScript's `toLowerCase` on one character, for the ASCII letters. */
  function LowerChar(c: char): char {
    if 'A' <= c <= 'Z' then (c as int + 32) as char else c
  }

  /** JavaScript's `s.toLowerCase()`, on the ASCII letters. */
  function Lower(s: string): (r: string)
    ensures |r| == |s|
    ensures forall i :: 0 <= i < |s| ==> r[i] == LowerChar(s[i])
    ensures forall i :: 0 <= i < |r| ==> !('A' <= r[i] <= 'Z')
  {
    seq(|s|, i requires 0 <= i < |s| => LowerChar(s[i]))
  }

  /** Lower-casing works character by character, so it distributes over concatenation. */
  lemma LowerAppend(a: string, b: string)
    ensures Lower(a + b) == Lower(a) + Lower(b)
  {
    assert forall i :: 0 <= i < |a + b| ==> Lower(a + b)[i] == (Lower(a) + Lower(b))[i];
  }
}
