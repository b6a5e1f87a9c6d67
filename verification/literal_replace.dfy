/** Global literal search-and-replace, the effect of `content.match(regex)` and
    `content.replace(regex, newUrl)` with a global regular expression whose
    pattern is an escaped key (update-image-urls.js:45-50). The engine scans
    left to right: it takes the leftmost occurrence, replaces it, and resumes
    right after it, so occurrences never overlap.

    The scan is defined once (`ScanFrom`) and once more independently, as a
    property of a list of positions (`LeftmostNonOverlapping`); the two are
    shown to agree, and the replaced text is shown to be the original with
    exactly those windows swapped for the URL (`Splice`). */
module LiteralReplace {
  import opened Strings

  /** Rewritten text together with the number of replacements made. */
  datatype Replaced = Replaced(text: string, count: nat)

  /** Windows of length `|key|` inside `s`, in order, starting at or after
      `from` and not overlapping one another. */
  ghost predicate Spaced(s: string, key: string, P: seq<nat>, from: nat)
    decreases |P|
  {
    |P| == 0 || (from <= P[0] && P[0] + |key| <= |s| && Spaced(s, key, P[1..], P[0] + |key|))
  }

  /** No occurrence of `key` starts in `[lo, hi)`. */
  ghost predicate NoOccurrenceBetween(s: string, key: string, lo: int, hi: int)
  {
    forall q :: lo <= q < hi ==> !OccursAt(s, key, q)
  }

  /** `P` lists the leftmost, non-overlapping occurrences of `key` in `s` at
      or after `from`: if the key occurs again, the first listed position is
      the first occurrence at or after `from`, and the others are, in the same
      sense, the leftmost ones after the end of that one; if it does not, the
      list is empty. */
  ghost predicate LeftmostNonOverlapping(s: string, key: string, P: seq<nat>, from: nat)
    decreases |P|
  {
    if |P| == 0 then NoOccurrenceBetween(s, key, from, |s|)
    else
      && from <= P[0]
      && OccursAt(s, key, P[0])
      && NoOccurrenceBetween(s, key, from, P[0])
      && LeftmostNonOverlapping(s, key, P[1..], P[0] + |key|)
  }

  /** The positions the global scan matches, from `from` on. */
  function ScanFrom(s: string, key: string, from: nat): (P: seq<nat>)
    requires |key| > 0 && from <= |s|
    ensures Spaced(s, key, P, from)
    decreases |s| - from
  {
    if from + |key| > |s| then []
    else if s[from..from + |key|] == key then [from] + ScanFrom(s, key, from + |key|)
    else ScanFrom(s, key, from + 1)
  }

  /** Rewrite `s[from..]`, replacing every scanned occurrence of `key` by
      `url`, and count the replacements. */
  function ReplaceFrom(s: string, key: string, url: string, from: nat): (r: Replaced)
    requires |key| > 0 && from <= |s|
    ensures |r.text| == |s| - from + r.count * (|url| - |key|)
    ensures r.count * |key| <= |s| - from
    decreases |s| - from
  {
    if from + |key| > |s| then Replaced(s[from..], 0)
    else if s[from..from + |key|] == key then
      var rest := ReplaceFrom(s, key, url, from + |key|);
      assert (rest.count + 1) * (|url| - |key|) == rest.count * (|url| - |key|) + (|url| - |key|);
      assert (rest.count + 1) * |key| == rest.count * |key| + |key|;
      Replaced(url + rest.text, rest.count + 1)
    else
      var rest := ReplaceFrom(s, key, url, from + 1);
      Replaced([s[from]] + rest.text, rest.count)
  }

  /** Replace every leftmost, non-overlapping occurrence of `key` in `s` by
      `url`. The text grows or shrinks by `|url| - |key|` per replacement, and
      no more replacements are made than there is room for. */
  function ReplaceAll(s: string, key: string, url: string): (r: Replaced)
    requires |key| > 0
    ensures |r.text| == |s| + r.count * (|url| - |key|)
    ensures r.count * |key| <= |s|
  {
    ReplaceFrom(s, key, url, 0)
  }

  /** Reference construction: `s[from..]` with each window of `P` swapped for
      `url` and everything between the windows kept as it is. */
  function Splice(s: string, key: string, url: string, P: seq<nat>, from: nat): string
    requires from <= |s| && Spaced(s, key, P, from)
    decreases |P|
  {
    if |P| == 0 then s[from..]
    else s[from..P[0]] + url + Splice(s, key, url, P[1..], P[0] + |key|)
  }

  /** The leftmost occurrences are in particular non-overlapping windows. */
  lemma {:induction false} LeftmostIsSpaced(s: string, key: string, P: seq<nat>, from: nat)
    requires LeftmostNonOverlapping(s, key, P, from)
    ensures Spaced(s, key, P, from)
    decreases |P|
  {
    if |P| > 0 {
      LeftmostIsSpaced(s, key, P[1..], P[0] + |key|);
    }
  }

  /** A search that resumes at a non-occurrence may as well resume one
      position later, and the other way round. */
  lemma LeftmostSkip(s: string, key: string, P: seq<nat>, from: nat)
    requires !OccursAt(s, key, from)
    ensures LeftmostNonOverlapping(s, key, P, from) <==> LeftmostNonOverlapping(s, key, P, from + 1)
  {
    if |P| > 0 && LeftmostNonOverlapping(s, key, P, from) {
      assert P[0] != from;
    }
  }

  /** The scan finds exactly the leftmost, non-overlapping occurrences. */
  lemma {:induction false} ScanIsLeftmostNonOverlapping(s: string, key: string, from: nat)
    requires |key| > 0 && from <= |s|
    ensures LeftmostNonOverlapping(s, key, ScanFrom(s, key, from), from)
    decreases |s| - from
  {
    var P := ScanFrom(s, key, from);
    if from + |key| > |s| {
      assert P == [];
    } else if s[from..from + |key|] == key {
      ScanIsLeftmostNonOverlapping(s, key, from + |key|);
      assert P == [from] + ScanFrom(s, key, from + |key|);
      assert P[1..] == ScanFrom(s, key, from + |key|);
    } else {
      ScanIsLeftmostNonOverlapping(s, key, from + 1);
      LeftmostSkip(s, key, P, from);
    }
  }

  /** There is only one such list of positions: whatever list is leftmost and
      non-overlapping is the one the scan produces. */
  lemma {:induction false} LeftmostNonOverlappingIsUnique(s: string, key: string, P: seq<nat>, from: nat)
    requires |key| > 0 && from <= |s|
    requires LeftmostNonOverlapping(s, key, P, from)
    ensures P == ScanFrom(s, key, from)
    decreases |s| - from
  {
    if from + |key| > |s| {
      NoRoomNoOccurrence(s, key, P, from);
    } else if s[from..from + |key|] == key {
      LeftmostAtOccurrence(s, key, P, from);
      LeftmostNonOverlappingIsUnique(s, key, P[1..], from + |key|);
      assert P == [from] + P[1..];
    } else {
      LeftmostSkip(s, key, P, from);
      LeftmostNonOverlappingIsUnique(s, key, P, from + 1);
    }
  }

  /** With no room left for the key, the list is empty. */
  lemma NoRoomNoOccurrence(s: string, key: string, P: seq<nat>, from: nat)
    requires |key| > 0 && from + |key| > |s|
    requires LeftmostNonOverlapping(s, key, P, from)
    ensures P == []
  {
  }

  /** When the key occurs right at `from`, the list starts there. */
  lemma LeftmostAtOccurrence(s: string, key: string, P: seq<nat>, from: nat)
    requires |key| > 0 && OccursAt(s, key, from)
    requires LeftmostNonOverlapping(s, key, P, from)
    ensures |P| > 0 && P[0] == from && LeftmostNonOverlapping(s, key, P[1..], from + |key|)
  {
    assert !NoOccurrenceBetween(s, key, from, from + 1);
  }

  /** Copying one character of unmatched text before the first window. */
  lemma SpliceStep(s: string, key: string, url: string, P: seq<nat>, from: nat)
    requires from < |s| && Spaced(s, key, P, from + 1)
    ensures Splice(s, key, url, P, from) == [s[from]] + Splice(s, key, url, P, from + 1)
  {
    if |P| == 0 {
      assert s[from..] == [s[from]] + s[from + 1..];
    } else {
      var tail := Splice(s, key, url, P[1..], P[0] + |key|);
      var gap := s[from + 1..P[0]];
      assert Splice(s, key, url, P, from + 1) == gap + url + tail;
      assert s[from..P[0]] == [s[from]] + gap;
      assert Splice(s, key, url, P, from) == ([s[from]] + gap) + url + tail;
    }
  }

  /** A window right at `from` is swapped for the URL with nothing before
      it. */
  lemma SpliceAtWindow(s: string, key: string, url: string, rest: seq<nat>, from: nat)
    requires from + |key| <= |s| && Spaced(s, key, rest, from + |key|)
    ensures Spaced(s, key, [from] + rest, from)
    ensures Splice(s, key, url, [from] + rest, from) == url + Splice(s, key, url, rest, from + |key|)
  {
    var P := [from] + rest;
    assert P[1..] == rest;
    var tail := Splice(s, key, url, rest, from + |key|);
    assert Splice(s, key, url, P, from) == s[from..from] + url + tail;
    assert s[from..from] + url == url;
  }

  lemma {:induction false} ReplaceFromIsSplice(s: string, key: string, url: string, from: nat)
    requires |key| > 0 && from <= |s|
    ensures ReplaceFrom(s, key, url, from)
         == Replaced(Splice(s, key, url, ScanFrom(s, key, from), from), |ScanFrom(s, key, from)|)
    decreases |s| - from
  {
    var P := ScanFrom(s, key, from);
    var r := ReplaceFrom(s, key, url, from);
    if from + |key| > |s| {
      assert P == [];
    } else if s[from..from + |key|] == key {
      var next := from + |key|;
      var rest := ScanFrom(s, key, next);
      ReplaceFromIsSplice(s, key, url, next);
      assert P == [from] + rest;
      SpliceAtWindow(s, key, url, rest, from);
    } else {
      ReplaceFromIsSplice(s, key, url, from + 1);
      assert P == ScanFrom(s, key, from + 1);
      SpliceStep(s, key, url, P, from);
    }
  }

  /** The replace-all makes one replacement per leftmost, non-overlapping
      occurrence, swaps each of them for the URL and keeps every other
      character where it was. */
  lemma ReplaceAllReplacesLeftmostOccurrences(s: string, key: string, url: string, P: seq<nat>)
    requires |key| > 0
    requires LeftmostNonOverlapping(s, key, P, 0)
    ensures Spaced(s, key, P, 0) && ReplaceAll(s, key, url) == Replaced(Splice(s, key, url, P, 0), |P|)
  {
    LeftmostIsSpaced(s, key, P, 0);
    LeftmostNonOverlappingIsUnique(s, key, P, 0);
    ReplaceFromIsSplice(s, key, url, 0);
  }

  /** No replacement is made exactly when the key does not occur, and then the
      text comes back unchanged. */
  lemma ReplaceAllCountZeroIffAbsent(s: string, key: string, url: string)
    requires |key| > 0
    ensures ReplaceAll(s, key, url).count == 0 <==> forall q :: !OccursAt(s, key, q)
    ensures ReplaceAll(s, key, url).count == 0 ==> ReplaceAll(s, key, url).text == s
  {
    var P := ScanFrom(s, key, 0);
    ScanIsLeftmostNonOverlapping(s, key, 0);
    ReplaceFromIsSplice(s, key, url, 0);
    if |P| == 0 {
      assert NoOccurrenceBetween(s, key, 0, |s|);
    } else {
      assert OccursAt(s, key, P[0]);
    }
  }
}
