/** Splitting a YAML text into documents at every line that starts with three dashes. */
module DocumentSplit {

  const MARKER := "---"

  /** Does a line start at `i`, and with the marker? */
  predicate MarkerAt(s: string, i: nat) {
    i + 3 <= |s| && s[i] == '-' && s[i + 1] == '-' && s[i + 2] == '-' && (i == 0 || s[i - 1] == '\n')
  }

  /** How many lines that start before `n` start with the marker. */
  function Markers(s: string, n: nat): nat {
    if n == 0 then 0 else Markers(s, n - 1) + if MarkerAt(s, n - 1) then 1 else 0
  }

  /** The parts, each followed by a marker. */
  function Terminated(parts: seq<string>): string {
    if parts == [] then "" else Terminated(parts[..|parts| - 1]) + parts[|parts| - 1] + MARKER
  }

  function Join(parts: seq<string>): string
    requires parts != []
  {
    Terminated(parts[..|parts| - 1]) + parts[|parts| - 1]
  }

  /** The marker at `i` leaves no room for another one before `i + 3`. */
  lemma MarkersAreApart(s: string, i: nat)
    requires MarkerAt(s, i)
    ensures !MarkerAt(s, i + 1) && !MarkerAt(s, i + 2)
    ensures Markers(s, i + 3) == Markers(s, i) + 1
  {
    assert Markers(s, i + 1) == Markers(s, i) + 1;
    assert Markers(s, i + 2) == Markers(s, i + 1);
  }

  /** Where part `k` starts in the joined text. */
  function Start(parts: seq<string>, k: nat): nat
    requires k <= |parts|
  {
    |Terminated(parts[..k])|
  }

  ghost predicate NoMarker(s: string, from: nat, to: nat) {
    forall i :: from <= i < to ==> !MarkerAt(s, i)
  }

  /** A marker stands before part `k`, unless it is the first, and none starts inside it. */
  ghost predicate CutAtMarkers(s: string, parts: seq<string>, k: nat)
    requires k < |parts|
  {
    && (k > 0 ==> Start(parts, k) >= 3 && MarkerAt(s, Start(parts, k) - 3))
    && NoMarker(s, Start(parts, k), Start(parts, k) + |parts[k]|)
  }

  /**
   * The split loses nothing and cuts at every marker and nowhere else, so there is one more
   * part than markers.
   */
  method Split(s: string) returns (parts: seq<string>)
    ensures parts != [] && Join(parts) == s
    ensures |parts| == 1 + Markers(s, |s|)
    ensures forall k :: 0 <= k < |parts| ==> CutAtMarkers(s, parts, k)
  {
    parts := [];
    var beg, i := 0, 0;
    while i < |s|
      invariant beg <= i <= |s| && Terminated(parts) == s[..beg] && |parts| == Markers(s, i)
      invariant forall k :: 0 <= k < |parts| ==> CutAtMarkers(s, parts, k)
      invariant beg == 0 || (beg >= 3 && MarkerAt(s, beg - 3))
      invariant parts != [] ==> beg > 0
      invariant NoMarker(s, beg, i)
    {
      if MarkerAt(s, i) {
        MarkersAreApart(s, i);
        CutHere(s, parts, beg, i);
        parts := parts + [s[beg..i]];
        beg, i := i + 3, i + 3;
      } else {
        i := i + 1;
      }
    }
    CutsKept(s, parts, beg, s[beg..]);
    ghost var before := parts;
    parts := parts + [s[beg..]];
    assert parts[..|before|] == before;
  }

  /** The text up to a marker, cut at the marker. */
  lemma CutHere(s: string, parts: seq<string>, beg: nat, i: nat)
    requires beg <= i <= |s| && MarkerAt(s, i) && Terminated(parts) == s[..beg] && NoMarker(s, beg, i)
    requires parts != [] ==> beg >= 3 && MarkerAt(s, beg - 3)
    requires forall k :: 0 <= k < |parts| ==> CutAtMarkers(s, parts, k)
    ensures Terminated(parts + [s[beg..i]]) == s[..i + 3]
    ensures forall k :: 0 <= k <= |parts| ==> CutAtMarkers(s, parts + [s[beg..i]], k)
  {
    TerminatedAppend(parts, s[beg..i]);
    UpToMarker(s, beg, i);
    CutsKept(s, parts, beg, s[beg..i]);
  }

  lemma UpToMarker(s: string, beg: nat, i: nat)
    requires beg <= i <= |s| && MarkerAt(s, i)
    ensures s[..beg] + s[beg..i] + MARKER == s[..i + 3]
  {
    assert s[..beg] + s[beg..i] == s[..i];
    assert s[..i] + MARKER == s[..i + 3];
  }

  lemma CutsKept(s: string, parts: seq<string>, beg: nat, part: string)
    requires forall k :: 0 <= k < |parts| ==> CutAtMarkers(s, parts, k)
    requires |Terminated(parts)| == beg && NoMarker(s, beg, beg + |part|)
    requires parts != [] ==> beg >= 3 && MarkerAt(s, beg - 3)
    ensures forall k :: 0 <= k <= |parts| ==> CutAtMarkers(s, parts + [part], k)
  {
    assert parts[..|parts|] == parts;
    forall k | 0 <= k <= |parts| ensures CutAtMarkers(s, parts + [part], k) {
      assert (parts + [part])[..k] == parts[..k];
      if k < |parts| {
        assert CutAtMarkers(s, parts, k);
      }
    }
  }

  lemma TerminatedAppend(parts: seq<string>, part: string)
    ensures Terminated(parts + [part]) == Terminated(parts) + part + MARKER
  {
    assert (parts + [part])[..|parts|] == parts;
  }

  // ---- The cuts determine the parts

  lemma StartNext(parts: seq<string>, k: nat)
    requires k < |parts|
    ensures Start(parts, k + 1) == Start(parts, k) + |parts[k]| + 3
    ensures Terminated(parts[..k + 1]) == Terminated(parts[..k]) + parts[k] + MARKER
  {
    assert parts[..k + 1][..k] == parts[..k];
  }

  /** The text up to a part, followed by the part, starts the joined text. */
  lemma {:induction false} PartAt(parts: seq<string>, k: nat)
    requires k < |parts|
    ensures Terminated(parts[..k]) + parts[k] <= Join(parts)
    ensures k == |parts| - 1 <==> Start(parts, k) + |parts[k]| == |Join(parts)|
    decreases |parts| - k
  {
    if k < |parts| - 1 {
      PartAt(parts, k + 1);
      StartNext(parts, k);
    }
  }

  /** Where part `k` starts, its end is the first marker from there on, or else the end of the text. */
  lemma PartEnds(s: string, parts: seq<string>, k: nat)
    requires k < |parts| && Join(parts) == s && forall i :: 0 <= i < |parts| ==> CutAtMarkers(s, parts, i)
    ensures var start, end := Start(parts, k), Start(parts, k) + |parts[k]|;
            && end <= |s| && parts[k] == s[start..end] && NoMarker(s, start, end)
            && (if k == |parts| - 1 then end == |s| else end < |s| && MarkerAt(s, end))
  {
    PartAt(parts, k);
    assert CutAtMarkers(s, parts, k);
    if k < |parts| - 1 {
      StartNext(parts, k);
      assert CutAtMarkers(s, parts, k + 1);
    }
  }

  lemma {:induction false} SameStarts(s: string, a: seq<string>, b: seq<string>, k: nat)
    requires a != [] && Join(a) == s && forall i :: 0 <= i < |a| ==> CutAtMarkers(s, a, i)
    requires b != [] && Join(b) == s && forall i :: 0 <= i < |b| ==> CutAtMarkers(s, b, i)
    requires k < |a| && k < |b|
    ensures Start(a, k) == Start(b, k) && a[k] == b[k] && (k == |a| - 1 <==> k == |b| - 1)
  {
    if k > 0 {
      SameStarts(s, a, b, k - 1);
      StartNext(a, k - 1);
      StartNext(b, k - 1);
    }
    PartEnds(s, a, k);
    PartEnds(s, b, k);
  }

  /** There is only one way to cut a text at every marker and nowhere else. */
  lemma SplitUnique(s: string, a: seq<string>, b: seq<string>)
    requires a != [] && Join(a) == s && forall k :: 0 <= k < |a| ==> CutAtMarkers(s, a, k)
    requires b != [] && Join(b) == s && forall k :: 0 <= k < |b| ==> CutAtMarkers(s, b, k)
    ensures a == b
  {
    var n := if |a| < |b| then |a| else |b|;
    SameStarts(s, a, b, n - 1);
    forall k | 0 <= k < n ensures a[k] == b[k] {
      SameStarts(s, a, b, k);
    }
  }
}
