/** Byte streams and their split into newline-terminated lines. */
module LineSplit {
  import opened Sequences

  type Byte = b: int | 0 <= b < 256

  const NEWLINE: Byte := 10

  type Line = seq<Byte>

  /** The first newline of a line is its last byte. */
  ghost predicate IsLine(l: Line) {
    l != [] && FirstNewline(l) == |l| - 1
  }

  /** Position of the first newline, or the length of `s` if it has none. */
  function FirstNewline(s: seq<Byte>): (i: nat)
    ensures i <= |s|
    ensures i < |s| ==> s[i] == NEWLINE
  {
    if s == [] || s[0] == NEWLINE then 0 else 1 + FirstNewline(s[1..])
  }

  predicate HasNewline(s: seq<Byte>) {
    FirstNewline(s) < |s|
  }

  /** The complete lines of `s`, in order. */
  function Lines(s: seq<Byte>): (r: seq<Line>) {
    var i := FirstNewline(s);
    if i == |s| then [] else [s[..i + 1]] + Lines(s[i + 1..])
  }

  /** What follows the last newline of `s`. */
  function Rest(s: seq<Byte>): seq<Byte> {
    var i := FirstNewline(s);
    if i == |s| then s else Rest(s[i + 1..])
  }

  function Flatten(parts: seq<seq<Byte>>): seq<Byte> {
    if parts == [] then [] else parts[0] + Flatten(parts[1..])
  }

  function Newlines(s: seq<Byte>): nat {
    if s == [] then 0 else (if s[0] == NEWLINE then 1 else 0) + Newlines(s[1..])
  }

  lemma {:induction false} FlattenAppend(a: seq<seq<Byte>>, b: seq<seq<Byte>>)
    ensures Flatten(a + b) == Flatten(a) + Flatten(b)
  {
    if a == [] {
      assert a + b == b;
    } else {
      FlattenAppend(a[1..], b);
      assert (a + b)[1..] == a[1..] + b;
      Assoc(a[0], Flatten(a[1..]), Flatten(b));
    }
  }

  lemma {:induction false} NewlinesAppend(a: seq<Byte>, b: seq<Byte>)
    ensures Newlines(a + b) == Newlines(a) + Newlines(b)
  {
    if a == [] {
      assert a + b == b;
    } else {
      NewlinesAppend(a[1..], b);
      assert (a + b)[1..] == a[1..] + b;
    }
  }

  lemma {:induction false} NewlinesOfLine(l: Line)
    requires IsLine(l)
    ensures Newlines(l) == 1
  {
    if |l| > 1 {
      NewlinesOfLine(l[1..]);
    }
  }

  /** A stream that starts with a line has its first newline where the line ends. */
  lemma {:induction false} FirstNewlineOfLine(l: Line, s: seq<Byte>)
    requires IsLine(l)
    ensures FirstNewline(l + s) == |l| - 1
  {
    if |l| > 1 {
      FirstNewlineOfLine(l[1..], s);
      assert (l + s)[1..] == l[1..] + s;
    }
  }

  lemma {:induction false} PrefixIsLine(s: seq<Byte>)
    requires FirstNewline(s) < |s|
    ensures IsLine(s[..FirstNewline(s) + 1])
  {
    if s[0] != NEWLINE {
      PrefixIsLine(s[1..]);
      assert s[..FirstNewline(s) + 1][1..] == s[1..][..FirstNewline(s[1..]) + 1];
    }
  }

  /** A line in front of a stream is the first line of the split. */
  lemma LineFirst(l: Line, s: seq<Byte>)
    requires IsLine(l)
    ensures Lines(l + s) == [l] + Lines(s)
    ensures Rest(l + s) == Rest(s)
    ensures Newlines(l + s) == 1 + Newlines(s)
  {
    FirstNewlineOfLine(l, s);
    TakeAppend(l, s);
    NewlinesAppend(l, s);
    NewlinesOfLine(l);
  }

  /** Cutting the first line off a stream. */
  lemma CutLine(s: seq<Byte>)
    requires HasNewline(s)
    ensures var end := FirstNewline(s) + 1;
            && IsLine(s[..end])
            && s == s[..end] + s[end..]
            && Newlines(s) == 1 + Newlines(s[end..])
  {
    var end := FirstNewline(s) + 1;
    PrefixIsLine(s);
    TakeDrop(s, end);
    NewlinesAppend(s[..end], s[end..]);
    NewlinesOfLine(s[..end]);
  }

  /** Lines already cut off the front of a stream are the first lines of its split. */
  lemma {:induction false} LinesFirst(ls: seq<Line>, s: seq<Byte>)
    requires forall i :: 0 <= i < |ls| ==> IsLine(ls[i])
    ensures Lines(Flatten(ls) + s) == ls + Lines(s)
    ensures Rest(Flatten(ls) + s) == Rest(s)
  {
    if ls == [] {
      AppendNothing(s);
      AppendNothing(Lines(s));
    } else {
      LinesFirst(ls[1..], s);
      var tail := Flatten(ls[1..]) + s;
      Assoc(ls[0], Flatten(ls[1..]), s);
      LineFirst(ls[0], tail);
      TakeDrop(ls, 1);
      assert ls[..1] == [ls[0]];
      Assoc([ls[0]], ls[1..], Lines(s));
    }
  }

  /** The split loses nothing. */
  lemma {:induction false} SplitLossless(s: seq<Byte>)
    ensures Flatten(Lines(s)) + Rest(s) == s
    decreases |s|
  {
    if HasNewline(s) {
      var end := FirstNewline(s) + 1;
      SplitLossless(s[end..]);
      FlattenCons(s[..end], Lines(s[end..]));
      Assoc(s[..end], Flatten(Lines(s[end..])), Rest(s[end..]));
      TakeDrop(s, end);
    }
  }

  /** The split cuts after every newline and nowhere else. */
  lemma {:induction false} SplitShape(s: seq<Byte>)
    ensures forall i :: 0 <= i < |Lines(s)| ==> IsLine(Lines(s)[i])
    ensures !HasNewline(Rest(s))
    ensures |Lines(s)| == Newlines(s)
    decreases |s|
  {
    HasNewlineMeans(s);
    if HasNewline(s) {
      SplitShape(s[FirstNewline(s) + 1..]);
      CutLine(s);
    }
  }

  lemma FlattenCons(l: Line, ls: seq<Line>)
    ensures Flatten([l] + ls) == l + Flatten(ls)
  {
    assert ([l] + ls)[1..] == ls;
  }

  lemma {:induction false} HasNewlineMeans(s: seq<Byte>)
    ensures HasNewline(s) <==> NEWLINE in s
    ensures HasNewline(s) <==> Newlines(s) > 0
  {
    if s != [] {
      HasNewlineMeans(s[1..]);
      assert s == [s[0]] + s[1..];
    }
  }

  lemma {:induction false} FirstNewlineIs(s: seq<Byte>)
    ensures forall k :: 0 <= k < FirstNewline(s) ==> s[k] != 10
    ensures FirstNewline(s) < |s| ==> s[FirstNewline(s)] == 10
  {
    if s != [] && s[0] != NEWLINE {
      FirstNewlineIs(s[1..]);
      assert forall k :: 1 <= k < |s| ==> s[k] == s[1..][k - 1];
    }
  }

  /** A line ends with the byte 10 and has no other. */
  lemma IsLineIff(l: Line)
    ensures IsLine(l) <==> l != [] && l[|l| - 1] == 10 && forall k :: 0 <= k < |l| - 1 ==> l[k] != 10
  {
    FirstNewlineIs(l);
  }

  /** There is only one way to cut a stream into lines and a newline-free rest. */
  lemma SplitUnique(s: seq<Byte>, ls: seq<Line>, rest: seq<Byte>)
    requires forall i :: 0 <= i < |ls| ==> IsLine(ls[i])
    requires !HasNewline(rest)
    requires Flatten(ls) + rest == s
    ensures ls == Lines(s) && rest == Rest(s)
  {
    LinesFirst(ls, rest);
    assert ls + [] == ls;
  }

  /** Splitting resumes from the rest of what came before. */
  lemma SplitAppend(a: seq<Byte>, b: seq<Byte>)
    ensures Lines(a + b) == Lines(a) + Lines(Rest(a) + b)
    ensures Rest(a + b) == Rest(Rest(a) + b)
  {
    SplitLossless(a);
    SplitShape(a);
    assert a + b == Flatten(Lines(a)) + (Rest(a) + b);
    LinesFirst(Lines(a), Rest(a) + b);
  }
}
