/**
 * The line grammars: a rule is a sequence of fixed texts and of fields that each end at the
 * first occurrence of their delimiter.
 */
module LogGrammar {
  import opened Prelude
  import opened Sequences

  datatype Item = Text(text: string) | Field(delimiter: string)

  type Rule = seq<Item>

  const KUBE_LINE: Rule := [Field(" "), Field(" "), Field(" "), Field("] "), Field("\n")]

  const KUBE_LINE_RESTFUL: Rule :=
    [Text("[restful] "), Field(" "), Field(" "), Field(": "), Text("[restful/swagger] "), Field("\n")]

  const ETCD_LINE: Rule := [Field(" "), Field(" "), Field(" | "), Field(": "), Field("\n")]

  predicate At(s: string, d: string, i: nat) {
    i + |d| <= |s| && s[i..i + |d|] == d
  }

  lemma AtTail(s: string, d: string, i: nat)
    requires 1 <= i <= |s|
    ensures At(s, d, i) <==> At(s[1..], d, i - 1)
  {
    if i + |d| <= |s| {
      var w := s[i..i + |d|];
      assert forall k :: 0 <= k < |d| ==> w[k] == s[i + k] == s[1..][i - 1 + k];
      assert w == s[1..][i - 1..i - 1 + |d|];
    }
  }

  /** The first occurrence of `d` in `s`. */
  function Find(s: string, d: string): (r: Option<nat>)
    ensures r.None? ==> forall i :: 0 <= i <= |s| ==> !At(s, d, i)
    ensures r.Some? ==> r.value + |d| <= |s| && At(s, d, r.value) && forall i :: 0 <= i < r.value ==> !At(s, d, i)
    decreases |s|
  {
    if At(s, d, 0) then Some(0)
    else if s == [] then None
    else
      assert forall i :: 1 <= i <= |s| ==> (At(s, d, i) <==> At(s[1..], d, i - 1)) by {
        forall i | 1 <= i <= |s| ensures At(s, d, i) <==> At(s[1..], d, i - 1) {
          AtTail(s, d, i);
        }
      }
      match Find(s[1..], d)
      case None => None
      case Some(i) => Some(i + 1)
  }

  datatype Extracted = Extracted(fields: seq<string>, rest: string)

  function Extract(rule: Rule, line: string): Option<Extracted>
    decreases |rule|
  {
    if rule == [] then Some(Extracted([], line))
    else match rule[0]
      case Text(text) => if text <= line then Extract(rule[1..], line[|text|..]) else None
      case Field(d) =>
        match Find(line, d)
        case None => None
        case Some(i) =>
          match Extract(rule[1..], line[i + |d|..])
          case None => None
          case Some(e) => Some(Extracted([line[..i]] + e.fields, e.rest))
  }

  function Fields(rule: Rule): nat {
    if rule == [] then 0 else (if rule[0].Field? then 1 else 0) + Fields(rule[1..])
  }

  function Print(rule: Rule, fields: seq<string>): string
    requires |fields| == Fields(rule)
  {
    if rule == [] then ""
    else match rule[0]
      case Text(text) => text + Print(rule[1..], fields)
      case Field(d) => fields[0] + d + Print(rule[1..], fields[1..])
  }

  /** Printing what was extracted rebuilds the line. */
  lemma {:induction false} PrintAfterExtract(rule: Rule, line: string)
    requires Extract(rule, line).Some?
    ensures var e := Extract(rule, line).value;
            |e.fields| == Fields(rule) && Print(rule, e.fields) + e.rest == line
    decreases |rule|
  {
    if rule != [] {
      match rule[0]
      case Text(text) => PrintAfterExtract(rule[1..], line[|text|..]);
      case Field(d) =>
        var i := Find(line, d).value;
        var e := Extract(rule[1..], line[i + |d|..]).value;
        PrintAfterExtract(rule[1..], line[i + |d|..]);
        assert ([line[..i]] + e.fields)[1..] == e.fields;
        Regroup(line[..i], d, Print(rule[1..], e.fields), e.rest);
        CutAt(line, d, i);
    }
  }

  lemma Regroup(a: string, b: string, c: string, d: string)
    ensures a + b + c + d == a + b + (c + d)
  {
  }

  lemma CutAt(s: string, d: string, i: nat)
    requires At(s, d, i)
    ensures s == s[..i] + d + s[i + |d|..]
  {
  }

  /** A rule that ends with a newline field consumes a whole line: what remains behind it is empty. */
  lemma WholeLineConsumed(rule: Rule, line: string)
    requires rule != [] && rule[|rule| - 1] == Field("\n")
    requires forall i :: 0 <= i < |line| - 1 ==> line[i] != '\n'
    requires Extract(rule, line).Some?
    ensures var e := Extract(rule, line).value;
            e.rest == "" && |e.fields| == Fields(rule) && Print(rule, e.fields) == line
  {
    PrintAfterExtract(rule, line);
    NothingRemains(rule, line);
    AppendNothing(Print(rule, Extract(rule, line).value.fields));
  }

  lemma {:induction false} NothingRemains(rule: Rule, line: string)
    requires rule != [] && rule[|rule| - 1] == Field("\n")
    requires forall i :: 0 <= i < |line| - 1 ==> line[i] != '\n'
    requires Extract(rule, line).Some?
    ensures Extract(rule, line).value.rest == ""
    decreases |rule|
  {
    if |rule| == 1 {
      var i := Find(line, "\n").value;
      assert line[i..i + 1][0] == '\n';
    } else if rule[0].Text? {
      NothingRemains(rule[1..], line[|rule[0].text|..]);
    } else {
      NothingRemains(rule[1..], line[Find(line, rule[0].delimiter).value + |rule[0].delimiter|..]);
    }
  }

  /** No occurrence of the delimiter starts inside the field, even one that runs into the delimiter itself. */
  ghost predicate Readable(field: string, d: string) {
    forall i :: 0 <= i < |field| ==> !At(field + d, d, i)
  }

  ghost predicate AllReadable(rule: Rule, fields: seq<string>)
    requires |fields| == Fields(rule)
  {
    rule != [] ==>
      if rule[0].Text? then AllReadable(rule[1..], fields)
      else Readable(fields[0], rule[0].delimiter) && AllReadable(rule[1..], fields[1..])
  }

  /** Occurrences that start before the end of `s` only depend on `s` and as many characters as the delimiter has. */
  lemma AtLocal(s: string, d: string, tail: string, i: nat)
    requires i < |s|
    ensures At(s + d + tail, d, i) <==> At(s + d, d, i)
  {
    assert (s + d + tail)[i..i + |d|] == (s + d)[i..i + |d|];
  }

  lemma FindAfterField(field: string, d: string, tail: string)
    ensures Find(field + d + tail, d) == Some(|field|) <==> Readable(field, d)
  {
    var s := field + d + tail;
    assert s[|field|..|field| + |d|] == d;
    assert At(s, d, |field|);
    forall i | 0 <= i < |field| ensures At(s, d, i) <==> At(field + d, d, i) {
      AtLocal(field, d, tail, i);
    }
  }

  /** Extracting what was printed gives the fields back if and only if every field is readable. */
  lemma {:induction false} ExtractAfterPrint(rule: Rule, fields: seq<string>, rest: string)
    requires |fields| == Fields(rule)
    ensures Extract(rule, Print(rule, fields) + rest) == Some(Extracted(fields, rest)) <==> AllReadable(rule, fields)
    decreases |rule|
  {
    if rule == [] {
      assert Print(rule, fields) + rest == rest;
    } else {
      match rule[0]
      case Text(text) => PrintText(rule, fields, rest);
      case Field(d) => PrintField(rule, fields, rest);
    }
  }

  lemma PrintText(rule: Rule, fields: seq<string>, rest: string)
    requires |fields| == Fields(rule) && rule != [] && rule[0].Text?
    ensures Extract(rule, Print(rule, fields) + rest) == Some(Extracted(fields, rest)) <==> AllReadable(rule, fields)
    decreases |rule|, 0
  {
    var tail := Print(rule[1..], fields) + rest;
    assert Print(rule, fields) + rest == rule[0].text + tail;
    ExtractAfterPrint(rule[1..], fields, rest);
  }

  lemma PrintField(rule: Rule, fields: seq<string>, rest: string)
    requires |fields| == Fields(rule) && rule != [] && rule[0].Field?
    ensures Extract(rule, Print(rule, fields) + rest) == Some(Extracted(fields, rest)) <==> AllReadable(rule, fields)
    decreases |rule|, 0
  {
    var f, d := fields[0], rule[0].delimiter;
    var tail := Print(rule[1..], fields[1..]) + rest;
    Regroup(f, d, Print(rule[1..], fields[1..]), rest);
    FindAfterField(f, d, tail);
    ExtractAfterPrint(rule[1..], fields[1..], rest);
    if Readable(f, d) {
      TakeAppend(f + d, tail);
      TakeAppend(f, d);
      Assoc(f, d, tail);
      TakeAppend(f, d + tail);
      TakeDrop(fields, 1);
      assert fields[..1] == [f];
    }
  }

  // ---- Delimiters that cannot overlap themselves

  /** No proper prefix of the delimiter, other than the empty one, is also a suffix of it. */
  ghost predicate Unbordered(d: string) {
    forall k :: 0 < k < |d| ==> d[..k] != d[|d| - k..]
  }

  ghost predicate Occurs(s: string, d: string) {
    exists i :: 0 <= i <= |s| && At(s, d, i)
  }

  /** For such a delimiter, a field is readable if and only if the delimiter does not occur in it. */
  lemma ReadableIfAbsent(field: string, d: string)
    requires d != [] && Unbordered(d)
    ensures Readable(field, d) <==> !Occurs(field, d)
  {
    forall i | 0 <= i < |field| ensures At(field + d, d, i) <==> At(field, d, i) {
      var k := i + |d| - |field|;
      if k <= 0 {
        assert (field + d)[i..i + |d|] == field[i..i + |d|];
      } else {
        assert (field + d)[i..i + |d|] == field[i..] + d[..k];
        assert (field[i..] + d[..k])[|d| - k..] == d[..k];
      }
    }
  }

  /** All fields of the rules end at unbordered delimiters, but for the severity of etcd. */
  lemma GrammarDelimiters()
    ensures Unbordered(" ") && Unbordered("] ") && Unbordered(": ") && Unbordered("\n")
    ensures forall i :: 0 <= i < |KUBE_LINE| ==> KUBE_LINE[i].Field? && Unbordered(KUBE_LINE[i].delimiter)
    ensures forall i :: 0 <= i < |KUBE_LINE_RESTFUL| && KUBE_LINE_RESTFUL[i].Field? ==>
                        Unbordered(KUBE_LINE_RESTFUL[i].delimiter)
    ensures forall i :: 0 <= i < |ETCD_LINE| ==> ETCD_LINE[i].Field? && (Unbordered(ETCD_LINE[i].delimiter) <==> i != 2)
  {
    var bracket, colon, bar := "] ", ": ", " | ";
    assert bracket[..1][0] == ']' && bracket[1..][0] == ' ';
    assert colon[..1][0] == ':' && colon[1..][0] == ' ';
    assert bar[..1] == bar[2..];
  }

  /** The severity delimiter of etcd overlaps itself: this field does not contain it and is still cut short. */
  lemma OverlappingDelimiter()
    ensures !Occurs("x |", " | ") && !Readable("x |", " | ")
  {
    var s, d := "x |", " | ";
    assert (s + d)[1..4] == d;
    assert At(s + d, d, 1);
    assert s[0..3][0] == 'x';
  }

  // ---- Which lines a rule accepts

  ghost predicate OnlyFields(rule: Rule) {
    rule != [] ==> rule[0].Field? && OnlyFields(rule[1..])
  }

  /** Fixed texts only before the first field. */
  ghost predicate TextsFirst(rule: Rule) {
    rule != [] ==> if rule[0].Text? then TextsFirst(rule[1..]) else OnlyFields(rule)
  }

  /** A rule of fields that accepts a line also accepts any longer line that ends with it. */
  lemma {:induction false} LongerLineAccepted(rule: Rule, before: string, line: string)
    requires OnlyFields(rule) && Extract(rule, line).Some?
    ensures Extract(rule, before + line).Some?
    decreases |rule|
  {
    if rule != [] {
      var middle, tail := LongerField(rule, before, line);
      LongerLineAccepted(rule[1..], middle, tail);
    }
  }

  /** What the first field leaves of a line, and of a longer one. */
  lemma LongerField(rule: Rule, before: string, line: string) returns (middle: string, tail: string)
    requires rule != [] && rule[0].Field? && Find(line, rule[0].delimiter).Some?
    ensures Extract(rule, line).Some? <==> Extract(rule[1..], tail).Some?
    ensures Extract(rule, before + line).Some? <==> Extract(rule[1..], middle + tail).Some?
  {
    var d := rule[0].delimiter;
    var i := Find(line, d).value;
    tail := line[i + |d|..];
    var j: nat;
    j, middle := FindInLonger(before, line, d);
    AcceptsField(rule, line, i, tail);
    AcceptsField(rule, before + line, j, middle + tail);
  }

  lemma AcceptsField(rule: Rule, line: string, i: nat, tail: string)
    requires rule != [] && rule[0].Field? && Find(line, rule[0].delimiter) == Some(i)
    requires line[i + |rule[0].delimiter|..] == tail
    ensures Extract(rule, line).Some? <==> Extract(rule[1..], tail).Some?
  {
  }

  lemma SuffixOfLonger(before: string, line: string, j: nat, i: nat)
    requires i <= |line| && j <= |before| + i
    ensures (before + line)[j..] == (before + line)[j..|before| + i] + line[i..]
  {
  }

  /** In a longer line the delimiter is found no later; `middle` is what is skipped from there on. */
  lemma FindInLonger(before: string, line: string, d: string) returns (j: nat, middle: string)
    requires Find(line, d).Some?
    ensures Find(before + line, d) == Some(j)
    ensures (before + line)[j + |d|..] == middle + line[Find(line, d).value + |d|..]
  {
    var i := Find(line, d).value;
    assert (before + line)[|before| + i..|before| + i + |d|] == line[i..i + |d|];
    assert At(before + line, d, |before| + i);
    j := Find(before + line, d).value;
    middle := (before + line)[j + |d|..|before| + i + |d|];
    SuffixOfLonger(before, line, j + |d|, i + |d|);
  }

  /**
   * Reading up to the first delimiter loses no line: a rule without fixed text behind a
   * field accepts every line that starts with one of its printed forms, readable or not.
   */
  lemma {:induction false} AcceptsEveryPrint(rule: Rule, fields: seq<string>, rest: string)
    requires TextsFirst(rule) && |fields| == Fields(rule)
    ensures Extract(rule, Print(rule, fields) + rest).Some?
    decreases |rule|
  {
    if rule != [] {
      match rule[0]
      case Text(text) =>
        var tail := Print(rule[1..], fields) + rest;
        AcceptsEveryPrint(rule[1..], fields, rest);
        assert Print(rule, fields) + rest == text + tail;
      case Field(d) =>
        AcceptsPrintedFields(rule, fields, rest);
    }
  }

  lemma {:induction false} AcceptsPrintedFields(rule: Rule, fields: seq<string>, rest: string)
    requires rule != [] && OnlyFields(rule) && |fields| == Fields(rule)
    ensures Extract(rule, Print(rule, fields) + rest).Some?
    decreases |rule|, 0
  {
    var f, d := fields[0], rule[0].delimiter;
    var tail := Print(rule[1..], fields[1..]) + rest;
    assert TextsFirst(rule[1..]);
    AcceptsEveryPrint(rule[1..], fields[1..], rest);
    Regroup(f, d, Print(rule[1..], fields[1..]), rest);
    FindsSomewhere(f, d, tail);
    var line := f + d + tail;
    var i := Find(line, d).value;
    var middle := line[i + |d|..|f + d|];
    SuffixOfLonger(f + d, tail, i + |d|, 0);
    LongerLineAccepted(rule[1..], middle, tail);
    AcceptsField(rule, line, i, middle + tail);
  }

  lemma FindsSomewhere(f: string, d: string, tail: string)
    ensures Find(f + d + tail, d).Some? && Find(f + d + tail, d).value <= |f|
  {
    assert (f + d + tail)[|f|..|f| + |d|] == d;
    assert At(f + d + tail, d, |f|);
  }

  /** Hence the kube and the etcd rule accept exactly the lines that start with a printed form. */
  lemma AcceptedLines(rule: Rule, line: string)
    requires rule == KUBE_LINE || rule == ETCD_LINE
    ensures Extract(rule, line).Some? <==>
            exists fields, rest :: |fields| == Fields(rule) && Print(rule, fields) + rest == line
  {
    if Extract(rule, line).Some? {
      PrintAfterExtract(rule, line);
    }
    if exists fields, rest :: |fields| == Fields(rule) && Print(rule, fields) + rest == line {
      var fields, rest :| |fields| == Fields(rule) && Print(rule, fields) + rest == line;
      AcceptsEveryPrint(rule, fields, rest);
    }
  }

  /** What a rule extracts is readable. */
  lemma {:induction false} ExtractedReadable(rule: Rule, line: string)
    requires Extract(rule, line).Some?
    ensures var e := Extract(rule, line).value; |e.fields| == Fields(rule) && AllReadable(rule, e.fields)
    decreases |rule|
  {
    if rule != [] {
      match rule[0]
      case Text(text) => ExtractedReadable(rule[1..], line[|text|..]);
      case Field(d) =>
        var i := Find(line, d).value;
        var e := Extract(rule[1..], line[i + |d|..]).value;
        ExtractedReadable(rule[1..], line[i + |d|..]);
        assert ([line[..i]] + e.fields)[1..] == e.fields;
        CutAt(line, d, i);
        FindAfterField(line[..i], d, line[i + |d|..]);
    }
  }

  /** Every rule accepts exactly the lines that start with the print of readable fields. */
  lemma AcceptedIff(rule: Rule, line: string)
    ensures Extract(rule, line).Some? <==>
            exists fields, rest ::
              |fields| == Fields(rule) && AllReadable(rule, fields) && Print(rule, fields) + rest == line
  {
    if Extract(rule, line).Some? {
      PrintAfterExtract(rule, line);
      ExtractedReadable(rule, line);
    }
    if exists fields, rest ::
         |fields| == Fields(rule) && AllReadable(rule, fields) && Print(rule, fields) + rest == line
    {
      var fields, rest :| |fields| == Fields(rule) && AllReadable(rule, fields) && Print(rule, fields) + rest == line;
      ExtractAfterPrint(rule, fields, rest);
    }
  }

  // ---- The kube and the etcd rule, written out

  /** Appending the printed rest of a rule, piece by piece. */
  lemma AppendPiece(before: string, field: string, d: string, tail: string)
    ensures before + (field + d + tail) == before + field + d + tail
  {
  }

  lemma PrintNext(rule: Rule, fields: seq<string>, d: string)
    requires |fields| == Fields(rule) && rule != [] && rule[0] == Field(d)
    ensures Print(rule, fields) == fields[0] + d + Print(rule[1..], fields[1..])
    ensures AllReadable(rule, fields) <==> Readable(fields[0], d) && AllReadable(rule[1..], fields[1..])
  {
  }

  /** A rule of five fields with the delimiters `d0` to `d4`. */
  lemma FiveFields(rule: Rule, a: string, b: string, c: string, d: string, e: string,
                   d0: string, d1: string, d2: string, d3: string, d4: string)
    requires rule == [Field(d0), Field(d1), Field(d2), Field(d3), Field(d4)]
    ensures Fields(rule) == 5
    ensures Print(rule, [a, b, c, d, e]) == a + d0 + b + d1 + c + d2 + d + d3 + e + d4
    ensures AllReadable(rule, [a, b, c, d, e]) <==>
            Readable(a, d0) && Readable(b, d1) && Readable(c, d2) && Readable(d, d3) && Readable(e, d4)
  {
    var r1: Rule, f1 := [Field(d1), Field(d2), Field(d3), Field(d4)], [b, c, d, e];
    var r2: Rule, f2 := [Field(d2), Field(d3), Field(d4)], [c, d, e];
    var r3: Rule, f3 := [Field(d3), Field(d4)], [d, e];
    var r4: Rule, f4 := [Field(d4)], [e];
    assert r4[1..] == [] && f4[1..] == [] && Fields(r4) == 1;
    assert r3[1..] == r4 && f3[1..] == f4 && Fields(r3) == 2;
    assert r2[1..] == r3 && f2[1..] == f3 && Fields(r2) == 3;
    assert r1[1..] == r2 && f1[1..] == f2 && Fields(r1) == 4;
    assert rule[1..] == r1 && [a, b, c, d, e][1..] == f1;
    PrintNext(rule, [a, b, c, d, e], d0);
    PrintNext(r1, f1, d1);
    PrintNext(r2, f2, d2);
    PrintNext(r3, f3, d3);
    PrintNext(r4, f4, d4);
    AppendPiece(a + d0, b, d1, Print(r2, f2));
    AppendPiece(a + d0 + b + d1, c, d2, Print(r3, f3));
    AppendPiece(a + d0 + b + d1 + c + d2, d, d3, Print(r4, f4));
    AppendPiece(a + d0 + b + d1 + c + d2 + d + d3, e, d4, "");
    AppendNothing(a + d0 + b + d1 + c + d2 + d + d3 + e + d4);
  }

  /**
   * The kube rule: a written-out line is what it prints, and its five fields are extracted if
   * and only if there is no space in the first three, no "] " in the location, and no
   * newline in the message.
   */
  lemma KubeLines(a: string, b: string, c: string, d: string, e: string)
    ensures Fields(KUBE_LINE) == 5
    ensures var line := a + " " + b + " " + c + " " + d + "] " + e + "\n";
            && Print(KUBE_LINE, [a, b, c, d, e]) == line
            && (Extract(KUBE_LINE, line) == Some(Extracted([a, b, c, d, e], "")) <==>
                ' ' !in a && ' ' !in b && ' ' !in c && !Occurs(d, "] ") && '\n' !in e)
  {
    FiveFields(KUBE_LINE, a, b, c, d, e, " ", " ", " ", "] ", "\n");
    GrammarDelimiters();
    ReadableByCharacter(a, ' ');
    ReadableByCharacter(b, ' ');
    ReadableByCharacter(c, ' ');
    ReadableIfAbsent(d, "] ");
    ReadableByCharacter(e, '\n');
    ExtractsPrinted(KUBE_LINE, [a, b, c, d, e]);
  }

  /**
   * The etcd rule. Its severity is cut at the first " | ", even at one that runs into the
   * delimiter behind the severity.
   */
  lemma EtcdLines(a: string, b: string, c: string, d: string, e: string)
    ensures Fields(ETCD_LINE) == 5
    ensures var line := a + " " + b + " " + c + " | " + d + ": " + e + "\n";
            && Print(ETCD_LINE, [a, b, c, d, e]) == line
            && (Extract(ETCD_LINE, line) == Some(Extracted([a, b, c, d, e], "")) <==>
                ' ' !in a && ' ' !in b && Readable(c, " | ") && !Occurs(d, ": ") && '\n' !in e)
  {
    FiveFields(ETCD_LINE, a, b, c, d, e, " ", " ", " | ", ": ", "\n");
    GrammarDelimiters();
    ReadableByCharacter(a, ' ');
    ReadableByCharacter(b, ' ');
    ReadableIfAbsent(d, ": ");
    ReadableByCharacter(e, '\n');
    ExtractsPrinted(ETCD_LINE, [a, b, c, d, e]);
  }

  /**
   * The documented line has three spaces behind the time: the third field is empty then, and
   * the number that follows is taken for a part of the location.
   */
  lemma ThreeSpaces(severity: string, time: string, location: string, message: string, space: string)
    requires ' ' !in severity && ' ' !in time && !Occurs(space + location, "] ") && '\n' !in message && space == " "
    ensures Extract(KUBE_LINE, severity + space + time + (space + space + space) + location + "] " + message + "\n")
         == Some(Extracted([severity, time, "", space + location, message], ""))
  {
    KubeLines(severity, time, "", space + location, message);
    Spaces(severity + space + time, space, location);
  }

  lemma Spaces(before: string, space: string, location: string)
    ensures before + space + "" + space + (space + location) == before + (space + space + space) + location
  {
  }

  lemma ExtractsPrinted(rule: Rule, fields: seq<string>)
    requires |fields| == Fields(rule)
    ensures Extract(rule, Print(rule, fields)) == Some(Extracted(fields, "")) <==> AllReadable(rule, fields)
  {
    ExtractAfterPrint(rule, fields, "");
    AppendNothing(Print(rule, fields));
  }

  /** A field is readable up to a single character if and only if the character is not in it. */
  lemma ReadableByCharacter(field: string, ch: char)
    ensures Readable(field, [ch]) <==> ch !in field
  {
    forall i | 0 <= i < |field| ensures At(field + [ch], [ch], i) <==> field[i] == ch {
      assert (field + [ch])[i..i + 1] == [(field + [ch])[i]];
    }
  }

  // ---- The restful rule

  const SWAGGER := "[restful/swagger] "

  lemma SkipField(rule: Rule, f: string, tail: string)
    requires rule != [] && rule[0].Field? && Readable(f, rule[0].delimiter)
    ensures Extract(rule, f + rule[0].delimiter + tail).None? <==> Extract(rule[1..], tail).None?
  {
    var d := rule[0].delimiter;
    FindAfterField(f, d, tail);
    assert (f + d + tail)[|f| + |d|..] == tail;
  }

  /** What follows the location in a printed line. */
  function AfterLocation(message: string): string {
    ": " + (SWAGGER + (message + "\n"))
  }

  /** After a readable date and time only the location and what follows it decide. */
  lemma OnlyLocationDecides(date: string, time: string, location: string, message: string)
    requires Readable(date, " ") && Readable(time, " ")
    ensures Extract(KUBE_LINE_RESTFUL, Print(KUBE_LINE_RESTFUL, [date, time, location, message])).None? <==>
            Extract(KUBE_LINE_RESTFUL[3..], location + AfterLocation(message)).None?
  {
    var rule := KUBE_LINE_RESTFUL;
    var three := location + AfterLocation(message);
    PrintedRestful(date, time, location, message);
    var rest := date + " " + (time + " " + three);
    assert ("[restful] " + rest)[10..] == rest;
    SkipField(rule[1..], date, time + " " + three);
    SkipField(rule[1..][1..], time, three);
    assert rule[1..][1..][1..] == rule[3..];
  }

  lemma PrintedRestful(date: string, time: string, location: string, message: string)
    ensures Print(KUBE_LINE_RESTFUL, [date, time, location, message])
         == "[restful] " + (date + " " + (time + " " + (location + AfterLocation(message))))
  {
    var rule, fields := KUBE_LINE_RESTFUL, [date, time, location, message];
    assert fields[1..][1..] == [location, message] && fields[1..][1..][1..] == [message];
    var r3 := rule[1..][1..][1..];
    var r4, r5 := r3[1..], r3[1..][1..];
    assert r3 == [Field(": "), Text(SWAGGER), Field("\n")];
    assert r4 == [Text(SWAGGER), Field("\n")] && r5 == [Field("\n")] && r5[1..] == [];
    assert Fields(r5) == 1 && Fields(r4) == 1 && Fields(r3) == 2;
    assert Print(r5, [message]) == message + "\n";
    assert Print(r4, [message]) == SWAGGER + (message + "\n");
    assert Print(r3, fields[1..][1..]) == location + AfterLocation(message);
    Outer(date, time, fields, location + AfterLocation(message));
  }

  lemma Outer(date: string, time: string, fields: seq<string>, three: string)
    requires |fields| == 4 && fields[0] == date && fields[1] == time
    requires var r3 := KUBE_LINE_RESTFUL[1..][1..][1..]; Fields(r3) == 2 && Print(r3, fields[1..][1..]) == three
    ensures Print(KUBE_LINE_RESTFUL, fields) == "[restful] " + (date + " " + (time + " " + three))
  {
    var r1 := KUBE_LINE_RESTFUL[1..];
    assert Fields(r1[1..]) == 3;
    assert Fields(r1) == 4;
    assert Print(r1[1..], fields[1..]) == time + " " + three;
    assert Print(r1, fields) == date + " " + (time + " " + three);
  }

  lemma NewlineFieldAccepts(line: string)
    requires line != "" && line[|line| - 1] == '\n'
    ensures Extract([Field("\n")], line).Some?
  {
    var rule := [Field("\n")];
    assert rule[1..] == [];
    assert line[|line| - 1..] == "\n";
    assert At(line, "\n", |line| - 1);
    var i := Find(line, "\n").value;
    AcceptsField(rule, line, i, line[i + 1..]);
  }

  /** A fixed text and a newline field accept what starts with the text, if a newline is behind it. */
  lemma EndAccepts(text: string, line: string)
    requires text != "" && text[|text| - 1] != '\n' && line != "" && line[|line| - 1] == '\n'
    ensures Extract([Text(text), Field("\n")], line).Some? <==> text <= line
  {
    var rule := [Text(text), Field("\n")];
    assert rule[1..] == [Field("\n")];
    if text <= line {
      assert |line| > |text|;
      var tail := line[|text|..];
      assert tail[|tail| - 1] == line[|line| - 1];
      NewlineFieldAccepts(tail);
    }
  }

  /** After the first ": " of the location, if it has one, the line goes on with the fixed text. */
  predicate Resumes(location: string, message: string) {
    match Find(location, ": ")
    case None => false
    case Some(i) => SWAGGER <= location[i + 2..] + AfterLocation(message)
  }

  /** The first occurrence stays the first when the text goes on. */
  lemma FindStays(s: string, d: string, tail: string)
    requires Find(s, d).Some?
    ensures var i := Find(s, d).value; Find(s + tail, d) == Some(i) && (s + tail)[i + |d|..] == s[i + |d|..] + tail
  {
    var i := Find(s, d).value;
    AtStays(s, d, tail, i);
    forall k | 0 <= k < i ensures !At(s + tail, d, k) {
      AtStays(s, d, tail, k);
    }
    FirstIsFound(s + tail, d, i);
    DropStays(s, tail, i + |d|);
  }

  lemma FirstIsFound(s: string, d: string, i: nat)
    requires At(s, d, i) && forall k :: 0 <= k < i ==> !At(s, d, k)
    ensures Find(s, d) == Some(i)
  {
  }

  lemma DropStays(s: string, tail: string, k: nat)
    requires k <= |s|
    ensures (s + tail)[k..] == s[k..] + tail
  {
  }

  lemma AtStays(s: string, d: string, tail: string, k: nat)
    requires k + |d| <= |s|
    ensures At(s + tail, d, k) <==> At(s, d, k)
  {
    assert (s + tail)[k..k + |d|] == s[k..k + |d|];
  }

  lemma EndsWithNewline(location: string, message: string)
    ensures var line := location + AfterLocation(message); line != "" && line[|line| - 1] == '\n'
  {
    assert AfterLocation(message) == ": " + SWAGGER + message + "\n";
  }

  /**
   * Of the lines that the restful rule prints with a readable date and time, it accepts
   * exactly those whose location does not contain ": ", or goes on with the fixed text behind the first one.
   */
  lemma RestfulAcceptsIff(date: string, time: string, location: string, message: string)
    requires Readable(date, " ") && Readable(time, " ")
    ensures Extract(KUBE_LINE_RESTFUL, Print(KUBE_LINE_RESTFUL, [date, time, location, message])).Some? <==>
            Readable(location, ": ") || Resumes(location, message)
  {
    var rule := KUBE_LINE_RESTFUL[3..];
    assert rule == [Field(": "), Text(SWAGGER), Field("\n")];
    GrammarDelimiters();
    ReadableIfAbsent(location, ": ");
    OnlyLocationDecides(date, time, location, message);
    if Readable(location, ": ") {
      ReadableLocation(location, message);
    } else {
      CutLocation(location, message);
    }
  }

  lemma ReadableLocation(location: string, message: string)
    requires Readable(location, ": ")
    ensures Extract([Field(": "), Text(SWAGGER), Field("\n")], location + AfterLocation(message)).Some?
  {
    var rule := [Field(": "), Text(SWAGGER), Field("\n")];
    var end := SWAGGER + (message + "\n");
    assert rule[1..] == [Text(SWAGGER), Field("\n")];
    Assoc(location, ": ", end);
    SkipField(rule, location, end);
    EndsWithNewline("", message);
    EndAccepts(SWAGGER, end);
  }

  lemma CutLocation(location: string, message: string)
    requires Find(location, ": ").Some?
    ensures Extract([Field(": "), Text(SWAGGER), Field("\n")], location + AfterLocation(message)).Some? <==>
            Resumes(location, message)
  {
    var rule := [Field(": "), Text(SWAGGER), Field("\n")];
    var i := Find(location, ": ").value;
    assert rule[1..] == [Text(SWAGGER), Field("\n")];
    FindStays(location, ": ", AfterLocation(message));
    AcceptsField(rule, location + AfterLocation(message), i, location[i + 2..] + AfterLocation(message));
    EndsWithNewline(location[i + 2..], message);
    EndAccepts(SWAGGER, location[i + 2..] + AfterLocation(message));
  }

  /**
   * A location in which the delimiter is followed by something else is rejected, one that
   * repeats the fixed text is not.
   */
  lemma AfterDelimiter(before: string, after: string, message: string)
    requires Readable(before, ": ")
    ensures var location := before + ": " + after;
            !Readable(location, ": ") && (Resumes(location, message) <==> SWAGGER <= after + AfterLocation(message))
  {
    var location := before + ": " + after;
    FindAfterField(before, ": ", after);
    assert location[|before| + 2..] == after;
    assert At(location, ": ", |before|);
    GrammarDelimiters();
    ReadableIfAbsent(location, ": ");
  }

  /** So what stands behind the first delimiter decides. */
  lemma AfterDelimiterDecides(date: string, time: string, before: string, after: string, message: string)
    requires Readable(date, " ") && Readable(time, " ") && Readable(before, ": ")
    ensures Extract(KUBE_LINE_RESTFUL,
                    Print(KUBE_LINE_RESTFUL, [date, time, before + ": " + after, message])).Some? <==>
            SWAGGER <= after + AfterLocation(message)
  {
    AfterDelimiter(before, after, message);
    RestfulAcceptsIff(date, time, before + ": " + after, message);
  }

  lemma ReadableWord(word: string, d: string)
    requires d != [] && Unbordered(d) && d[0] !in word
    ensures Readable(word, d)
  {
    ReadableIfAbsent(word, d);
    forall i | 0 <= i <= |word| ensures !At(word, d, i) {
      if i + |d| <= |word| {
        assert word[i..i + |d|][0] == word[i];
      }
    }
  }

  lemma ReadableWords()
    ensures Readable("d", " ") && Readable("t", " ") && Readable("log", ": ")
  {
    GrammarDelimiters();
    ReadableWord("d", " ");
    ReadableWord("t", " ");
    ReadableWord("log", ": ");
  }

  /** With the location "log: go" the rule rejects its own print. */
  lemma RestfulRejects(message: string)
    ensures Extract(KUBE_LINE_RESTFUL, Print(KUBE_LINE_RESTFUL, ["d", "t", "log" + ": " + "go", message])).None?
  {
    ReadableWords();
    AfterDelimiterDecides("d", "t", "log", "go", message);
    assert ("go" + AfterLocation(message))[0] == 'g';
  }

  /** With a location that repeats the fixed text it does not, and cuts the location short. */
  lemma RestfulAccepts(message: string)
    ensures Extract(KUBE_LINE_RESTFUL,
                    Print(KUBE_LINE_RESTFUL, ["d", "t", "log" + ": " + (SWAGGER + "go"), message])).Some?
  {
    ReadableWords();
    AfterDelimiterDecides("d", "t", "log", SWAGGER + "go", message);
    Assoc(SWAGGER, "go", AfterLocation(message));
  }
}
