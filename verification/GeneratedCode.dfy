/** What the generated program means: its names, when it compiles, and what running it does. */
module GeneratedCode {
  import opened Prelude
  import opened Decimal
  import opened RawLiterals
  import opened Sequences
  import opened ManifestCodegen
  import DocumentSplit

  // ---- Names

  lemma ObjectNamesDiffer(name: string, i: nat, j: nat)
    ensures ObjectName(name, i) == ObjectName(name, j) <==> i == j
  {
    var prefix := "kobjS" + name + "O";
    assert ObjectName(name, i)[|prefix|..] == Itoa(i);
    assert ObjectName(name, j)[|prefix|..] == Itoa(j);
    AtoiOfItoa(i);
    AtoiOfItoa(j);
  }

  /** The suffix test tells the names apart, whatever the generator is called. */
  lemma SuffixTest(name: string, i: nat)
    ensures IsHealthName(HealthName(name)) && !IsHealthName(ObjectName(name, i))
  {
    var h, o := HealthName(name), ObjectName(name, i);
    assert h[|h| - 2..] == "HO";
    AllDigits(i);
    assert o[|o| - 1] == Itoa(i)[|Itoa(i)| - 1];
    assert o[|o| - 2..][1] == o[|o| - 1];
  }

  function HealthEntries(entries: seq<Entry>): nat {
    if entries == [] then 0
    else HealthEntries(entries[..|entries| - 1]) + if IsHealthName(entries[|entries| - 1].name) then 1 else 0
  }

  /** The objects of the entries that are not health entries. */
  function ObjectsOf(entries: seq<Entry>): seq<Object> {
    if entries == [] then []
    else
      var last := entries[|entries| - 1];
      ObjectsOf(entries[..|entries| - 1]) + if IsHealthName(last.name) then [] else [last.obj]
  }

  lemma {:induction false} CountsAppend(a: seq<Entry>, b: seq<Entry>)
    ensures HealthEntries(a + b) == HealthEntries(a) + HealthEntries(b)
    ensures ObjectsOf(a + b) == ObjectsOf(a) + ObjectsOf(b)
    decreases |b|
  {
    if b == [] {
      AppendNothing(a);
      AppendNothing(ObjectsOf(a));
    } else {
      var n := |b| - 1;
      CountsAppend(a, b[..n]);
      DropLast(a, b);
      Assoc(ObjectsOf(a), ObjectsOf(b[..n]), if IsHealthName(b[n].name) then [] else [b[n].obj]);
    }
  }

  lemma {:induction false} CountsOfHealthEntries(n: nat, e: Entry)
    requires IsHealthName(e.name)
    ensures HealthEntries(seq(n, _ => e)) == n && ObjectsOf(seq(n, _ => e)) == []
  {
    if n > 0 {
      CountsOfHealthEntries(n - 1, e);
      assert seq(n, _ => e)[..n - 1] == seq(n - 1, _ => e);
    }
  }

  lemma CountsOfOne(o: Object, name: string, index: nat)
    ensures HealthEntries(EntriesFor(o, name, index)) == Probed(o)
    ensures ObjectsOf(EntriesFor(o, name, index)) == [o]
  {
    var e := Entry(o, ObjectName(name, index));
    SuffixTest(name, index);
    CountsAppend([e], seq(Probed(o), _ => Entry(o, HealthName(name))));
    CountsOfHealthEntries(Probed(o), Entry(o, HealthName(name)));
    assert [e][..0] == [];
  }

  /** Every entry has the health name or the name of its position. */
  ghost predicate NamedByPosition(es: seq<Entry>, name: string) {
    forall i :: 0 <= i < |es| ==> es[i].name == HealthName(name) || es[i].name == ObjectName(name, i)
  }

  lemma {:induction false} EntryNames(objects: seq<Object>, name: string)
    ensures NamedByPosition(EntriesOf(objects, name), name)
    decreases |objects|
  {
    if objects != [] {
      EntryNames(objects[..|objects| - 1], name);
    }
  }

  lemma CountsOfNext(objects: seq<Object>, name: string)
    requires objects != []
    ensures var n := |objects| - 1;
            var before := EntriesOf(objects[..n], name);
            && HealthEntries(EntriesOf(objects, name)) == HealthEntries(before) + Probed(objects[n])
            && ObjectsOf(EntriesOf(objects, name)) == ObjectsOf(before) + [objects[n]]
  {
    var n := |objects| - 1;
    var before := EntriesOf(objects[..n], name);
    CountsOfOne(objects[n], name, |before|);
    CountsAppend(before, EntriesFor(objects[n], name, |before|));
  }

  lemma {:induction false} EntryCounts(objects: seq<Object>, name: string)
    ensures HealthEntries(EntriesOf(objects, name)) == ProbedIn(objects)
    ensures ObjectsOf(EntriesOf(objects, name)) == objects
    decreases |objects|
  {
    if objects != [] {
      EntryCounts(objects[..|objects| - 1], name);
      CountsOfNext(objects, name);
      TakeDrop(objects, |objects| - 1);
    }
  }

  /**
   * In any list of entries the generator builds: the suffix test selects exactly the entries
   * with the health name, one for each probed container; the others are the objects in
   * source order, and each has the name of its position, which no other entry has.
   */
  lemma EntriesAreSound(objects: seq<Object>, name: string, i: nat)
    requires i < |EntriesOf(objects, name)|
    ensures var es := EntriesOf(objects, name);
            && (IsHealthName(es[i].name) <==> es[i].name == HealthName(name))
            && (!IsHealthName(es[i].name) ==>
                  && es[i].name == ObjectName(name, i)
                  && forall j :: 0 <= j < |es| && j != i ==> es[j].name != es[i].name)
            && HealthEntries(es) == ProbedIn(objects) && ObjectsOf(es) == objects
  {
    var es := EntriesOf(objects, name);
    EntryNames(objects, name);
    EntryCounts(objects, name);
    SuffixTest(name, i);
    if !IsHealthName(es[i].name) {
      forall j | 0 <= j < |es| && j != i ensures es[j].name != es[i].name {
        ObjectNamesDiffer(name, i, j);
      }
    }
  }

  ghost predicate DistinctNames(es: seq<Entry>) {
    forall i, j :: 0 <= i < j < |es| ==> es[i].name != es[j].name
  }

  lemma {:induction false} HealthEntryAt(es: seq<Entry>) returns (i: nat)
    requires HealthEntries(es) > 0
    ensures i < |es| && IsHealthName(es[i].name) && HealthEntries(es[..i]) == HealthEntries(es) - 1
  {
    var n := |es| - 1;
    if IsHealthName(es[n].name) {
      i := n;
    } else {
      i := HealthEntryAt(es[..n]);
      assert es[..n][..i] == es[..i];
    }
  }

  lemma {:induction false} TwoHealthEntries(es: seq<Entry>, i: nat, j: nat)
    requires i < j < |es| && IsHealthName(es[i].name) && IsHealthName(es[j].name)
    ensures HealthEntries(es) >= 2
  {
    CountsAppend(es[..j], es[j..]);
    TakeDrop(es, j);
    CountsAppend(es[..i], es[i..j]);
    TakeDrop(es[..j], i);
    TakeTake(es, i, j);
    assert es[..j][i..] == es[i..j];
    FirstIsHealth(es[i..j]);
    FirstIsHealth(es[j..]);
  }

  lemma FirstIsHealth(es: seq<Entry>)
    requires es != [] && IsHealthName(es[0].name)
    ensures HealthEntries(es) >= 1
  {
    CountsAppend([es[0]], es[1..]);
    assert es == [es[0]] + es[1..];
    assert [es[0]][..0] == [];
  }

  /** Constant names are pairwise distinct if and only if at most one container is probed. */
  lemma NamesDistinctIff(objects: seq<Object>, name: string)
    ensures DistinctNames(EntriesOf(objects, name)) <==> AtMostOneProbe(objects)
  {
    AtMostOneProbeIs(objects);
    var es := EntriesOf(objects, name);
    EntryNames(objects, name);
    EntryCounts(objects, name);
    if ProbedIn(objects) >= 2 {
      var j := HealthEntryAt(es);
      var i := HealthEntryAt(es[..j]);
      SuffixTest(name, i);
      SuffixTest(name, j);
      assert es[i].name == es[j].name;
    } else {
      forall i, j | 0 <= i < j < |es| ensures es[i].name != es[j].name {
        SuffixTest(name, i);
        SuffixTest(name, j);
        if IsHealthName(es[i].name) && IsHealthName(es[j].name) {
          TwoHealthEntries(es, i, j);
        }
        ObjectNamesDiffer(name, i, j);
      }
    }
  }

  // ---- When the generated program compiles

  /** No encoding contains a backtick. */
  ghost predicate BacktickFree(objects: seq<Object>, lib: Library) {
    forall i :: 0 <= i < |objects| ==> BACKTICK !in Text(objects[i], lib)
  }

  /** No encoding contains a carriage return. */
  ghost predicate ReturnFree(objects: seq<Object>, lib: Library) {
    forall i :: 0 <= i < |objects| ==> '\r' !in Text(objects[i], lib)
  }

  /** Between backticks every encoding is a chain of raw literals. */
  ghost predicate LegibleTexts(objects: seq<Object>, lib: Library) {
    forall i :: 0 <= i < |objects| ==> Value(Text(objects[i], lib)).Some?
  }

  ghost predicate AllowedTexts(objects: seq<Object>, lib: Library) {
    forall i :: 0 <= i < |objects| ==> Allowed(Text(objects[i], lib))
  }

  lemma BacktickFreeIsLegible(objects: seq<Object>, lib: Library)
    requires BacktickFree(objects, lib)
    ensures LegibleTexts(objects, lib)
  {
    forall i | 0 <= i < |objects| ensures Value(Text(objects[i], lib)).Some? {
      ValueIsTextIff(Text(objects[i], lib));
    }
  }

  ghost predicate SameObjects(es: seq<Entry>, objects: seq<Object>) {
    && (forall i :: 0 <= i < |es| ==> es[i].obj in objects)
    && (forall o :: o in objects ==> exists i :: 0 <= i < |es| && es[i].obj == o)
  }

  lemma {:induction false} EntryObjects(objects: seq<Object>, name: string)
    ensures SameObjects(EntriesOf(objects, name), objects)
    decreases |objects|
  {
    if objects != [] {
      var n := |objects| - 1;
      var before := EntriesOf(objects[..n], name);
      var es := EntriesOf(objects, name);
      EntryObjects(objects[..n], name);
      assert es[..|before|] == before;
      forall o | o in objects ensures exists i :: 0 <= i < |es| && es[i].obj == o {
        if o in objects[..n] {
          var i :| 0 <= i < |before| && before[i].obj == o;
          assert es[i].obj == o;
        } else {
          assert es[|before|].obj == o;
        }
      }
    }
  }

  /**
   * A generated file whose encodings are chains of raw literals is a valid program if and
   * only if it is generated into the package of the manifest types, there is a document, at
   * most one container in all documents has a liveness probe, and only allowed characters
   * occur. Encodings without backticks are such chains.
   */
  lemma CompilesIff(objects: seq<Object>, name: string, typeName: string, inBasePackage: bool, lib: Library)
    ensures var p := ProgramOf(EntriesOf(objects, name), typeName, inBasePackage, lib);
            && (Legible(p.constants) <==> LegibleTexts(objects, lib))
            && (BacktickFree(objects, lib) ==> Legible(p.constants))
            && (Legible(p.constants) ==>
                  (Compiles(p) <==>
                     inBasePackage && objects != [] && AtMostOneProbe(objects) && AllowedTexts(objects, lib)))
  {
    LegibleIff(objects, name, lib);
    if LegibleTexts(objects, lib) {
      RulesKeptIff(objects, name, typeName, inBasePackage, lib);
    }
    if BacktickFree(objects, lib) {
      BacktickFreeIsLegible(objects, lib);
    }
  }

  lemma LegibleIff(objects: seq<Object>, name: string, lib: Library)
    ensures Legible(ConstantsOf(EntriesOf(objects, name), lib)) <==> LegibleTexts(objects, lib)
  {
    var good: string -> bool := raw => Value(raw).Some?;
    ForAllTexts(objects, name, lib, good);
    var cs := ConstantsOf(EntriesOf(objects, name), lib);
    assert forall i :: 0 <= i < |cs| ==> (good(cs[i].raw) <==> Value(cs[i].raw).Some?);
    assert forall k :: 0 <= k < |objects| ==> (good(Text(objects[k], lib)) <==> Value(Text(objects[k], lib)).Some?);
  }

  lemma AllDeclared(p: Program, es: seq<Entry>, lib: Library)
    requires p.constants == ConstantsOf(es, lib) && p.body == BodyOf(es)
    ensures forall i :: 0 <= i < |p.body| ==> Declared(p, p.body[i].constant)
  {
    forall i | 0 <= i < |p.body| ensures Declared(p, p.body[i].constant) {
      assert p.constants[i].name == p.body[i].constant;
    }
  }

  lemma RulesKeptIff(objects: seq<Object>, name: string, typeName: string, inBasePackage: bool, lib: Library)
    requires Legible(ConstantsOf(EntriesOf(objects, name), lib))
    ensures Compiles(ProgramOf(EntriesOf(objects, name), typeName, inBasePackage, lib)) <==>
            inBasePackage && objects != [] && AtMostOneProbe(objects) && AllowedTexts(objects, lib)
  {
    var es := EntriesOf(objects, name);
    var p := ProgramOf(es, typeName, inBasePackage, lib);
    NamesDistinctIff(objects, name);
    ConstantNames(es, lib);
    ForAllTexts(objects, name, lib, Allowed);
    UsesVariables(objects, name);
    AllDeclared(p, es, lib);
  }

  ghost predicate NoDuplicates(constants: seq<Constant>) {
    forall i, j :: 0 <= i < j < |constants| ==> constants[i].name != constants[j].name
  }

  lemma ConstantNames(es: seq<Entry>, lib: Library)
    ensures NoDuplicates(ConstantsOf(es, lib)) <==> DistinctNames(es)
  {
    var cs := ConstantsOf(es, lib);
    assert forall i :: 0 <= i < |es| ==> cs[i].name == es[i].name;
  }

  /** What holds of the literals of all constants holds of the encodings of all objects. */
  lemma ForAllTexts(objects: seq<Object>, name: string, lib: Library, good: string -> bool)
    ensures var cs := ConstantsOf(EntriesOf(objects, name), lib);
            (forall i :: 0 <= i < |cs| ==> good(cs[i].raw)) <==>
            (forall k :: 0 <= k < |objects| ==> good(Text(objects[k], lib)))
  {
    var es := EntriesOf(objects, name);
    var cs := ConstantsOf(es, lib);
    EntryObjects(objects, name);
    if forall k :: 0 <= k < |objects| ==> good(Text(objects[k], lib)) {
      forall i | 0 <= i < |cs| ensures good(cs[i].raw) {
        assert es[i].obj in objects;
        var k :| 0 <= k < |objects| && objects[k] == es[i].obj;
        assert cs[i].raw == Text(objects[k], lib);
      }
    }
    if forall i :: 0 <= i < |cs| ==> good(cs[i].raw) {
      forall k | 0 <= k < |objects| ensures good(Text(objects[k], lib)) {
        assert objects[k] in objects;
        var i :| 0 <= i < |es| && es[i].obj == objects[k];
        assert cs[i].raw == Text(objects[k], lib);
      }
    }
  }

  lemma UsesVariables(objects: seq<Object>, name: string)
    ensures var body := BodyOf(EntriesOf(objects, name));
            (exists i :: 0 <= i < |body| && body[i].Register?) <==> objects != []
  {
    var es := EntriesOf(objects, name);
    if objects != [] {
      var n := |objects| - 1;
      var i := |EntriesOf(objects[..n], name)|;
      SuffixTest(name, i);
      assert BodyOf(es)[i].Register?;
    }
  }

  // ---- What the generated program does

  /** The value of the constant of an object. */
  function Literal(o: Object, lib: Library): string {
    ValueOr(Text(o, lib), "")
  }

  function Literals(lib: Library): Object -> string {
    (o: Object) => Literal(o, lib)
  }

  /** The encodings themselves. */
  function Texts(lib: Library): Object -> string {
    (o: Object) => Text(o, lib)
  }

  /**
   * What the documents say, each written as `value(o)`: register each rendered document, and
   * watch the one with a probe, unrendered.
   */
  function Meaning(objects: seq<Object>, value: Object -> string, m: Manifest, lib: Library): Option<Manifest>
    decreases |objects|
  {
    if objects == [] then Some(m)
    else
      var o := objects[|objects| - 1];
      match Meaning(objects[..|objects| - 1], value, m, lib)
      case None => None
      case Some(m') =>
        match lib.render(value(o))
        case None => None
        case Some(text) =>
          Some(Manifest(m'.name, m'.objects + [text], if Probed(o) > 0 then Some(value(o)) else m'.healthObj))
  }

  /** The same, entry by entry. */
  function RunEntry(e: Entry, m: Manifest, lib: Library): Option<Manifest> {
    if IsHealthName(e.name) then Some(m.(healthObj := Some(Literal(e.obj, lib))))
    else match lib.render(Literal(e.obj, lib))
      case None => None
      case Some(text) => Some(m.(objects := m.objects + [text]))
  }

  function RunEntries(es: seq<Entry>, m: Manifest, lib: Library): Option<Manifest> {
    if es == [] then Some(m)
    else match RunEntries(es[..|es| - 1], m, lib)
      case None => None
      case Some(m') => RunEntry(es[|es| - 1], m', lib)
  }

  lemma {:induction false} LookupAt(constants: seq<Constant>, i: nat)
    requires i < |constants|
    requires forall i, j :: 0 <= i < j < |constants| ==> constants[i].name != constants[j].name
    ensures Lookup(constants, constants[i].name) == ValueOr(constants[i].raw, "")
  {
    if i > 0 {
      assert constants[0].name != constants[i].name;
      LookupAt(constants[1..], i - 1);
    }
  }

  lemma EntryConstant(es: seq<Entry>, i: nat, lib: Library)
    requires DistinctNames(es) && i < |es|
    ensures Lookup(ConstantsOf(es, lib), es[i].name) == Literal(es[i].obj, lib)
  {
    var cs := ConstantsOf(es, lib);
    assert forall k :: 0 <= k < |es| ==> cs[k].name == es[k].name;
    LookupAt(cs, i);
  }

  lemma {:induction false} RunsEntryByEntry(es: seq<Entry>, k: nat, m: Manifest, lib: Library)
    requires DistinctNames(es) && k <= |es|
    ensures Run(BodyOf(es)[..k], ConstantsOf(es, lib), m, lib) == RunEntries(es[..k], m, lib)
  {
    if k > 0 {
      RunsEntryByEntry(es, k - 1, m, lib);
      TakeTake(BodyOf(es), k - 1, k);
      TakeTake(es, k - 1, k);
      EntryConstant(es, k - 1, lib);
    }
  }

  lemma {:induction false} RunEntriesAppend(a: seq<Entry>, b: seq<Entry>, m: Manifest, lib: Library)
    ensures RunEntries(a + b, m, lib) == match RunEntries(a, m, lib)
              case None => None
              case Some(m') => RunEntries(b, m', lib)
    decreases |b|
  {
    if b == [] {
      AppendNothing(a);
    } else {
      RunEntriesAppend(a, b[..|b| - 1], m, lib);
      DropLast(a, b);
    }
  }

  lemma {:induction false} RunHealthEntries(n: nat, e: Entry, m: Manifest, lib: Library)
    requires IsHealthName(e.name)
    ensures RunEntries(seq(n, _ => e), m, lib) == Some(if n > 0 then m.(healthObj := Some(Literal(e.obj, lib))) else m)
  {
    if n > 0 {
      RunHealthEntries(n - 1, e, m, lib);
      assert seq(n, _ => e)[..n - 1] == seq(n - 1, _ => e);
    }
  }

  lemma RunOneObject(o: Object, name: string, index: nat, m: Manifest, lib: Library)
    ensures RunEntries(EntriesFor(o, name, index), m, lib) == match lib.render(Literal(o, lib))
              case None => None
              case Some(text) =>
                Some(Manifest(m.name, m.objects + [text], if Probed(o) > 0 then Some(Literal(o, lib)) else m.healthObj))
  {
    var e, h := Entry(o, ObjectName(name, index)), Entry(o, HealthName(name));
    SuffixTest(name, index);
    RunEntriesAppend([e], seq(Probed(o), _ => h), m, lib);
    assert [e][..0] == [];
    if lib.render(Literal(o, lib)).Some? {
      RunHealthEntries(Probed(o), h, m.(objects := m.objects + [lib.render(Literal(o, lib)).value]), lib);
    }
  }

  lemma {:induction false} EntriesMean(objects: seq<Object>, name: string, m: Manifest, lib: Library)
    ensures RunEntries(EntriesOf(objects, name), m, lib) == Meaning(objects, Literals(lib), m, lib)
    decreases |objects|
  {
    if objects != [] {
      var n := |objects| - 1;
      var before := EntriesOf(objects[..n], name);
      EntriesMean(objects[..n], name, m, lib);
      RunEntriesAppend(before, EntriesFor(objects[n], name, |before|), m, lib);
      if RunEntries(before, m, lib).Some? {
        RunOneObject(objects[n], name, |before|, RunEntries(before, m, lib).value, lib);
      }
    }
  }

  /** Running the generated constructor does what the documents say, as far as its constants do. */
  lemma GeneratedProgramMeans(objects: seq<Object>, name: string, typeName: string, inBasePackage: bool, lib: Library)
    requires LegibleTexts(objects, lib)
    ensures var p := ProgramOf(EntriesOf(objects, name), typeName, inBasePackage, lib);
            && Legible(p.constants)
            && (Compiles(p) ==> Construct(p, lib) == Meaning(objects, Literals(lib), Manifest(typeName, [], None), lib))
  {
    var es := EntriesOf(objects, name);
    CompilesIff(objects, name, typeName, inBasePackage, lib);
    NamesDistinctIff(objects, name);
    if DistinctNames(es) {
      RunsEntryByEntry(es, |es|, Manifest(typeName, [], None), lib);
      assert BodyOf(es)[..|es|] == BodyOf(es) && es[..|es|] == es;
      EntriesMean(objects, name, Manifest(typeName, [], None), lib);
    }
  }

  /** The constants are the encodings if and only if these contain neither backticks nor carriage returns. */
  lemma ConstantsAreTextsIff(objects: seq<Object>, lib: Library)
    ensures (forall i :: 0 <= i < |objects| ==> Literal(objects[i], lib) == Text(objects[i], lib)) <==>
            BacktickFree(objects, lib) && ReturnFree(objects, lib)
  {
    forall i | 0 <= i < |objects|
      ensures Literal(objects[i], lib) == Text(objects[i], lib) <==>
              BACKTICK !in Text(objects[i], lib) && '\r' !in Text(objects[i], lib)
    {
      ValueIsTextIff(Text(objects[i], lib));
    }
  }

  lemma {:induction false} SameMeaning(objects: seq<Object>, lib: Library, m: Manifest)
    requires forall i :: 0 <= i < |objects| ==> Literal(objects[i], lib) == Text(objects[i], lib)
    ensures Meaning(objects, Literals(lib), m, lib) == Meaning(objects, Texts(lib), m, lib)
    decreases |objects|
  {
    if objects != [] {
      SameMeaning(objects[..|objects| - 1], lib, m);
    }
  }

  /**
   * If the encodings contain neither backticks nor carriage returns, running the generated
   * constructor does what the documents say, template errors included.
   */
  lemma GeneratorPreservesMeaning(objects: seq<Object>, name: string, typeName: string, inBasePackage: bool,
                                  lib: Library)
    requires BacktickFree(objects, lib) && ReturnFree(objects, lib)
    ensures var p := ProgramOf(EntriesOf(objects, name), typeName, inBasePackage, lib);
            && Legible(p.constants)
            && (Compiles(p) ==> Construct(p, lib) == Meaning(objects, Texts(lib), Manifest(typeName, [], None), lib))
  {
    BacktickFreeIsLegible(objects, lib);
    GeneratedProgramMeans(objects, name, typeName, inBasePackage, lib);
    ConstantsAreTextsIff(objects, lib);
    SameMeaning(objects, lib, Manifest(typeName, [], None));
  }

  // ---- A backtick in a document

  /** A text that a raw literal keeps as it is. */
  ghost predicate Plain(s: string) {
    BACKTICK !in s && '\r' !in s && Allowed(s)
  }

  lemma TickedAllowed(a: string, b: string)
    requires Plain(a) && Plain(b)
    ensures Allowed(Ticked(a, b)) && Ticked(a, b) != a + b
  {
  }

  lemma MeaningOfOne(objects: seq<Object>, value: Object -> string, m: Manifest, lib: Library)
    requires |objects| == 1 && lib.render(value(objects[0])).Some? && objects[0].kind.OtherKind?
    ensures Meaning(objects, value, m, lib)
         == Some(Manifest(m.name, m.objects + [lib.render(value(objects[0])).value], m.healthObj))
  {
    assert Meaning(objects[..0], value, m, lib) == Some(m);
  }

  lemma OneUnprobed(objects: seq<Object>)
    requires |objects| == 1 && objects[0].kind.OtherKind?
    ensures AtMostOneProbe(objects)
  {
  }

  lemma OneLegible(objects: seq<Object>, lib: Library)
    requires |objects| == 1 && Value(Text(objects[0], lib)).Some?
    ensures LegibleTexts(objects, lib)
  {
  }

  lemma OneAllowed(objects: seq<Object>, lib: Library)
    requires |objects| == 1 && Allowed(Text(objects[0], lib))
    ensures AllowedTexts(objects, lib)
  {
  }

  /**
   * An object that encodes to a text with "`+`" in it: the program compiles, and registers
   * what is left of the text without these three characters.
   */
  lemma BacktickChangesObject(objects: seq<Object>, a: string, b: string, name: string, typeName: string,
                              inBasePackage: bool, lib: Library)
    requires |objects| == 1 && objects[0].kind.OtherKind? && inBasePackage
    requires Plain(a) && Plain(b) && Text(objects[0], lib) == Ticked(a, b)
    requires lib.render(a + b).Some? && lib.render(Ticked(a, b)).Some?
    ensures var p := ProgramOf(EntriesOf(objects, name), typeName, inBasePackage, lib);
            && Legible(p.constants) && Compiles(p)
            && Construct(p, lib) == Some(Manifest(typeName, [lib.render(a + b).value], None))
    ensures Meaning(objects, Texts(lib), Manifest(typeName, [], None), lib)
         == Some(Manifest(typeName, [lib.render(Ticked(a, b)).value], None))
    ensures Ticked(a, b) != a + b
  {
    TickedValue(a, b);
    TickedAllowed(a, b);
    var m := Manifest(typeName, [], None);
    OneUnprobed(objects);
    OneLegible(objects, lib);
    OneAllowed(objects, lib);
    CompilesIff(objects, name, typeName, inBasePackage, lib);
    GeneratedProgramMeans(objects, name, typeName, inBasePackage, lib);
    MeaningOfOne(objects, Literals(lib), m, lib);
    MeaningOfOne(objects, Texts(lib), m, lib);
    AppendNothing([lib.render(a + b).value]);
    AppendNothing([lib.render(Ticked(a, b)).value]);
  }

  // ---- The meaning in closed form

  ghost predicate AllRender(objects: seq<Object>, value: Object -> string, lib: Library) {
    forall i :: 0 <= i < |objects| ==> lib.render(value(objects[i])).Some?
  }

  /** The renderings of the objects, in order. */
  function Rendered(objects: seq<Object>, value: Object -> string, lib: Library): seq<string>
    requires AllRender(objects, value, lib)
  {
    seq(|objects|, i requires 0 <= i < |objects| && AllRender(objects, value, lib) =>
          lib.render(value(objects[i])).value)
  }

  /** If every template parses, each registered object is the rendering of its document, in order. */
  lemma {:induction false} MeaningRenders(objects: seq<Object>, value: Object -> string, m: Manifest, lib: Library)
    ensures Meaning(objects, value, m, lib).Some? <==> AllRender(objects, value, lib)
    ensures AllRender(objects, value, lib) ==>
              var r := Meaning(objects, value, m, lib).value;
              r.name == m.name && r.objects == m.objects + Rendered(objects, value, lib)
    decreases |objects|
  {
    if objects != [] {
      var n := |objects| - 1;
      MeaningRenders(objects[..n], value, m, lib);
      RendersAppend(objects, value, lib);
      if AllRender(objects, value, lib) {
        var last := lib.render(value(objects[n])).value;
        assert Rendered(objects, value, lib) == Rendered(objects[..n], value, lib) + [last];
      }
    }
  }

  lemma RendersAppend(objects: seq<Object>, value: Object -> string, lib: Library)
    requires objects != []
    ensures var n := |objects| - 1;
            AllRender(objects, value, lib) <==>
            AllRender(objects[..n], value, lib) && lib.render(value(objects[n])).Some?
  {
    var n := |objects| - 1;
    if AllRender(objects[..n], value, lib) && lib.render(value(objects[n])).Some? {
      forall i | 0 <= i < |objects| ensures lib.render(value(objects[i])).Some? {
        if i < n {
          assert objects[..n][i] == objects[i];
        }
      }
    }
  }

  /**
   * There is a health object if and only if some container of a deployment has a liveness
   * probe; it is the unrendered text of the last such deployment.
   */
  lemma {:induction false} MeaningWatches(objects: seq<Object>, value: Object -> string, typeName: string, lib: Library)
    returns (k: nat)
    requires AllRender(objects, value, lib)
    ensures Meaning(objects, value, Manifest(typeName, [], None), lib).Some?
    ensures var healthObj := Meaning(objects, value, Manifest(typeName, [], None), lib).value.healthObj;
            && (healthObj.Some? <==> exists k :: 0 <= k < |objects| && HasProbe(objects[k]))
            && (healthObj.Some? ==>
                  && k < |objects| && HasProbe(objects[k]) && healthObj == Some(value(objects[k]))
                  && forall j :: k < j < |objects| ==> !HasProbe(objects[j]))
    decreases |objects|
  {
    k := 0;
    if objects != [] {
      var n := |objects| - 1;
      var before := objects[..n];
      RendersAppend(objects, value, lib);
      k := MeaningWatches(before, value, typeName, lib);
      ProbedIs(objects[n]);
      assert forall j :: 0 <= j < n ==> before[j] == objects[j];
      if HasProbe(objects[n]) {
        k := n;
      } else if exists j :: 0 <= j < |objects| && HasProbe(objects[j]) {
        var j :| 0 <= j < |objects| && HasProbe(objects[j]);
        assert HasProbe(before[j]);
      }
    }
  }

  // ---- The command

  /**
   * Parse the file, write the program and the main program. A program that is written from
   * legible encodings, and compiles, does what the documents say as far as its constants do;
   * without backticks and carriage returns it does what the documents say. The main program
   * asks for health checks exactly when the program registers a health object.
   */
  method Generate(source: string, name: string, inBasePackage: bool, withMain: bool, lib: Library)
    returns (ok: bool, output: Option<Program>, mainOutput: Option<MainProgram>,
             ghost docs: seq<string>, ghost objects: seq<Object>)
    ensures docs != [] && DocumentSplit.Join(docs) == source
    ensures forall k :: 0 <= k < |docs| ==> DocumentSplit.CutAtMarkers(source, docs, k)
    ensures objects == Decoded(docs, lib) && (ok <==> |objects| == |docs|)
    ensures !ok ==> output == None && mainOutput == None
    ensures ok ==> (mainOutput.Some? <==> withMain)
    ensures ok ==> (output.Some? <==> forall i :: 0 <= i < |objects| ==> lib.encode(objects[i]).Some?)
    ensures output.Some? ==> (Legible(output.value.constants) <==> LegibleTexts(objects, lib))
    ensures output.Some? && LegibleTexts(objects, lib) ==>
              && (Compiles(output.value) <==> inBasePackage && AtMostOneProbe(objects) && AllowedTexts(objects, lib))
              && (Compiles(output.value) ==>
                    Construct(output.value, lib)
                    == Meaning(objects, Literals(lib), Manifest(lib.title(name), [], None), lib))
    ensures output.Some? && BacktickFree(objects, lib) && ReturnFree(objects, lib) ==>
              && Legible(output.value.constants)
              && (Compiles(output.value) ==>
                    Construct(output.value, lib)
                    == Meaning(objects, Texts(lib), Manifest(lib.title(name), [], None), lib))
    ensures output.Some? && withMain && AllRender(objects, Literals(lib), lib) ==>
              && mainOutput.Some? && mainOutput.value.constructs == "New" + output.value.typeName
              && var m := Meaning(objects, Literals(lib), Manifest(lib.title(name), [], None), lib);
                 m.Some? && (mainOutput.value.initsHealthCheck <==> m.value.healthObj.Some?)
    ensures mainOutput.Some? ==>
              (mainOutput.value.initsHealthCheck <==> exists k :: 0 <= k < |objects| && HasProbe(objects[k]))
  {
    output, mainOutput := None, None;
    var codegen := new ManifestCodegen(name, inBasePackage);
    ok, docs := codegen.ParseFile(source, lib);
    objects := Decoded(docs, lib);
    if !ok {
      return;
    }
    assert objects != [];
    codegen.WriteFiles(lib, withMain);
    output, mainOutput := codegen.output, codegen.mainOutput;
    EncodedEntries(objects, name, lib);
    if output.Some? {
      OutputMeans(objects, name, lib.title(name), inBasePackage, lib);
      if AllRender(objects, Literals(lib), lib) {
        var _ := MeaningWatches(objects, Literals(lib), lib.title(name), lib);
      }
    }
  }

  /** What is known of a program with legible encodings, and of one that keeps them as they are. */
  lemma OutputMeans(objects: seq<Object>, name: string, typeName: string, inBasePackage: bool, lib: Library)
    requires objects != []
    ensures var p, m := ProgramOf(EntriesOf(objects, name), typeName, inBasePackage, lib), Manifest(typeName, [], None);
            && (Legible(p.constants) <==> LegibleTexts(objects, lib))
            && (LegibleTexts(objects, lib) ==>
                  && (Compiles(p) <==> inBasePackage && AtMostOneProbe(objects) && AllowedTexts(objects, lib))
                  && (Compiles(p) ==> Construct(p, lib) == Meaning(objects, Literals(lib), m, lib)))
            && (BacktickFree(objects, lib) && ReturnFree(objects, lib) ==>
                  && Legible(p.constants)
                  && (Compiles(p) ==> Construct(p, lib) == Meaning(objects, Texts(lib), m, lib)))
  {
    CompilesIff(objects, name, typeName, inBasePackage, lib);
    if LegibleTexts(objects, lib) {
      GeneratedProgramMeans(objects, name, typeName, inBasePackage, lib);
    }
    if BacktickFree(objects, lib) && ReturnFree(objects, lib) {
      GeneratorPreservesMeaning(objects, name, typeName, inBasePackage, lib);
    }
  }

  lemma EncodedEntries(objects: seq<Object>, name: string, lib: Library)
    ensures AllEncode(EntriesOf(objects, name), lib) <==>
            (forall i :: 0 <= i < |objects| ==> lib.encode(objects[i]).Some?)
  {
    var es := EntriesOf(objects, name);
    EntryObjects(objects, name);
    if AllEncode(es, lib) {
      forall k | 0 <= k < |objects| ensures lib.encode(objects[k]).Some? {
        assert objects[k] in objects;
      }
    } else {
      var i :| 0 <= i < |es| && lib.encode(es[i].obj).None?;
      assert es[i].obj in objects;
    }
  }
}
