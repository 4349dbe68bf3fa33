/**
 * The generator that turns a manifest into a Go program. The generated program is a syntax
 * tree with an interpreter; what the interpreter does is compared with what the documents say.
 */
module ManifestCodegen {
  import opened Prelude
  import opened Decimal
  import opened RawLiterals
  import DocumentSplit

  datatype Kind = AppsDeployment | ExtensionsDeployment | OtherKind

  /** A decoded document; `probes` says for each container whether it has a liveness probe. */
  datatype Object = Object(kind: Kind, probes: seq<bool>, content: string)

  /** The libraries: decoding, encoding and template rendering, each None on error. */
  datatype Library = Library(decode: string -> Option<Object>, encode: Object -> Option<string>,
                             render: string -> Option<string>, title: string -> string)

  datatype Entry = Entry(obj: Object, name: string)

  // ---- The generated program

  /** A constant with an initializer in backticks: `raw` is the text between the first and the last of them. */
  datatype Constant = Constant(name: string, raw: string)

  /** `Register` renders a constant and registers the result; `RegisterHO` registers the constant itself. */
  datatype Statement = Register(constant: string) | RegisterHO(constant: string)

  /** `inBasePackage`: is it generated into the package that declares the KubeManifest type? */
  datatype Program = Program(inBasePackage: bool, constants: seq<Constant>, typeName: string, body: seq<Statement>)

  /** The optional stand-alone program. */
  datatype MainProgram = MainProgram(constructs: string, initsHealthCheck: bool)

  /** The object that the generated constructor returns. */
  datatype Manifest = Manifest(name: string, objects: seq<string>, healthObj: Option<string>)

  ghost predicate Declared(p: Program, name: string) {
    exists i :: 0 <= i < |p.constants| && p.constants[i].name == name
  }

  /** Every initializer is a raw literal, or a chain of raw literals joined by plus signs. */
  ghost predicate Legible(constants: seq<Constant>) {
    forall i :: 0 <= i < |constants| ==> Value(constants[i].raw).Some?
  }

  /** Source files contain no NUL, and no byte order mark but at the start. */
  predicate Allowed(text: string) {
    '\0' !in text && '\U{FEFF}' !in text
  }

  /**
   * The rules of Go that legible generated code can break: the result type is written
   * without its package, no constant may be declared twice, every constant must be declared,
   * the variables of the constructor must be used, and some characters are not allowed.
   */
  ghost predicate Compiles(p: Program)
    requires Legible(p.constants)
  {
    && p.inBasePackage
    && (forall i, j :: 0 <= i < j < |p.constants| ==> p.constants[i].name != p.constants[j].name)
    && (forall i :: 0 <= i < |p.constants| ==> Allowed(p.constants[i].raw))
    && (forall i :: 0 <= i < |p.body| ==> Declared(p, p.body[i].constant))
    && (exists i :: 0 <= i < |p.body| && p.body[i].Register?)
  }

  function Lookup(constants: seq<Constant>, name: string): string {
    if constants == [] then ""
    else if constants[0].name == name then ValueOr(constants[0].raw, "")
    else Lookup(constants[1..], name)
  }

  function ValueOr(raw: string, default: string): string {
    match Value(raw)
    case None => default
    case Some(v) => v
  }

  /** One statement of the constructor; None when a template does not parse. */
  function Perform(s: Statement, constants: seq<Constant>, m: Manifest, lib: Library): Option<Manifest> {
    var value := Lookup(constants, s.constant);
    match s
    case Register(_) =>
      (match lib.render(value)
       case None => None
       case Some(text) => Some(m.(objects := m.objects + [text])))
    case RegisterHO(_) => Some(m.(healthObj := Some(value)))
  }

  function Run(body: seq<Statement>, constants: seq<Constant>, m: Manifest, lib: Library): Option<Manifest> {
    if body == [] then Some(m)
    else match Run(body[..|body| - 1], constants, m, lib)
      case None => None
      case Some(m') => Perform(body[|body| - 1], constants, m', lib)
  }

  function Construct(p: Program, lib: Library): Option<Manifest>
    requires Legible(p.constants)
  {
    Run(p.body, p.constants, Manifest(p.typeName, [], None), lib)
  }

  // ---- The generator

  function ObjectName(name: string, index: nat): string {
    "kobjS" + name + "O" + Itoa(index)
  }

  function HealthName(name: string): string {
    "kobjS" + name + "HO"
  }

  predicate IsHealthName(s: string) {
    |s| >= 2 && s[|s| - 2..] == "HO"
  }

  /** Probed containers of a deployment; other objects have none. */
  function Probed(o: Object): nat {
    if o.kind.OtherKind? then 0 else CountTrue(o.probes)
  }

  function CountTrue(s: seq<bool>): nat {
    if s == [] then 0 else CountTrue(s[..|s| - 1]) + if s[|s| - 1] then 1 else 0
  }

  /** A deployment of either kind, one of whose containers has a liveness probe. */
  ghost predicate HasProbe(o: Object) {
    (o.kind.AppsDeployment? || o.kind.ExtensionsDeployment?) && exists i :: 0 <= i < |o.probes| && o.probes[i]
  }

  /** The positions of the containers with a probe. */
  function ProbePositions(probes: seq<bool>): set<nat> {
    set i: nat | i < |probes| && probes[i]
  }

  lemma {:induction false} CountTrueIs(probes: seq<bool>)
    ensures CountTrue(probes) == |ProbePositions(probes)|
    ensures CountTrue(probes) > 0 <==> exists i :: 0 <= i < |probes| && probes[i]
    decreases |probes|
  {
    if probes == [] {
      assert ProbePositions(probes) == {};
    } else {
      var n := |probes| - 1;
      var before := probes[..n];
      CountTrueIs(before);
      assert forall i :: 0 <= i < n ==> before[i] == probes[i];
      assert ProbePositions(probes) == ProbePositions(before) + if probes[n] then {n} else {};
      if CountTrue(before) > 0 {
        var i :| 0 <= i < n && before[i];
        assert probes[i];
      }
    }
  }

  /** What is counted: the containers with a probe of a deployment of either kind. */
  lemma ProbedIs(o: Object)
    ensures Probed(o) == if o.kind.AppsDeployment? || o.kind.ExtensionsDeployment? then |ProbePositions(o.probes)|
                         else 0
    ensures Probed(o) > 0 <==> HasProbe(o)
  {
    CountTrueIs(o.probes);
  }

  lemma {:induction false} ProbedInIs(objects: seq<Object>)
    ensures ProbedIn(objects) > 0 <==> exists k :: 0 <= k < |objects| && HasProbe(objects[k])
    decreases |objects|
  {
    if objects != [] {
      var n := |objects| - 1;
      var before := objects[..n];
      ProbedInIs(before);
      ProbedIs(objects[n]);
      if ProbedIn(before) > 0 {
        var k :| 0 <= k < n && HasProbe(before[k]);
        assert HasProbe(objects[k]);
      }
      if exists k :: 0 <= k < |objects| && HasProbe(objects[k]) {
        var k :| 0 <= k < |objects| && HasProbe(objects[k]);
        assert k < n ==> HasProbe(before[k]);
      }
    }
  }

  /** Container `i` of object `k` has a liveness probe. */
  ghost predicate ProbeAt(objects: seq<Object>, k: nat, i: nat) {
    && k < |objects| && i < |objects[k].probes| && objects[k].probes[i]
    && (objects[k].kind.AppsDeployment? || objects[k].kind.ExtensionsDeployment?)
  }

  /** No two containers do. */
  ghost predicate AtMostOneProbe(objects: seq<Object>) {
    forall k: nat, i: nat, k': nat, i': nat :: ProbeAt(objects, k, i) && ProbeAt(objects, k', i') ==> k == k' && i == i'
  }

  function ProbesOf(o: Object): set<nat> {
    if o.kind.OtherKind? then {} else ProbePositions(o.probes)
  }

  /** All such containers, by object and position. */
  function Probes(objects: seq<Object>): set<(nat, nat)> {
    set k: nat, i: nat | k < |objects| && i in ProbesOf(objects[k]) :: (k, i)
  }

  function Pairs(k: nat, s: set<nat>): set<(nat, nat)> {
    set i | i in s :: (k, i)
  }

  lemma {:induction false} PairCount(k: nat, s: set<nat>)
    ensures |Pairs(k, s)| == |s|
  {
    if s == {} {
      assert Pairs(k, s) == {};
    } else {
      var x :| x in s;
      PairCount(k, s - {x});
      assert Pairs(k, s) == Pairs(k, s - {x}) + {(k, x)};
      assert (k, x) !in Pairs(k, s - {x});
    }
  }

  lemma ProbesNext(objects: seq<Object>)
    requires objects != []
    ensures var n := |objects| - 1;
            |Probes(objects)| == |Probes(objects[..n])| + |ProbesOf(objects[n])|
  {
    var n := |objects| - 1;
    var before, last := Probes(objects[..n]), Pairs(n, ProbesOf(objects[n]));
    assert Probes(objects) == before + last;
    assert before !! last;
    PairCount(n, ProbesOf(objects[n]));
  }

  /** ProbedIn counts them. */
  lemma {:induction false} ProbedInCounts(objects: seq<Object>)
    ensures ProbedIn(objects) == |Probes(objects)|
    decreases |objects|
  {
    if objects == [] {
      assert Probes(objects) == {};
    } else {
      ProbedInCounts(objects[..|objects| - 1]);
      ProbesNext(objects);
      ProbedIs(objects[|objects| - 1]);
    }
  }

  lemma AtMostOneElement<T>(s: set<T>)
    ensures |s| <= 1 <==> forall x, y :: x in s && y in s ==> x == y
  {
    if s != {} {
      var x :| x in s;
      assert |s| == |s - {x}| + 1;
      if s - {x} != {} {
        var y :| y in s - {x};
        assert |s - {x}| == |s - {x} - {y}| + 1;
      }
    }
  }

  lemma AtMostOneProbeIs(objects: seq<Object>)
    ensures ProbedIn(objects) <= 1 <==> AtMostOneProbe(objects)
  {
    var s := Probes(objects);
    ProbedInCounts(objects);
    AtMostOneElement(s);
    assert forall k: nat, i: nat :: ProbeAt(objects, k, i) <==> (k, i) in s;
    if AtMostOneProbe(objects) {
      forall x, y | x in s && y in s ensures x == y {
        assert ProbeAt(objects, x.0, x.1) && ProbeAt(objects, y.0, y.1);
      }
    }
    if forall x, y :: x in s && y in s ==> x == y {
      forall k: nat, i: nat, k': nat, i': nat | ProbeAt(objects, k, i) && ProbeAt(objects, k', i')
        ensures k == k' && i == i'
      {
        assert (k, i) in s && (k', i') in s;
      }
    }
  }

  /** The entries for one object, when `index` entries exist already. */
  function EntriesFor(o: Object, name: string, index: nat): seq<Entry> {
    [Entry(o, ObjectName(name, index))] + seq(Probed(o), _ => Entry(o, HealthName(name)))
  }

  function EntriesOf(objects: seq<Object>, name: string): seq<Entry> {
    EntriesAfter([], objects, name)
  }

  /** The same, behind entries that exist already. */
  function EntriesAfter(entries: seq<Entry>, objects: seq<Object>, name: string): seq<Entry>
    decreases |objects|
  {
    if objects == [] then entries
    else
      var before := EntriesAfter(entries, objects[..|objects| - 1], name);
      before + EntriesFor(objects[|objects| - 1], name, |before|)
  }

  /** Probed containers in all objects. */
  function ProbedIn(objects: seq<Object>): nat {
    if objects == [] then 0 else ProbedIn(objects[..|objects| - 1]) + Probed(objects[|objects| - 1])
  }

  /** The encoding without the newline that ends it. */
  function Trim(s: string): string {
    if s != "" && s[|s| - 1] == '\n' then s[..|s| - 1] else s
  }

  function Text(o: Object, lib: Library): string {
    match lib.encode(o)
    case None => ""
    case Some(s) => Trim(s)
  }

  /** The literal is the encoding less one newline at its end, if it has one. */
  lemma TextIs(o: Object, lib: Library)
    requires lib.encode(o).Some?
    ensures var encoded := lib.encode(o).value;
            if encoded != "" && encoded[|encoded| - 1] == '\n' then Text(o, lib) + "\n" == encoded
            else Text(o, lib) == encoded
  {
  }

  function ConstantsOf(entries: seq<Entry>, lib: Library): seq<Constant> {
    seq(|entries|, i requires 0 <= i < |entries| => Constant(entries[i].name, Text(entries[i].obj, lib)))
  }

  function StatementOf(e: Entry): Statement {
    if IsHealthName(e.name) then RegisterHO(e.name) else Register(e.name)
  }

  function BodyOf(entries: seq<Entry>): seq<Statement> {
    seq(|entries|, i requires 0 <= i < |entries| => StatementOf(entries[i]))
  }

  function ProgramOf(entries: seq<Entry>, typeName: string, inBasePackage: bool, lib: Library): Program {
    Program(inBasePackage, ConstantsOf(entries, lib), typeName, BodyOf(entries))
  }

  /** The objects of the leading documents that decode. */
  function Decoded(docs: seq<string>, lib: Library): (objects: seq<Object>)
    ensures |objects| <= |docs|
    ensures forall k :: 0 <= k < |objects| ==> lib.decode(docs[k]) == Some(objects[k])
    ensures |objects| < |docs| ==> lib.decode(docs[|objects|]).None?
  {
    if docs == [] then []
    else match lib.decode(docs[0])
      case None => []
      case Some(o) => [o] + Decoded(docs[1..], lib)
  }

  lemma {:induction false} DecodedNext(docs: seq<string>, k: nat, lib: Library)
    requires k < |docs| && |Decoded(docs[..k], lib)| == k
    ensures match lib.decode(docs[k])
            case None => Decoded(docs, lib) == Decoded(docs[..k], lib)
            case Some(o) => Decoded(docs[..k + 1], lib) == Decoded(docs[..k], lib) + [o]
    decreases k
  {
    if k > 0 {
      assert docs[..k][1..] == docs[1..][..k - 1];
      assert docs[..k + 1][1..] == docs[1..][..k];
      DecodedNext(docs[1..], k - 1, lib);
    }
  }

  ghost predicate AllEncode(entries: seq<Entry>, lib: Library) {
    forall i :: 0 <= i < |entries| ==> lib.encode(entries[i].obj).Some?
  }

  lemma BodyNext(entries: seq<Entry>, i: nat)
    requires i < |entries|
    ensures BodyOf(entries[..i + 1]) == BodyOf(entries[..i]) + [StatementOf(entries[i])]
  {
  }

  lemma ConstantsNext(entries: seq<Entry>, i: nat, lib: Library)
    requires i < |entries|
    ensures ConstantsOf(entries[..i + 1], lib)
         == ConstantsOf(entries[..i], lib) + [Constant(entries[i].name, Text(entries[i].obj, lib))]
  {
  }

  class ManifestCodegen {
    var entries: seq<Entry>
    var hasHealthCheck: bool
    var name: string
    const inBasePackage: bool
    var output: Option<Program>        // None: an empty file
    var mainOutput: Option<MainProgram>

    constructor (name: string, inBasePackage: bool)
      ensures entries == [] && !hasHealthCheck && this.name == name && this.inBasePackage == inBasePackage
      ensures output == None && mainOutput == None
    {
      this.entries, this.hasHealthCheck, this.name, this.inBasePackage := [], false, name, inBasePackage;
      this.output, this.mainOutput := None, None;
    }

    method ParseDoc(doc: string, lib: Library) returns (ok: bool)
      modifies this`entries, this`hasHealthCheck
      ensures ok <==> lib.decode(doc).Some?
      ensures !ok ==> entries == old(entries) && hasHealthCheck == old(hasHealthCheck)
      ensures ok ==> var o := lib.decode(doc).value;
                     && entries == old(entries) + EntriesFor(o, name, old(|entries|))
                     && entries[old(|entries|)] == Entry(o, "kobjS" + name + "O" + Itoa(old(|entries|)))
                     && |entries| == old(|entries|) + 1 + (if o.kind.OtherKind? then 0 else |ProbePositions(o.probes)|)
                     && (forall i :: old(|entries|) < i < |entries| ==> entries[i] == Entry(o, "kobjS" + name + "HO"))
                     && hasHealthCheck == (old(hasHealthCheck) || HasProbe(o))
    {
      var decoded := lib.decode(doc);
      if decoded.None? {
        return false;
      }
      var o := decoded.value;
      entries := entries + [Entry(o, ObjectName(name, |entries|))];
      var healthObj := Entry(o, HealthName(name));
      if !o.kind.OtherKind? {
        ghost var before := entries;
        ghost var had := hasHealthCheck;
        for i := 0 to |o.probes|
          invariant entries == before + seq(CountTrue(o.probes[..i]), _ => healthObj)
          invariant hasHealthCheck == (had || CountTrue(o.probes[..i]) > 0)
        {
          assert o.probes[..i + 1][..i] == o.probes[..i];
          if o.probes[i] {
            entries := entries + [healthObj];
            hasHealthCheck := true;
          }
        }
        assert o.probes[..|o.probes|] == o.probes;
      }
      ProbedIs(o);
      ok := true;
    }

    /** Entries for every document in source order, up to the first that does not decode, behind those there are. */
    method ParseFile(source: string, lib: Library) returns (ok: bool, ghost docs: seq<string>)
      modifies this`entries, this`hasHealthCheck
      ensures docs != [] && DocumentSplit.Join(docs) == source
      ensures forall k :: 0 <= k < |docs| ==> DocumentSplit.CutAtMarkers(source, docs, k)
      ensures ok <==> |Decoded(docs, lib)| == |docs|
      ensures entries == EntriesAfter(old(entries), Decoded(docs, lib), name)
      ensures hasHealthCheck <==>
              old(hasHealthCheck)
              || exists k :: 0 <= k < |Decoded(docs, lib)| && HasProbe(Decoded(docs, lib)[k])
    {
      var parts := DocumentSplit.Split(source);
      docs := parts;
      ok := ParseDocs(parts, lib);
      ProbedInIs(Decoded(parts, lib));
    }

    /** The loop over the documents. */
    method ParseDocs(parts: seq<string>, lib: Library) returns (ok: bool)
      modifies this`entries, this`hasHealthCheck
      ensures ok <==> |Decoded(parts, lib)| == |parts|
      ensures entries == EntriesAfter(old(entries), Decoded(parts, lib), name)
      ensures hasHealthCheck <==> old(hasHealthCheck) || ProbedIn(Decoded(parts, lib)) > 0
    {
      ok := true;
      for k := 0 to |parts|
        invariant ok && |Decoded(parts[..k], lib)| == k
        invariant entries == EntriesAfter(old(entries), Decoded(parts[..k], lib), name)
        invariant hasHealthCheck <==> old(hasHealthCheck) || ProbedIn(Decoded(parts[..k], lib)) > 0
      {
        DecodedNext(parts, k, lib);
        ok := ParseDoc(parts[k], lib);
        if !ok {
          return;
        }
        ProbedIs(lib.decode(parts[k]).value);
        EntriesAppend(old(entries), Decoded(parts[..k], lib), lib.decode(parts[k]).value, name);
      }
      assert parts[..|parts|] == parts;
    }

    /** Nothing is written, and no error reported, when some object does not encode. */
    method WriteFile(lib: Library)
      modifies this`name, this`output
      ensures var ok := AllEncode(entries, lib);
              && name == (if ok then lib.title(old(name)) else old(name))
              && output == if ok then Some(ProgramOf(entries, name, inBasePackage, lib)) else None
    {
      output := None;
      var constants: seq<Constant> := [];
      for i := 0 to |entries|
        invariant constants == ConstantsOf(entries[..i], lib)
        invariant AllEncode(entries[..i], lib) && name == old(name) && output == None
      {
        var encoded := lib.encode(entries[i].obj);
        if encoded.None? {
          assert !AllEncode(entries, lib);
          return;
        }
        ConstantsNext(entries, i, lib);
        constants := constants + [Constant(entries[i].name, Trim(encoded.value))];
      }
      assert entries[..|entries|] == entries;
      var title := lib.title(name);
      var body: seq<Statement> := [];
      for i := 0 to |entries|
        invariant body == BodyOf(entries[..i])
      {
        BodyNext(entries, i);
        if !IsHealthName(entries[i].name) {
          body := body + [Register(entries[i].name)];
        } else {
          body := body + [RegisterHO(entries[i].name)];
        }
      }
      name := title;
      output := Some(Program(inBasePackage, constants, name, body));
    }

    /** The main program constructs the type just generated, and checks health if there is a health object. */
    method WriteFiles(lib: Library, withMain: bool)
      modifies this`name, this`output, this`mainOutput
      ensures output.Some? ==> output.value == ProgramOf(entries, lib.title(old(name)), inBasePackage, lib)
      ensures output.Some? <==> AllEncode(entries, lib)
      ensures withMain ==> mainOutput == Some(MainProgram("New" + name, hasHealthCheck))
      ensures withMain && output.Some? ==> mainOutput.value.constructs == "New" + output.value.typeName
      ensures !withMain ==> mainOutput == old(mainOutput)
    {
      WriteFile(lib);
      if withMain {
        mainOutput := Some(MainProgram("New" + name, hasHealthCheck));
      }
    }
  }

  lemma EntriesAppend(entries: seq<Entry>, objects: seq<Object>, o: Object, name: string)
    ensures var before := EntriesAfter(entries, objects, name);
            EntriesAfter(entries, objects + [o], name) == before + EntriesFor(o, name, |before|)
    ensures ProbedIn(objects + [o]) == ProbedIn(objects) + Probed(o)
  {
    assert (objects + [o])[..|objects|] == objects;
  }
}
