/** The state document: what Build assembles from one apply and the document before it, and what a run of applies
    leaves recorded when an unchanged document is not written again. */
module StateFile {
  import opened Wrappers
  import opened StringOrder
  import opened History

  /** A unit of the manifest, with its evaluated data. */
  datatype Unit = Unit(kind: string, stem: string, filename: string, service: string, data: string)

  datatype Quadlet = Quadlet(appliedAt: int, units: seq<Unit>, files: seq<File>)

  datatype State = State(version: int, creiVersion: string, quadlets: map<string, Quadlet>)

  const VERSION: int := 1

  type Files = map<string, FileInput>

  /** One apply: the time, the version of crei, the quadlets with their units, and the rendered files of each. */
  datatype Inputs = Inputs(now: int, creiVersion: string, quads: seq<(string, seq<Unit>)>, files: map<string, Files>)

  /** The files of a quadlet by path; of two with one path the later wins. */
  function ByPath(files: seq<File>): map<string, File> {
    if files == [] then map[]
    else ByPath(files[..|files| - 1])[files[|files| - 1].path := files[|files| - 1]]
  }

  /** The manifest by quadlet; of two with one name the later wins. */
  function Manifest(quads: seq<(string, seq<Unit>)>): map<string, seq<Unit>> {
    if quads == [] then map[]
    else Manifest(quads[..|quads| - 1])[quads[|quads| - 1].0 := quads[|quads| - 1].1]
  }

  /** The pair at i is the last one of its name. */
  ghost predicate LastOf(quads: seq<(string, seq<Unit>)>, i: nat)
    requires i < |quads|
  {
    forall j :: i < j < |quads| ==> quads[j].0 != quads[i].0
  }

  /** The manifest has the quadlets that are named, each with the units of its last pair. */
  lemma {:induction false} ManifestIs(quads: seq<(string, seq<Unit>)>)
    ensures forall q :: q in Manifest(quads) <==> exists i :: 0 <= i < |quads| && quads[i].0 == q
    ensures forall i :: 0 <= i < |quads| && LastOf(quads, i) ==> Manifest(quads)[quads[i].0] == quads[i].1
  {
    if quads != [] {
      var m := |quads| - 1;
      ManifestIs(quads[..m]);
      forall q ensures q in Manifest(quads) <==> exists i :: 0 <= i < |quads| && quads[i].0 == q {
        assert q in Manifest(quads[..m]) <==> exists i :: 0 <= i < m && quads[..m][i].0 == q;
        assert forall i :: 0 <= i < m ==> quads[..m][i] == quads[i];
        if q == quads[m].0 {
          assert quads[m].0 == q;
        }
      }
      forall i | 0 <= i < |quads| && LastOf(quads, i) ensures Manifest(quads)[quads[i].0] == quads[i].1 {
        if i < m {
          assert LastOf(quads[..m], i) && quads[..m][i] == quads[i];
        }
      }
    }
  }

  function Lookup<V>(m: map<string, V>, k: string): Option<V> {
    if k in m then Some(m[k]) else None
  }

  /** The files recorded for quadlet q in the previous state. */
  function PrevFiles(prev: Option<State>, q: string): map<string, File> {
    if prev.Some? && q in prev.value.quadlets then ByPath(prev.value.quadlets[q].files) else map[]
  }

  function FilesOf(inp: Inputs, q: string): Files {
    if q in inp.files then inp.files[q] else map[]
  }

  /** Files are in strictly increasing order of their paths, and have exactly the paths of the input. */
  ghost predicate InOrder(files: seq<File>, input: Files) {
    && (forall p :: p in input ==> exists i :: 0 <= i < |files| && files[i].path == p)
    && (forall i :: 0 <= i < |files| ==> files[i].path in input)
    && (forall i, j :: 0 <= i < j < |files| ==> files[i].path != files[j].path && Le(files[i].path, files[j].path))
  }

  /** files holds the next record of each input file, in order, and nothing else. */
  ghost predicate Recorded(files: seq<File>, now: int, prevFiles: map<string, File>, input: Files) {
    && InOrder(files, input)
    && (forall i :: 0 <= i < |files| ==>
          var p := files[i].path; files[i] == NextRecord(now, p, input[p], Lookup(prevFiles, p)))
  }

  ghost predicate QuadletBuilt(rec: Quadlet, prev: Option<State>, inp: Inputs, q: string, units: seq<Unit>) {
    && rec.appliedAt == inp.now && rec.units == units
    && Recorded(rec.files, inp.now, PrevFiles(prev, q), FilesOf(inp, q))
  }

  /** s is what Build makes of the previous state. */
  ghost predicate IsBuilt(s: State, prev: Option<State>, inp: Inputs) {
    && s.version == VERSION && s.creiVersion == inp.creiVersion
    && s.quadlets.Keys == Manifest(inp.quads).Keys
    && forall q :: q in s.quadlets ==> QuadletBuilt(s.quadlets[q], prev, inp, q, Manifest(inp.quads)[q])
  }

  /** The record of one file, field by field as Build fills it in. */
  method BuildFile(now: int, p: string, input: FileInput, prevFiles: map<string, File>) returns (f: File)
    ensures f == NextRecord(now, p, input, Lookup(prevFiles, p))
  {
    f := File(p, HashBytes(input.content), input.mode, now, "", []);
    if '/' !in p {
      f := f.(content := input.content);
    }
    if p in prevFiles {
      var pf := prevFiles[p];
      if pf.sha == f.sha {
        f := f.(appliedAt := pf.appliedAt, history := pf.history);
      } else {
        f := f.(history := pf.history);
        if pf.content != "" {
          f := f.(history := pf.history + [Revision(pf.sha, pf.appliedAt, pf.content)]);
        }
        if |f.history| > CAP {
          f := f.(history := f.history[|f.history| - CAP..]);
        }
      }
    }
  }

  method BuildFiles(now: int, prevFiles: map<string, File>, input: Files) returns (files: seq<File>)
    ensures Recorded(files, now, prevFiles, input)
  {
    hide NextRecord, Recorded;
    var paths := SortedNames(input.Keys);
    files := [];
    for i := 0 to |paths|
      invariant |files| == i
      invariant forall j :: 0 <= j < i ==> paths[j] in input
      invariant forall j :: 0 <= j < i ==>
          files[j] == NextRecord(now, paths[j], input[paths[j]], Lookup(prevFiles, paths[j]))
    {
      assert paths[i] in paths;
      var f := BuildFile(now, paths[i], input[paths[i]], prevFiles);
      files := files + [f];
    }
    RecordedHolds(now, prevFiles, input, paths, files);
  }

  lemma RecordedHolds(now: int, prevFiles: map<string, File>, input: Files, paths: seq<string>, files: seq<File>)
    requires |files| == |paths| && forall p :: p in paths <==> p in input
    requires StrictlySorted(paths, Le)
    requires forall j :: 0 <= j < |paths| ==> paths[j] in input
    requires forall j :: 0 <= j < |paths| ==>
        files[j] == NextRecord(now, paths[j], input[paths[j]], Lookup(prevFiles, paths[j]))
    ensures Recorded(files, now, prevFiles, input)
  {
    forall i | 0 <= i < |files| ensures files[i].path == paths[i] {
    }
    hide NextRecord;
    forall p | p in input ensures exists i :: 0 <= i < |files| && files[i].path == p {
      var i :| 0 <= i < |paths| && paths[i] == p;
      assert files[i].path == p;
    }
  }

  /** The record of a rendered file: digest, mode, and the content if it is a unit file. */
  ghost predicate Reflects(f: File, p: string, input: FileInput) {
    && f.path == p && f.sha == HashBytes(input.content) && f.mode == input.mode
    && f.content == if '/' in p then "" else input.content
  }

  /** The quadlet has the units given, the time of the apply, and one record for each rendered file, no other. */
  ghost predicate Reported(rec: Quadlet, inp: Inputs, q: string, units: seq<Unit>) {
    && rec.appliedAt == inp.now && rec.units == units
    && (forall f :: f in rec.files ==>
          q in inp.files && f.path in inp.files[q] && Reflects(f, f.path, inp.files[q][f.path]))
    && (q in inp.files ==> forall p :: p in inp.files[q] ==> exists f :: f in rec.files && f.path == p)
  }

  /** What the document says of the apply, whatever came before. */
  ghost predicate Assembled(s: State, inp: Inputs) {
    && s.version == 1 && s.creiVersion == inp.creiVersion
    && (forall q :: q in s.quadlets <==> exists i :: 0 <= i < |inp.quads| && inp.quads[i].0 == q)
    && (forall i :: 0 <= i < |inp.quads| && LastOf(inp.quads, i) ==>
          inp.quads[i].0 in s.quadlets
          && Reported(s.quadlets[inp.quads[i].0], inp, inp.quads[i].0, inp.quads[i].1))
  }

  lemma ReportedIf(rec: Quadlet, prev: Option<State>, inp: Inputs, q: string, units: seq<Unit>)
    requires QuadletBuilt(rec, prev, inp, q, units)
    ensures Reported(rec, inp, q, units)
  {
    hide Lookup, PrevFiles, Le;
    var input := FilesOf(inp, q);
    forall f | f in rec.files ensures f.path in input && Reflects(f, f.path, input[f.path]) {
      var i :| 0 <= i < |rec.files| && rec.files[i] == f;
    }
    forall p | p in input ensures exists f :: f in rec.files && f.path == p {
      var i :| 0 <= i < |rec.files| && rec.files[i].path == p;
      assert rec.files[i] in rec.files;
    }
  }

  lemma BuiltAssembled(s: State, prev: Option<State>, inp: Inputs)
    requires IsBuilt(s, prev, inp)
    ensures Assembled(s, inp)
  {
    ManifestIs(inp.quads);
    hide Manifest, QuadletBuilt, Reported, LastOf;
    forall i | 0 <= i < |inp.quads| && LastOf(inp.quads, i)
      ensures inp.quads[i].0 in s.quadlets
      ensures Reported(s.quadlets[inp.quads[i].0], inp, inp.quads[i].0, inp.quads[i].1)
    {
      ReportedIf(s.quadlets[inp.quads[i].0], prev, inp, inp.quads[i].0, inp.quads[i].1);
    }
  }

  /** Build */
  method Build(prev: Option<State>, inp: Inputs) returns (s: State)
    ensures IsBuilt(s, prev, inp) && Assembled(s, inp)
  {
    hide Recorded, Assembled;
    s := State(VERSION, inp.creiVersion, map[]);
    for i := 0 to |inp.quads|
      invariant s.version == VERSION && s.creiVersion == inp.creiVersion
      invariant s.quadlets.Keys == Manifest(inp.quads[..i]).Keys
      invariant forall q :: q in s.quadlets ==> QuadletBuilt(s.quadlets[q], prev, inp, q, Manifest(inp.quads[..i])[q])
    {
      var (q, units) := inp.quads[i];
      assert inp.quads[..i + 1][..i] == inp.quads[..i];
      var rec := Quadlet(inp.now, [], []);
      for j := 0 to |units|
        invariant rec == Quadlet(inp.now, units[..j], [])
      {
        rec := rec.(units := rec.units + [units[j]]);
      }
      assert units[..|units|] == units;
      var prevFiles: map<string, File> := map[];
      if prev.Some? && q in prev.value.quadlets {
        prevFiles := CollectByPath(prev.value.quadlets[q].files);
      }
      var files := BuildFiles(inp.now, prevFiles, FilesOf(inp, q));
      s := s.(quadlets := s.quadlets[q := rec.(files := files)]);
    }
    assert inp.quads[..|inp.quads|] == inp.quads;
    BuiltAssembled(s, prev, inp);
  }

  method CollectByPath(files: seq<File>) returns (m: map<string, File>)
    ensures m == ByPath(files)
  {
    m := map[];
    for i := 0 to |files|
      invariant m == ByPath(files[..i])
    {
      assert files[..i + 1][..i] == files[..i];
      m := m[files[i].path := files[i]];
    }
    assert files[..|files|] == files;
  }

  lemma {:induction false} ByPathFinds(files: seq<File>, i: nat)
    requires i < |files| && forall j, k :: 0 <= j < k < |files| ==> files[j].path != files[k].path
    ensures files[i].path in ByPath(files) && ByPath(files)[files[i].path] == files[i]
  {
    if i < |files| - 1 {
      ByPathFinds(files[..|files| - 1], i);
    }
  }

  // ---------- when the document is not written again

  function Timeless(f: File): File {
    f.(appliedAt := 0)
  }

  function TimelessAll(files: seq<File>): seq<File> {
    seq(|files|, i requires 0 <= i < |files| => Timeless(files[i]))
  }

  /** normalized: the document without the crei version, the times of applies and of last changes. */
  function Normalized(s: State): (int, map<string, (seq<Unit>, seq<File>)>) {
    (s.version, map q | q in s.quadlets :: (s.quadlets[q].units, TimelessAll(s.quadlets[q].files)))
  }

  /** Equal, with None for no document. */
  predicate Equal(a: Option<State>, b: State) {
    a.Some? && Normalized(a.value) == Normalized(b)
  }

  /** What is recorded after an apply that built next: the document before it, if that is equal. */
  function Kept(prev: Option<State>, next: State): State {
    if Equal(prev, next) then prev.value else next
  }

  /** The record is of a file with this input, whenever it was last changed. */
  ghost predicate RecordOf(f: File, input: FileInput) {
    && f.sha == HashBytes(input.content) && f.mode == input.mode
    && f.content == if '/' in f.path then "" else input.content
  }

  /** The files are those of the input. */
  ghost predicate FilesMatch(files: seq<File>, input: Files) {
    InOrder(files, input) && forall i :: 0 <= i < |files| ==> RecordOf(files[i], input[files[i].path])
  }

  /** The document describes the apply: its manifest, its files and nothing else. */
  ghost predicate Describes(s: State, inp: Inputs) {
    && s.version == VERSION && s.quadlets.Keys == Manifest(inp.quads).Keys
    && forall q :: q in s.quadlets ==>
         s.quadlets[q].units == Manifest(inp.quads)[q] && FilesMatch(s.quadlets[q].files, FilesOf(inp, q))
  }

  lemma BuiltDescribes(s: State, prev: Option<State>, inp: Inputs)
    requires IsBuilt(s, prev, inp)
    ensures Describes(s, inp)
  {
    hide InOrder;
  }

  lemma Paths(files: seq<File>, input: Files) returns (paths: seq<string>)
    requires InOrder(files, input)
    ensures |paths| == |files| && forall i :: 0 <= i < |files| ==> paths[i] == files[i].path
    ensures StrictlySorted(paths, Le) && forall p :: p in paths <==> p in input
  {
    paths := seq(|files|, i requires 0 <= i < |files| => files[i].path);
    forall p | p in input ensures p in paths {
      var i :| 0 <= i < |files| && files[i].path == p;
      assert paths[i] == p;
    }
  }

  /** Records in order of the same input have the same paths. */
  lemma SamePaths(a: seq<File>, b: seq<File>, input: Files)
    requires InOrder(a, input) && InOrder(b, input)
    ensures |a| == |b| && forall i :: 0 <= i < |a| ==> a[i].path == b[i].path
  {
    var ps := Paths(a, input);
    var qs := Paths(b, input);
    hide InOrder;
    NamesUnique(ps, qs);
  }

  lemma SameRecords(now: int, a: seq<File>, b: seq<File>, input: Files)
    requires FilesMatch(a, input) && Recorded(b, now, ByPath(a), input)
    ensures a == b
  {
    SamePaths(a, b, input);
    forall i | 0 <= i < |a| ensures a[i] == b[i] {
      ByPathFinds(a, i);
    }
  }

  lemma TimelessAt(a: seq<File>, b: seq<File>, i: nat)
    requires TimelessAll(a) == TimelessAll(b)
    ensures |a| == |b|
    ensures i < |a| ==> a[i].path == b[i].path && a[i].sha == b[i].sha && a[i].mode == b[i].mode
                        && a[i].content == b[i].content
  {
    assert |TimelessAll(a)| == |TimelessAll(b)|;
    if i < |a| {
      assert Timeless(a[i]) == TimelessAll(a)[i] == TimelessAll(b)[i] == Timeless(b[i]);
    }
  }

  lemma SameOrder(a: seq<File>, b: seq<File>, input: Files)
    requires |a| == |b| && (forall i :: 0 <= i < |a| ==> a[i].path == b[i].path) && InOrder(b, input)
    ensures InOrder(a, input)
  {
    hide Le;
    forall p | p in input ensures exists i :: 0 <= i < |a| && a[i].path == p {
      var i :| 0 <= i < |b| && b[i].path == p;
      assert a[i].path == p;
    }
  }

  /** Files equal up to times match the same input. */
  lemma TimelessMatch(a: seq<File>, b: seq<File>, input: Files)
    requires TimelessAll(a) == TimelessAll(b) && FilesMatch(b, input)
    ensures FilesMatch(a, input)
  {
    hide TimelessAll, Le;
    TimelessAt(a, b, 0);
    forall i | 0 <= i < |a| ensures a[i].path == b[i].path && RecordOf(a[i], input[a[i].path]) {
      TimelessAt(a, b, i);
    }
    hide RecordOf;
    SameOrder(a, b, input);
  }

  /** A document that describes the apply comes out of Build as it was, quadlet times apart. */
  lemma DescribedStays(prev: State, next: State, inp: Inputs, q: string)
    requires Describes(prev, inp) && IsBuilt(next, Some(prev), inp) && q in next.quadlets
    ensures q in prev.quadlets && prev.quadlets[q].units == next.quadlets[q].units
    ensures prev.quadlets[q].files == next.quadlets[q].files
  {
    hide FilesMatch, Recorded;
    SameRecords(inp.now, prev.quadlets[q].files, next.quadlets[q].files, FilesOf(inp, q));
  }

  lemma EqualDescribes(prev: State, next: State, inp: Inputs)
    requires Normalized(prev) == Normalized(next) && Describes(next, inp)
    ensures Describes(prev, inp)
  {
    var a, b := Normalized(prev).1, Normalized(next).1;
    assert a.Keys == prev.quadlets.Keys && b.Keys == next.quadlets.Keys;
    hide FilesMatch, TimelessAll;
    forall q | q in prev.quadlets
      ensures prev.quadlets[q].units == Manifest(inp.quads)[q]
      ensures FilesMatch(prev.quadlets[q].files, FilesOf(inp, q))
    {
      assert a[q] == b[q];
      TimelessMatch(prev.quadlets[q].files, next.quadlets[q].files, FilesOf(inp, q));
    }
  }

  /** The document is not written again exactly when it describes the apply already. */
  lemma EqualIff(prev: State, next: State, inp: Inputs)
    requires IsBuilt(next, Some(prev), inp)
    ensures Equal(Some(prev), next) <==> Describes(prev, inp)
  {
    if Normalized(prev) == Normalized(next) {
      BuiltDescribes(next, Some(prev), inp);
      EqualDescribes(prev, next, inp);
    }
    if Describes(prev, inp) {
      forall q | q in next.quadlets
        ensures q in prev.quadlets && prev.quadlets[q].units == next.quadlets[q].units
        ensures prev.quadlets[q].files == next.quadlets[q].files
      {
        DescribedStays(prev, next, inp, q);
      }
      assert prev.quadlets.Keys == next.quadlets.Keys;
      hide TimelessAll;
      assert Normalized(prev).1 == Normalized(next).1;
    }
  }

  /** Not writing it loses nothing: what is kept has the records of what was built. */
  lemma KeptRecords(prev: Option<State>, next: State, inp: Inputs, q: string)
    requires IsBuilt(next, prev, inp) && q in next.quadlets
    ensures Describes(Kept(prev, next), inp) && q in Kept(prev, next).quadlets
    ensures Kept(prev, next).quadlets[q].files == next.quadlets[q].files
  {
    hide Describes, IsBuilt, Normalized;
    KeptDescribes(prev, next, inp);
    if prev.Some? && Equal(prev, next) {
      DescribedStays(prev.value, next, inp, q);
    }
  }

  lemma KeptDescribes(prev: Option<State>, next: State, inp: Inputs)
    requires IsBuilt(next, prev, inp)
    ensures Describes(Kept(prev, next), inp)
  {
    hide Describes, IsBuilt, Normalized;
    BuiltDescribes(next, prev, inp);
    if prev.Some? {
      EqualIff(prev.value, next, inp);
    }
  }

  // ---------- runs of applies

  /** s is what is recorded after an apply that found prev recorded. */
  ghost predicate Records(s: State, prev: Option<State>, inp: Inputs) {
    exists next :: IsBuilt(next, prev, inp) && s == Kept(prev, next)
  }

  /** states[i] is what is recorded after apply number i, starting from nothing recorded. */
  ghost predicate Run(states: seq<State>, applies: seq<Inputs>) {
    && |states| == |applies|
    && forall i :: 0 <= i < |states| ==> RecordedAt(states, applies, i)
  }

  ghost predicate RecordedAt(states: seq<State>, applies: seq<Inputs>, i: nat)
    requires i < |states| == |applies|
  {
    Records(states[i], if i == 0 then None else Some(states[i - 1]), applies[i])
  }

  /** Quadlet q renders the file p in the apply. */
  ghost predicate Owns(inp: Inputs, q: string, p: string) {
    q in Manifest(inp.quads) && p in FilesOf(inp, q)
  }

  /** It does exactly when it is among the quadlets and the file among its rendered files. */
  lemma OwnsIff(inp: Inputs, q: string, p: string)
    ensures Owns(inp, q, p) <==>
            (exists i :: 0 <= i < |inp.quads| && inp.quads[i].0 == q) && q in inp.files && p in inp.files[q]
  {
    ManifestIs(inp.quads);
    hide Manifest;
  }

  /** From apply number k on quadlet q renders the file p. */
  ghost predicate OwnsFrom(applies: seq<Inputs>, q: string, p: string, k: nat) {
    forall i :: k <= i < |applies| ==> Owns(applies[i], q, p)
  }

  ghost function EntryOf(inp: Inputs, q: string, p: string): Entry
    requires Owns(inp, q, p)
  {
    var input := FilesOf(inp, q)[p];
    Entry(inp.now, input.content, input.mode)
  }

  /** The applies of one file from number k on: content and mode may change from one to the next. */
  ghost function LogFrom(applies: seq<Inputs>, q: string, p: string, k: nat): seq<Entry>
    requires k <= |applies| && OwnsFrom(applies, q, p, k)
  {
    seq(|applies| - k, i requires 0 <= i < |applies| - k => EntryOf(applies[k + i], q, p))
  }

  lemma OneApply(s: State, prev: Option<State>, inp: Inputs, q: string, p: string)
    requires Records(s, prev, inp) && Owns(inp, q, p)
    ensures q in s.quadlets
    ensures Lookup(ByPath(s.quadlets[q].files), p) ==
        Some(NextRecord(inp.now, p, FilesOf(inp, q)[p], Lookup(PrevFiles(prev, q), p)))
  {
    var next :| IsBuilt(next, prev, inp) && s == Kept(prev, next);
    KeptRecords(prev, next, inp, q);
    hide NextRecord, Kept;
    var files := next.quadlets[q].files;
    var i :| 0 <= i < |files| && files[i].path == p;
    ByPathFinds(files, i);
  }

  /** What a document does not describe it does not record. */
  lemma NotRecorded(s: State, prev: Option<State>, inp: Inputs, q: string, p: string)
    requires Records(s, prev, inp) && !Owns(inp, q, p)
    ensures Lookup(PrevFiles(Some(s), q), p) == None
  {
    hide Records, Describes, ByPath, Manifest, FilesOf;
    RecordsDescribe(s, prev, inp);
    if q in s.quadlets {
      DescribedPaths(s, inp, q);
      NoSuchPath(s.quadlets[q].files, p);
    }
  }

  lemma RecordsDescribe(s: State, prev: Option<State>, inp: Inputs)
    requires Records(s, prev, inp)
    ensures Describes(s, inp)
  {
    hide Kept, IsBuilt, Describes;
    var next :| IsBuilt(next, prev, inp) && s == Kept(prev, next);
    KeptDescribes(prev, next, inp);
  }

  lemma DescribedPaths(s: State, inp: Inputs, q: string)
    requires Describes(s, inp) && q in s.quadlets
    ensures q in Manifest(inp.quads)
    ensures forall i :: 0 <= i < |s.quadlets[q].files| ==> s.quadlets[q].files[i].path in FilesOf(inp, q)
  {
    hide Manifest, Le;
    assert FilesMatch(s.quadlets[q].files, FilesOf(inp, q));
  }

  lemma {:induction false} NoSuchPath(files: seq<File>, p: string)
    requires forall i :: 0 <= i < |files| ==> files[i].path != p
    ensures p !in ByPath(files)
  {
    if files != [] {
      NoSuchPath(files[..|files| - 1], p);
    }
  }

  /** The quadlet q has rendered p since apply number k, and not in the one before that. */
  ghost predicate TookOver(applies: seq<Inputs>, q: string, p: string, k: nat) {
    k < |applies| && OwnsFrom(applies, q, p, k) && (k > 0 ==> !Owns(applies[k - 1], q, p))
  }

  lemma LogFromPrefix(applies: seq<Inputs>, q: string, p: string, k: nat)
    requires TookOver(applies, q, p, k) && k < |applies| - 1
    ensures TookOver(applies[..|applies| - 1], q, p, k)
    ensures LogFrom(applies, q, p, k)[..|applies| - 1 - k] == LogFrom(applies[..|applies| - 1], q, p, k)
  {
    hide Owns;
  }

  /** Over a run, whether or not the document was written at each apply, the record that a quadlet has of a file is
      that of the log of its applies since the quadlet took it over: what was recorded of the file under another
      quadlet is not carried over. */
  lemma {:induction false} RunRecords(states: seq<State>, applies: seq<Inputs>, q: string, p: string, k: nat)
    requires Run(states, applies) && TookOver(applies, q, p, k)
    ensures q in states[|states| - 1].quadlets
    ensures Lookup(ByPath(states[|states| - 1].quadlets[q].files), p) == Some(Record(p, LogFrom(applies, q, p, k)))
  {
    hide NextRecord, Records, ByPath, Manifest;
    var n := |states| - 1;
    var log, prev := LogFrom(applies, q, p, k), if n == 0 then None else Some(states[n - 1]);
    assert RecordedAt(states, applies, n) && Owns(applies[n], q, p);
    OneApply(states[n], prev, applies[n], q, p);
    assert log[n - k] == EntryOf(applies[n], q, p);
    assert FilesOf(applies[n], q)[p] == FileInput(log[n - k].content, log[n - k].mode);
    if k < n {
      RunPrefix(states, applies);
      LogFromPrefix(applies, q, p, k);
      RunRecords(states[..n], applies[..n], q, p, k);
    } else {
      assert log[..n - k] == [];
      if n > 0 {
        assert RecordedAt(states, applies, n - 1);
        NotRecorded(states[n - 1], if n == 1 then None else Some(states[n - 2]), applies[n - 1], q, p);
      }
    }
  }

  lemma RunPrefix(states: seq<State>, applies: seq<Inputs>)
    requires Run(states, applies) && states != []
    ensures Run(states[..|states| - 1], applies[..|states| - 1])
  {
    var n := |states| - 1;
    forall i | 0 <= i < n ensures RecordedAt(states[..n], applies[..n], i) {
      assert RecordedAt(states, applies, i);
    }
  }

  lemma LogAt(applies: seq<Inputs>, q: string, p: string, k: nat, i: nat)
    requires k <= i < |applies| && OwnsFrom(applies, q, p, k)
    ensures q in applies[i].files && p in applies[i].files[q]
    ensures var input := applies[i].files[q][p];
            LogFrom(applies, q, p, k)[i - k] == Entry(applies[i].now, input.content, input.mode)
  {
    assert Owns(applies[i], q, p);
    hide Manifest;
    var j := i - k;
    assert LogFrom(applies, q, p, k)[j] == EntryOf(applies[k + j], q, p);
  }

  lemma LogFollows(applies: seq<Inputs>, q: string, p: string, k: nat)
    requires k <= |applies| && OwnsFrom(applies, q, p, k)
    requires forall i, j :: k <= i < j < |applies| ==> applies[i].now < applies[j].now
    ensures Chronological(LogFrom(applies, q, p, k))
  {
    hide OwnsFrom;
    var log := LogFrom(applies, q, p, k);
    forall i, j | 0 <= i < j < |log| ensures log[i].at < log[j].at {
      LogAt(applies, q, p, k, k + i);
      LogAt(applies, q, p, k, k + j);
    }
  }

  /** Apply number m is the last that changed the content of the file, or the first that has it. */
  ghost predicate ChangedLast(applies: seq<Inputs>, q: string, p: string, k: nat, m: nat)
    requires forall i :: k <= i < |applies| ==> q in applies[i].files && p in applies[i].files[q]
  {
    && k <= m < |applies|
    && (m > k ==> applies[m].files[q][p].content != applies[m - 1].files[q][p].content)
    && forall i, j :: m <= i < j < |applies| ==> applies[i].files[q][p].content == applies[j].files[q][p].content
  }

  lemma {:induction false} SameFrom(log: seq<Entry>, n: nat, i: nat)
    requires n <= i < |log| && forall j :: n < j < |log| ==> log[j].content == log[j - 1].content
    ensures log[i].content == log[n].content
  {
    if n < i {
      SameFrom(log, n, i - 1);
    }
  }

  /** The log and the rendered files agree, entry by entry. */
  ghost predicate Logs(applies: seq<Inputs>, q: string, p: string, k: nat, log: seq<Entry>) {
    && k <= |applies| && |log| == |applies| - k
    && forall i :: k <= i < |applies| ==>
         && q in applies[i].files && p in applies[i].files[q]
         && log[i - k].content == applies[i].files[q][p].content && log[i - k].at == applies[i].now
  }

  lemma LogsHold(applies: seq<Inputs>, q: string, p: string, k: nat)
    requires k <= |applies| && OwnsFrom(applies, q, p, k)
    ensures Logs(applies, q, p, k, LogFrom(applies, q, p, k))
  {
    LogLength(applies, q, p, k);
    hide OwnsFrom, LogFrom;
    forall i | k <= i < |applies|
      ensures q in applies[i].files && p in applies[i].files[q]
      ensures LogFrom(applies, q, p, k)[i - k].content == applies[i].files[q][p].content
      ensures LogFrom(applies, q, p, k)[i - k].at == applies[i].now
    {
      LogAt(applies, q, p, k, i);
    }
  }

  lemma ChangedInLog(applies: seq<Inputs>, q: string, p: string, k: nat, log: seq<Entry>, n: nat)
    requires Logs(applies, q, p, k, log) && n < |log| && (n == 0 || log[n].content != log[n - 1].content)
    requires forall i :: n < i < |log| ==> log[i].content == log[i - 1].content
    ensures ChangedLast(applies, q, p, k, k + n) && applies[k + n].now == log[n].at
  {
    var m := k + n;
    assert log[m - k] == log[n];
    forall i, j | m <= i < j < |applies|
      ensures applies[i].files[q][p].content == applies[j].files[q][p].content
    {
      SameFrom(log, n, i - k);
      SameFrom(log, n, j - k);
    }
    if m > k {
      assert log[m - 1 - k] == log[n - 1];
    }
  }

  lemma LastOfLog(applies: seq<Inputs>, q: string, p: string, k: nat) returns (m: nat)
    requires k < |applies| && OwnsFrom(applies, q, p, k)
    requires forall i, j :: k <= i < j < |applies| ==> applies[i].now < applies[j].now
    ensures forall i :: k <= i < |applies| ==> q in applies[i].files && p in applies[i].files[q]
    ensures ChangedLast(applies, q, p, k, m)
    ensures var vs := Changes(LogFrom(applies, q, p, k)); vs != [] && vs[|vs| - 1].appliedAt == applies[m].now
  {
    LogLength(applies, q, p, k);
    hide OwnsFrom, Changes, LogFrom, ChangedLast;
    var log := LogFrom(applies, q, p, k);
    LogFollows(applies, q, p, k);
    LogsHold(applies, q, p, k);
    var n := LastChange(log);
    ChangedInLog(applies, q, p, k, log, n);
    m := k + n;
  }

  /** The record in terms of the applies: that of the last one, dated at the last one that changed the content. */
  lemma RunDates(states: seq<State>, applies: seq<Inputs>, q: string, p: string, k: nat) returns (f: File, m: nat)
    requires Run(states, applies) && TookOver(applies, q, p, k)
    requires forall i, j :: k <= i < j < |applies| ==> applies[i].now < applies[j].now
    ensures |states| == |applies| && q in states[|states| - 1].quadlets
    ensures Lookup(ByPath(states[|states| - 1].quadlets[q].files), p) == Some(f)
    ensures forall i :: k <= i < |applies| ==> q in applies[i].files && p in applies[i].files[q]
    ensures ChangedLast(applies, q, p, k, m) && f.appliedAt == applies[m].now
    ensures Reflects(f, p, applies[|applies| - 1].files[q][p])
  {
    RunRecords(states, applies, q, p, k);
    assert |states| == |applies| && k < |applies| && OwnsFrom(applies, q, p, k);
    hide Record, ByPath, Records, Changes, ChangedLast, OwnsFrom, LogFrom, Run, TookOver;
    m := LastOfLog(applies, q, p, k);
    LogFollows(applies, q, p, k);
    LogAt(applies, q, p, k, |applies| - 1);
    f := Record(p, LogFrom(applies, q, p, k));
    LogLength(applies, q, p, k);
    RecordDates(p, LogFrom(applies, q, p, k));
  }

  lemma LogLength(applies: seq<Inputs>, q: string, p: string, k: nat)
    requires k <= |applies| && OwnsFrom(applies, q, p, k)
    ensures |LogFrom(applies, q, p, k)| == |applies| - k
  {
  }
}
