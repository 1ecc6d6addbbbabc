/** Recording the state on disk: the file crei.state of the quadlet directory. */
module Recording {
  import opened Wrappers
  import opened FileTree
  import opened StateFile

  const STATE: Path := ["crei.state"]

  /** How a document is written to a file and read back; None is a file that does not parse. */
  datatype Codec = Codec(encode: State -> string, decode: string -> Option<State>) {
    ghost predicate RoundTrips() {
      forall s :: decode(encode(s)) == Some(s)
    }
  }

  /** Load, with None also for a document that cannot be read: recordState rebuilds it. */
  function Load(codec: Codec, t: Tree): Option<State> {
    if IsFile(t, STATE) then codec.decode(t[STATE].content) else None
  }

  /** A file can be put at crei.state: the directory is there and no directory is in the way. */
  predicate Writable(t: Tree) {
    IsDir(t, []) && !IsDir(t, STATE)
  }

  /** The document on disk describes the apply. */
  ghost predicate UpToDate(codec: Codec, t: Tree, inp: Inputs) {
    Load(codec, t).Some? && Describes(Load(codec, t).value, inp)
  }

  /** t with the document recorded; 420 is octal 0644. */
  function WithState(codec: Codec, t: Tree, s: State): Tree {
    t[STATE := File(codec.encode(s), 420)]
  }

  /** What recordState makes of the tree t: it writes the document that it builds, unless that is equal to the one
      on disk. */
  ghost predicate AfterRecording(codec: Codec, t: Tree, t': Tree, inp: Inputs) {
    exists next :: IsBuilt(next, Load(codec, t), inp)
                   && t' == if Equal(Load(codec, t), next) || !Writable(t) then t else WithState(codec, t, next)
  }

  /** recordState: a strict one fails when the document has to be written and cannot be. */
  method RecordState(disk: Disk, codec: Codec, inp: Inputs, strict: bool) returns (ok: bool)
    requires WellFormed(disk.tree)
    modifies disk
    ensures WellFormed(disk.tree) && AfterRecording(codec, old(disk.tree), disk.tree, inp)
    ensures ok <==> !strict || old(UpToDate(codec, disk.tree, inp) || Writable(disk.tree))
  {
    hide IsBuilt, Describes, Normalized;
    var prev := Load(codec, disk.tree);
    var next := Build(prev, inp);
    if prev.Some? {
      EqualIff(prev.value, next, inp);
    }
    if Equal(prev, next) {
      return true;
    }
    var stat, root := disk.Lstat(STATE), disk.Lstat([]);
    if !(root.Found? && root.node.Dir?) || (stat.Found? && stat.node.Dir?) {
      return !strict;
    }
    assert Parent(STATE) == [];
    disk.Rename(STATE, codec.encode(next), 420);
    ok := true;
  }

  /** Nothing but crei.state changes, and that only if it can be written and does not describe the apply yet. */
  lemma RecordingFrame(codec: Codec, t: Tree, t': Tree, inp: Inputs)
    requires AfterRecording(codec, t, t', inp)
    ensures forall q :: q != STATE ==> SameAt(t, t', q)
    ensures UpToDate(codec, t, inp) || !Writable(t) ==> t' == t
  {
    hide IsBuilt, Describes, Normalized;
    var prev := Load(codec, t);
    var next :| IsBuilt(next, prev, inp)
        && t' == if Equal(prev, next) || !Writable(t) then t else WithState(codec, t, next);
    if prev.Some? {
      EqualIff(prev.value, next, inp);
    }
  }

  /** Where it can be written, what is recorded is the step of a run, and describes the apply. */
  lemma RecordingStep(codec: Codec, t: Tree, t': Tree, inp: Inputs)
    requires codec.RoundTrips() && AfterRecording(codec, t, t', inp) && Writable(t)
    ensures UpToDate(codec, t', inp) && Records(Load(codec, t').value, Load(codec, t), inp)
  {
    hide IsBuilt, Describes, Normalized;
    var prev := Load(codec, t);
    var next :| IsBuilt(next, prev, inp)
        && t' == if Equal(prev, next) || !Writable(t) then t else WithState(codec, t, next);
    assert Load(codec, t') == Some(Kept(prev, next));
    KeptDescribes(prev, next, inp);
  }
}
