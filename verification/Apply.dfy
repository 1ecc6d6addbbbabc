/** crei apply: plan, removals, writes, pruning, recording; what it reaches, when it can, and what it leaves alone. */
module Apply {
  import opened Wrappers
  import opened FileTree
  import opened StringOrder
  import opened Reconcile
  import opened Passes
  import opened Clearing
  import opened Delivery
  import opened Prune
  import opened Recording
  import opened History
  import StateFile

  /** Once the writes are done, the directory has converged. */
  lemma WritesConverge(t1: Tree, t: Tree, desired: Desired, d: seq<Change>, i: nat)
    requires Renderable(desired) && OneEach(d, desired.Keys) && Progress(t1, t, desired, d, i) && i >= |d|
    ensures Converged(t, desired) && !IsFile(t, [])
  {
    forall p | p in desired ensures Right(t, p, desired[p]) && p in ManagedFiles(t) {
      var j := EntryOf(d, desired.Keys, p);
      RightIsFile(t, p, desired[p]);
    }
  }

  /** Pruning keeps it converged. */
  lemma PruneConverged(t: Tree, desired: Desired)
    requires WellFormed(t) && Converged(t, desired)
    ensures Converged(Pruned(t), desired)
  {
    var u := Pruned(t);
    PruneEffect(t, IMAGES);
    assert forall q :: IsFile(t, q) ==> SameAt(t, u, q);
    forall p | p in desired ensures Right(u, p, desired[p]) {
      RightIsFile(t, p, desired[p]);
      assert SameAt(t, u, p);
    }
    forall p ensures p in ManagedFiles(u) <==> p in ManagedFiles(t) {
      if p in ManagedFiles(t) {
        assert SameAt(t, u, p);
      }
    }
  }

  /** Taking away the extra files does not change whether apply can succeed. */
  lemma ApplicableAfterRemovals(t: Tree, desired: Desired)
    requires WellFormed(t)
    ensures Applicable(Minus(t, Extras(t, desired)), desired) <==> Applicable(t, desired)
  {
    assert !Managed(IMAGES) by {
      if Managed(IMAGES) {
        ImagesUnmanaged(IMAGES);
      }
    }
  }

  /** A path that the passes must leave alone: not an extra managed file, not inside images, and not at,
      above or below a desired path. */
  ghost predicate Outside(t: Tree, desired: Desired, q: Path) {
    Unrelated(desired, q) && q !in Extras(t, desired) && (IMAGES <= q ==> q == IMAGES)
  }

  /** A path that apply must leave alone: one outside the passes, but for the recorded state. */
  ghost predicate Foreign(t: Tree, desired: Desired, q: Path) {
    Outside(t, desired, q) && q != STATE
  }

  /** A converged directory is applicable: nothing is left to block. */
  lemma ConvergedApplicable(t: Tree, desired: Desired)
    requires WellFormed(t) && Named(desired) && Converged(t, desired) && !IsFile(t, [])
    requires forall p :: p in desired ==> desired[p].mode != Invalid
    ensures Applicable(t, desired)
  {
    forall p | p in desired ensures |p| < 3 || !IsFile(t, IMAGES) {
      if |p| >= 3 {
        ImagesUnmanaged(p);
        RightIsFile(t, p, desired[p]);
        AncestorIsDir(t, p, 1);
      }
    }
  }

  /** The modes of a converged directory that was planned, or of one that apply could handle, all parse. */
  lemma ModesParse(t: Tree, desired: Desired)
    requires Applicable(t, desired)
             || (Converged(t, desired) && forall p :: p in desired ==> Classify(t, p, desired[p]).Ok?)
    ensures forall p :: p in desired ==> desired[p].mode != Invalid
  {
    forall p | p in desired ensures desired[p].mode != Invalid {
      if Converged(t, desired) {
        assert Right(t, p, desired[p]);
      }
    }
  }

  /** What pruning makes of the tree. */
  ghost function Pruned(t: Tree): Tree {
    if IsDir(t, IMAGES) then Cut(t, IMAGES, IMAGES) else t
  }

  /** The passes got somewhere: a desired path has become right, or an extra file is gone. */
  ghost predicate Moved(t: Tree, t': Tree, desired: Desired) {
    || (exists p :: p in desired && Right(t', p, desired[p]) && !Right(t, p, desired[p]))
    || (exists p :: p in Extras(t, desired) && p !in t')
  }

  /** The two passes and the pruning, for a plan with something to do. */
  method Execute(disk: Disk, desired: Desired, changes: seq<Change>) returns (ok: bool)
    requires WellFormed(disk.tree) && Named(desired) && !IsFile(disk.tree, [])
    requires Planned(disk.tree, desired, changes) && exists c :: c in changes && c.action != Unchanged
    modifies disk
    ensures WellFormed(disk.tree)
    ensures forall q :: Outside(old(disk.tree), desired, q) ==> SameAt(old(disk.tree), disk.tree, q)
    ensures var u := WriteAll(Minus(old(disk.tree), Extras(old(disk.tree), desired)), changes, |changes|);
            ok == u.Some? && (ok ==> disk.tree == Pruned(u.value))
    ensures ok ==> ImagesPruned(disk.tree) && IsDir(disk.tree, []) && Moved(old(disk.tree), disk.tree, desired)
    ensures ok ==> NoStray(old(disk.tree), disk.tree, desired)
    ensures PrefixFree(desired) ==> (ok <==> Applicable(old(disk.tree), desired))
    ensures PrefixFree(desired) && ok ==> Converged(disk.tree, desired) && Applicable(disk.tree, desired)
    ensures PrefixFree(desired) && ok ==> AllAsDesired(old(disk.tree), disk.tree, desired)
  {
    hide *;
    ghost var t := disk.tree;
    ApplicableAfterRemovals(t, desired);
    RemovedIsExtras(t, desired, changes);
    RemovePass(disk, changes);
    ghost var t1 := disk.tree;
    ok := WritePass(disk, changes, t, desired);
    ghost var t2 := disk.tree;
    FrameSoFar(t, t2, desired);
    if !ok {
      return;
    }
    AllPassed(t, t1, t2, desired, changes);
    PassMoved(t, t1, t2, desired, changes);
    PruneEmptyDirs(disk, IMAGES);
    PruneIs(t2, disk.tree);
    PruneAfter(t, t2, desired);
    StrayAfter(t, t2, desired);
    if PrefixFree(desired) {
      BothPredicates(desired);
      DesiredEntries(t, desired, changes);
      WritesConverge(t1, t2, desired, changes[..|desired|], |changes|);
      AllDelivered(t, desired, changes);
      PrunedAsDesired(t, t2, disk.tree, desired);
      PruneConverged(t2, desired);
      ModesParse(t, desired);
      RootNoFile(disk.tree);
      ConvergedApplicable(disk.tree, desired);
    }
  }

  lemma PrunedAsDesired(t: Tree, t2: Tree, t': Tree, desired: Desired)
    requires WellFormed(t2) && AllAsDesired(t, t2, desired) && t' == Pruned(t2)
    ensures AllAsDesired(t, t', desired)
  {
    PruneEffect(t2, IMAGES);
    hide WellFormed, HasFile, AllAsDesired;
    StaysAsDesired(t, t2, t', desired);
  }

  lemma BothPredicates(desired: Desired)
    ensures Renderable(desired) <==> Named(desired) && PrefixFree(desired)
  {
  }

  lemma PruneIs(t: Tree, t': Tree)
    requires t' == if IsDir(t, IMAGES) then Cut(t, IMAGES, IMAGES) else t
    ensures t' == Pruned(t)
  {
  }

  lemma RootNoFile(t: Tree)
    requires IsDir(t, [])
    ensures !IsFile(t, [])
  {
  }

  lemma WriteWasWrong(t: Tree, desired: Desired, changes: seq<Change>, j: nat)
    requires Planned(t, desired, changes) && Named(desired) && j < |changes| && IsWrite(changes[j])
    ensures changes[j].name in desired && !Right(t, changes[j].name, desired[changes[j].name])
  {
    EntryFacts(t, desired, changes, j);
    assert changes[..|desired|][j] == changes[j];
  }

  lemma RootAbove(t: Tree, p: Path)
    requires WellFormed(t) && IsFile(t, p) && |p| > 0
    ensures IsDir(t, [])
  {
    AncestorIsDir(t, p, 0);
    assert p[..0] == [];
  }

  /** The passes end with the quadlet directory there, and got somewhere. */
  lemma PassMoved(t: Tree, t1: Tree, t2: Tree, desired: Desired, changes: seq<Change>)
    requires Passing(t, t1, t2, desired, changes, |changes|) && WellFormed(t) && Removed(changes) == Extras(t, desired)
    requires t1 == Minus(t, Extras(t, desired)) && exists c :: c in changes && c.action != Unchanged
    ensures IsDir(t2, []) && Moved(t, t2, desired)
  {
    hide Planned, Named, WellFormed, WriteState, WriteAll, Unrelated, PrefixFree, Managed;
    if AnyWrite(changes, |changes|) {
      var j :| 0 <= j < |changes| && IsWrite(changes[j]) && changes[j].name in desired
               && Right(t2, changes[j].name, desired[changes[j].name]);
      WriteWasWrong(t, desired, changes, j);
      NamedPath(desired, changes[j].name);
      RootAbove(t2, changes[j].name);
    } else {
      var c :| c in changes && c.action != Unchanged;
      var i :| 0 <= i < |changes| && changes[i] == c;
      assert !IsWrite(changes[i]);
      assert c.name in Removed(changes);
      ExtraPath(t, desired, c.name);
      RootAbove(t, c.name);
      assert [] !in Extras(t, desired);
    }
  }

  lemma NamedPath(desired: Desired, p: Path)
    requires Named(desired) && p in desired
    ensures |p| > 0
  {
  }

  lemma ExtraPath(t: Tree, desired: Desired, p: Path)
    requires p in Extras(t, desired)
    ensures |p| > 0 && IsFile(t, p)
  {
  }

  /** Pruning afterwards undoes none of it. */
  lemma PruneAfter(t: Tree, t2: Tree, desired: Desired)
    requires WellFormed(t2) && IsDir(t2, []) && Moved(t, t2, desired)
    requires forall q :: Outside(t, desired, q) ==> SameAt(t, t2, q)
    ensures ImagesPruned(Pruned(t2)) && IsDir(Pruned(t2), []) && Moved(t, Pruned(t2), desired)
    ensures forall q :: Outside(t, desired, q) ==> SameAt(t, Pruned(t2), q)
  {
    var t3 := Pruned(t2);
    PruneEffect(t2, IMAGES);
    PrunedOutside(t, t2, desired);
    PrunedImages(t2);
    hide Managed, Outside, HasFile;
    assert SameAt(t2, t3, []);
    if p :| p in desired && Right(t2, p, desired[p]) && !Right(t, p, desired[p]) {
      assert SameAt(t2, t3, p);
      assert Right(t3, p, desired[p]);
    } else {
      var p :| p in Extras(t, desired) && p !in t2;
      assert p !in t3;
    }
  }

  lemma StrayAfter(t: Tree, t2: Tree, desired: Desired)
    requires NoStray(Minus(t, Extras(t, desired)), t2, desired)
    ensures NoStray(t, Pruned(t2), desired)
  {
    hide Managed, HasFile;
    forall q | IsFile(Pruned(t2), q) && q !in desired ensures SameAt(t, Pruned(t2), q) {
      assert IsFile(t2, q) && SameAt(Minus(t, Extras(t, desired)), t2, q);
    }
  }

  lemma PrunedOutside(t: Tree, t2: Tree, desired: Desired)
    requires WellFormed(t2) && forall q :: Outside(t, desired, q) ==> SameAt(t, t2, q)
    ensures forall q :: Outside(t, desired, q) ==> SameAt(t, Pruned(t2), q)
  {
    hide Cut, Unrelated, HasFile, Managed;
    PruneEffect(t2, IMAGES);
    forall q | Outside(t, desired, q) ensures SameAt(t, Pruned(t2), q) {
      assert SameAt(t, t2, q) && SameAt(t2, Cut(t2, IMAGES, IMAGES), q);
    }
  }

  lemma PrunedImages(t2: Tree)
    requires WellFormed(t2)
    ensures ImagesPruned(Pruned(t2))
  {
    hide Cut, HasFile;
    PruneEffect(t2, IMAGES);
    forall q | q in t2 && IMAGES <= q && q != IMAGES ensures IsDir(t2, IMAGES) {
      AncestorIsDir(t2, q, 1);
      assert q[..1] == IMAGES;
    }
  }

  lemma UnitExtension(ext: string)
    requires ext in EXTENSIONS
    ensures |ext| > 1 && ext[1] != 's'
  {
  }

  lemma StateExt()
    ensures Ext("crei.state") !in EXTENSIONS
  {
    hide Ext, EXTENSIONS;
    var name := "crei.state";
    assert name[4] == '.' && name[5] == 's';
    ExtAt(name, 4);
    var ext := name[4..];
    assert ext[1] == name[5];
    if ext in EXTENSIONS {
      UnitExtension(ext);
    }
  }

  /** crei.state is no unit file and no path under images: the passes do not see it. */
  lemma StateUnmanaged(p: Path)
    requires Managed(p)
    ensures !Related(p, STATE) && !Managed(STATE) && STATE == ["crei.state"]
  {
    StateExt();
    hide Ext, EXTENSIONS;
    assert STATE[0] == "crei.state" && "crei.state"[0] == 'c' && "images"[0] == 'i';
    assert p[0] != STATE[0];
  }

  lemma StateOutside(t: Tree, desired: Desired)
    requires Named(desired)
    ensures Outside(t, desired, STATE) && STATE !in ManagedFiles(t) && STATE !in desired
  {
    hide Managed, Related;
    forall p | p in desired ensures !Related(p, STATE) {
      StateUnmanaged(p);
    }
    if Managed(STATE) {
      StateUnmanaged(STATE);
    }
    RelatedToItself(STATE);
  }

  lemma RelatedToItself(p: Path)
    ensures Related(p, p)
  {
  }

  ghost predicate ImagesPruned(t: Tree) {
    forall q :: q in t && IMAGES <= q && q != IMAGES ==> HasFile(t, q)
  }

  /** A change of crei.state alone matters to none of this. */
  lemma RecordingKeeps(t: Tree, t': Tree, desired: Desired)
    requires Named(desired) && forall q :: q != STATE ==> SameAt(t, t', q)
    ensures Converged(t, desired) ==> Converged(t', desired)
    ensures Applicable(t, desired) ==> Applicable(t', desired)
    ensures ImagesPruned(t) ==> ImagesPruned(t')
  {
    StateOutside(t, desired);
    StateOutside(t', desired);
    assert SameAt(t, t', []) && SameAt(t, t', IMAGES);
    hide Managed, Named, Outside, ImagesFirst;
    forall p ensures p in ManagedFiles(t') <==> p in ManagedFiles(t) {
      assert p != STATE ==> SameAt(t, t', p);
    }
    if Converged(t, desired) {
      forall p | p in desired ensures Right(t', p, desired[p]) {
        assert Right(t, p, desired[p]) && SameAt(t, t', p);
      }
      assert ManagedFiles(t') == ManagedFiles(t);
    }
    StillPruned(t, t');
  }

  lemma StillPruned(t: Tree, t': Tree)
    requires forall q :: q != STATE ==> SameAt(t, t', q)
    ensures ImagesPruned(t) ==> ImagesPruned(t')
  {
    forall q | ImagesPruned(t) && q in t' && IMAGES <= q && q != IMAGES ensures HasFile(t', q) {
      assert SameAt(t, t', q) && HasFile(t, q);
      var f :| IsFile(t, f) && q <= f;
      assert f[0] == IMAGES[0] != STATE[0] && SameAt(t, t', f);
      assert IsFile(t', f);
    }
  }

  /** What apply promises of the recorded state: where it can be written it is the next of a run and describes the
      apply; where it cannot, or does already, it stays as it is. */
  ghost predicate StateKept(codec: Codec, t: Tree, t': Tree, inp: StateFile.Inputs) {
    && (Writable(t') ==> UpToDate(codec, t', inp) && StateFile.Records(Load(codec, t').value, Load(codec, t), inp))
    && (UpToDate(codec, t, inp) || !Writable(t') ==> SameAt(t, t', STATE))
  }

  /** Recording after the passes, seen from the tree before them. */
  lemma RecordingAfter(codec: Codec, t: Tree, t3: Tree, t': Tree, inp: StateFile.Inputs)
    requires codec.RoundTrips() && SameAt(t, t3, STATE) && AfterRecording(codec, t3, t', inp)
    ensures StateKept(codec, t, t', inp)
    ensures UpToDate(codec, t, inp) || !Writable(t3) ==> t' == t3
    ensures Writable(t') <==> Writable(t3)
  {
    RecordingFrame(codec, t3, t', inp);
    assert SameAt(t3, t', []);
    hide AfterRecording, StateFile.Records, StateFile.Describes, StateFile.Kept;
    if Writable(t3) {
      RecordingStep(codec, t3, t', inp);
    }
  }

  /** The rendered files of the quadlets are among the desired files. */
  ghost predicate SameFiles(desired: Desired, inp: StateFile.Inputs) {
    forall q, s :: q in StateFile.Manifest(inp.quads) && s in StateFile.FilesOf(inp, q) ==>
      exists p :: At(desired, p, s) && desired[p].content == StateFile.FilesOf(inp, q)[s].content
  }

  predicate At(desired: Desired, p: Path, s: string) {
    p in desired && Join(p) == s
  }

  /** The record's digest is that of the file on disk. */
  ghost predicate DigestOnDisk(t: Tree, f: File) {
    exists p :: IsFile(t, p) && Join(p) == f.path && f.sha == HashBytes(t[p].content)
  }

  /** A document is recorded, and each of its digests is that of the file on disk. */
  ghost predicate DigestsOnDisk(codec: Codec, t: Tree) {
    && Load(codec, t).Some?
    && forall q, f :: q in Load(codec, t).value.quadlets && f in Load(codec, t).value.quadlets[q].files ==>
         DigestOnDisk(t, f)
  }

  lemma OneDigest(codec: Codec, t: Tree, desired: Desired, inp: StateFile.Inputs, q: string, f: File)
    requires Converged(t, desired) && UpToDate(codec, t, inp) && SameFiles(desired, inp)
    requires var s := Load(codec, t).value; q in s.quadlets && f in s.quadlets[q].files
    ensures DigestOnDisk(t, f)
  {
    var s := Load(codec, t).value;
    hide Load, StateFile.Manifest, StateFile.FilesOf, Le, Join;
    var i :| 0 <= i < |s.quadlets[q].files| && s.quadlets[q].files[i] == f;
    assert StateFile.FilesMatch(s.quadlets[q].files, StateFile.FilesOf(inp, q));
    assert StateFile.RecordOf(f, StateFile.FilesOf(inp, q)[f.path]);
    var p :| At(desired, p, f.path) && desired[p].content == StateFile.FilesOf(inp, q)[f.path].content;
    assert Right(t, p, desired[p]);
  }

  /** On a directory that has converged and has the apply recorded, the recorded digests are those of the files. */
  lemma DigestsAgree(codec: Codec, t: Tree, t': Tree, desired: Desired, inp: StateFile.Inputs)
    requires StateKept(codec, t, t', inp)
    ensures SameFiles(desired, inp) && Converged(t', desired) && Writable(t') ==> DigestsOnDisk(codec, t')
  {
    hide Load, Converged, SameFiles, DigestOnDisk, StateFile.Describes;
    if SameFiles(desired, inp) && Converged(t', desired) && Writable(t') {
      forall q, f | q in Load(codec, t').value.quadlets && f in Load(codec, t').value.quadlets[q].files
        ensures DigestOnDisk(t', f)
      {
        OneDigest(codec, t', desired, inp, q, f);
      }
    }
  }

  /** A plan without writes goes through. */
  lemma {:induction false} IdleSucceeds(t: Tree, desired: Desired, changes: seq<Change>, n: nat)
    requires n <= |changes| && forall c :: c in changes ==> c.action == Unchanged
    ensures WriteAll(t, changes, n) == Some(t)
  {
    if n > 0 {
      IdleSucceeds(t, desired, changes, n - 1);
    }
  }

  /** crei apply, for any managed paths. It succeeds exactly when its plan is feasible and, unless there was nothing
      to do, no directory stands at crei.state. Every foreign path is left as it was. After a success the directory
      has converged exactly when no desired path lies below another; a success that started from a directory that
      had not converged has changed it. */
  method Apply(disk: Disk, desired: Desired, codec: Codec, inp: StateFile.Inputs) returns (ok: bool)
    requires WellFormed(disk.tree) && Named(desired) && codec.RoundTrips()
    modifies disk
    ensures WellFormed(disk.tree)
    ensures ok <==> old(Feasible(disk.tree, desired) && (Converged(disk.tree, desired) || !IsDir(disk.tree, STATE)))
    ensures ok ==> (Converged(disk.tree, desired) <==> PrefixFree(desired))
    ensures ok && old(!Converged(disk.tree, desired)) ==>
              ImagesPruned(disk.tree) && exists q :: q != STATE && !SameAt(old(disk.tree), disk.tree, q)
    ensures Direct(desired) ==> (old(Feasible(disk.tree, desired)) <==> old(Applicable(disk.tree, desired)))
    ensures PrefixFree(desired) && old(Applicable(disk.tree, desired)) ==>
              Converged(disk.tree, desired) && Applicable(disk.tree, desired)
    ensures ok && PrefixFree(desired) ==> AllAsDesired(old(disk.tree), disk.tree, desired)
    ensures forall q :: Foreign(old(disk.tree), desired, q) ==> SameAt(old(disk.tree), disk.tree, q)
    ensures ok ==> forall q :: IsFile(disk.tree, q) && q !in desired && q != STATE ==>
        SameAt(old(disk.tree), disk.tree, q)
    ensures ok ==> StateKept(codec, old(disk.tree), disk.tree, inp)
    ensures ok && SameFiles(desired, inp) && PrefixFree(desired) && Writable(disk.tree) ==>
              DigestsOnDisk(codec, disk.tree)
    ensures !ok ==> SameAt(old(disk.tree), disk.tree, STATE)
    ensures ok && old(Converged(disk.tree, desired)) ==> forall q :: q != STATE ==> SameAt(old(disk.tree), disk.tree, q)
    ensures ok && old(Converged(disk.tree, desired) && (UpToDate(codec, disk.tree, inp) || !Writable(disk.tree))) ==>
              disk.tree == old(disk.tree)
  {
    hide *;
    ghost var t := disk.tree;
    IfFeasible(t, desired);
    var plan := ComputePlan(disk, desired);
    SameAsItself(t);
    if plan.Err? {
      return false;
    }
    var changes := plan.value;
    IdleIffConverged(t, desired, changes);
    FeasibleIff(t, desired, changes);
    StateOutside(t, desired);
    if forall c :: c in changes ==> c.action == Unchanged {
      IdleSucceeds(Minus(t, Extras(t, desired)), desired, changes, |changes|);
      ConvergedPrefixFree(t, desired);
      ModesParse(t, desired);
      ConvergedApplicable(t, desired);
      ok := RecordState(disk, codec, inp, false);
      RecordingFrame(codec, t, disk.tree, inp);
      RecordingAfter(codec, t, t, disk.tree, inp);
      RecordingKeeps(t, disk.tree, desired);
      ForeignSame(t, t, disk.tree, desired);
      StrayThen(t, t, disk.tree, desired);
      DigestsAgree(codec, t, disk.tree, desired, inp);
      RecordedAsDesired(t, t, disk.tree, desired);
      return;
    }
    ok := Execute(disk, desired, changes);
    ghost var t3 := disk.tree;
    if !ok {
      ForeignSame(t, t3, t3, desired);
      return;
    }
    ok := RecordState(disk, codec, inp, true);
    StrictFails(codec, t, t3, inp);
    RecordingFrame(codec, t3, disk.tree, inp);
    RecordingAfter(codec, t, t3, disk.tree, inp);
    RecordingKeeps(t3, disk.tree, desired);
    MovedThen(t, t3, disk.tree, desired);
    ForeignSame(t, t3, disk.tree, desired);
    StrayThen(t, t3, disk.tree, desired);
    StateStays(t, t3, disk.tree);
    FreeIfConverged(disk.tree, desired);
    DigestsAgree(codec, t, disk.tree, desired, inp);
    RecordedAsDesired(t, t3, disk.tree, desired);
  }

  /** The recording leaves the desired files alone. */
  lemma RecordedAsDesired(t: Tree, t3: Tree, t': Tree, desired: Desired)
    requires Named(desired) && forall q :: q != STATE ==> SameAt(t3, t', q)
    ensures AllAsDesired(t, t3, desired) ==> AllAsDesired(t, t', desired)
    ensures t3 == t && Converged(t, desired) && (forall p :: p in desired ==> desired[p].mode != Invalid) ==>
              AllAsDesired(t, t', desired)
  {
    StateOutside(t, desired);
    hide AllAsDesired, Converged, Managed, Outside, SameAt;
    if AllAsDesired(t, t3, desired) {
      StaysAsDesired(t, t3, t', desired);
    }
    if t3 == t && Converged(t, desired) && forall p :: p in desired ==> desired[p].mode != Invalid {
      ConvergedAsDesired(t, t', desired);
    }
  }

  lemma StrayThen(t: Tree, t3: Tree, t': Tree, desired: Desired)
    requires NoStray(t, t3, desired) || t3 == t
    requires forall q :: q != STATE ==> SameAt(t3, t', q)
    ensures forall q :: IsFile(t', q) && q !in desired && q != STATE ==> SameAt(t, t', q)
  {
    forall q | IsFile(t', q) && q !in desired && q != STATE ensures SameAt(t, t', q) {
      assert SameAt(t3, t', q);
    }
  }

  lemma IfFeasible(t: Tree, desired: Desired)
    requires WellFormed(t) && Named(desired)
    ensures Feasible(t, desired) ==>
              !IsFile(t, []) && forall p :: p in desired ==> IsLocal(p) && Classify(t, p, desired[p]).Ok?
    ensures Direct(desired) ==> (Feasible(t, desired) <==> Applicable(t, desired))
    ensures PrefixFree(desired) ==> Direct(desired)
  {
    hide Classify, Feasible, Applicable, Named;
    if Feasible(t, desired) {
      FeasiblePlan(t, desired);
    }
    if Direct(desired) {
      DirectFeasible(t, desired);
    }
  }

  lemma FreeIfConverged(t: Tree, desired: Desired)
    requires WellFormed(t)
    ensures Converged(t, desired) ==> PrefixFree(desired)
  {
    hide Converged, PrefixFree;
    if Converged(t, desired) {
      ConvergedPrefixFree(t, desired);
    }
  }

  /** What moved is still seen after the recording. */
  lemma MovedThen(t: Tree, t3: Tree, t': Tree, desired: Desired)
    requires Named(desired) && Moved(t, t3, desired) && forall q :: q != STATE ==> SameAt(t3, t', q)
    ensures exists q :: q != STATE && !SameAt(t, t', q)
  {
    StateOutside(t, desired);
    hide Managed, Named, Outside;
    if p :| p in desired && Right(t3, p, desired[p]) && !Right(t, p, desired[p]) {
      assert p != STATE && SameAt(t3, t', p) && !SameAt(t, t', p);
    } else {
      var p :| p in Extras(t, desired) && p !in t3;
      assert p != STATE && SameAt(t3, t', p) && !SameAt(t, t', p);
    }
  }

  /** Applying the same once more, at any later time: if no desired path lies below another it succeeds and changes
      nothing at all, else it changes the directory once more whenever it succeeds. */
  method ApplyTwice(disk: Disk, desired: Desired, codec: Codec, inp: StateFile.Inputs, later: int)
    returns (ok: bool, again: bool, ghost between: Tree)
    requires WellFormed(disk.tree) && Named(desired) && codec.RoundTrips()
    modifies disk
    ensures ok ==> (Converged(between, desired) <==> PrefixFree(desired))
    ensures ok && PrefixFree(desired) ==> again && disk.tree == between
    ensures ok && !PrefixFree(desired) && again ==>
              !Converged(disk.tree, desired) && exists q :: q != STATE && !SameAt(between, disk.tree, q)
  {
    hide *;
    ghost var t := disk.tree;
    IfFeasible(t, desired);
    ok := Apply(disk, desired, codec, inp);
    between := disk.tree;
    again := false;
    if ok {
      IfFeasible(between, desired);
      Later(codec, t, disk.tree, inp, later);
      again := Apply(disk, desired, codec, inp.(now := later));
    }
  }

  lemma Later(codec: Codec, t: Tree, t': Tree, inp: StateFile.Inputs, later: int)
    requires StateKept(codec, t, t', inp)
    ensures UpToDate(codec, t', inp.(now := later)) || !Writable(t')
  {
    hide StateFile.FilesMatch;
    assert forall q :: StateFile.FilesOf(inp.(now := later), q) == StateFile.FilesOf(inp, q);
  }

  /** after[i] is the directory as apply number i leaves it, with crei.state written or up to date. */
  ghost predicate AppliedAt(codec: Codec, first: Tree, after: seq<Tree>, applies: seq<StateFile.Inputs>, i: nat)
    requires i < |after| == |applies|
  {
    Writable(after[i]) && StateKept(codec, if i == 0 then first else after[i - 1], after[i], applies[i])
  }

  /** What successive applies leave at crei.state is a run, whether or not each of them wrote it. */
  lemma DiskRun(codec: Codec, first: Tree, after: seq<Tree>, applies: seq<StateFile.Inputs>)
    returns (states: seq<StateFile.State>)
    requires |after| == |applies| && Load(codec, first).None?
    requires forall i :: 0 <= i < |applies| ==> AppliedAt(codec, first, after, applies, i)
    ensures StateFile.Run(states, applies)
    ensures forall i :: 0 <= i < |applies| ==> Load(codec, after[i]) == Some(states[i])
  {
    hide StateFile.Records, StateFile.Describes;
    forall i | 0 <= i < |applies| ensures Load(codec, after[i]).Some? {
      assert AppliedAt(codec, first, after, applies, i);
    }
    states := seq(|applies|, i requires 0 <= i < |applies| => Load(codec, after[i]).value);
    forall i | 0 <= i < |states| ensures StateFile.RecordedAt(states, applies, i) {
      assert AppliedAt(codec, first, after, applies, i);
    }
  }

  lemma ForeignSame(t: Tree, t3: Tree, t': Tree, desired: Desired)
    requires forall q :: Outside(t, desired, q) ==> SameAt(t, t3, q)
    requires (forall q :: q != STATE ==> SameAt(t3, t', q)) || t' == t3
    ensures forall q :: Foreign(t, desired, q) ==> SameAt(t, t', q)
  {
    forall q | Foreign(t, desired, q) ensures SameAt(t, t', q) {
      assert SameAt(t, t3, q) && SameAt(t3, t', q);
    }
  }

  /** A strict recording fails exactly at a directory in place of crei.state. */
  lemma StrictFails(codec: Codec, t: Tree, t3: Tree, inp: StateFile.Inputs)
    requires IsDir(t3, []) && SameAt(t, t3, STATE)
    ensures UpToDate(codec, t3, inp) || Writable(t3) <==> !IsDir(t, STATE)
    ensures UpToDate(codec, t3, inp) <==> UpToDate(codec, t, inp)
  {
    hide StateFile.Describes;
  }

  lemma StateStays(t: Tree, t3: Tree, t': Tree)
    requires SameAt(t, t3, STATE)
    ensures t' == t3 ==> SameAt(t, t', STATE)
  {
  }

  lemma SameAsItself(t: Tree)
    ensures forall q :: SameAt(t, t, q)
  {
  }

  lemma FrameSoFar(t: Tree, t2: Tree, desired: Desired)
    requires forall q :: Unrelated(desired, q) ==> SameAt(Minus(t, Extras(t, desired)), t2, q)
    ensures forall q :: Outside(t, desired, q) ==> SameAt(t, t2, q)
  {
    forall q | Outside(t, desired, q) ensures SameAt(t, t2, q) {
      assert Unrelated(desired, q) && SameAt(Minus(t, Extras(t, desired)), t2, q);
    }
  }

  /** As the schema has it, a build context comes only beside an inline Containerfile: a path two or more levels
      below images lies in images/<stem>.context, and images/<stem>.Containerfile is desired too. */
  ghost predicate Rendered(desired: Desired) {
    Named(desired) && forall p :: p in desired && |p| >= 3 ==> exists s :: InContext(desired, p, s)
  }

  ghost predicate InContext(desired: Desired, p: Path, s: string)
    requires |p| >= 3
  {
    p[1] == s + ".context" && ["images", s + ".Containerfile"] in desired
  }

  lemma JoinStep(a: string, rest: Path)
    ensures |rest| > 0 ==> Join([a] + rest) == a + ("/" + Join(rest))
    ensures Join([a]) == a
  {
    assert |rest| > 0 ==> ([a] + rest)[1..] == rest;
  }

  lemma InsideAlike(dir: string, p: Path, q: Path)
    requires |p| > 0 && |q| > 0 && NameLe(p, q)
    ensures NameLe([dir] + p, [dir] + q)
  {
    hide Le, Join;
    JoinStep(dir, p);
    JoinStep(dir, q);
    LeAfter(dir + "/", Join(p), Join(q));
    assert dir + ("/" + Join(p)) == (dir + "/") + Join(p);
    assert dir + ("/" + Join(q)) == (dir + "/") + Join(q);
  }

  lemma FirstByName(s: string, x: string, c: string, rest: Path)
    requires |rest| > 0 && Le(x, c + ("/" + Join(rest)))
    ensures NameLe([s + x], [s + c] + rest)
  {
    hide Le, Join;
    JoinStep(s + x, []);
    JoinStep(s + c, rest);
    var tail := "/" + Join(rest);
    LeAfter(s, x, c + tail);
    PlusAssoc(s, c, tail);
  }

  lemma ContainerfileFirst(p: Path, s: string)
    requires |p| >= 3 && p[0] == "images" && p[1] == s + ".context"
    ensures NameLe(["images", s + ".Containerfile"], p)
  {
    var x, y := ".Containerfile", ".context" + ("/" + Join(p[2..]));
    assert Le(x, y) by {
      assert x[0] == y[0] && x[1..][0] == 'C' && y[1..][0] == 'c';
    }
    hide Le, Join, NameLe;
    FirstByName(s, x, ".context", p[2..]);
    InsideAlike("images", [s + ".Containerfile"], [s + ".context"] + p[2..]);
    assert p == ["images"] + ([s + ".context"] + p[2..]);
    assert ["images", s + ".Containerfile"] == ["images"] + [s + ".Containerfile"];
  }

  /** So for what the command renders a file at images never stops the apply. */
  lemma RenderedApplicable(t: Tree, desired: Desired)
    requires Rendered(desired)
    ensures ImagesFirst(desired)
    ensures Applicable(t, desired) <==> !IsFile(t, []) && forall p :: p in desired ==> desired[p].mode != Invalid
  {
    forall p | p in desired && |p| >= 3 ensures exists q :: q in desired && |q| == 2 && NameLe(q, p) {
      var s :| InContext(desired, p, s);
      assert Managed(p);
      ContainerfileFirst(p, s);
    }
  }

  /** A file standing at images blocks a desired path two levels down: the apply fails, although nothing
      else is in the way. */
  lemma BlockedImages(p: Path, df: DesiredFile, f: Node)
    requires Managed(p) && SlashFree(p) && |p| == 3 && f.File?
    ensures var t: Tree := map[[] := Dir, IMAGES := f]; WellFormed(t) && !Applicable(t, map[p := df])
    ensures Renderable(map[p := df])
  {
    hide Managed, SlashFree;
    var t: Tree := map[[] := Dir, IMAGES := f];
    assert IsFile(t, IMAGES);
    assert p in map[p := df];
  }
}
