/** A recorded file looked up by its path, as status and diffs do it, while the quadlet that renders it may change. */
module Ownership {
  import opened Wrappers
  import opened StringOrder
  import opened History
  import opened StateFile

  /** FileRecord: the first record of the path, in whatever order the quadlets come. */
  method FileRecord(s: State, p: string) returns (f: Option<File>)
    ensures f.Some? ==> exists q :: q in s.quadlets && f.value in s.quadlets[q].files && f.value.path == p
    ensures f.None? ==> forall q, g :: q in s.quadlets && g in s.quadlets[q].files ==> g.path != p
  {
    var left := s.quadlets.Keys;
    while left != {}
      invariant left <= s.quadlets.Keys
      invariant forall q, g :: q in s.quadlets && q !in left && g in s.quadlets[q].files ==> g.path != p
      decreases left
    {
      var q :| q in left;
      var files := s.quadlets[q].files;
      for i := 0 to |files|
        invariant forall j :: 0 <= j < i ==> files[j].path != p
      {
        if files[i].path == p {
          return Some(files[i]);
        }
      }
      left := left - {q};
    }
    return None;
  }

  /** In the apply the quadlet q renders p, and no other does: two are refused by the renderer. */
  ghost predicate SoleOwner(inp: Inputs, q: string, p: string) {
    forall r :: Owns(inp, r, p) <==> r == q
  }

  /** In the apply nothing renders p. */
  ghost predicate Unowned(inp: Inputs, p: string) {
    forall r :: !Owns(inp, r, p)
  }

  /** Entry i of the log is what q renders in apply number b + i. */
  ghost predicate EntryAt(applies: seq<Inputs>, b: nat, q: string, p: string, log: seq<Entry>, i: nat)
    requires i < |log| && b + i < |applies|
  {
    Owns(applies[b + i], q, p) && log[i] == EntryOf(applies[b + i], q, p)
  }

  /** Its one owner is owners[i]. */
  ghost predicate LoggedAt(applies: seq<Inputs>, b: nat, owners: seq<string>, p: string, log: seq<Entry>, i: nat)
    requires i < |owners| == |log| && b + i < |applies|
  {
    EntryAt(applies, b, owners[i], p, log, i) && SoleOwner(applies[b + i], owners[i], p)
  }

  /** A run in which the file p is rendered since apply number b, and not in the one before that, by the quadlets
      owners in turn, at increasing times; log is the log of those applies. */
  ghost predicate Owned(states: seq<State>, applies: seq<Inputs>, b: nat, owners: seq<string>, p: string,
                        log: seq<Entry>) {
    && Run(states, applies) && |log| == |owners| == |applies| - b > 0
    && (b > 0 ==> Unowned(applies[b - 1], p))
    && (forall i :: 0 <= i < |log| ==> LoggedAt(applies, b, owners, p, log, i))
    && Chronological(log)
  }

  /** The apply since which the last owner has been the owner. */
  ghost function Since(owners: seq<string>): (k: nat)
    requires owners != []
    ensures k < |owners| && forall i :: k <= i < |owners| ==> owners[i] == owners[|owners| - 1]
    ensures k > 0 ==> owners[k - 1] != owners[|owners| - 1]
  {
    if |owners| == 1 then 0
    else if owners[|owners| - 2] == owners[|owners| - 1] then Since(owners[..|owners| - 1])
    else |owners| - 1
  }

  /** The record of p after the run. */
  ghost function Found(states: seq<State>, owners: seq<string>, p: string): Option<File>
    requires |states| > 0 && |owners| > 0
  {
    Lookup(PrevFiles(Some(states[|states| - 1]), owners[|owners| - 1]), p)
  }

  lemma OwnedLog(states: seq<State>, applies: seq<Inputs>, b: nat, owners: seq<string>, p: string, log: seq<Entry>)
    requires Owned(states, applies, b, owners, p, log)
    ensures |log| == |owners| == |applies| - b > 0 && |applies| == |states| > 0
    ensures Chronological(log) && Run(states, applies)
  {
  }

  lemma OwnerAt(states: seq<State>, applies: seq<Inputs>, b: nat, owners: seq<string>, p: string, log: seq<Entry>,
                i: nat)
    requires Owned(states, applies, b, owners, p, log) && i < |log|
    ensures |owners| == |log| == |applies| - b
    ensures SoleOwner(applies[b + i], owners[i], p) && EntryAt(applies, b, owners[i], p, log, i)
  {
    assert LoggedAt(applies, b, owners, p, log, i);
    hide Owns, SoleOwner, EntryAt;
  }

  lemma OnlyOwner(inp: Inputs, q: string, r: string, p: string)
    requires SoleOwner(inp, q, p)
    ensures Owns(inp, r, p) <==> r == q
  {
    hide Owns;
  }

  lemma SinceTookOver(states: seq<State>, applies: seq<Inputs>, b: nat, owners: seq<string>, p: string, log: seq<Entry>)
    requires Owned(states, applies, b, owners, p, log)
    ensures |owners| > 0 && TookOver(applies, owners[|owners| - 1], p, b + Since(owners))
    ensures |owners| == |log| && LogFrom(applies, owners[|owners| - 1], p, b + Since(owners)) == log[Since(owners)..]
  {
    hide *;
    OwnedLog(states, applies, b, owners, p, log);
    var q, k := owners[|owners| - 1], Since(owners);
    forall i | k <= i < |log| ensures EntryAt(applies, b, q, p, log, i) {
      OwnerAt(states, applies, b, owners, p, log, i);
      assert owners[i] == q;
    }
    if k > 0 {
      OwnerAt(states, applies, b, owners, p, log, k - 1);
      OnlyOwner(applies[b + k - 1], owners[k - 1], q, p);
    } else if b > 0 {
      NotBefore(states, applies, b, owners, p, log, q);
    }
    LogIs(applies, q, p, b, k, log);
    TookOverIs(applies, q, p, b + k);
  }

  lemma NotBefore(states: seq<State>, applies: seq<Inputs>, b: nat, owners: seq<string>, p: string, log: seq<Entry>,
                  q: string)
    requires Owned(states, applies, b, owners, p, log) && b > 0
    ensures b < |applies| && !Owns(applies[b - 1], q, p)
  {
  }

  lemma TookOverIs(applies: seq<Inputs>, q: string, p: string, k: nat)
    requires k < |applies| && OwnsFrom(applies, q, p, k) && (k > 0 ==> !Owns(applies[k - 1], q, p))
    ensures TookOver(applies, q, p, k)
  {
  }

  lemma LogIs(applies: seq<Inputs>, q: string, p: string, b: nat, k: nat, log: seq<Entry>)
    requires k <= |log| == |applies| - b
    requires forall i :: k <= i < |log| ==> EntryAt(applies, b, q, p, log, i)
    ensures OwnsFrom(applies, q, p, b + k) && LogFrom(applies, q, p, b + k) == log[k..]
  {
    hide Owns, EntryOf;
    forall j | b + k <= j < |applies| ensures Owns(applies[j], q, p) {
      assert EntryAt(applies, b, q, p, log, j - b);
    }
    forall i | 0 <= i < |log| - k ensures LogFrom(applies, q, p, b + k)[i] == log[k..][i] {
      assert EntryAt(applies, b, q, p, log, k + i);
    }
  }

  lemma FoundIs(states: seq<State>, applies: seq<Inputs>, b: nat, owners: seq<string>, p: string, log: seq<Entry>)
    requires Owned(states, applies, b, owners, p, log)
    ensures |states| > 0 && |log| == |owners| > 0 && Found(states, owners, p) == Some(Record(p, log[Since(owners)..]))
  {
    hide Record, Since, TookOver, LogFrom, ByPath, LoggedAt;
    SinceTookOver(states, applies, b, owners, p, log);
    RunRecords(states, applies, owners[|owners| - 1], p, b + Since(owners));
  }

  lemma FoundAt(s: State, q: string, i: nat, input: Files)
    requires q in s.quadlets && i < |s.quadlets[q].files| && FilesMatch(s.quadlets[q].files, input)
    ensures s.quadlets[q].files[i].path in input
    ensures Lookup(PrevFiles(Some(s), q), s.quadlets[q].files[i].path) == Some(s.quadlets[q].files[i])
  {
    ByPathFinds(s.quadlets[q].files, i);
    hide ByPath, Le, RecordOf;
  }

  lemma MatchedOf(s: State, inp: Inputs, q: string)
    requires Describes(s, inp) && q in s.quadlets
    ensures q in Manifest(inp.quads) && FilesMatch(s.quadlets[q].files, FilesOf(inp, q))
  {
    hide Manifest, FilesMatch;
  }

  lemma FoundIn(s: State, prev: Option<State>, inp: Inputs, q: string, f: File)
    requires Records(s, prev, inp) && q in s.quadlets && f in s.quadlets[q].files
    ensures Owns(inp, q, f.path) && Lookup(PrevFiles(Some(s), q), f.path) == Some(f)
  {
    RecordsDescribe(s, prev, inp);
    hide Records, Describes, Manifest, FilesOf, FilesMatch, ByPath, PrevFiles;
    MatchedOf(s, inp, q);
    var i :| 0 <= i < |s.quadlets[q].files| && s.quadlets[q].files[i] == f;
    FoundAt(s, q, i, FilesOf(inp, q));
  }

  lemma FoundDef(states: seq<State>, owners: seq<string>, p: string)
    requires |states| > 0 && |owners| > 0
    ensures Found(states, owners, p) == Lookup(PrevFiles(Some(states[|states| - 1]), owners[|owners| - 1]), p)
  {
  }

  lemma RunAt(states: seq<State>, applies: seq<Inputs>, n: nat)
    requires Run(states, applies) && n < |states|
    ensures |states| == |applies| && Records(states[n], if n == 0 then None else Some(states[n - 1]), applies[n])
  {
    assert RecordedAt(states, applies, n);
  }

  /** FileRecord after the run finds that record. */
  lemma FoundByPath(states: seq<State>, applies: seq<Inputs>, b: nat, owners: seq<string>, p: string, log: seq<Entry>,
                    q: string, f: File)
    requires Owned(states, applies, b, owners, p, log) && |states| > 0 && |owners| > 0
    requires var s := states[|states| - 1]; q in s.quadlets && f in s.quadlets[q].files && f.path == p
    ensures Found(states, owners, p) == Some(f)
  {
    hide *;
    OwnedLog(states, applies, b, owners, p, log);
    var n := |states| - 1;
    OwnerAt(states, applies, b, owners, p, log, |log| - 1);
    OnlyOwner(applies[n], owners[|owners| - 1], q, p);
    RunAt(states, applies, n);
    FoundDef(states, owners, p);
    FoundIn(states[n], if n == 0 then None else Some(states[n - 1]), applies[n], q, f);
  }

  /** At apply number i the content or the owner of the file was another than before. */
  ghost predicate ChangedAt(log: seq<Entry>, owners: seq<string>, i: nat)
    requires i < |log| == |owners|
  {
    i == 0 || owners[i] != owners[i - 1] || log[i].content != log[i - 1].content
  }

  lemma InWhole(log: seq<Entry>, owners: seq<string>, k: nat, j: nat, t: int)
    requires |log| == |owners| > 0 && k == Since(owners) && k + j < |log| && ContentChanged(log[k..], j, t)
    ensures ChangedAt(log, owners, k + j) && log[k + j].at > t
  {
    assert log[k..][j] == log[k + j];
    assert j > 0 ==> log[k..][j - 1] == log[k + j - 1];
    hide Since;
  }

  lemma InSuffix(log: seq<Entry>, owners: seq<string>, k: nat, i: nat, t: int)
    requires |log| == |owners| > 0 && k == Since(owners) && i < |log| && Chronological(log)
    requires log[i].at > t && ChangedAt(log, owners, i)
    ensures ContentChanged(log[k..], if i <= k then 0 else i - k, t)
  {
    var last := log[k..];
    if i <= k {
      assert last[0] == log[k] && log[i].at <= log[k].at;
    } else {
      assert last[i - k] == log[i] && last[i - k - 1] == log[i - 1];
      assert owners[i] == owners[i - 1];
    }
    hide Since;
  }

  lemma StaleSuffix(log: seq<Entry>, owners: seq<string>, k: nat, t: int)
    requires |log| == |owners| > 0 && k == Since(owners) && Chronological(log)
    ensures (exists j :: 0 <= j < |log[k..]| && ContentChanged(log[k..], j, t))
            <==> exists i :: 0 <= i < |log| && log[i].at > t && ChangedAt(log, owners, i)
  {
    hide Since, ContentChanged, ChangedAt, Chronological;
    if j :| 0 <= j < |log[k..]| && ContentChanged(log[k..], j, t) {
      InWhole(log, owners, k, j, t);
      assert ChangedAt(log, owners, k + j);
    }
    if i :| 0 <= i < |log| && log[i].at > t && ChangedAt(log, owners, i) {
      InSuffix(log, owners, k, i, t);
      assert ContentChanged(log[k..], if i <= k then 0 else i - k, t);
    }
  }

  lemma ChronologicalSuffix(log: seq<Entry>, k: nat)
    requires Chronological(log) && k < |log|
    ensures Chronological(log[k..]) && log[k..] != []
  {
  }

  /** The staleness test, by path: AppliedAt is after t exactly when an apply after t changed the content or the
      owner of the file. */
  lemma StaleByPath(states: seq<State>, applies: seq<Inputs>, b: nat, owners: seq<string>, p: string, log: seq<Entry>,
                    t: int)
    requires Owned(states, applies, b, owners, p, log)
    ensures |log| == |owners| > 0 && |states| > 0 && Found(states, owners, p).Some?
    ensures Found(states, owners, p).value.appliedAt > t <==>
            exists i :: 0 <= i < |log| && log[i].at > t && ChangedAt(log, owners, i)
  {
    hide *;
    OwnedLog(states, applies, b, owners, p, log);
    FoundIs(states, applies, b, owners, p, log);
    ChronologicalSuffix(log, Since(owners));
    StaleIff(p, log[Since(owners)..], t);
    StaleSuffix(log, owners, Since(owners), t);
  }

  /** What InEffectAt answers, by path: with contents never empty it is the content of the last apply not after t,
      provided that it is a unit file, the last owner had taken over by then and at most ten content changes followed;
      else there is no answer. */
  lemma AnswerByPath(states: seq<State>, applies: seq<Inputs>, b: nat, owners: seq<string>, p: string, log: seq<Entry>,
                     t: int)
    requires Owned(states, applies, b, owners, p, log) && AllContentful(log)
    ensures |log| == |owners| > 0 && |states| > 0 && Found(states, owners, p).Some?
    ensures Answer(Found(states, owners, p).value, t) ==
            if '/' !in p && log[Since(owners)].at <= t && After(Changes(log[Since(owners)..]), t) <= 10
            then LastApplied(log, t) else None
  {
    hide *;
    OwnedLog(states, applies, b, owners, p, log);
    FoundIs(states, applies, b, owners, p, log);
    ChronologicalSuffix(log, Since(owners));
    if '/' in p {
      NoAnswerBelow(p, log[Since(owners)..], t);
    } else {
      AnswerSuffix(p, log, Since(owners), t);
    }
  }

  /** Of a file below images nothing is answered: its content is not recorded. */
  lemma NoAnswerBelow(p: string, log: seq<Entry>, t: int)
    requires log != [] && Chronological(log) && '/' in p
    ensures Answer(Record(p, log), t) == None
  {
    RecordDates(p, log);
    hide Record, Changes;
    var vs := Versions(Record(p, log));
    assert |vs| == 1 && vs[..0] == [] && vs[0].content == "";
    assert Newest(vs[..0], t) == None;
  }

  lemma AnswerSuffix(p: string, log: seq<Entry>, k: nat, t: int)
    requires k < |log| && Chronological(log) && AllContentful(log) && '/' !in p
    ensures Answer(Record(p, log[k..]), t) ==
            if log[k].at <= t && After(Changes(log[k..]), t) <= 10 then LastApplied(log, t) else None
  {
    var last := log[k..];
    hide Record, Answer, Changes, After, LastApplied, Chronological;
    ChronologicalSuffix(log, k);
    assert forall e :: e in last ==> e in log;
    NeverWrong(p, last, t);
    assert log == log[..k] + last && last[0] == log[k];
    if last[0].at <= t {
      AppliedSuffix(log[..k], last, t);
    }
    NotYetApplied(last, t);
  }

  lemma {:induction false} AppliedSuffix(a: seq<Entry>, b: seq<Entry>, t: int)
    requires b != [] && b[0].at <= t
    ensures LastApplied(a + b, t) == LastApplied(b, t)
  {
    var n := |b| - 1;
    assert (a + b)[..|a + b| - 1] == a + b[..n];
    if b[n].at > t {
      AppliedSuffix(a, b[..n], t);
    }
  }

  lemma {:induction false} NotYetApplied(log: seq<Entry>, t: int)
    requires log != [] && Chronological(log)
    ensures LastApplied(log, t).Some? <==> log[0].at <= t
  {
    if |log| > 1 {
      NotYetApplied(log[..|log| - 1], t);
    }
  }

  /** A file that another quadlet takes over with the same content shows as changed at that apply, and what was in
      effect before it is no longer known, although nothing has changed in content. */
  lemma TakeoverForgets(states: seq<State>, applies: seq<Inputs>, b: nat, owners: seq<string>, p: string,
                        log: seq<Entry>)
    requires Owned(states, applies, b, owners, p, log) && |owners| == 2 && owners[0] != owners[1]
    requires AllContentful(log) && log[0].content == log[1].content
    ensures |log| == |owners| == 2 && |states| > 0 && Found(states, owners, p).Some?
    ensures Found(states, owners, p).value.appliedAt > log[0].at
    ensures Answer(Found(states, owners, p).value, log[0].at) == None
    ensures LastApplied(log, log[0].at).Some?
  {
    OwnedLog(states, applies, b, owners, p, log);
    StaleByPath(states, applies, b, owners, p, log, log[0].at);
    AnswerByPath(states, applies, b, owners, p, log, log[0].at);
    hide Owned, Found, Answer, LastApplied;
    assert ChangedAt(log, owners, 1) && Since(owners) == 1 && log[0].at < log[1].at;
    NotYetApplied(log, log[0].at);
  }
}
