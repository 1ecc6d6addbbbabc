/** The recorded state: what crei last applied, with a bounded history of each unit file. */
module History {
  import opened Wrappers

  /** A SHA-256 digest, taken to be free of collisions. */
  datatype Digest = Sha256(of: string)

  function HashBytes(content: string): Digest {
    Sha256(content)
  }

  /** How many superseded versions of a file are kept. */
  const CAP: nat := 10

  datatype Revision = Revision(sha: Digest, appliedAt: int, content: string)

  datatype File = File(path: string, sha: Digest, mode: string, appliedAt: int, content: string, history: seq<Revision>)

  datatype FileInput = FileInput(content: string, mode: string)

  // ---------- the version in effect at a time

  /** The newest revision that was applied not after t. */
  function Newest(vs: seq<Revision>, t: int): Option<Revision> {
    if vs == [] then None
    else if vs[|vs| - 1].appliedAt <= t then Some(vs[|vs| - 1])
    else Newest(vs[..|vs| - 1], t)
  }

  /** The retained versions of a file, oldest first, with the present one last. */
  function Versions(f: File): seq<Revision> {
    f.history + [Revision(f.sha, f.appliedAt, f.content)]
  }

  /** InEffectAt */
  method InEffectAt(f: File, t: int) returns (content: string, ok: bool)
    ensures var v := Newest(Versions(f), t);
            if v.Some? then content == v.value.content && ok == (content != "") else content == "" && !ok
  {
    assert Versions(f)[..|f.history|] == f.history && f.history[..|f.history|] == f.history;
    if f.appliedAt <= t {
      return f.content, f.content != "";
    }
    var i := |f.history|;
    while i > 0
      invariant 0 <= i <= |f.history|
      invariant Newest(Versions(f), t) == Newest(f.history[..i], t)
    {
      i := i - 1;
      assert f.history[..i + 1][..i] == f.history[..i];
      if f.history[i].appliedAt <= t {
        return f.history[i].content, f.history[i].content != "";
      }
    }
    return "", false;
  }

  // ---------- building the record of one file

  function LastN<T>(s: seq<T>, n: nat): seq<T> {
    if |s| <= n then s else s[|s| - n..]
  }

  /** The record of a file rendered as in, after an apply at time now that found the record prev. */
  function NextRecord(now: int, p: string, input: FileInput, prev: Option<File>): File {
    var rec := File(p, HashBytes(input.content), input.mode, now, if '/' in p then "" else input.content, []);
    match prev
    case None => rec
    case Some(pf) =>
      if pf.sha == rec.sha then rec.(appliedAt := pf.appliedAt, history := pf.history)
      else
        var kept := if pf.content != "" then pf.history + [Revision(pf.sha, pf.appliedAt, pf.content)] else pf.history;
        rec.(history := LastN(kept, CAP))
  }

  // ---------- an unbounded log of applies of one unit file

  datatype Entry = Entry(at: int, content: string, mode: string)

  ghost predicate Chronological(log: seq<Entry>) {
    forall i, j :: 0 <= i < j < |log| ==> log[i].at < log[j].at
  }

  /** The applies that changed the content; the first apply is one. */
  ghost function Changes(log: seq<Entry>): seq<Revision> {
    if log == [] then []
    else
      var before, e := log[..|log| - 1], log[|log| - 1];
      if before != [] && before[|before| - 1].content == e.content then Changes(before)
      else Changes(before) + [Revision(HashBytes(e.content), e.at, e.content)]
  }

  /** What the unbounded log says was applied last, not after t. */
  ghost function LastApplied(log: seq<Entry>, t: int): Option<string> {
    if log == [] then None
    else if log[|log| - 1].at <= t then Some(log[|log| - 1].content)
    else LastApplied(log[..|log| - 1], t)
  }

  /** The record of the unit file p after the applies of the log. */
  ghost function Record(p: string, log: seq<Entry>): File
    requires log != []
  {
    var before, e := log[..|log| - 1], log[|log| - 1];
    NextRecord(e.at, p, FileInput(e.content, e.mode), if before == [] then None else Some(Record(p, before)))
  }

  /** The versions worth keeping: those with content. */
  ghost function Retained(vs: seq<Revision>): seq<Revision> {
    if vs == [] then []
    else Retained(vs[..|vs| - 1]) + if vs[|vs| - 1].content != "" then [vs[|vs| - 1]] else []
  }

  lemma {:induction false} ChangesLast(log: seq<Entry>)
    requires log != [] && Chronological(log)
    ensures var vs := Changes(log); vs != [] && vs[|vs| - 1].content == log[|log| - 1].content
                                    && vs[|vs| - 1].appliedAt <= log[|log| - 1].at
                                    && vs[|vs| - 1].sha == HashBytes(vs[|vs| - 1].content)
  {
    var before := log[..|log| - 1];
    if before != [] {
      ChangesLast(before);
    }
  }

  lemma LastNSnoc<T>(s: seq<T>, x: T, n: nat)
    requires n > 0
    ensures LastN(LastN(s, n) + [x], n) == LastN(s + [x], n)
  {
  }

  lemma LastNIs<T>(s: seq<T>, n: nat)
    ensures |LastN(s, n)| == if |s| <= n then |s| else n
    ensures forall i :: 0 <= i < |LastN(s, n)| ==> LastN(s, n)[i] == s[|s| - |LastN(s, n)| + i]
  {
  }

  /** One apply: the time stays exactly when the digest does. */
  lemma NextDates(now: int, p: string, input: FileInput, pf: File)
    ensures var f := NextRecord(now, p, input, Some(pf));
            && f.path == p && f.sha == HashBytes(input.content) && f.mode == input.mode
            && f.content == (if '/' in p then "" else input.content)
            && f.appliedAt == (if pf.sha == HashBytes(input.content) then pf.appliedAt else now)
            && (pf.content == "" && pf.history == [] ==> f.history == [])
  {
  }

  /** For every path the record has the digest, mode and content of the last apply and the time of the last change;
      below images the content is not recorded, and so there is no history. */
  lemma {:induction false} RecordDates(p: string, log: seq<Entry>)
    requires log != [] && Chronological(log)
    ensures var f, vs, e := Record(p, log), Changes(log), log[|log| - 1];
            && f.path == p && f.sha == HashBytes(e.content) && f.mode == e.mode
            && f.content == (if '/' in p then "" else e.content)
            && vs != [] && f.appliedAt == vs[|vs| - 1].appliedAt
            && ('/' in p ==> f.history == [])
  {
    var before, e := log[..|log| - 1], log[|log| - 1];
    ChangesLast(log);
    if before != [] {
      ChangesLast(before);
      RecordDates(p, before);
      NextDates(e.at, p, FileInput(e.content, e.mode), Record(p, before));
      hide NextRecord;
    }
  }

  /** f holds the last of the changes vs, and the last CAP of the superseded ones that have content. */
  ghost predicate Holds(f: File, p: string, vs: seq<Revision>) {
    vs != [] && f.path == p
    && var last := vs[|vs| - 1];
       last == Revision(f.sha, f.appliedAt, f.content) && f.history == LastN(Retained(vs[..|vs| - 1]), CAP)
  }

  lemma NextHolds(g: File, p: string, vs: seq<Revision>, at: int, content: string, mode: string)
    requires Holds(g, p, vs) && g.sha == HashBytes(g.content) && '/' !in p
    ensures var f := NextRecord(at, p, FileInput(content, mode), Some(g));
            f.mode == mode && Holds(f, p,
                if g.content == content then vs else vs + [Revision(HashBytes(content), at, content)])
  {
    if g.content != content {
      var older, last := vs[..|vs| - 1], vs[|vs| - 1];
      assert (vs + [Revision(HashBytes(content), at, content)])[..|vs|] == vs;
      if last.content != "" {
        LastNSnoc(Retained(older), last, CAP);
      } else {
        assert Retained(vs) == Retained(older);
      }
    }
  }

  /** The changes before the last one. */
  ghost function Superseded(log: seq<Entry>): seq<Revision>
    requires log != []
  {
    var vs := Changes(log);
    if vs == [] then [] else vs[..|vs| - 1]
  }

  /** The record after a log of applies holds what it should of the changes of the log. */
  lemma {:induction false} RecordHolds(p: string, log: seq<Entry>)
    requires log != [] && Chronological(log) && '/' !in p
    ensures Holds(Record(p, log), p, Changes(log)) && Record(p, log).mode == log[|log| - 1].mode
    ensures var kept := Retained(Superseded(log));
            |Record(p, log).history| == if |kept| < 10 then |kept| else 10
  {
    var before := log[..|log| - 1];
    ChangesLast(log);
    if before != [] {
      ChangesLast(before);
      RecordHolds(p, before);
      var e := log[|log| - 1];
      NextHolds(Record(p, before), p, Changes(before), e.at, e.content, e.mode);
    } else {
      assert Changes(log)[..0] == [];
    }
  }

  // ---------- how the bounded record answers, against the unbounded log

  /** The changes after t. */
  ghost function After(vs: seq<Revision>, t: int): nat {
    if vs == [] then 0 else After(vs[..|vs| - 1], t) + if vs[|vs| - 1].appliedAt > t then 1 else 0
  }

  ghost predicate Rising(vs: seq<Revision>) {
    forall i, j :: 0 <= i < j < |vs| ==> vs[i].appliedAt < vs[j].appliedAt
  }

  lemma EarlierThanLast(log: seq<Entry>, d: Entry)
    requires log != [] && Chronological(log) && d in log[..|log| - 1]
    ensures d.at < log[|log| - 1].at
  {
    var i :| 0 <= i < |log| - 1 && log[..|log| - 1][i] == d;
    assert log[i] == d;
  }

  lemma {:induction false} ChangesRise(log: seq<Entry>)
    requires Chronological(log)
    ensures Rising(Changes(log))
    ensures forall v :: v in Changes(log) ==> exists e :: e in log && v.appliedAt == e.at && v.content == e.content
  {
    if log != [] {
      var before, e := log[..|log| - 1], log[|log| - 1];
      ChangesRise(before);
      forall v | v in Changes(log) ensures exists e :: e in log && v.appliedAt == e.at && v.content == e.content {
        if v in Changes(before) {
          var e :| e in before && v.appliedAt == e.at && v.content == e.content;
          assert e in log;
        }
      }
      forall d | d in before ensures d.at < e.at {
        EarlierThanLast(log, d);
      }
      hide Chronological;
      assert forall v :: v in Changes(before) ==> v.appliedAt < e.at;
    }
  }

  /** The content applied last, not after t, is that of the newest change not after t. */
  lemma {:induction false} LastAppliedIsNewest(log: seq<Entry>, t: int)
    requires Chronological(log)
    ensures var v := Newest(Changes(log), t);
            LastApplied(log, t) == if v.Some? then Some(v.value.content) else None
  {
    if log != [] {
      var before, e := log[..|log| - 1], log[|log| - 1];
      ChangesLast(log);
      LastAppliedIsNewest(before, t);
      if before != [] && before[|before| - 1].content == e.content {
        if e.at <= t {
          NewestNotAfter(before, log, t);
        }
      } else {
        assert Changes(log)[..|Changes(before)|] == Changes(before);
      }
    }
  }

  lemma NewestNotAfter(before: seq<Entry>, log: seq<Entry>, t: int)
    requires log != [] && Chronological(log) && log[|log| - 1].at <= t
    ensures Newest(Changes(log), t).Some? && Newest(Changes(log), t).value.content == log[|log| - 1].content
  {
    ChangesLast(log);
  }

  lemma {:induction false} AfterNone(vs: seq<Revision>, t: int)
    requires Rising(vs) && (vs != [] ==> vs[|vs| - 1].appliedAt <= t)
    ensures After(vs, t) == 0
  {
    if |vs| > 1 {
      AfterNone(vs[..|vs| - 1], t);
    }
  }

  /** In the last n of a rising list, the newest version not after t is the newest of the whole list
      if fewer than n versions come after t, and is missing otherwise. */
  lemma {:induction false} NewestOfLast(vs: seq<Revision>, n: nat, t: int)
    requires Rising(vs)
    ensures Newest(LastN(vs, n), t) == if After(vs, t) < n then Newest(vs, t) else None
  {
    hide Rising, LastN;
    LastNEmpty(vs, n);
    if vs != [] && n > 0 {
      var m := |vs| - 1;
      if vs[m].appliedAt <= t {
        AfterNone(vs, t);
      }
      RisingPrefix(vs);
      LastNPrefix(vs, n);
      NewestOfLast(vs[..m], n - 1, t);
    }
  }

  lemma LastNEmpty<T>(s: seq<T>, n: nat)
    ensures s == [] || n == 0 ==> LastN(s, n) == []
  {
  }

  lemma RisingPrefix(vs: seq<Revision>)
    requires Rising(vs) && vs != []
    ensures Rising(vs[..|vs| - 1])
  {
  }

  lemma LastNPrefix<T>(s: seq<T>, n: nat)
    requires s != [] && n > 0
    ensures var l, m := LastN(s, n), |s| - 1; l != [] && l[|l| - 1] == s[m] && l[..|l| - 1] == LastN(s[..m], n - 1)
  {
  }

  lemma {:induction false} RetainedRises(vs: seq<Revision>)
    requires Rising(vs)
    ensures Rising(Retained(vs)) && forall v :: v in Retained(vs) <==> v in vs && v.content != ""
  {
    if vs != [] {
      var m := |vs| - 1;
      RetainedRises(vs[..m]);
      assert vs == vs[..m] + [vs[m]];
      forall v | v in Retained(vs[..m]) ensures v.appliedAt < vs[m].appliedAt {
        assert v in vs[..m];
      }
    }
  }

  /** The newest retained version is the newest version, if that one has content; else it is older or missing. */
  lemma {:induction false} NewestRetained(vs: seq<Revision>, t: int)
    requires Rising(vs)
    ensures var v, r := Newest(vs, t), Newest(Retained(vs), t);
            && (v.Some? && v.value.content != "" ==> r == v)
            && (v.None? ==> r.None?)
            && (r.Some? ==> r.value.content != "")
  {
    if vs != [] {
      var m := |vs| - 1;
      NewestRetained(vs[..m], t);
      if vs[m].content != "" {
        assert Retained(vs)[..|Retained(vs[..m])|] == Retained(vs[..m]);
      } else {
        assert Retained(vs) == Retained(vs[..m]);
      }
    }
  }

  /** What InEffectAt answers for the record f, as a value. */
  ghost function Answer(f: File, t: int): Option<string> {
    var v := Newest(Versions(f), t);
    if v.Some? && v.value.content != "" then Some(v.value.content) else None
  }

  /** The exact answer for any log: the content in effect, if it is not empty and either still present
      or followed by fewer than CAP retained versions that were superseded after t. */
  lemma AnswerExact(p: string, log: seq<Entry>, t: int)
    requires log != [] && Chronological(log) && '/' !in p
    ensures var f, effect := Record(p, log), LastApplied(log, t);
            && ((Answer(f, t).Some? && Answer(f, t) == effect) <==>
                  (effect.Some? && effect.value != ""
                   && (f.appliedAt <= t || After(Retained(Superseded(log)), t) < CAP)))
            && (Answer(f, t).Some? && Answer(f, t) != effect ==> effect == Some(""))
  {
    hide *;
    RecordSplit(p, log, t);
    KeptNewest(log, t);
  }

  lemma {:induction false} NewestSome(vs: seq<Revision>, t: int)
    ensures Newest(vs, t).Some? <==> exists v :: v in vs && v.appliedAt <= t
  {
    if vs != [] {
      NewestSome(vs[..|vs| - 1], t);
      assert vs == vs[..|vs| - 1] + [vs[|vs| - 1]];
    }
  }

  /** When the answer is wrong, for any log: the file was empty at the time and is changed since, and of the
      superseded versions with content one was applied by then and fewer than CAP after it. */
  lemma WrongIff(p: string, log: seq<Entry>, t: int)
    requires log != [] && Chronological(log) && '/' !in p
    ensures var f, effect, kept := Record(p, log), LastApplied(log, t), Retained(Superseded(log));
            Answer(f, t).Some? && Answer(f, t) != effect <==>
              effect == Some("") && f.appliedAt > t && After(kept, t) < CAP && exists v :: v in kept && v.appliedAt <= t
  {
    hide *;
    AnswerExact(p, log, t);
    RecordSplit(p, log, t);
    KeptNewest(log, t);
    KeptThere(log, t);
  }

  lemma KeptThere(log: seq<Entry>, t: int)
    requires log != [] && Chronological(log)
    ensures var kept := Retained(Superseded(log));
            Newest(LastN(kept, CAP), t).Some? <==> After(kept, t) < CAP && exists v :: v in kept && v.appliedAt <= t
  {
    hide LastN, After, Newest, Changes;
    ChangesRise(log);
    assert Rising(Superseded(log));
    RetainedRises(Superseded(log));
    NewestOfLast(Retained(Superseded(log)), CAP, t);
    NewestSome(Retained(Superseded(log)), t);
  }

  /** The answer and the content in effect, split at the present version. */
  lemma RecordSplit(p: string, log: seq<Entry>, t: int)
    requires log != [] && Chronological(log) && '/' !in p
    ensures var f, kept, older := Record(p, log), LastN(Retained(Superseded(log)), CAP), Superseded(log);
            if f.appliedAt <= t then
              && LastApplied(log, t) == Some(f.content)
              && Answer(f, t) == (if f.content != "" then Some(f.content) else None)
            else
              && LastApplied(log, t) == ContentOf(Newest(older, t))
              && (Newest(kept, t).None? ==> Answer(f, t) == None)
              && (Newest(kept, t).Some? && Newest(kept, t).value.content != "" ==>
                  Answer(f, t) == Some(Newest(kept, t).value.content))
  {
    RecordHolds(p, log);
    LastAppliedIsNewest(log, t);
    var vs, f := Changes(log), Record(p, log);
    hide Record, LastApplied, Changes, Chronological, Retained, LastN;
    NewestSnoc(vs[..|vs| - 1], vs[|vs| - 1], t);
    assert vs == vs[..|vs| - 1] + [vs[|vs| - 1]];
    NewestSnoc(f.history, Revision(f.sha, f.appliedAt, f.content), t);
    hide Newest;
  }

  ghost function ContentOf(v: Option<Revision>): Option<string> {
    if v.Some? then Some(v.value.content) else None
  }

  /** What the retained history still knows of the version in effect among the superseded ones. */
  lemma KeptNewest(log: seq<Entry>, t: int)
    requires log != [] && Chronological(log)
    ensures var older := Superseded(log); var kept := Newest(LastN(Retained(older), CAP), t);
            && (kept.Some? ==> kept.value.content != "")
            && (After(Retained(older), t) >= CAP ==> kept.None?)
            && (ContentOf(Newest(older, t)) == None ==> kept.None?)
            && (After(Retained(older), t) < CAP && ContentOf(Newest(older, t)).Some?
                && ContentOf(Newest(older, t)).value != ""
                ==> kept.Some? && Some(kept.value.content) == ContentOf(Newest(older, t)))
  {
    var older := Superseded(log);
    ChangesRise(log);
    assert Rising(older);
    RetainedRises(older);
    NewestOfLast(Retained(older), CAP, t);
    NewestRetained(older, t);
  }

  lemma NewestSnoc(vs: seq<Revision>, v: Revision, t: int)
    ensures Newest(vs + [v], t) == if v.appliedAt <= t then Some(v) else Newest(vs, t)
    ensures After(vs + [v], t) == After(vs, t) + if v.appliedAt > t then 1 else 0
  {
    assert (vs + [v])[..|vs|] == vs;
  }

  ghost predicate AllContentful(log: seq<Entry>) {
    forall e :: e in log ==> e.content != ""
  }

  lemma {:induction false} RetainAll(vs: seq<Revision>)
    requires forall v :: v in vs ==> v.content != ""
    ensures Retained(vs) == vs
  {
    if vs != [] {
      var m := |vs| - 1;
      assert vs == vs[..m] + [vs[m]];
      RetainAll(vs[..m]);
    }
  }

  /** With contents that are never empty the answer is never wrong, and it is given exactly when something
      had been applied by t and at most CAP content changes came after t. */
  lemma NeverWrong(p: string, log: seq<Entry>, t: int)
    requires log != [] && Chronological(log) && '/' !in p && AllContentful(log)
    ensures var a, effect := Answer(Record(p, log), t), LastApplied(log, t);
            a == if effect.Some? && After(Changes(log), t) <= CAP then effect else None
  {
    hide *;
    AnswerExact(p, log, t);
    EffectContentful(log, t);
    SupersededCount(p, log, t);
  }

  lemma {:induction false} EffectContentful(log: seq<Entry>, t: int)
    requires AllContentful(log)
    ensures LastApplied(log, t) != Some("")
  {
    if log != [] {
      assert log[|log| - 1] in log;
      assert AllContentful(log[..|log| - 1]);
      EffectContentful(log[..|log| - 1], t);
    }
  }

  lemma SupersededCount(p: string, log: seq<Entry>, t: int)
    requires log != [] && Chronological(log) && '/' !in p && AllContentful(log)
    ensures var f := Record(p, log);
            After(Changes(log), t) == if f.appliedAt <= t then 0 else After(Retained(Superseded(log)), t) + 1
  {
    var vs, f := Changes(log), Record(p, log);
    RecordDates(p, log);
    ChangesRise(log);
    hide Record, Changes, Chronological, Retained;
    var older, last := vs[..|vs| - 1], vs[|vs| - 1];
    assert vs == older + [last];
    forall v | v in vs ensures v.content != "" {
      var e :| e in log && v.appliedAt == e.at && v.content == e.content;
    }
    RetainAll(older);
    NewestSnoc(older, last, t);
    if last.appliedAt <= t {
      AfterNone(vs, t);
    }
  }

  /** Apply number i came after t and changed the content. */
  ghost predicate ContentChanged(log: seq<Entry>, i: nat, t: int)
    requires i < |log|
  {
    log[i].at > t && (i == 0 || log[i].content != log[i - 1].content)
  }

  /** The staleness test: AppliedAt is after t exactly when a content-changing apply came after t. */
  lemma {:induction false} StaleIff(p: string, log: seq<Entry>, t: int)
    requires log != [] && Chronological(log)
    ensures Record(p, log).appliedAt > t <==> exists i :: 0 <= i < |log| && ContentChanged(log, i, t)
  {
    RecordDates(p, log);
    var m := LastChange(log);
    hide Record, Changes, Retained, LastN;
    if log[m].at > t {
      assert ContentChanged(log, m, t);
    }
    if i :| 0 <= i < |log| && ContentChanged(log, i, t) {
      assert i <= m && log[i].at <= log[m].at;
    }
  }

  lemma {:induction false} LastChange(log: seq<Entry>) returns (m: nat)
    requires log != [] && Chronological(log)
    ensures m < |log| && (m == 0 || log[m].content != log[m - 1].content)
    ensures Changes(log) != [] && Changes(log)[|Changes(log)| - 1].appliedAt == log[m].at
    ensures forall i :: m < i < |log| ==> log[i].content == log[i - 1].content
  {
    var before, e := log[..|log| - 1], log[|log| - 1];
    if before != [] && before[|before| - 1].content == e.content {
      m := LastChange(before);
    } else {
      m := |log| - 1;
    }
  }

  /** Empty contents are not retained, so the claim fails for them: after a, then nothing, then b, the
      record answers a for the time at which the file was empty. */
  lemma EmptyContentIsLost(mode: string)
    ensures var log := [Entry(1, "a", mode), Entry(2, "", mode), Entry(3, "b", mode)];
            Answer(Record("u", log), 2) == Some("a") && LastApplied(log, 2) == Some("")
  {
    var l1 := [Entry(1, "a", mode)];
    var l2 := l1 + [Entry(2, "", mode)];
    var l3 := l2 + [Entry(3, "b", mode)];
    assert l1[..0] == [] && l2[..1] == l1 && l3[..2] == l2;
    var f1 := Record("u", l1);
    assert f1 == File("u", HashBytes("a"), mode, 1, "a", []);
    var f2 := Record("u", l2);
    assert f2 == File("u", HashBytes(""), mode, 2, "", [Revision(HashBytes("a"), 1, "a")]);
    var f3 := Record("u", l3);
    assert f3 == File("u", HashBytes("b"), mode, 3, "b", [Revision(HashBytes("a"), 1, "a")]);
    var vs := Versions(f3);
    assert |vs| == 2 && vs[..1] == f3.history && vs[1].appliedAt == 3 && f3.history[0].content == "a";
    assert Newest(vs, 2) == Newest(f3.history, 2) == Some(f3.history[0]);
    assert l3 == [Entry(1, "a", mode), Entry(2, "", mode), Entry(3, "b", mode)];
    assert LastApplied(l2, 2) == Some("");
  }
}
