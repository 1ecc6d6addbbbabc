/** The plan that brings a quadlet directory in line with the desired files, and the
    operations that carry it out. */
module Reconcile {
  import opened Wrappers
  import opened FileTree
  import opened StringOrder

  const IMAGES: Path := ["images"]

  const EXTENSIONS: set<string> :=
    {".container", ".pod", ".volume", ".network", ".kube", ".build", ".image", ".artifact"}

  /** filepath.Ext: the suffix from the last dot. */
  function Ext(name: string): string {
    if name == "" then ""
    else if '.' in name[1..] then Ext(name[1..])
    else if name[0] == '.' then name
    else ""
  }

  /** A path whose regular files belong to crei: a unit file of the directory itself, or anything under images. */
  predicate Managed(p: Path) {
    if |p| == 1 then Ext(p[0]) in EXTENSIONS else |p| >= 2 && p[0] == "images"
  }

  lemma {:induction false} ExtAt(name: string, k: nat)
    requires k < |name| && name[k] == '.' && forall i :: k < i < |name| ==> name[i] != '.'
    ensures Ext(name) == name[k..]
  {
    if k > 0 {
      assert name[1..][k - 1] == '.';
      ExtAt(name[1..], k - 1);
      assert name[1..][k - 1..] == name[k..];
    }
  }

  lemma {:induction false} ExtIsSuffix(name: string)
    ensures |Ext(name)| <= |name| && name[|name| - |Ext(name)|..] == Ext(name)
  {
    if name != "" && '.' in name[1..] {
      ExtIsSuffix(name[1..]);
    }
  }

  predicate EndsIn(name: string, ext: string) {
    |ext| <= |name| && name[|name| - |ext|..] == ext
  }

  lemma ExtIff(name: string, ext: string)
    requires |ext| > 1 && ext[0] == '.' && '.' !in ext[1..]
    ensures Ext(name) == ext <==> EndsIn(name, ext)
  {
    ExtIsSuffix(name);
    if EndsIn(name, ext) {
      var k := |name| - |ext|;
      assert name[k] == ext[0];
      forall i | k < i < |name| ensures name[i] != '.' {
        assert name[i] == ext[1..][i - k - 1];
      }
      ExtAt(name, k);
    }
  }

  /** The files that crei takes care of, by their names. */
  lemma ManagedNames(p: Path)
    ensures Managed(p) <==>
            || (|p| == 1 && (EndsIn(p[0], ".container") || EndsIn(p[0], ".pod") || EndsIn(p[0], ".volume")
                             || EndsIn(p[0], ".network") || EndsIn(p[0], ".kube") || EndsIn(p[0], ".build")
                             || EndsIn(p[0], ".image") || EndsIn(p[0], ".artifact")))
            || (|p| >= 2 && p[0] == "images")
  {
    hide Ext, EndsIn;
    if |p| == 1 {
      ExtIff(p[0], ".container");
      ExtIff(p[0], ".pod");
      ExtIff(p[0], ".volume");
      ExtIff(p[0], ".network");
      ExtIff(p[0], ".kube");
      ExtIff(p[0], ".build");
      ExtIff(p[0], ".image");
      ExtIff(p[0], ".artifact");
    }
  }

  /** filepath.IsLocal, for a cleaned path. */
  predicate IsLocal(p: Path) {
    |p| > 0 && p[0] != "" && p[0] != ".."
  }

  /** An optional octal mode; Invalid is a mode that does not parse. */
  datatype Mode = Unset | Octal(bits: nat) | Invalid

  /** The permission part of a mode. */
  function Perm(bits: nat): nat {
    bits % 512
  }

  predicate OctalText(s: string) {
    forall i :: 0 <= i < |s| ==> '0' <= s[i] <= '7'
  }

  function OctalValue(s: string): nat
    requires OctalText(s)
  {
    if s == "" then 0 else 8 * OctalValue(s[..|s| - 1]) + (s[|s| - 1] - '0') as int
  }

  /** parseMode: octal digits, of a value that fits 32 bits; the empty text is no mode. */
  function ParseMode(s: string): Mode {
    if s == "" then Unset
    else if OctalText(s) && OctalValue(s) < 0x1_0000_0000 then Octal(OctalValue(s))
    else Invalid
  }

  /** The digit k places from the right. */
  function DigitAt(s: string, k: nat): nat
    requires OctalText(s)
  {
    if k < |s| then (s[|s| - 1 - k] - '0') as int else 0
  }

  lemma Split8(b: nat, y: nat, z: nat)
    requires b == 8 * y + z && z < 8
    ensures b / 8 == y && b % 8 == z
  {
  }

  lemma Split64(b: nat, y: nat, z: nat)
    requires b == 64 * y + z && z < 64
    ensures b / 64 == y
  {
  }

  lemma Split512(b: nat, y: nat, z: nat)
    requires b == 512 * y + z && z < 512
    ensures Perm(b) == z
  {
  }

  /** The permission part is what the last three octal digits say: owner, group and others. */
  lemma PermDigits(h: nat, u: nat, g: nat, o: nat)
    requires u < 8 && g < 8 && o < 8
    ensures var b := 512 * h + 64 * u + 8 * g + o;
            Perm(b) == 64 * u + 8 * g + o && b / 64 % 8 == u && b / 8 % 8 == g && b % 8 == o
  {
    hide Perm;
    var b := 512 * h + 64 * u + 8 * g + o;
    Split8(b, 64 * h + 8 * u + g, o);
    Split8(64 * h + 8 * u + g, 8 * h + u, g);
    Split8(8 * h + u, h, u);
    Split64(b, 8 * h + u, 8 * g + o);
    Split512(b, h, 64 * u + 8 * g + o);
  }

  lemma PermParts(b: nat)
    ensures Perm(b) == 64 * (b / 64 % 8) + 8 * (b / 8 % 8) + b % 8
  {
    hide Perm;
    var y := b / 8;
    var z := y / 8;
    PermDigits(z / 8, z % 8, y % 8, b % 8);
  }

  lemma LastDigit(s: string)
    requires OctalText(s) && s != ""
    ensures OctalText(s[..|s| - 1]) && OctalValue(s) == 8 * OctalValue(s[..|s| - 1]) + DigitAt(s, 0)
    ensures DigitAt(s, 1) == DigitAt(s[..|s| - 1], 0) && DigitAt(s, 2) == DigitAt(s[..|s| - 1], 1)
  {
    assert forall i :: 0 <= i < |s| - 1 ==> s[..|s| - 1][i] == s[i];
    hide OctalText;
  }

  lemma NoDigits()
    ensures OctalValue("") == 0 && DigitAt("", 0) == DigitAt("", 1) == DigitAt("", 2) == 0
  {
  }

  lemma SmallDigits(s: string)
    requires OctalText(s)
    ensures DigitAt(s, 2) < 8 && DigitAt(s, 1) < 8 && DigitAt(s, 0) < 8
  {
  }

  /** Of the text of a mode, whatever its length. */
  lemma TextDigits(s: string) returns (h: nat)
    requires OctalText(s)
    ensures OctalValue(s) == 512 * h + 64 * DigitAt(s, 2) + 8 * DigitAt(s, 1) + DigitAt(s, 0)
    ensures DigitAt(s, 2) < 8 && DigitAt(s, 1) < 8 && DigitAt(s, 0) < 8
  {
    hide OctalText, OctalValue, DigitAt;
    h := 0;
    NoDigits();
    SmallDigits(s);
    if s != "" {
      LastDigit(s);
      var a := s[..|s| - 1];
      if a != "" {
        LastDigit(a);
        var b := a[..|a| - 1];
        if b != "" {
          LastDigit(b);
          h := OctalValue(b[..|b| - 1]);
        }
      }
    }
  }

  /** A mode is refused exactly when it has a character that is no octal digit, or does not fit; an accepted one has
      the permission that its last three digits say, and the empty one is no mode. */
  lemma ParsedMode(s: string)
    ensures ParseMode(s) == Unset <==> s == ""
    ensures ParseMode(s) == Invalid <==>
            (exists i :: 0 <= i < |s| && (s[i] < '0' || '7' < s[i])) || (OctalText(s) && OctalValue(s) > 4294967295)
    ensures ParseMode(s).Octal? ==>
              var b := ParseMode(s).bits;
              OctalText(s) && b / 64 % 8 == DigitAt(s, 2) && b / 8 % 8 == DigitAt(s, 1) && b % 8 == DigitAt(s, 0)
  {
    if ParseMode(s).Octal? {
      hide OctalValue, DigitAt, Perm;
      var h := TextDigits(s);
      PermDigits(h, DigitAt(s, 2), DigitAt(s, 1), DigitAt(s, 0));
    }
  }

  datatype DesiredFile = DesiredFile(content: string, mode: Mode)

  type Desired = map<Path, DesiredFile>

  datatype Action = Add | Update | Unchanged | Remove

  datatype Change = Change(action: Action, name: Path, content: string, mode: Mode, existing: Option<string>)

  datatype Error = UnsafePath(p: Path) | NotADirectory | InvalidMode

  /** The file at p is what df asks for; without a mode any permission will do. */
  predicate Right(t: Tree, p: Path, df: DesiredFile) {
    IsFile(t, p) && t[p].content == df.content && (df.mode.Octal? ==> t[p].perm == Perm(df.mode.bits))
  }

  /** The same in digits: the content, and if there is a mode the three low octal digits of the mode. */
  lemma RightDigits(t: Tree, p: Path, df: DesiredFile)
    ensures Right(t, p, df) <==>
            && p in t && t[p].File? && t[p].content == df.content
            && (df.mode.Octal? ==>
                  var b := df.mode.bits; t[p].perm == 64 * (b / 64 % 8) + 8 * (b / 8 % 8) + b % 8)
  {
    if df.mode.Octal? {
      PermParts(df.mode.bits);
    }
    hide Perm;
  }

  function Entry(action: Action, p: Path, df: DesiredFile, existing: Option<string>): Change {
    Change(action, p, df.content, df.mode, existing)
  }

  const NOTHING: DesiredFile := DesiredFile("", Unset)

  /** The change planned for one desired file. */
  function Classify(t: Tree, p: Path, df: DesiredFile): (r: Result<Change, Error>)
    ensures r.Ok? ==> r.value.name == p && r.value.action != Remove
    ensures r.Ok? ==> (r.value.action == Add <==> p !in t)
    ensures r.Ok? && r.value.action != Unchanged ==> r.value.content == df.content && r.value.mode == df.mode
    ensures df.mode != Invalid ==> r.Ok? && (r.value.action == Unchanged <==> Right(t, p, df))
    ensures df.mode == Invalid ==> r.Err? || r.value.action != Unchanged
    ensures r.Ok? && r.value.action == Unchanged ==> r.value == Change(Unchanged, p, "", Unset, None)
    ensures r.Ok? && r.value.action != Unchanged ==>
              r.value.existing == if p in t && t[p].File? then Some(t[p].content) else None
  {
    if p !in t then Ok(Entry(Add, p, df, None))
    else match t[p]
      case Dir => Ok(Entry(Update, p, df, None))
      case File(content, perm) =>
        if content != df.content then Ok(Entry(Update, p, df, Some(content)))
        else match df.mode
          case Unset => Ok(Entry(Unchanged, p, NOTHING, None))
          case Invalid => Err(InvalidMode)
          case Octal(bits) =>
            if perm != Perm(bits) then Ok(Entry(Update, p, df, Some(content)))
            else Ok(Entry(Unchanged, p, NOTHING, None))
  }

  /** The managed files that are on disk. */
  ghost function ManagedFiles(t: Tree): set<Path> {
    set p | p in t && t[p].File? && Managed(p)
  }

  ghost function Extras(t: Tree, desired: Desired): set<Path> {
    ManagedFiles(t) - desired.Keys
  }

  function Removal(p: Path): Change {
    Entry(Remove, p, NOTHING, None)
  }

  /** One entry for each path of the set, in the order of the names. */
  ghost predicate OneEach(changes: seq<Change>, paths: set<Path>) {
    && (forall p :: p in paths <==> exists i :: 0 <= i < |changes| && changes[i].name == p)
    && (forall i, j :: 0 <= i < j < |changes| ==> changes[i].name != changes[j].name
                                                  && NameLe(changes[i].name, changes[j].name))
  }

  ghost predicate DesiredPart(t: Tree, desired: Desired, changes: seq<Change>) {
    && OneEach(changes, desired.Keys)
    && (forall i :: 0 <= i < |changes| ==> changes[i].name in desired
                                           && Classify(t, changes[i].name, desired[changes[i].name]) == Ok(changes[i]))
  }

  ghost predicate RemovalPart(t: Tree, desired: Desired, changes: seq<Change>) {
    && OneEach(changes, Extras(t, desired))
    && (forall i :: 0 <= i < |changes| ==> changes[i] == Removal(changes[i].name))
  }

  /** A plan for the desired files on the tree t: first one entry for each desired file, in the
      order of the names, then one removal for each extra file, in the order of the names. */
  ghost predicate Planned(t: Tree, desired: Desired, changes: seq<Change>) {
    && |desired| <= |changes|
    && DesiredPart(t, desired, changes[..|desired|])
    && RemovalPart(t, desired, changes[|desired|..])
  }

  /** What lies at or below p. */
  ghost function Under(t: Tree, p: Path): set<Path> {
    set q | q in t && p <= q
  }

  lemma BelowShrinks(t: Tree, p: Path, e: Path)
    requires p in t && |p| < |e| && p <= e
    ensures Under(t, e) < Under(t, p)
  {
    forall q | q in Under(t, e) ensures q in Under(t, p) {
      assert p == e[..|p|] == q[..|p|];
    }
    assert p in Under(t, p) && p !in Under(t, e);
  }

  /** q lies at or below one of the first i entries. */
  ghost predicate Hit(entries: seq<Path>, i: nat, q: Path)
    requires i <= |entries|
  {
    exists j :: 0 <= j < i && entries[j] <= q
  }

  lemma HitNext(entries: seq<Path>, i: nat, q: Path)
    requires i < |entries|
    ensures Hit(entries, i + 1, q) <==> Hit(entries, i, q) || entries[i] <= q
  {
  }

  lemma EntriesApart(entries: seq<Path>, i: nat, n: nat, q: Path)
    requires i < |entries| && Distinct(entries) && forall e :: e in entries ==> |e| == n
    ensures !(Hit(entries, i, q) && entries[i] <= q)
  {
    assert entries[i] in entries && (entries[i] <= q ==> entries[i] == q[..n]);
    forall j | 0 <= j < i ensures entries[j] <= q ==> entries[j] == q[..n] {
      assert entries[j] in entries;
    }
  }

  ghost predicate Lists(t: Tree, out: seq<Path>, entries: seq<Path>, i: nat)
    requires i <= |entries|
  {
    Distinct(out) && forall q :: q in out <==> IsFile(t, q) && Hit(entries, i, q)
  }

  lemma ListsNext(t: Tree, out: seq<Path>, sub: seq<Path>, entries: seq<Path>, i: nat, n: nat)
    requires i < |entries| && Distinct(entries) && forall e :: e in entries ==> |e| == n
    requires Lists(t, out, entries, i)
    requires Distinct(sub) && forall q :: q in sub <==> IsFile(t, q) && entries[i] <= q
    ensures Lists(t, out + sub, entries, i + 1)
  {
    forall q ensures q in out + sub <==> IsFile(t, q) && Hit(entries, i + 1, q) {
      HitNext(entries, i, q);
    }
    forall q | q in sub ensures q !in out {
      EntriesApart(entries, i, n, q);
    }
    DistinctConcat(out, sub);
  }

  lemma DistinctConcat<T>(a: seq<T>, b: seq<T>)
    requires Distinct(a) && Distinct(b) && forall x :: x in b ==> x !in a
    ensures Distinct(a + b)
  {
    forall i, j | 0 <= i < j < |a + b| ensures (a + b)[i] != (a + b)[j] {
      if i < |a| <= j {
        assert a[i] in a && b[j - |a|] in b;
      }
    }
  }

  lemma FileHasNothingBelow(t: Tree, e: Path, q: Path)
    requires WellFormed(t) && IsFile(t, e) && q in t && e <= q
    ensures q == e
  {
    assert e == q[..|e|];
    if |e| < |q| {
      AncestorIsDir(t, q, |e|);
    }
  }

  /** filepath.WalkDir over a directory, keeping the regular files. */
  method WalkFiles(disk: Disk, p: Path) returns (out: seq<Path>)
    requires WellFormed(disk.tree) && IsDir(disk.tree, p)
    ensures forall q :: q in out <==> IsFile(disk.tree, q) && p <= q
    ensures Distinct(out)
    decreases Under(disk.tree, p)
  {
    hide WellFormed, Lists, Hit;
    ghost var t := disk.tree;
    var entries := disk.ReadDir(p);
    out := [];
    assert Lists(t, out, entries, 0) by {
      ListsNone(t, entries);
    }
    for i := 0 to |entries|
      invariant Lists(t, out, entries, i)
    {
      var e := entries[i];
      assert e in entries;
      var sub;
      if disk.tree[e].Dir? {
        BelowShrinks(t, p, e);
        sub := WalkFiles(disk, e);
      } else {
        sub := [e];
        forall q | q in t && e <= q ensures q == e {
          FileHasNothingBelow(t, e, q);
        }
      }
      ListsNext(t, out, sub, entries, i, |p| + 1);
      out := out + sub;
    }
    ListsAll(t, out, entries, p);
  }

  lemma ListsNone(t: Tree, entries: seq<Path>)
    ensures Lists(t, [], entries, 0)
  {
  }

  lemma ListsAll(t: Tree, out: seq<Path>, entries: seq<Path>, p: Path)
    requires WellFormed(t) && IsDir(t, p) && Lists(t, out, entries, |entries|)
    requires forall q :: q in entries <==> q in t && |q| == |p| + 1 && p <= q
    ensures Distinct(out) && forall q :: q in out <==> IsFile(t, q) && p <= q
  {
    forall q ensures q in out <==> IsFile(t, q) && p <= q {
      if IsFile(t, q) && p <= q {
        ChildOf(t, p, q);
        var j :| 0 <= j < |entries| && entries[j] == q[..|p| + 1];
        assert entries[j] <= q;
      }
    }
  }

  /** A path strictly below the directory p lies at or below one of its entries. */
  lemma ChildOf(t: Tree, p: Path, q: Path)
    requires WellFormed(t) && q in t && p <= q && p != q
    ensures q[..|p| + 1] in t && p <= q[..|p| + 1] <= q
  {
    if |p| + 1 < |q| {
      AncestorIsDir(t, q, |p| + 1);
    } else {
      assert q[..|p| + 1] == q;
    }
  }

  /** The flat unit files among the entries of the directory. */
  method FlatFiles(disk: Disk, entries: seq<Path>) returns (out: seq<Path>)
    requires Distinct(entries) && forall e :: e in entries ==> e in disk.tree && |e| == 1
    ensures Distinct(out)
    ensures forall q :: q in out <==> q in entries && q in ManagedFiles(disk.tree)
  {
    out := [];
    for i := 0 to |entries|
      invariant Distinct(out)
      invariant forall q :: q in out <==> q in entries[..i] && q in ManagedFiles(disk.tree)
    {
      var e := entries[i];
      assert entries[..i + 1] == entries[..i] + [e] && e in entries && e !in entries[..i];
      if disk.tree[e].File? && Ext(e[0]) in EXTENSIONS {
        out := out + [e];
      }
    }
    assert entries[..|entries|] == entries;
  }

  /** ListExisting: the managed files under the directory. */
  method ListExisting(disk: Disk) returns (r: Result<seq<Path>, Error>)
    requires WellFormed(disk.tree)
    ensures r.Ok? <==> !IsFile(disk.tree, [])
    ensures r.Ok? ==> Distinct(r.value) && forall q :: q in r.value <==> q in ManagedFiles(disk.tree)
  {
    ghost var t := disk.tree;
    if disk.Lstat([]).NotExist? {
      NoRoot(t);
      return Ok([]);
    }
    if disk.tree[[]].File? {
      return Err(NotADirectory);
    }
    var entries := disk.ReadDir([]);
    var out := FlatFiles(disk, entries);
    var inner := [];
    if disk.Lstat(IMAGES).Found? && disk.tree[IMAGES].Dir? {
      inner := WalkFiles(disk, IMAGES);
    }
    AllManaged(t, entries, out, inner);
    r := Ok(out + inner);
  }

  lemma AllManaged(t: Tree, entries: seq<Path>, flat: seq<Path>, inner: seq<Path>)
    requires WellFormed(t) && forall q :: q in entries <==> q in t && |q| == 1 && [] <= q
    requires Distinct(flat) && forall q :: q in flat <==> q in entries && q in ManagedFiles(t)
    requires Distinct(inner) && forall q :: q in inner <==> IsDir(t, IMAGES) && IsFile(t, q) && IMAGES <= q
    ensures Distinct(flat + inner) && forall q :: q in flat + inner <==> q in ManagedFiles(t)
  {
    forall q ensures IsDir(t, IMAGES) && IsFile(t, q) && IMAGES <= q <==> q in ManagedFiles(t) && |q| != 1 {
      if IMAGES <= q {
        assert IMAGES[0] == q[0];
        assert |q| == 1 ==> q == IMAGES;
      }
      if q in ManagedFiles(t) && |q| != 1 {
        AncestorIsDir(t, q, 1);
        assert q[..1] == IMAGES;
      }
    }
    DistinctConcat(flat, inner);
  }

  lemma NoRoot(t: Tree)
    requires WellFormed(t) && [] !in t
    ensures t == map[]
  {
    forall p | p in t ensures false {
      if |p| > 0 {
        AncestorIsDir(t, p, 0);
      }
    }
  }

  /** The loop of ComputePlan over the desired names. */
  method PlanDesired(disk: Disk, desired: Desired, names: seq<Path>) returns (r: Result<seq<Change>, Error>)
    requires forall p :: p in names ==> p in desired
    ensures r.Ok? <==> forall p :: p in names ==> IsLocal(p) && Classify(disk.tree, p, desired[p]).Ok?
    ensures r.Ok? ==> |r.value| == |names|
    ensures r.Ok? ==> forall j :: 0 <= j < |names| ==>
        Classify(disk.tree, names[j], desired[names[j]]) == Ok(r.value[j])
  {
    var changes := [];
    for i := 0 to |names|
      invariant |changes| == i
      invariant forall j :: 0 <= j < i ==> IsLocal(names[j])
      invariant forall j :: 0 <= j < i ==> Classify(disk.tree, names[j], desired[names[j]]) == Ok(changes[j])
    {
      var name := names[i];
      assert name in names;
      if !IsLocal(name) {
        return Err(UnsafePath(name));
      }
      var c := Classify(disk.tree, name, desired[name]);
      if c.Err? {
        return Err(c.error);
      }
      changes := changes + [c.value];
    }
    r := Ok(changes);
  }

  /** The loops of ComputePlan over what is on disk. */
  method PlanRemovals(onDisk: seq<Path>, desired: Desired) returns (extra: seq<Path>, changes: seq<Change>)
    requires Distinct(onDisk)
    ensures Distinct(extra) && Sorted(extra, NameLe)
    ensures forall q :: q in extra <==> q in onDisk && q !in desired
    ensures |changes| == |extra| && forall j :: 0 <= j < |extra| ==> changes[j] == Removal(extra[j])
    ensures forall j :: 0 <= j < |extra| ==> changes[j] == Change(Remove, extra[j], "", Unset, None)
  {
    var unsorted := [];
    for i := 0 to |onDisk|
      invariant Distinct(unsorted) && forall q :: q in unsorted <==> q in onDisk[..i] && q !in desired
    {
      assert onDisk[..i + 1] == onDisk[..i] + [onDisk[i]] && onDisk[i] !in onDisk[..i];
      if onDisk[i] !in desired {
        unsorted := unsorted + [onDisk[i]];
      }
    }
    assert onDisk[..|onDisk|] == onDisk;
    NameOrder();
    extra := Sort(unsorted, NameLe);
    SameElems(extra, unsorted);
    DistinctPermutation(extra, unsorted);
    changes := [];
    for i := 0 to |extra|
      invariant |changes| == i && forall j :: 0 <= j < i ==> changes[j] == Removal(extra[j])
    {
      changes := changes + [Removal(extra[i])];
    }
  }

  /** ComputePlan */
  method ComputePlan(disk: Disk, desired: Desired) returns (r: Result<seq<Change>, Error>)
    requires WellFormed(disk.tree)
    ensures r.Ok? <==> !IsFile(disk.tree, [])
                       && forall p :: p in desired ==> IsLocal(p) && Classify(disk.tree, p, desired[p]).Ok?
    ensures r.Ok? ==> Planned(disk.tree, desired, r.value)
  {
    NameOrder();
    var names := SortedSet(desired.Keys, NameLe);
    var changes := PlanDesired(disk, desired, names);
    if changes.Err? {
      return changes;
    }
    var onDisk := ListExisting(disk);
    if onDisk.Err? {
      return Err(onDisk.error);
    }
    var extra, removals := PlanRemovals(onDisk.value, desired);
    PlanHolds(disk.tree, desired, names, extra, changes.value, removals);
    r := Ok(changes.value + removals);
  }

  lemma EachName(names: seq<Path>, changes: seq<Change>, paths: set<Path>)
    requires |names| == |changes| && forall i :: 0 <= i < |names| ==> changes[i].name == names[i]
    requires Distinct(names) && Sorted(names, NameLe) && forall p :: p in names <==> p in paths
    ensures OneEach(changes, paths)
  {
    forall p | p in paths ensures exists i :: 0 <= i < |changes| && changes[i].name == p {
      var i :| 0 <= i < |names| && names[i] == p;
      assert changes[i].name == p;
    }
    forall i | 0 <= i < |changes| ensures changes[i].name in paths {
      assert names[i] in names;
    }
  }

  lemma PlanHolds(t: Tree, desired: Desired, names: seq<Path>, extra: seq<Path>,
                  changes: seq<Change>, removals: seq<Change>)
    requires |names| == |desired| == |changes| && |extra| == |removals|
    requires Distinct(names) && Sorted(names, NameLe) && forall p :: p in names <==> p in desired
    requires Distinct(extra) && Sorted(extra, NameLe) && forall p :: p in extra <==> p in Extras(t, desired)
    requires forall j :: 0 <= j < |names| ==>
        names[j] in desired && Classify(t, names[j], desired[names[j]]) == Ok(changes[j])
    requires forall j :: 0 <= j < |extra| ==> removals[j] == Removal(extra[j])
    ensures Planned(t, desired, changes + removals)
  {
    EachName(names, changes, desired.Keys);
    EachName(extra, removals, Extras(t, desired));
    assert (changes + removals)[..|desired|] == changes && (changes + removals)[|desired|..] == removals;
  }
}
