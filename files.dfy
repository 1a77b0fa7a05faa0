/** The image folder on disk and os.rename, and the two-phase "rename all"
    that rename_ordered (main/main.py:490-520) and the first two steps of
    reload_folder (main/main.py:402-438) carry out: every listed file first
    goes to __TMP_RENAME_{i}{ext}, then to {i+1}{ext}. */
module Files {
  import opened Strings

  /** the identity of a file on disk (its contents), independent of its name */
  type FileId = nat

  /** os.rename(src, dst) inside the folder succeeds when src exists, the
      file is not held open by another program, and no other file already
      has the name dst */
  predicate CanRename(files: map<string, FileId>, locked: set<FileId>, src: string, dst: string)
  {
    src in files && files[src] !in locked && (dst == src || dst !in files)
  }

  /** the folder after a successful os.rename(src, dst) */
  function Renamed(files: map<string, FileId>, src: string, dst: string): (r: map<string, FileId>)
    requires src in files
    ensures dst in r && r[dst] == files[src]
    ensures src != dst ==> src !in r
    ensures forall n :: n != src && n != dst ==> (n in r <==> n in files) && (n in r ==> r[n] == files[n])
  {
    (files - {src})[dst := files[src]]
  }

  /** the folder as a name -> file map, and the files other programs hold open */
  class Folder {
    var files: map<string, FileId>
    const locked: set<FileId>

    constructor (files: map<string, FileId>, locked: set<FileId>)
      ensures this.files == files && this.locked == locked
    {
      this.files := files;
      this.locked := locked;
    }

    /** os.rename; ok is false where Python raises OSError */
    method Rename(src: string, dst: string) returns (ok: bool)
      modifies this
      ensures ok == CanRename(old(files), locked, src, dst)
      ensures files == if ok then Renamed(old(files), src, dst) else old(files)
    {
      ok := CanRename(files, locked, src, dst);
      if ok {
        files := Renamed(files, src, dst);
      }
    }

    /** a `for` loop of os.rename calls that ends at the first one that
        fails: how many renames were done, and the folder they leave */
    method RenameEach(steps: seq<Step>) returns (done: nat)
      modifies this
      ensures done == RunFirst(old(files), locked, steps, |steps|).done
      ensures files == RunFirst(old(files), locked, steps, |steps|).files
    {
      done := 0;
      while done < |steps|
        invariant done <= |steps| && RunFirst(old(files), locked, steps, done).done == done
        invariant files == RunFirst(old(files), locked, steps, done).files
      {
        var ok := Rename(steps[done].src, steps[done].dst);
        if !ok {
          RunStopsAt(old(files), locked, steps, done);
          return;
        }
        RunNextStep(old(files), locked, steps, done);
        done := done + 1;
      }
    }

    /** os.listdir: every name in the folder exactly once, in an order the
        operating system chooses */
    method ListDir() returns (names: seq<string>)
      ensures forall n :: n in names <==> n in files
      ensures forall i, j :: 0 <= i < j < |names| ==> names[i] != names[j]
      ensures forall n :: multiset(names)[n] == if n in files then 1 else 0
    {
      names := [];
      var rest := files.Keys;
      while rest != {}
        invariant rest <= files.Keys
        invariant forall n :: n in names <==> n in files && n !in rest
        invariant forall i, j :: 0 <= i < j < |names| ==> names[i] != names[j]
        invariant forall n :: multiset(names)[n] == if n in files && n !in rest then 1 else 0
        decreases |rest|
      {
        var n :| n in rest;
        names := names + [n];
        rest := rest - {n};
      }
    }
  }

  // ------------------------------------------------ a run of renames

  datatype Step = Step(src: string, dst: string)

  /** how many steps succeeded, and the folder afterwards */
  datatype Run = Run(done: nat, files: map<string, FileId>)

  /** the first m steps, carried out in order until one of them fails; a
      failed step changes nothing and nothing after it is attempted, and no
      earlier rename is undone */
  function RunFirst(files: map<string, FileId>, locked: set<FileId>, steps: seq<Step>, m: nat): (r: Run)
    requires m <= |steps|
    ensures r.done <= m
  {
    if m == 0 then Run(0, files)
    else
      var p := RunFirst(files, locked, steps, m - 1);
      if p.done == m - 1 && CanRename(p.files, locked, steps[m - 1].src, steps[m - 1].dst)
      then Run(m, Renamed(p.files, steps[m - 1].src, steps[m - 1].dst))
      else p
  }

  /** once a step has failed, later steps leave the run as it was */
  lemma {:induction false} RunStopped(files: map<string, FileId>, locked: set<FileId>, steps: seq<Step>, k: nat, m: nat)
    requires k <= m <= |steps| && RunFirst(files, locked, steps, k).done < k
    ensures RunFirst(files, locked, steps, m) == RunFirst(files, locked, steps, k)
    decreases m
  {
    if m > k {
      RunStopped(files, locked, steps, k, m - 1);
    }
  }

  /** the step a run stopped at could not be carried out on the folder it met */
  lemma {:induction false} RunFailedStep(files: map<string, FileId>, locked: set<FileId>, steps: seq<Step>, m: nat)
    requires m <= |steps|
    ensures var r := RunFirst(files, locked, steps, m);
      r.done < m ==>
        RunFirst(files, locked, steps, r.done).done == r.done &&
        RunFirst(files, locked, steps, r.done).files == r.files &&
        !CanRename(r.files, locked, steps[r.done].src, steps[r.done].dst)
    decreases m
  {
    if m > 0 {
      RunFailedStep(files, locked, steps, m - 1);
    }
  }

  lemma RunZero(files: map<string, FileId>, locked: set<FileId>, steps: seq<Step>)
    ensures RunFirst(files, locked, steps, 0) == Run(0, files)
  {
  }

  /** a run that carried out all of its first k steps carried out the first
      k - 1, and then step k - 1 on the folder they left */
  lemma RunLastStep(files: map<string, FileId>, locked: set<FileId>, steps: seq<Step>, j: nat, k: nat)
    requires k == j + 1 <= |steps| && RunFirst(files, locked, steps, k).done == k
    ensures var p := RunFirst(files, locked, steps, j);
      p.done == j && CanRename(p.files, locked, steps[j].src, steps[j].dst) &&
      RunFirst(files, locked, steps, k).files == Renamed(p.files, steps[j].src, steps[j].dst)
  {
  }

  /** the first m steps of a run do not look at the steps after them */
  lemma {:induction false} RunPrefix(files: map<string, FileId>, locked: set<FileId>, steps: seq<Step>, more: seq<Step>, m: nat)
    requires m <= |steps|
    ensures RunFirst(files, locked, steps + more, m) == RunFirst(files, locked, steps, m)
  {
    if m > 0 {
      RunPrefix(files, locked, steps, more, m - 1);
      assert (steps + more)[m - 1] == steps[m - 1];
    }
  }

  /** a run whose step k fails ends where the first k steps left it */
  lemma RunStopsAt(files: map<string, FileId>, locked: set<FileId>, steps: seq<Step>, k: nat)
    requires k < |steps| && RunFirst(files, locked, steps, k).done == k
    requires !CanRename(RunFirst(files, locked, steps, k).files, locked, steps[k].src, steps[k].dst)
    ensures RunFirst(files, locked, steps, |steps|) == RunFirst(files, locked, steps, k)
  {
    RunStopped(files, locked, steps, k + 1, |steps|);
  }

  /** a run that carried out its first k steps and can carry out step k carries out k + 1 */
  lemma RunNextStep(files: map<string, FileId>, locked: set<FileId>, steps: seq<Step>, k: nat)
    requires k < |steps| && RunFirst(files, locked, steps, k).done == k
    requires CanRename(RunFirst(files, locked, steps, k).files, locked, steps[k].src, steps[k].dst)
    ensures RunFirst(files, locked, steps, k + 1) ==
      Run(k + 1, Renamed(RunFirst(files, locked, steps, k).files, steps[k].src, steps[k].dst))
  {
  }

  /** the same step, for a caller that already names the next count */
  lemma RunStepTo(files: map<string, FileId>, locked: set<FileId>, steps: seq<Step>, j: nat, k: nat)
    requires k == j + 1 <= |steps| && RunFirst(files, locked, steps, j).done == j
    requires CanRename(RunFirst(files, locked, steps, j).files, locked, steps[j].src, steps[j].dst)
    ensures RunFirst(files, locked, steps, k).done == k
  {
  }

  // --------------------------------------------- the two-phase renaming

  /** f"__TMP_RENAME_{i}{ext}" */
  function TmpName(i: nat, ext: string): string
  {
    "__TMP_RENAME_" + Decimal(i) + ext
  }

  /** f"{idx}{ext}" */
  function SeqName(idx: nat, ext: string): string
  {
    Decimal(idx) + ext
  }

  predicate IsTmp(n: string) { "__TMP_RENAME_" <= n }

  function TmpNames(names: seq<string>): (r: seq<string>)
    ensures |r| == |names| && forall i :: 0 <= i < |names| ==> r[i] == TmpName(i, Ext(names[i]))
  {
    seq(|names|, i requires 0 <= i < |names| => TmpName(i, Ext(names[i])))
  }

  /** the final names, 1-based: {i+1}{ext of the i-th name} */
  function SeqNames(names: seq<string>): (r: seq<string>)
    ensures |r| == |names| && forall i :: 0 <= i < |names| ==> r[i] == SeqName(i + 1, Ext(names[i]))
  {
    seq(|names|, i requires 0 <= i < |names| => SeqName(i + 1, Ext(names[i])))
  }


  /** one rename per position: srcs[i] -> dsts[i] */
  function Moves(srcs: seq<string>, dsts: seq<string>): (r: seq<Step>)
    requires |srcs| == |dsts|
    ensures |r| == |srcs| && forall i :: 0 <= i < |srcs| ==> r[i] == Step(srcs[i], dsts[i])
  {
    seq(|srcs|, i requires 0 <= i < |srcs| => Step(srcs[i], dsts[i]))
  }

  /** the destination of each step */
  function Dsts(steps: seq<Step>): (r: seq<string>)
    ensures |r| == |steps| && forall i :: 0 <= i < |steps| ==> r[i] == steps[i].dst
  {
    seq(|steps|, i requires 0 <= i < |steps| => steps[i].dst)
  }

  lemma MovesDsts(srcs: seq<string>, dsts: seq<string>)
    requires |srcs| == |dsts|
    ensures Dsts(Moves(srcs, dsts)) == dsts
  {
  }

  /** a digit string followed by an extension splits back into both */
  lemma DigitsExtSplit(d1: string, e1: string, d2: string, e2: string)
    requires d1 != [] && d2 != [] && AllDigits(d1) && AllDigits(d2) && IsExt(e1) && IsExt(e2)
    requires d1 + e1 == d2 + e2
    ensures d1 == d2 && e1 == e2
  {
    ExtAfterDigits(d1, e1);
    ExtAfterDigits(d2, e2);
    assert d1 == (d1 + e1)[..|d1 + e1| - |e1|];
    assert d2 == (d2 + e2)[..|d2 + e2| - |e2|];
  }

  lemma DecimalInjective(a: nat, b: nat)
    requires Decimal(a) == Decimal(b)
    ensures a == b
  {
    DecimalRoundTrip(a);
    DecimalRoundTrip(b);
  }

  /** different positions get different temporary names */
  lemma TmpNameInjective(i: nat, e1: string, j: nat, e2: string)
    requires IsExt(e1) && IsExt(e2) && TmpName(i, e1) == TmpName(j, e2)
    ensures i == j && e1 == e2
  {
    var p := "__TMP_RENAME_";
    assert TmpName(i, e1)[|p|..] == Decimal(i) + e1;
    assert TmpName(j, e2)[|p|..] == Decimal(j) + e2;
    DigitsExtSplit(Decimal(i), e1, Decimal(j), e2);
    DecimalInjective(i, j);
  }

  /** different positions get different final names */
  lemma SeqNameInjective(i: nat, e1: string, j: nat, e2: string)
    requires IsExt(e1) && IsExt(e2) && SeqName(i, e1) == SeqName(j, e2)
    ensures i == j && e1 == e2
  {
    DigitsExtSplit(Decimal(i), e1, Decimal(j), e2);
    DecimalInjective(i, j);
  }

  /** the temporary names of phase 1 are pairwise distinct */
  lemma TmpNamesDistinct(names: seq<string>)
    ensures forall i, j :: 0 <= i < j < |names| ==> TmpNames(names)[i] != TmpNames(names)[j]
  {
    forall i, j | 0 <= i < j < |names|
      ensures TmpNames(names)[i] != TmpNames(names)[j]
    {
      if TmpNames(names)[i] == TmpNames(names)[j] {
        TmpNameInjective(i, Ext(names[i]), j, Ext(names[j]));
      }
    }
  }

  /** the final names of phase 2 are pairwise distinct */
  lemma SeqNamesDistinct(names: seq<string>)
    ensures forall i, j :: 0 <= i < j < |names| ==> SeqNames(names)[i] != SeqNames(names)[j]
  {
    forall i, j | 0 <= i < j < |names|
      ensures SeqNames(names)[i] != SeqNames(names)[j]
    {
      if SeqNames(names)[i] == SeqNames(names)[j] {
        SeqNameInjective(i + 1, Ext(names[i]), j + 1, Ext(names[j]));
      }
    }
  }

  /** a final name never looks like a temporary one: it starts with a digit */
  lemma SeqNameNotTmp(idx: nat, ext: string)
    ensures !IsTmp(SeqName(idx, ext))
  {
    assert SeqName(idx, ext)[0] == Decimal(idx)[0];
  }

  lemma TmpNameIsTmp(i: nat, ext: string)
    ensures IsTmp(TmpName(i, ext))
  {
    assert TmpName(i, ext) == "__TMP_RENAME_" + (Decimal(i) + ext);
  }

  predicate Distinct(names: seq<string>)
  {
    forall i, j :: 0 <= i < j < |names| ==> names[i] != names[j]
  }


  /** names, temporary names and final names are each pairwise distinct, and
      only the temporary names carry the __TMP_RENAME_ prefix */
  ghost predicate Fresh(names: seq<string>, tmps: seq<string>, finals: seq<string>, T: set<string>)
  {
    |tmps| == |names| && |finals| == |names| &&
    Distinct(names) && Distinct(tmps) && Distinct(finals) &&
    (forall i :: 0 <= i < |names| ==> names[i] !in T && tmps[i] in T && finals[i] !in T)
  }

  /** the temporary names of a listing, as a set */
  function TmpSet(names: seq<string>): (t: set<string>)
    ensures forall i :: 0 <= i < |names| ==> TmpNames(names)[i] in t
    ensures forall n :: n in t ==> IsTmp(n)
  {
    forall i | 0 <= i < |names| ensures IsTmp(TmpNames(names)[i]) {
      TmpNameIsTmp(i, Ext(names[i]));
    }
    set i | 0 <= i < |names| :: TmpNames(names)[i]
  }

  /** f"__TMP_RENAME_{i}{ext}" and f"{i+1}{ext}" meet Fresh for distinct
      names that are not temporary names themselves */
  lemma NamesFresh(names: seq<string>)
    requires Distinct(names) && forall i :: 0 <= i < |names| ==> names[i] !in TmpSet(names)
    ensures Fresh(names, TmpNames(names), SeqNames(names), TmpSet(names))
  {
    TmpNamesDistinct(names);
    SeqNamesDistinct(names);
    forall i | 0 <= i < |names| ensures SeqNames(names)[i] !in TmpSet(names) {
      SeqNameNotTmp(i + 1, Ext(names[i]));
    }
  }

  /** name n is present in f exactly when it is in g, for the same file */
  ghost predicate Same(f: map<string, FileId>, g: map<string, FileId>, n: string)
  {
    (n in f <==> n in g) && (n in f ==> f[n] == g[n])
  }

  /** the folder after the first k renames of phase 1: those files sit under
      their temporary names, their old names are free, nothing else moved */
  ghost predicate AfterTmp(f0: map<string, FileId>, names: seq<string>, tmps: seq<string>, T: set<string>, k: nat, f: map<string, FileId>)
    requires k <= |names| == |tmps|
  {
    (forall j :: 0 <= j < k ==> names[j] in f0 && tmps[j] in f && f[tmps[j]] == f0[names[j]]) &&
    (forall j :: 0 <= j < k ==> names[j] !in f) &&
    (forall n :: n !in T && n !in names[..k] ==> Same(f, f0, n)) &&
    (forall n :: n in f && n in T ==> n in tmps[..k])
  }

  /** the name about to move is new among the names moved so far, and so is its temporary name */
  lemma TmpStepFacts(names: seq<string>, tmps: seq<string>, finals: seq<string>, T: set<string>, k: nat)
    requires Fresh(names, tmps, finals, T) && k < |names|
    ensures names[..k + 1] == names[..k] + [names[k]] && tmps[..k + 1] == tmps[..k] + [tmps[k]]
    ensures names[k] !in names[..k] && tmps[k] !in tmps[..k]
  {
    assert forall i :: 0 <= i < k ==> names[..k][i] == names[i];
    assert forall i :: 0 <= i < k ==> tmps[..k][i] == tmps[i];
  }

  lemma TmpStepHeld(f0: map<string, FileId>, names: seq<string>, tmps: seq<string>, finals: seq<string>, T: set<string>,
                    locked: set<FileId>, k: nat, next: nat, f: map<string, FileId>)
    requires Fresh(names, tmps, finals, T) && next == k + 1 <= |names| && AfterTmp(f0, names, tmps, T, k, f)
    requires CanRename(f, locked, names[k], tmps[k])
    ensures var g := Renamed(f, names[k], tmps[k]);
      forall j :: 0 <= j < next ==> names[j] in f0 && tmps[j] in g && g[tmps[j]] == f0[names[j]] && names[j] !in g
  {
    var src, dst := names[k], tmps[k];
    var g := Renamed(f, src, dst);
    TmpStepFacts(names, tmps, finals, T, k);
    assert Same(f, f0, src);
    forall j | 0 <= j < next
      ensures names[j] in f0 && tmps[j] in g && g[tmps[j]] == f0[names[j]] && names[j] !in g
    {
      if j < k { assert tmps[j] != dst && tmps[j] != src && names[j] != dst; }
    }
  }

  lemma TmpStepRest(f0: map<string, FileId>, names: seq<string>, tmps: seq<string>, finals: seq<string>, T: set<string>,
                    locked: set<FileId>, k: nat, next: nat, f: map<string, FileId>)
    requires Fresh(names, tmps, finals, T) && next == k + 1 <= |names| && AfterTmp(f0, names, tmps, T, k, f)
    requires CanRename(f, locked, names[k], tmps[k])
    ensures var g := Renamed(f, names[k], tmps[k]);
      (forall n :: n !in T && n !in names[..next] ==> Same(g, f0, n)) &&
      (forall n :: n in g && n in T ==> n in tmps[..next])
  {
    var src, dst := names[k], tmps[k];
    var g := Renamed(f, src, dst);
    TmpStepFacts(names, tmps, finals, T, k);
    forall n | n !in T && n !in names[..next] ensures Same(g, f0, n) {
      assert n !in names[..k] && n != src && n != dst;
    }
    forall n | n in g && n in T ensures n in tmps[..next] {
      if n != dst { assert n in f; }
    }
  }

  lemma TmpStep(f0: map<string, FileId>, names: seq<string>, tmps: seq<string>, finals: seq<string>, T: set<string>,
                locked: set<FileId>, k: nat, next: nat, f: map<string, FileId>)
    requires Fresh(names, tmps, finals, T) && next == k + 1 <= |names| && AfterTmp(f0, names, tmps, T, k, f)
    requires CanRename(f, locked, names[k], tmps[k])
    ensures AfterTmp(f0, names, tmps, T, next, Renamed(f, names[k], tmps[k]))
  {
    TmpStepHeld(f0, names, tmps, finals, T, locked, k, next, f);
    TmpStepRest(f0, names, tmps, finals, T, locked, k, next, f);
  }

  lemma TmpStart(f0: map<string, FileId>, names: seq<string>, tmps: seq<string>, finals: seq<string>, T: set<string>)
    requires Fresh(names, tmps, finals, T) && (forall n :: n in f0 ==> n !in T)
    ensures AfterTmp(f0, names, tmps, T, 0, f0)
  {
  }

  /** phase 1 run for k steps without failing leaves the folder as AfterTmp says */
  lemma {:induction false} Phase1Progress(f0: map<string, FileId>, locked: set<FileId>,
                                          names: seq<string>, tmps: seq<string>, finals: seq<string>, T: set<string>, k: nat)
    requires Fresh(names, tmps, finals, T) && (forall n :: n in f0 ==> n !in T) && k <= |names|
    requires RunFirst(f0, locked, Moves(names, tmps), k).done == k
    ensures AfterTmp(f0, names, tmps, T, k, RunFirst(f0, locked, Moves(names, tmps), k).files)
  {
    if k == 0 {
      RunZero(f0, locked, Moves(names, tmps));
      TmpStart(f0, names, tmps, finals, T);
    } else {
      var j := k - 1;
      RunLastStep(f0, locked, Moves(names, tmps), j, k);
      Phase1Progress(f0, locked, names, tmps, finals, T, j);
      assert Moves(names, tmps)[j] == Step(names[j], tmps[j]);
      TmpStep(f0, names, tmps, finals, T, locked, j, k, RunFirst(f0, locked, Moves(names, tmps), j).files);
    }
  }

  /** the folder after phase 1 and the first k renames of phase 2 */
  ghost predicate AfterSeq(f0: map<string, FileId>, names: seq<string>, tmps: seq<string>, finals: seq<string>, T: set<string>,
                           k: nat, f: map<string, FileId>)
    requires k <= |names| == |tmps| == |finals|
  {
    (forall j :: 0 <= j < |names| ==> names[j] in f0) &&
    (forall j :: 0 <= j < k ==> finals[j] in f && f[finals[j]] == f0[names[j]]) &&
    (forall j :: k <= j < |names| ==> tmps[j] in f && f[tmps[j]] == f0[names[j]]) &&
    (forall n :: n !in T && n !in names && n !in finals[..k] ==> Same(f, f0, n)) &&
    (forall n :: n in names && n !in finals[..k] ==> n !in f) &&
    (forall n :: n in f && n in T ==> n in tmps[k..])
  }

  lemma SeqStart(f0: map<string, FileId>, names: seq<string>, tmps: seq<string>, finals: seq<string>, T: set<string>, f: map<string, FileId>)
    requires Fresh(names, tmps, finals, T) && AfterTmp(f0, names, tmps, T, |names|, f)
    ensures AfterSeq(f0, names, tmps, finals, T, 0, f)
  {
    assert names[..|names|] == names;
    assert tmps[..|names|] == tmps[0..];
    forall n | n in names ensures n !in f {
      var j :| 0 <= j < |names| && names[j] == n;
    }
  }

  /** the final name about to be taken is new among the final names used so far */
  lemma SeqStepFacts(names: seq<string>, tmps: seq<string>, finals: seq<string>, T: set<string>, k: nat)
    requires Fresh(names, tmps, finals, T) && k < |names|
    ensures finals[..k + 1] == finals[..k] + [finals[k]]
    ensures tmps[k..] == [tmps[k]] + tmps[k + 1..]
    ensures finals[k] !in finals[..k]
  {
    assert forall i :: 0 <= i < k ==> finals[..k][i] == finals[i];
  }

  lemma SeqStepHeld(f0: map<string, FileId>, names: seq<string>, tmps: seq<string>, finals: seq<string>, T: set<string>,
                    locked: set<FileId>, k: nat, f: map<string, FileId>)
    requires Fresh(names, tmps, finals, T) && k < |names| && AfterSeq(f0, names, tmps, finals, T, k, f)
    requires CanRename(f, locked, tmps[k], finals[k])
    ensures var g := Renamed(f, tmps[k], finals[k]);
      (forall j :: 0 <= j < k + 1 ==> finals[j] in g && g[finals[j]] == f0[names[j]]) &&
      (forall j :: k + 1 <= j < |names| ==> tmps[j] in g && g[tmps[j]] == f0[names[j]])
  {
    var src, dst := tmps[k], finals[k];
    var g := Renamed(f, src, dst);
    forall j | 0 <= j < k + 1 ensures finals[j] in g && g[finals[j]] == f0[names[j]] {
      if j < k { assert finals[j] != dst && finals[j] != src; }
    }
    forall j | k + 1 <= j < |names| ensures tmps[j] in g && g[tmps[j]] == f0[names[j]] {
      assert tmps[j] != dst && tmps[j] != src;
    }
  }

  lemma SeqStepOthers(f0: map<string, FileId>, names: seq<string>, tmps: seq<string>, finals: seq<string>, T: set<string>,
                      locked: set<FileId>, k: nat, f: map<string, FileId>)
    requires Fresh(names, tmps, finals, T) && k < |names| && AfterSeq(f0, names, tmps, finals, T, k, f)
    requires CanRename(f, locked, tmps[k], finals[k])
    ensures var g := Renamed(f, tmps[k], finals[k]);
      forall n :: n !in T && n !in names && n !in finals[..k + 1] ==> Same(g, f0, n)
  {
    var g := Renamed(f, tmps[k], finals[k]);
    SeqStepFacts(names, tmps, finals, T, k);
    forall n | n !in T && n !in names && n !in finals[..k + 1] ensures Same(g, f0, n) {
      assert n !in finals[..k];
    }
  }

  lemma SeqStepFreed(f0: map<string, FileId>, names: seq<string>, tmps: seq<string>, finals: seq<string>, T: set<string>,
                     locked: set<FileId>, k: nat, f: map<string, FileId>)
    requires Fresh(names, tmps, finals, T) && k < |names| && AfterSeq(f0, names, tmps, finals, T, k, f)
    requires CanRename(f, locked, tmps[k], finals[k])
    ensures var g := Renamed(f, tmps[k], finals[k]);
      forall n :: n in names && n !in finals[..k + 1] ==> n !in g
  {
    var g := Renamed(f, tmps[k], finals[k]);
    SeqStepFacts(names, tmps, finals, T, k);
    forall n | n in names && n !in finals[..k + 1] ensures n !in g {
      assert n !in T by {
        var j :| 0 <= j < |names| && names[j] == n;
      }
      assert n !in finals[..k];
    }
  }

  lemma SeqStepTmps(f0: map<string, FileId>, names: seq<string>, tmps: seq<string>, finals: seq<string>, T: set<string>,
                    locked: set<FileId>, k: nat, f: map<string, FileId>)
    requires Fresh(names, tmps, finals, T) && k < |names| && AfterSeq(f0, names, tmps, finals, T, k, f)
    requires CanRename(f, locked, tmps[k], finals[k])
    ensures var g := Renamed(f, tmps[k], finals[k]);
      forall n :: n in g && n in T ==> n in tmps[k + 1..]
  {
    var src, g := tmps[k], Renamed(f, tmps[k], finals[k]);
    SeqStepFacts(names, tmps, finals, T, k);
    forall n | n in g && n in T ensures n in tmps[k + 1..] {
      assert n in f && n != src;
      assert n in tmps[k..];
    }
  }

  lemma SeqStep(f0: map<string, FileId>, names: seq<string>, tmps: seq<string>, finals: seq<string>, T: set<string>,
                locked: set<FileId>, k: nat, f: map<string, FileId>)
    requires Fresh(names, tmps, finals, T) && k < |names| && AfterSeq(f0, names, tmps, finals, T, k, f)
    requires CanRename(f, locked, tmps[k], finals[k])
    ensures AfterSeq(f0, names, tmps, finals, T, k + 1, Renamed(f, tmps[k], finals[k]))
  {
    SeqStepHeld(f0, names, tmps, finals, T, locked, k, f);
    SeqStepOthers(f0, names, tmps, finals, T, locked, k, f);
    SeqStepFreed(f0, names, tmps, finals, T, locked, k, f);
    SeqStepTmps(f0, names, tmps, finals, T, locked, k, f);
  }

  /** what makes both phases succeed: the listed names are distinct files of
      the folder, none of them is held open, no temporary name is in use, and
      every final name already taken belongs to a listed file (which moves
      out of the way in phase 1) */
  predicate SafeToRename(f0: map<string, FileId>, locked: set<FileId>, names: seq<string>)
  {
    Distinct(names) &&
    (forall i :: 0 <= i < |names| ==> names[i] in f0 && f0[names[i]] !in locked && TmpNames(names)[i] !in f0) &&
    (forall i :: 0 <= i < |names| && SeqNames(names)[i] in f0 ==> SeqNames(names)[i] in names)
  }

  /** the next phase-1 rename can be carried out */
  lemma TmpNextOk(f0: map<string, FileId>, locked: set<FileId>,
                  names: seq<string>, tmps: seq<string>, finals: seq<string>, T: set<string>, k: nat, f: map<string, FileId>)
    requires Fresh(names, tmps, finals, T) && k < |names| && AfterTmp(f0, names, tmps, T, k, f)
    requires names[k] in f0 && f0[names[k]] !in locked
    ensures CanRename(f, locked, names[k], tmps[k])
  {
    var src, dst := names[k], tmps[k];
    assert src !in names[..k] by {
      assert forall i :: 0 <= i < k ==> names[..k][i] == names[i];
    }
    assert dst !in tmps[..k] by {
      assert forall i :: 0 <= i < k ==> tmps[..k][i] == tmps[i];
    }
    assert Same(f, f0, src);
  }

  /** the next phase-2 rename can be carried out */
  lemma SeqNextOk(f0: map<string, FileId>, locked: set<FileId>,
                  names: seq<string>, tmps: seq<string>, finals: seq<string>, T: set<string>, k: nat, f: map<string, FileId>)
    requires Fresh(names, tmps, finals, T) && k < |names| && AfterSeq(f0, names, tmps, finals, T, k, f)
    requires f0[names[k]] !in locked
    requires finals[k] in f0 ==> finals[k] in names
    ensures CanRename(f, locked, tmps[k], finals[k])
  {
    var dst := finals[k];
    assert dst !in finals[..k] by {
      assert forall i :: 0 <= i < k ==> finals[..k][i] == finals[i];
    }
    if dst !in names {
      assert Same(f, f0, dst);
    }
  }

  lemma {:induction false} Phase1Completes(f0: map<string, FileId>, locked: set<FileId>,
                                           names: seq<string>, tmps: seq<string>, finals: seq<string>, T: set<string>, k: nat)
    requires Fresh(names, tmps, finals, T) && k <= |names|
    requires (forall n :: n in f0 ==> n !in T) && forall i :: 0 <= i < |names| ==> names[i] in f0 && f0[names[i]] !in locked
    ensures RunFirst(f0, locked, Moves(names, tmps), k).done == k
  {
    if k > 0 {
      var steps, j := Moves(names, tmps), k - 1;
      Phase1Completes(f0, locked, names, tmps, finals, T, j);
      Phase1Progress(f0, locked, names, tmps, finals, T, j);
      TmpNextOk(f0, locked, names, tmps, finals, T, j, RunFirst(f0, locked, steps, j).files);
      assert steps[j] == Step(names[j], tmps[j]);
      RunStepTo(f0, locked, steps, j, k);
    }
  }

  /** one more rename of phase 2 succeeds and keeps AfterSeq, whatever folder f1 phase 2 started from */
  lemma Phase2Step(f0: map<string, FileId>, f1: map<string, FileId>, locked: set<FileId>,
                   names: seq<string>, tmps: seq<string>, finals: seq<string>, T: set<string>, k: nat)
    requires Fresh(names, tmps, finals, T) && k < |names|
    requires names[k] in f0 && f0[names[k]] !in locked && (finals[k] in f0 ==> finals[k] in names)
    requires RunFirst(f1, locked, Moves(tmps, finals), k).done == k
    requires AfterSeq(f0, names, tmps, finals, T, k, RunFirst(f1, locked, Moves(tmps, finals), k).files)
    ensures RunFirst(f1, locked, Moves(tmps, finals), k + 1).done == k + 1
    ensures AfterSeq(f0, names, tmps, finals, T, k + 1, RunFirst(f1, locked, Moves(tmps, finals), k + 1).files)
  {
    var steps := Moves(tmps, finals);
    var p := RunFirst(f1, locked, steps, k);
    SeqNextOk(f0, locked, names, tmps, finals, T, k, p.files);
    SeqStep(f0, names, tmps, finals, T, locked, k, p.files);
    RunNextStep(f1, locked, steps, k);
  }

  /** phase 1 runs to the end, and phase 2 starts from the folder AfterSeq describes for k = 0 */
  lemma Phase2Begin(f0: map<string, FileId>, locked: set<FileId>,
                    names: seq<string>, tmps: seq<string>, finals: seq<string>, T: set<string>)
    requires Fresh(names, tmps, finals, T)
    requires (forall n :: n in f0 ==> n !in T) && forall i :: 0 <= i < |names| ==> names[i] in f0 && f0[names[i]] !in locked
    ensures var f1 := RunFirst(f0, locked, Moves(names, tmps), |names|).files;
      var r := RunFirst(f1, locked, Moves(tmps, finals), 0);
      r.done == 0 && AfterSeq(f0, names, tmps, finals, T, 0, r.files)
  {
    var f1 := RunFirst(f0, locked, Moves(names, tmps), |names|).files;
    Phase1Completes(f0, locked, names, tmps, finals, T, |names|);
    Phase1Progress(f0, locked, names, tmps, finals, T, |names|);
    SeqStart(f0, names, tmps, finals, T, f1);
    RunZero(f1, locked, Moves(tmps, finals));
  }

  /** phase 2, run on the folder phase 1 left, completes k renames and
      leaves the folder as AfterSeq says */
  lemma {:induction false} Phase2Run(f0: map<string, FileId>, locked: set<FileId>,
                                     names: seq<string>, tmps: seq<string>, finals: seq<string>, T: set<string>, k: nat)
    requires Fresh(names, tmps, finals, T) && k <= |names|
    requires (forall n :: n in f0 ==> n !in T) && forall i :: 0 <= i < |names| ==> names[i] in f0 && f0[names[i]] !in locked
    requires forall i :: 0 <= i < |names| && finals[i] in f0 ==> finals[i] in names
    ensures var f1 := RunFirst(f0, locked, Moves(names, tmps), |names|).files;
      var r := RunFirst(f1, locked, Moves(tmps, finals), k);
      r.done == k && AfterSeq(f0, names, tmps, finals, T, k, r.files)
  {
    var f1 := RunFirst(f0, locked, Moves(names, tmps), |names|).files;
    if k == 0 {
      Phase2Begin(f0, locked, names, tmps, finals, T);
    } else {
      Phase2Run(f0, locked, names, tmps, finals, T, k - 1);
      Phase2Step(f0, f1, locked, names, tmps, finals, T, k - 1);
    }
  }

  /** under SafeToRename both phases run to the end; the file at 0-based
      position i is then named {i+1}{ext_i}, every other listed name is gone,
      no temporary name is left, and every other file is untouched */
  lemma TwoPhaseRenames(f0: map<string, FileId>, locked: set<FileId>, names: seq<string>)
    requires SafeToRename(f0, locked, names)
    ensures var p1 := RunFirst(f0, locked, Moves(names, TmpNames(names)), |names|);
      var p2 := RunFirst(p1.files, locked, Moves(TmpNames(names), SeqNames(names)), |names|);
      var f := p2.files;
      p1.done == |names| && p2.done == |names| &&
      (forall i :: 0 <= i < |names| ==> SeqNames(names)[i] in f && f[SeqNames(names)[i]] == f0[names[i]]) &&
      (forall n :: n in names && n !in SeqNames(names) ==> n !in f) &&
      (forall n :: n in f ==> n !in TmpSet(names)) &&
      (forall n :: n !in names && n !in SeqNames(names) ==> (n in f <==> n in f0) && (n in f ==> f[n] == f0[n]))
  {
    var tmps, finals, T := TmpNames(names), SeqNames(names), TmpSet(names);
    assert forall n :: n in f0 ==> n !in T;
    NamesFresh(names);
    Phase1Completes(f0, locked, names, tmps, finals, T, |names|);
    var p1 := RunFirst(f0, locked, Moves(names, tmps), |names|);
    Phase2Run(f0, locked, names, tmps, finals, T, |names|);
    assert finals[..|names|] == finals;
    assert tmps[|names|..] == [];
    var f := RunFirst(p1.files, locked, Moves(tmps, finals), |names|).files;
    forall n | n !in names && n !in finals ensures Same(f, f0, n) {
      if n in T {
        assert n !in f0 && n !in f;
      }
    }
  }

  /** when phase 1 stops after k > 0 renames, the files renamed so far are
      left under their temporary names and their old names are free */
  lemma Phase1FailureLeavesTmp(f0: map<string, FileId>, locked: set<FileId>, names: seq<string>)
    requires Distinct(names) && (forall n :: n in f0 ==> !IsTmp(n)) && forall i :: 0 <= i < |names| ==> !IsTmp(names[i])
    ensures var r := RunFirst(f0, locked, Moves(names, TmpNames(names)), |names|);
      forall j :: 0 <= j < r.done ==> TmpNames(names)[j] in r.files && names[j] !in r.files
  {
    var tmps, T := TmpNames(names), TmpSet(names);
    NamesFresh(names);
    var r := RunFirst(f0, locked, Moves(names, tmps), |names|);
    RunFailedStep(f0, locked, Moves(names, tmps), |names|);
    Phase1Progress(f0, locked, names, tmps, SeqNames(names), T, r.done);
  }

  /** renaming a folder already named 1, 2, 3, ... in list order gives the same names back */
  lemma RenameIdempotent(names: seq<string>)
    requires forall i :: 0 <= i < |names| ==> exists e :: IsExt(e) && names[i] == SeqName(i + 1, e)
    ensures SeqNames(names) == names
  {
    forall i | 0 <= i < |names| ensures SeqNames(names)[i] == names[i] {
      var e :| IsExt(e) && names[i] == SeqName(i + 1, e);
      ExtAfterDigits(Decimal(i + 1), e);
    }
  }
}
