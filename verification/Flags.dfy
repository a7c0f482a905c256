/** The log of +1/-1 flags on users, and its two readings: the sum that the map and the
    audit list use, and the newest row that the current_insincere view and the flag
    dialog use. */
module Flags {
  import opened Schema
  import opened Ordering

  const INSINCERE := "insincere"

  predicate Concerns(f: Flag, user: int) {
    f.target == user && f.kind == INSINCERE
  }

  function FlagSum(flags: seq<Flag>, user: int): int {
    if flags == [] then 0
    else
      var f := flags[|flags| - 1];
      FlagSum(flags[..|flags| - 1], user) + if Concerns(f, user) then f.value else 0
  }

  /** ORDER BY created_at DESC, id DESC. */
  predicate Newer(f: Flag, g: Flag) {
    f.createdAt > g.createdAt || (f.createdAt == g.createdAt && f.id > g.id)
  }

  ghost predicate IsNewest(flags: seq<Flag>, user: int, f: Flag) {
    && f in flags && Concerns(f, user)
    && forall g :: g in flags && Concerns(g, user) && g != f ==> Newer(f, g)
  }

  /** The current_insincere view: the newest row of the user exists and is a mark. */
  ghost predicate CurrentInsincere(flags: seq<Flag>, user: int) {
    exists f :: IsNewest(flags, user, f) && f.value == 1
  }

  /** The sum rule and the newest-row rule say the same about the user. */
  ghost predicate RulesAgree(flags: seq<Flag>, user: int) {
    FlagSum(flags, user) > 0 <==> CurrentInsincere(flags, user)
  }

  /** The row Store.SetInsincere appends. */
  function NewFlag(flags: seq<Flag>, target: int, insincere: bool, who: int, now: int): Flag {
    Flag(NextFlagId(flags), target, INSINCERE, if insincere then 1 else -1, who, now)
  }

  /** Rows written by a clock that does not go back, under increasing ids. */
  ghost predicate Chronological(flags: seq<Flag>) {
    forall i, j :: 0 <= i < j < |flags| ==> flags[i].id < flags[j].id && flags[i].createdAt <= flags[j].createdAt
  }

  lemma {:induction false} FlagSumOfConcat(a: seq<Flag>, b: seq<Flag>, user: int)
    ensures FlagSum(a + b, user) == FlagSum(a, user) + FlagSum(b, user)
    decreases |b|
  {
    if b == [] {
      assert a + b == a;
    } else {
      var n := |b| - 1;
      assert (a + b)[..|a + b| - 1] == a + b[..n];
      FlagSumOfConcat(a, b[..n], user);
    }
  }

  /** The sum is over the rows of type "insincere" that target the user. */
  lemma FlagSumMeans(flags: seq<Flag>, f: Flag, user: int)
    ensures FlagSum([], user) == 0
    ensures FlagSum(flags + [f], user) ==
            FlagSum(flags, user) + if f.target == user && f.kind == "insincere" then f.value else 0
  {
    assert (flags + [f])[..|flags|] == flags;
  }

  /** The view's user has a row of type "insincere" of value 1 that no other such row of the user
      follows by time and then by id. */
  lemma CurrentMeans(flags: seq<Flag>, user: int)
    ensures CurrentInsincere(flags, user) <==>
            exists f :: f in flags && f.target == user && f.kind == "insincere" && f.value == 1
              && forall g :: g in flags && g.target == user && g.kind == "insincere" && g != f ==>
                   f.createdAt > g.createdAt || (f.createdAt == g.createdAt && f.id > g.id)
  {
    if f :| f in flags && f.target == user && f.kind == "insincere" && f.value == 1
            && forall g :: g in flags && g.target == user && g.kind == "insincere" && g != f ==>
                 f.createdAt > g.createdAt || (f.createdAt == g.createdAt && f.id > g.id)
    {
      assert IsNewest(flags, user, f);
    }
  }

  /** With a clock that does not go back, the newest row of the target is the appended one. */
  lemma AppendedIsNewest(flags: seq<Flag>, f: Flag, user: int)
    requires Chronological(flags + [f]) && Concerns(f, user)
    ensures IsNewest(flags + [f], user, f)
    ensures forall g :: IsNewest(flags + [f], user, g) ==> g == f
  {
    var all := flags + [f];
    assert all[|flags|] == f;
    forall g | g in all && Concerns(g, user) && g != f
      ensures Newer(f, g)
    {
      var i :| 0 <= i < |all| && all[i] == g;
    }
  }

  lemma AppendedIsElsewhere(flags: seq<Flag>, f: Flag, user: int)
    requires !Concerns(f, user)
    ensures FlagSum(flags + [f], user) == FlagSum(flags, user)
    ensures CurrentInsincere(flags + [f], user) <==> CurrentInsincere(flags, user)
  {
    FlagSumOfConcat(flags, [f], user);
    assert forall g :: IsNewest(flags + [f], user, g) <==> IsNewest(flags, user, g);
  }

  /** The exact condition, for any history: right after a mark the two rules agree if and
      only if the sum before it was not negative, and right after a clearing if and only if
      the sum before it was at most one. */
  lemma AgreeAfterAppendIff(flags: seq<Flag>, f: Flag)
    requires Chronological(flags + [f]) && f.kind == INSINCERE && (f.value == 1 || f.value == -1)
    ensures RulesAgree(flags + [f], f.target) <==>
            if f.value == 1 then FlagSum(flags, f.target) >= 0 else FlagSum(flags, f.target) <= 1
  {
    AppendedIsNewest(flags, f, f.target);
    FlagSumOfConcat(flags, [f], f.target);
    assert FlagSum([f], f.target) == f.value;
  }

  /** A row of the flag list: the flag and who set it. */
  datatype Listed = Listed(flag: Flag, flaggedByOpaque: string)

  function Rows(list: seq<Listed>): seq<Flag> {
    seq(|list|, i requires 0 <= i < |list| => list[i].flag)
  }

  lemma RowsOfAppend(list: seq<Listed>, r: Listed)
    ensures Rows(list + [r]) == Rows(list) + [r.flag]
  {
  }

  lemma NewestFirst(list: seq<Listed>)
    requires Sorted(Newer, Rows(list))
    ensures forall i, j :: 0 <= i < j < |list| ==>
              || list[i].flag.createdAt > list[j].flag.createdAt
              || (list[i].flag.createdAt == list[j].flag.createdAt && list[i].flag.id > list[j].flag.id)
  {
    forall i, j | 0 <= i < j < |list|
      ensures Newer(list[i].flag, list[j].flag)
    {
      assert Newer(Rows(list)[i], Rows(list)[j]);
    }
  }

  // ---------------------------------------------------------------------------
  // The flag dialog
  // ---------------------------------------------------------------------------

  /** flags.find((f) => f.flag_type === "insincere") on the listed flags. */
  function FirstInsincere(list: seq<Flag>): Option<Flag> {
    if list == [] then None else if list[0].kind == INSINCERE then Some(list[0]) else FirstInsincere(list[1..])
  }

  lemma {:induction false} FirstIsNewest(list: seq<Flag>, user: int)
    requires Sorted(Newer, list) && forall f :: f in list ==> f.target == user
    ensures FirstInsincere(list).None? ==> forall f :: f in list ==> !Concerns(f, user)
    ensures FirstInsincere(list).Some? ==> IsNewest(list, user, FirstInsincere(list).value)
  {
    if list == [] {
    } else {
      FirstIsNewest(list[1..], user);
      if list[0].kind == INSINCERE {
        forall g | g in list && g != list[0]
          ensures Newer(list[0], g)
        {
          var i :| 0 <= i < |list| && list[i] == g;
        }
      }
    }
  }

  /** What the dialog shows as the user's state is what the view says. */
  lemma DialogReadsTheView(flags: seq<Flag>, user: int, list: seq<Flag>)
    requires Sorted(Newer, list) && forall f :: f in list <==> f in flags && f.target == user
    ensures CurrentInsincere(flags, user) <==> FirstInsincere(list).Some? && FirstInsincere(list).value.value == 1
  {
    FirstIsNewest(list, user);
    assert forall f :: f in list && Concerns(f, user) <==> f in flags && Concerns(f, user);
    assert forall f :: IsNewest(flags, user, f) <==> IsNewest(list, user, f);
  }

  // ---------------------------------------------------------------------------
  // The toggle protocol
  // ---------------------------------------------------------------------------

  /** The dialog reads the newest row of the target and the click appends its opposite. */
  ghost predicate Toggles(flags: seq<Flag>, target: int, who: int, now: int, flags': seq<Flag>) {
    && flags' == flags + [NewFlag(flags, target, !CurrentInsincere(flags, target), who, now)]
    && forall f :: f in flags ==> f.createdAt <= now
  }

  ghost predicate IsToggle(flags: seq<Flag>, flags': seq<Flag>) {
    exists target, who, now :: Toggles(flags, target, who, now, flags')
  }

  ghost predicate ToggleRun(trace: seq<seq<Flag>>) {
    && trace != [] && trace[0] == []
    && forall k :: 0 <= k < |trace| - 1 ==> IsToggle(trace[k], trace[k + 1])
  }

  ghost predicate InStep(flags: seq<Flag>, user: int) {
    && (FlagSum(flags, user) == 0 || FlagSum(flags, user) == 1)
    && RulesAgree(flags, user)
  }

  lemma ToggleKeepsInStep(flags: seq<Flag>, target: int, who: int, now: int, flags': seq<Flag>, user: int)
    requires Toggles(flags, target, who, now, flags') && Chronological(flags) && InStep(flags, user)
    ensures Chronological(flags') && InStep(flags', user)
  {
    var f := flags'[|flags|];
    assert flags' == flags + [f];
    assert Chronological(flags');
    if user == target {
      AgreeAfterAppendIff(flags, f);
      FlagSumOfConcat(flags, [f], user);
      assert FlagSum([f], user) == f.value;
    } else {
      AppendedIsElsewhere(flags, f, user);
    }
  }

  /** Over every run of toggles on any users, each user's sum stays 0 or 1, and the map's
      sum rule and the view's newest-row rule hide the same users after every toggle. */
  lemma {:induction false} TogglesStayInStep(trace: seq<seq<Flag>>, k: nat, user: int)
    requires ToggleRun(trace) && k < |trace|
    ensures Chronological(trace[k]) && InStep(trace[k], user)
  {
    if k == 0 {
      assert FlagSum([], user) == 0;
    } else {
      TogglesStayInStep(trace, k - 1, user);
      assert IsToggle(trace[k - 1], trace[k - 1 + 1]);
      var target, who, now :| Toggles(trace[k - 1], target, who, now, trace[k]);
      ToggleKeepsInStep(trace[k - 1], target, who, now, trace[k], user);
    }
  }

  lemma MarkAddsOne(flags: seq<Flag>, target: int, insincere: bool, who: int, now: int)
    requires Chronological(flags) && forall f :: f in flags ==> f.createdAt <= now
    ensures var flags' := flags + [NewFlag(flags, target, insincere, who, now)];
            && Chronological(flags')
            && FlagSum(flags', target) == FlagSum(flags, target) + (if insincere then 1 else -1)
            && (CurrentInsincere(flags', target) <==> insincere)
  {
    var f := NewFlag(flags, target, insincere, who, now);
    AppendedIsNewest(flags, f, target);
    FlagSumOfConcat(flags, [f], target);
    assert FlagSum([f], target) == f.value;
  }

  /** Reading and appending are two requests. When two dialogs read before either appends,
      both mark; the next toggle, a clearing, then leaves the user hidden from the map by the
      sum rule while the view and the dialog call the user cleared. */
  lemma StaleReadBreaksAgreement(flags: seq<Flag>, target: int, who: int, now: int)
    returns (f1: seq<Flag>, f2: seq<Flag>, f3: seq<Flag>)
    requires Chronological(flags) && (forall f :: f in flags ==> f.createdAt <= now)
    requires InStep(flags, target) && !CurrentInsincere(flags, target)
    ensures f1 == flags + [NewFlag(flags, target, !CurrentInsincere(flags, target), who, now)]
    ensures f2 == f1 + [NewFlag(f1, target, !CurrentInsincere(flags, target), who, now)]
    ensures Toggles(f2, target, who, now, f3)
    ensures FlagSum(f3, target) > 0 && !CurrentInsincere(f3, target)
  {
    MarkAddsOne(flags, target, true, who, now);
    f1 := flags + [NewFlag(flags, target, true, who, now)];
    MarkAddsOne(f1, target, true, who, now);
    f2 := f1 + [NewFlag(f1, target, true, who, now)];
    MarkAddsOne(f2, target, false, who, now);
    f3 := f2 + [NewFlag(f2, target, false, who, now)];
  }
}
