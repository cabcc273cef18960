/**
 * The failure counter and automatic disabling of a channel binding: collectHost in server/controllers/channels.go.
 * The code saves the count plus one, then increments its own copy and compares that. Whether saving a map of
 * columns also updates the copy is up to the database layer, which is not part of this model: `echoes` says so.
 */
module ChannelHealth {
  const FAIL_THRESHOLD: nat := 5

  /** How one call of collectHost ends. */
  datatype Outcome = GateTaken | UnknownType | Failed(status: string) | SaveFailed | Collected

  /** A binding's row, with the number of channel_disabled events written for it. */
  datatype Health = Health(failCount: nat, enabled: bool, lastStatus: string, disabledEvents: nat)

  /** The saved count at which a failure disables the binding. */
  function Limit(echoes: bool): nat {
    if echoes then FAIL_THRESHOLD - 1 else FAIL_THRESHOLD
  }

  function After(b: Health, o: Outcome, echoes: bool): Health {
    match o
    case GateTaken => b
    case UnknownType => b
    case Failed(status) =>
      var n := b.failCount + 1;
      Health(n, b.enabled && n < Limit(echoes), status, b.disabledEvents + if n >= Limit(echoes) then 1 else 0)
    case SaveFailed => b
    case Collected => b.(failCount := 0, lastStatus := "ok")
  }

  class ChannelBinding {
    var failCount: nat
    var enabled: bool
    var lastStatus: string
    var disabledEvents: nat

    ghost function Value(): Health
      reads this
    {
      Health(failCount, enabled, lastStatus, disabledEvents)
    }

    /** `failCount` is the saved column; the loaded copy starts equal to it and is not used again. */
    method CollectHost(o: Outcome, echoes: bool)
      modifies this
      ensures Value() == After(old(Value()), o, echoes)
      ensures o.GateTaken? || o.UnknownType? || o.SaveFailed? ==> unchanged(this)
      ensures o.Collected? ==> failCount == 0 && lastStatus == "ok" && enabled == old(enabled) && disabledEvents == old(disabledEvents)
      ensures o.Failed? ==> failCount == old(failCount) + 1 && lastStatus == o.status
      ensures o.Failed? && failCount >= (if echoes then 4 else 5) ==> !enabled && disabledEvents == old(disabledEvents) + 1
      ensures o.Failed? && failCount < (if echoes then 4 else 5) ==> enabled == old(enabled) && disabledEvents == old(disabledEvents)
    {
      if o.GateTaken? || o.UnknownType? {
        return;
      }
      if o.Failed? {
        var copy := failCount;
        lastStatus := o.status;
        failCount := copy + 1;
        if echoes {
          copy := failCount;
        }
        copy := copy + 1;
        if copy >= FAIL_THRESHOLD {
          enabled := false;
          disabledEvents := disabledEvents + 1;
        }
        return;
      }
      if o.SaveFailed? {
        return;
      }
      lastStatus := "ok";
      failCount := 0;
    }
  }

  /** Only enabled bindings are collected, so outcomes after the disabling one never happen. */
  function History(b: Health, os: seq<Outcome>, echoes: bool): Health {
    if os == [] then b
    else
      var before := History(b, os[..|os| - 1], echoes);
      if before.enabled then After(before, os[|os| - 1], echoes) else before
  }

  /** Failures since the last saved collection. */
  function Streak(os: seq<Outcome>): nat {
    if os == [] then 0
    else
      var before := Streak(os[..|os| - 1]);
      match os[|os| - 1]
      case Failed(_) => before + 1
      case Collected => 0
      case _ => before
  }

  ghost predicate InARow(os: seq<Outcome>, n: nat) {
    exists j :: 0 <= j <= |os| && Streak(os[..j]) >= n
  }

  lemma InARowGrows(os: seq<Outcome>, n: nat)
    requires os != []
    ensures InARow(os, n) <==> InARow(os[..|os| - 1], n) || Streak(os) >= n
  {
    var init := os[..|os| - 1];
    assert os[..|os|] == os;
    assert forall j :: 0 <= j <= |init| ==> init[..j] == os[..j];
    if InARow(init, n) {
      var j :| 0 <= j <= |init| && Streak(init[..j]) >= n;
      assert Streak(os[..j]) >= n;
    }
    if InARow(os, n) {
      var j :| 0 <= j <= |os| && Streak(os[..j]) >= n;
      if j < |os| { assert Streak(init[..j]) >= n; }
    }
  }

  /**
   * A fresh binding is disabled exactly when that many failures have come without a saved collection in
   * between (skipped and unsaved collections do not count either way), with exactly one event: five, or
   * four when saving the count also updates the copy that is then incremented.
   */
  lemma {:induction false} DisabledIffInARow(os: seq<Outcome>, echoes: bool)
    ensures var b := History(Health(0, true, "", 0), os, echoes);
            && (b.enabled <==> !InARow(os, Limit(echoes)))
            && (b.enabled ==> b.failCount == Streak(os) && b.disabledEvents == 0)
            && (!b.enabled ==> b.failCount == Limit(echoes) && b.disabledEvents == 1)
  {
    if os == [] {
      assert os[..0] == [];
    } else {
      DisabledIffInARow(os[..|os| - 1], echoes);
      InARowGrows(os, Limit(echoes));
      StreakIsInARow(os[..|os| - 1], Limit(echoes));
    }
  }

  lemma StreakIsInARow(os: seq<Outcome>, n: nat)
    ensures Streak(os) >= n ==> InARow(os, n)
  {
    assert os[..|os|] == os;
  }
}
