/** `apsys_power_ctrl`: the rails of the application processor are switched off from the first entry of
    the rail table to the last and on from the last to the first, stopping at the first regulator
    call that fails.  A call that fails may or may not have switched its rail. */
module Rails {

  datatype Outcome = Ok | Failed(switched: bool)

  /** What the k-th regulator call of one run of the loop reports. */
  type Regulator = nat -> Outcome

  function Switch(on: set<nat>, rail: nat, ena: bool): set<nat> {
    if ena then on + {rail} else on - {rail}
  }

  /** The rail the k-th call is for, in a table of `n`. */
  function RailOf(k: nat, n: nat, ena: bool): nat
    requires k < n
  {
    if ena then n - k - 1 else k
  }

  /** From the k-th call on: the rails on afterwards, and whether all calls succeeded. */
  function Ctrl(on: set<nat>, n: nat, ena: bool, regulator: Regulator, k: nat): (set<nat>, bool)
    requires k <= n
    decreases n - k
  {
    if k == n then (on, true) else
    match regulator(k)
    case Ok => Ctrl(Switch(on, RailOf(k, n, ena), ena), n, ena, regulator, k + 1)
    case Failed(switched) => (if switched then Switch(on, RailOf(k, n, ena), ena) else on, false)
  }

  /** The rails that are on are the last ones of the table. */
  ghost predicate Suffix(on: set<nat>, n: nat) {
    && (forall i :: i in on ==> i < n)
    && (forall i, j :: i in on && i < j < n ==> j in on)
  }

  /** How far the loop has come: the first `k` calls have left their rails as wanted. */
  ghost predicate Done(on: set<nat>, n: nat, ena: bool, k: nat)
    requires k <= n
  {
    if ena then forall i :: n - k <= i < n ==> i in on else forall i :: i in on ==> i >= k
  }

  /** Aborted or not, one call of the function keeps the rails a suffix; if it succeeds, enabling has
      switched all of them on and disabling all of them off. */
  lemma {:induction false} CtrlKeepsSuffix(on: set<nat>, n: nat, ena: bool, regulator: Regulator, k: nat)
    requires k <= n && Suffix(on, n) && Done(on, n, ena, k)
    ensures var (on', ok) := Ctrl(on, n, ena, regulator, k);
      && Suffix(on', n)
      && (ok ==> forall i: nat :: i in on' <==> ena && i < n)
    decreases n - k
  {
    if k == n {
      assert Ctrl(on, n, ena, regulator, k) == (on, true);
      assert forall i: nat :: i in on <==> ena && i < n;
    } else {
      var on1 := Switch(on, RailOf(k, n, ena), ena);
      SwitchKeepsSuffix(on, n, ena, k);
      if regulator(k) == Ok {
        CtrlKeepsSuffix(on1, n, ena, regulator, k + 1);
      }
    }
  }

  lemma SwitchKeepsSuffix(on: set<nat>, n: nat, ena: bool, k: nat)
    requires k < n && Suffix(on, n) && Done(on, n, ena, k)
    ensures var on1 := Switch(on, RailOf(k, n, ena), ena); Suffix(on1, n) && Done(on1, n, ena, k + 1)
  {
  }

  /** The first `k` rails of a run of the loop: the last ones of the table when enabling, the first ones
      when disabling. */
  predicate AmongFirst(r: nat, k: nat, n: nat, ena: bool) {
    if ena then n - k <= r < n else r < k && r < n
  }

  /** Exactly the first `k` rails have been switched. */
  ghost predicate Switched(on: set<nat>, on': set<nat>, k: nat, n: nat, ena: bool) {
    forall r: nat :: r in on' <==> if AmongFirst(r, k, n, ena) then ena else r in on
  }

  lemma {:induction false} CtrlUntil(on: set<nat>, n: nat, ena: bool, regulator: Regulator, k: nat)
    returns (on1: set<nat>)
    requires k <= n && forall i :: 0 <= i < k ==> regulator(i) == Ok
    ensures Ctrl(on, n, ena, regulator, 0) == Ctrl(on1, n, ena, regulator, k) && Switched(on, on1, k, n, ena)
  {
    on1 := on;
    if k > 0 {
      var was := CtrlUntil(on, n, ena, regulator, k - 1);
      on1 := Switch(was, RailOf(k - 1, n, ena), ena);
      SwitchedOneMore(on, was, k - 1, n, ena);
    }
  }

  lemma SwitchedOneMore(on: set<nat>, was: set<nat>, k: nat, n: nat, ena: bool)
    requires k < n && Switched(on, was, k, n, ena)
    ensures Switched(on, Switch(was, RailOf(k, n, ena), ena), k + 1, n, ena)
  {
  }

  /** Call `k` is the first that fails. */
  ghost predicate FailsFirst(regulator: Regulator, n: nat, k: nat) {
    k < n && regulator(k) != Ok && forall i :: 0 <= i < k ==> regulator(i) == Ok
  }

  /** When call `k` is the first to fail, so does the function, and exactly the first `k` rails in order
      have been switched, and the next one if the failing call switched it. */
  lemma StopsAtFailure(on: set<nat>, n: nat, ena: bool, regulator: Regulator, k: nat)
    requires FailsFirst(regulator, n, k)
    ensures var (on', ok) := Ctrl(on, n, ena, regulator, 0);
      !ok && Switched(on, on', if regulator(k).switched then k + 1 else k, n, ena)
  {
    var was := CtrlUntil(on, n, ena, regulator, k);
    SwitchedOneMore(on, was, k, n, ena);
  }

  /** The function succeeds exactly when every regulator call does. */
  lemma SucceedsIff(on: set<nat>, n: nat, ena: bool, regulator: Regulator)
    ensures Ctrl(on, n, ena, regulator, 0).1 <==> forall k :: 0 <= k < n ==> regulator(k) == Ok
  {
    if forall k :: 0 <= k < n ==> regulator(k) == Ok {
      var was := CtrlUntil(on, n, ena, regulator, n);
    } else {
      var k := FirstFailure(regulator, n, 0);
      StopsAtFailure(on, n, ena, regulator, k);
    }
  }

  lemma {:induction false} FirstFailure(regulator: Regulator, n: nat, j: nat) returns (k: nat)
    requires j <= n && (exists i :: j <= i < n && regulator(i) != Ok)
    requires forall i :: 0 <= i < j ==> regulator(i) == Ok
    ensures FailsFirst(regulator, n, k)
    decreases n - j
  {
    if regulator(j) != Ok { k := j; } else { k := FirstFailure(regulator, n, j + 1); }
  }

  datatype Call = Call(ena: bool, regulator: Regulator)

  function Calls(on: set<nat>, n: nat, cs: seq<Call>): set<nat>
    decreases |cs|
  {
    if cs == [] then on else Calls(Ctrl(on, n, cs[0].ena, cs[0].regulator, 0).0, n, cs[1..])
  }

  /** Over every run of enables and disables, with any calls failing anywhere, the rails that are on
      are always a suffix of the table. */
  lemma {:induction false} RunKeepsSuffix(on: set<nat>, n: nat, cs: seq<Call>)
    requires Suffix(on, n)
    ensures Suffix(Calls(on, n, cs), n)
    decreases |cs|
  {
    if cs != [] {
      CtrlKeepsSuffix(on, n, cs[0].ena, cs[0].regulator, 0);
      RunKeepsSuffix(Ctrl(on, n, cs[0].ena, cs[0].regulator, 0).0, n, cs[1..]);
    }
  }

  class Pmic {
    const rails: nat    // length of the rail table
    var on: set<nat>    // table entries whose rail is on

    ghost predicate Valid()
      reads this
    {
      Suffix(on, rails)
    }

    constructor (rails: nat)
      ensures Valid() && on == {} && this.rails == rails
    {
      this.rails, on := rails, {};
    }

    /** `apsys_power_ctrl`. */
    method PowerCtrl(ena: bool, regulator: Regulator) returns (ok: bool)
      requires Valid()
      modifies this
      ensures Valid() && (on, ok) == Ctrl(old(on), rails, ena, regulator, 0)
      ensures ok ==> forall i: nat :: i in on <==> ena && i < rails
    {
      CtrlKeepsSuffix(on, rails, ena, regulator, 0);
      for k := 0 to rails
        invariant Ctrl(on, rails, ena, regulator, k) == Ctrl(old(on), rails, ena, regulator, 0)
      {
        var rail := if ena then rails - k - 1 else k;
        var ret := regulator(k);
        if ret == Ok || ret.switched {
          on := if ena then on + {rail} else on - {rail};
        }
        if ret != Ok {
          return false;
        }
      }
      return true;
    }
  }
}
