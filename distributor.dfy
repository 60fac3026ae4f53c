/** The operand distributor (assign_opers): the collected intermediate operands
    are dealt out over the declared operand slots in order. Every slot first
    takes its lower limit from the required pool, then takes optional tokens
    from the extra pool: all of them when unbounded, otherwise as many as its
    upper limit allows. */
module Distributor {
  import opened Decl

  /** The two pools of the loop: `extra` optional and `req` required tokens. */
  datatype Rest = Rest(extra: nat, req: nat)

  /** The sum of select_lower over the first n slots (nlower). */
  function SumLower(opers: seq<Arg>, n: nat): nat
    requires n <= |opers|
  {
    if n == 0 then 0 else SumLower(opers, n - 1) + SelectLower(opers[n - 1].bounds)
  }

  /** The sum of the value-view lengths of the first n slots. */
  function SumLen(opers: seq<Arg>, n: nat): nat
    requires n <= |opers|
  {
    if n == 0 then 0 else SumLen(opers, n - 1) + opers[n - 1].val.len
  }

  /** `ioper.strings + off`; an unset intermediate view stays unset. */
  function StartAt(base: Option<nat>, off: nat): Option<nat>
  {
    if base.Some? then Some(base.value + off) else None
  }

  /** The required tokens slot `a` takes from the pool. */
  function AddReq(a: Arg, rest: Rest): nat
  {
    Min(rest.req, SelectLower(a.bounds))
  }

  /** The optional tokens slot `a` takes when `extra` are left. */
  function AddExtra(a: Arg, extra: nat): (r: nat)
    ensures r <= extra
  {
    if a.bounds.inf then extra else Min(extra, SelectUpper(a.bounds))
  }

  /** One pass of the loop body over slot `a`. */
  function Fill(a: Arg, count: nat, rest: Rest, base: Option<nat>): Arg
    requires rest.extra + rest.req <= count
  {
    var start := if count == 0 || a.val.start.None? then StartAt(base, count - (rest.extra + rest.req)) else a.val.start;
    a.(val := View(start, a.val.len + AddReq(a, rest) + AddExtra(a, rest.extra)))
  }

  /** The pools after one pass over slot `a`. */
  function Drain(a: Arg, rest: Rest): Rest
  {
    Rest(rest.extra - AddExtra(a, rest.extra), rest.req - AddReq(a, rest))
  }

  /** The distribution loop from slot i over the first n slots. */
  function Distribute(opers: seq<Arg>, n: nat, i: nat, count: nat, rest: Rest, base: Option<nat>): (r: (seq<Arg>, Rest))
    requires i <= n <= |opers|
    requires rest.extra + rest.req <= count
    ensures |r.0| == |opers|
    decreases n - i
  {
    if i == n then (opers, rest)
    else Distribute(opers[i := Fill(opers[i], count, rest, base)], n, i + 1, count, Drain(opers[i], rest), base)
  }

  /** assign_opers: the updated operand table and its status. */
  function Assign(opers: seq<Arg>, ioper: View): (r: (seq<Arg>, Status))
    ensures |r.0| == |opers|
  {
    var n := OperCount(opers);
    var nlower := SumLower(opers, n);
    if ioper.len < nlower then (opers, RangeOper)
    else
      var (o, rest) := Distribute(opers, n, 0, ioper.len, Rest(ioper.len - nlower, nlower), ioper.start);
      (o, if rest.extra != 0 || rest.req != 0 then RangeOper else Success)
  }

  // ---- A closed form of the distribution, slot by slot

  /** The optional tokens still unclaimed when slot k is reached. */
  function ExtraBefore(opers: seq<Arg>, k: nat, e0: nat): (r: nat)
    requires k <= |opers|
    ensures r <= e0
  {
    if k == 0 then e0
    else
      var e := ExtraBefore(opers, k - 1, e0);
      e - AddExtra(opers[k - 1], e)
  }

  /** How many tokens slot k receives: its lower limit and its optional share. */
  function Took(opers: seq<Arg>, k: nat, e0: nat): nat
    requires k < |opers|
  {
    SelectLower(opers[k].bounds) + AddExtra(opers[k], ExtraBefore(opers, k, e0))
  }

  /** How many tokens the slots before k receive together. */
  function TookBefore(opers: seq<Arg>, k: nat, e0: nat): nat
    requires k <= |opers|
  {
    if k == 0 then 0 else TookBefore(opers, k - 1, e0) + Took(opers, k - 1, e0)
  }

  /** Slot k as the distribution leaves it. */
  function Filled(opers: seq<Arg>, k: nat, count: nat, e0: nat, base: Option<nat>): Arg
    requires k < |opers|
  {
    var a := opers[k];
    var start := if count == 0 || a.val.start.None? then StartAt(base, TookBefore(opers, k, e0)) else a.val.start;
    a.(val := View(start, a.val.len + Took(opers, k, e0)))
  }

  lemma {:induction false} SumLowerMono(opers: seq<Arg>, i: nat, n: nat)
    requires i <= n <= |opers|
    ensures SumLower(opers, i) <= SumLower(opers, n)
    decreases n - i
  {
    if i < n {
      SumLowerMono(opers, i, n - 1);
    }
  }

  /** Every token is either handed out or still in the extra pool. */
  lemma {:induction false} TookBeforeSum(opers: seq<Arg>, k: nat, e0: nat)
    requires k <= |opers|
    ensures TookBefore(opers, k, e0) + ExtraBefore(opers, k, e0) == SumLower(opers, k) + e0
  {
    if k > 0 {
      TookBeforeSum(opers, k - 1, e0);
    }
  }

  /** The loop from slot i computes the closed form on slots i..n-1, leaves the
      others alone, empties the required pool and leaves ExtraBefore(n) extra. */
  lemma {:induction false} DistributeClosed(opers0: seq<Arg>, cur: seq<Arg>, n: nat, i: nat, count: nat, e0: nat, base: Option<nat>)
    requires i <= n <= |opers0| == |cur|
    requires forall k :: i <= k < |cur| ==> cur[k] == opers0[k]
    requires count == SumLower(opers0, n) + e0
    ensures SumLower(opers0, i) <= SumLower(opers0, n)
    ensures ExtraBefore(opers0, i, e0) + (SumLower(opers0, n) - SumLower(opers0, i)) <= count
    ensures var r := Distribute(cur, n, i, count, Rest(ExtraBefore(opers0, i, e0), SumLower(opers0, n) - SumLower(opers0, i)), base);
            r.1 == Rest(ExtraBefore(opers0, n, e0), 0) && |r.0| == |cur| &&
            (forall k :: 0 <= k < i ==> r.0[k] == cur[k]) &&
            (forall k :: n <= k < |cur| ==> r.0[k] == cur[k]) &&
            (forall k :: i <= k < n ==> r.0[k] == Filled(opers0, k, count, e0, base))
    decreases n - i
  {
    SumLowerMono(opers0, i, n);
    if i < n {
      SumLowerMono(opers0, i + 1, n);
      TookBeforeSum(opers0, i, e0);
      var rest := Rest(ExtraBefore(opers0, i, e0), SumLower(opers0, n) - SumLower(opers0, i));
      assert AddReq(cur[i], rest) == SelectLower(opers0[i].bounds);
      assert Fill(cur[i], count, rest, base) == Filled(opers0, i, count, e0, base);
      assert Drain(cur[i], rest) == Rest(ExtraBefore(opers0, i + 1, e0), SumLower(opers0, n) - SumLower(opers0, i + 1));
      DistributeClosed(opers0, cur[i := Fill(cur[i], count, rest, base)], n, i + 1, count, e0, base);
    }
  }

  /** assign_opers fails with too few operands and leaves the table alone;
      otherwise slot k (below the sentinel) becomes Filled(k), the rest of the
      table is unchanged, and it succeeds exactly when no extra token is left. */
  lemma AssignSpec(opers: seq<Arg>, ioper: View)
    ensures var n := OperCount(opers);
            var nlower := SumLower(opers, n);
            var r := Assign(opers, ioper);
            (ioper.len < nlower ==> r == (opers, RangeOper)) &&
            (ioper.len >= nlower ==>
               |r.0| == |opers| &&
               (forall k :: 0 <= k < n ==> r.0[k] == Filled(opers, k, ioper.len, ioper.len - nlower, ioper.start)) &&
               (forall k :: n <= k < |opers| ==> r.0[k] == opers[k]) &&
               (r.1 == Success <==> ExtraBefore(opers, n, ioper.len - nlower) == 0) &&
               (r.1 != Success ==> r.1 == RangeOper))
  {
    var n := OperCount(opers);
    var nlower := SumLower(opers, n);
    if ioper.len >= nlower {
      ClosedFromStart(opers, n, ioper.len, ioper.len - nlower, ioper.start);
    }
  }

  /** The whole loop, from slot 0 with all pools full, in closed form. */
  lemma ClosedFromStart(opers: seq<Arg>, n: nat, count: nat, e0: nat, base: Option<nat>)
    requires n <= |opers| && count == SumLower(opers, n) + e0
    ensures var d := Distribute(opers, n, 0, count, Rest(e0, SumLower(opers, n)), base);
            d.1 == Rest(ExtraBefore(opers, n, e0), 0) &&
            (forall k :: 0 <= k < n ==> d.0[k] == Filled(opers, k, count, e0, base)) &&
            (forall k :: n <= k < |opers| ==> d.0[k] == opers[k])
  {
    assert Rest(ExtraBefore(opers, 0, e0), SumLower(opers, n) - SumLower(opers, 0)) == Rest(e0, SumLower(opers, n));
    DistributeClosed(opers, opers, n, 0, count, e0, base);
  }

  lemma {:induction false} SumLenFilled(opers: seq<Arg>, o: seq<Arg>, m: nat, count: nat, e0: nat, base: Option<nat>)
    requires m <= |opers| == |o|
    requires forall k :: 0 <= k < m ==> o[k] == Filled(opers, k, count, e0, base)
    ensures SumLen(o, m) == SumLen(opers, m) + TookBefore(opers, m, e0)
  {
    if m > 0 {
      SumLenFilled(opers, o, m - 1, count, e0, base);
    }
  }

  /** On success every collected operand lands in exactly one slot: the slot
      lengths grow by ioper.len in total (so they sum to it when they start at 0). */
  lemma AssignSum(opers: seq<Arg>, ioper: View)
    requires Assign(opers, ioper).1 == Success
    ensures var n := OperCount(opers);
            SumLen(Assign(opers, ioper).0, n) == SumLen(opers, n) + ioper.len
  {
    var n := OperCount(opers);
    var nlower := SumLower(opers, n);
    AssignSpec(opers, ioper);
    SumLenFilled(opers, Assign(opers, ioper).0, n, ioper.len, ioper.len - nlower, ioper.start);
    TookBeforeSum(opers, n, ioper.len - nlower);
  }

  lemma {:induction false} ExtraTakenSum(opers: seq<Arg>, k: nat, e0: nat)
    requires k <= |opers|
    ensures TookBefore(opers, k, e0) == SumLower(opers, k) + (e0 - ExtraBefore(opers, k, e0))
  {
    TookBeforeSum(opers, k, e0);
  }

  /** Each slot receives at least its lower limit, and the slots together take
      exactly nlower required tokens and at most ioper.len - nlower extra ones. */
  lemma AssignShares(opers: seq<Arg>, ioper: View)
    requires ioper.len >= SumLower(opers, OperCount(opers))
    ensures var n := OperCount(opers);
            var e0 := ioper.len - SumLower(opers, n);
            (forall k :: 0 <= k < n ==> Took(opers, k, e0) >= SelectLower(opers[k].bounds)) &&
            TookBefore(opers, n, e0) - SumLower(opers, n) <= e0 &&
            TookBefore(opers, n, e0) >= SumLower(opers, n)
  {
    var n := OperCount(opers);
    ExtraTakenSum(opers, n, ioper.len - SumLower(opers, n));
  }

  /** Slots are laid out back to back from the start of the intermediate view:
      when the table's slot starts are unset, slot 0 starts at ioper's start and
      slot k + 1 starts where slot k's new tokens end. */
  lemma AssignConsecutive(opers: seq<Arg>, ioper: View, k: nat)
    requires ioper.len >= SumLower(opers, OperCount(opers))
    requires k < OperCount(opers)
    requires forall j :: 0 <= j < OperCount(opers) ==> opers[j].val.start.None?
    ensures var o := Assign(opers, ioper).0;
            var e0 := ioper.len - SumLower(opers, OperCount(opers));
            (k == 0 ==> o[0].val.start == ioper.start) &&
            o[k].val.start == StartAt(ioper.start, TookBefore(opers, k, e0)) &&
            o[k].val.len == opers[k].val.len + Took(opers, k, e0) &&
            (k + 1 < OperCount(opers) ==>
               o[k + 1].val.start == StartAt(ioper.start, TookBefore(opers, k, e0) + Took(opers, k, e0)))
  {
    AssignSpec(opers, ioper);
  }

  /** An unbounded slot takes every extra token left: the slots after it get
      only their lower limits. */
  lemma UnboundedTakesRest(opers: seq<Arg>, k: nat, e0: nat)
    requires k < |opers| && opers[k].bounds.inf
    ensures ExtraBefore(opers, k + 1, e0) == 0
    ensures forall j :: k < j < |opers| ==> Took(opers, j, e0) == SelectLower(opers[j].bounds)
  {
    forall j | k < j < |opers|
      ensures Took(opers, j, e0) == SelectLower(opers[j].bounds)
    {
      ExtraStaysEmpty(opers, k + 1, j, e0);
    }
  }

  lemma {:induction false} ExtraStaysEmpty(opers: seq<Arg>, i: nat, j: nat, e0: nat)
    requires i <= j <= |opers|
    requires ExtraBefore(opers, i, e0) == 0
    ensures ExtraBefore(opers, j, e0) == 0
    decreases j - i
  {
    if i < j {
      ExtraStaysEmpty(opers, i, j - 1, e0);
    }
  }

  /** The bounded share is min(upper, extra), on top of the lower limit; a slot
      can therefore end above its upper limit and still report success. */
  lemma BoundedSlotMayExceedUpper()
    ensures var opers := [Arg(Some("file"), Bounds(1, 2, false), View(None, 0))];
            var r := Assign(opers, View(Some(0), 3));
            r.1 == Success && r.0[0].val.len == 3 && !ValidateWithin(r.0[0])
  {
    var opers := [Arg(Some("file"), Bounds(1, 2, false), View(None, 0))];
    assert OperCount(opers) == 1 by {
      assert OperCount(opers[1..]) == 0;
    }
    AssignSpec(opers, View(Some(0), 3));
  }
}
