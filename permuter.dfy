/** Properties of the in-place permuter (permute_val, incr_between,
    permute_rest): what happens to each cell and each view, that the values
    of every other view are kept while the target gains the new value, and
    that the layout of the claimed prefix is preserved. */
module Permuter {
  import opened Decl
  import opened Machine

  /** The cell where permute_val writes the new value. */
  function Pos(s: State, t: Target, end: bool): int
    requires t.OptVal? ==> t.i < |s.opts|
  {
    StartOf(s, t, end) + TargetView(s, t).len - 1
  }

  /** permute_val on the array: the value lands at pos, the block
      [pos, eoval) moves one cell right, eoval grows by one, and every other
      cell is unchanged. */
  lemma PermuteValCells(s: State, t: Target, val: string, end: bool)
    requires CanPermute(s, t, end)
    ensures var r := PermuteVal(s, t, val, end);
            var pos := Pos(s, t, end);
            |r.args| == |s.args| && r.eoval == s.eoval + 1 && r.args[pos] == val &&
            (forall k :: pos < k <= s.eoval ==> r.args[k] == s.args[k - 1]) &&
            (forall k :: 0 <= k < |s.args| && (k < pos || s.eoval < k) ==> r.args[k] == s.args[k]) &&
            r.opers == s.opers && r.arg == s.arg && r.pending == s.pending && r.grppos == s.grppos && r.cur == s.cur
  {
  }

  /** The shape of a bumped view: same length, start moved by one exactly
      when it lies in [start, stop]. */
  predicate BumpedView(start: nat, stop: nat, v: View, w: View)
  {
    w.len == v.len &&
    (v.start.Some? && start <= v.start.value <= stop ==> w.start == Some(v.start.value + 1)) &&
    (!(v.start.Some? && start <= v.start.value <= stop) ==> w == v)
  }

  /** permute_val on the views: the target gets its start (the fallback when
      unset); every other live option view, and ioper when it is not the
      target, is bumped by one exactly when its start lies in [pos, eoval + 1]
      and is otherwise unchanged; entries past the sentinel are untouched. */
  lemma PermuteValViews(s: State, t: Target, val: string, end: bool)
    requires CanPermute(s, t, end)
    ensures var r := PermuteVal(s, t, val, end);
            var pos := Pos(s, t, end);
            TargetView(r, t) == View(Some(StartOf(s, t, end)), TargetView(s, t).len) &&
            SameOpts(r.opts, s.opts) &&
            (forall k :: 0 <= k < OptCount(s.opts) && t != OptVal(k) ==> BumpedView(pos, s.eoval + 1, s.opts[k].arg.val, r.opts[k].arg.val)) &&
            (forall k :: OptCount(s.opts) <= k < |s.opts| && t != OptVal(k) ==> r.opts[k] == s.opts[k]) &&
            (t != Ioper ==> BumpedView(pos, s.eoval + 1, s.ioper, r.ioper))
  {
    match t
    case OptVal(i) => OptTargetViews(s, i, val, end);
    case Ioper => IoperTargetViews(s, val, end);
  }

  /** PermuteValViews for the value view of option i. */
  lemma OptTargetViews(s: State, i: nat, val: string, end: bool)
    requires CanPermute(s, OptVal(i), end)
    ensures var r := PermuteVal(s, OptVal(i), val, end);
            var pos := Pos(s, OptVal(i), end);
            r.opts[i].arg.val == View(Some(StartOf(s, OptVal(i), end)), s.opts[i].arg.val.len) &&
            SameOpts(r.opts, s.opts) &&
            (forall k :: 0 <= k < OptCount(s.opts) && k != i ==> BumpedView(pos, s.eoval + 1, s.opts[k].arg.val, r.opts[k].arg.val)) &&
            (forall k :: OptCount(s.opts) <= k < |s.opts| && k != i ==> r.opts[k] == s.opts[k]) &&
            BumpedView(pos, s.eoval + 1, s.ioper, r.ioper)
  {
    var r := PermuteVal(s, OptVal(i), val, end);
    OptTableViews(s, i, end, r.opts, r.ioper);
  }

  /** The table and ioper that permute_val leaves when option i is the target. */
  lemma OptTableViews(s: State, i: nat, end: bool, opts: seq<Opt>, ioper: View)
    requires CanPermute(s, OptVal(i), end)
    requires var st := StartOf(s, OptVal(i), end);
             var pos: nat := Pos(s, OptVal(i), end);
             opts == BumpOpts(SetView(s.opts, i, s.opts[i].arg.val.(start := Some(st))), pos, s.eoval + 1, OptVal(i)) &&
             ioper == IncrBetween(pos, s.eoval + 1, s.ioper)
    ensures var pos := Pos(s, OptVal(i), end);
            opts[i].arg.val == View(Some(StartOf(s, OptVal(i), end)), s.opts[i].arg.val.len) &&
            SameOpts(opts, s.opts) &&
            (forall k :: 0 <= k < OptCount(s.opts) && k != i ==> BumpedView(pos, s.eoval + 1, s.opts[k].arg.val, opts[k].arg.val)) &&
            (forall k :: OptCount(s.opts) <= k < |s.opts| && k != i ==> opts[k] == s.opts[k]) &&
            BumpedView(pos, s.eoval + 1, s.ioper, ioper)
  {
    var t := OptVal(i);
    var opts1 := SetView(s.opts, i, s.opts[i].arg.val.(start := Some(StartOf(s, t, end))));
    var pos: nat := Pos(s, t, end);
    BumpedTable(s.opts, opts1, pos, s.eoval + 1, t);
    assert opts[i] == BumpedOpt(opts1, i, pos, s.eoval + 1, t);
  }

  /** PermuteValViews for ioper, whose start is set; the table is only bumped. */
  lemma IoperTargetViews(s: State, val: string, end: bool)
    requires CanPermute(s, Ioper, end)
    ensures var r := PermuteVal(s, Ioper, val, end);
            var pos := Pos(s, Ioper, end);
            r.ioper == View(Some(StartOf(s, Ioper, end)), s.ioper.len) &&
            SameOpts(r.opts, s.opts) &&
            (forall k :: 0 <= k < OptCount(s.opts) ==> BumpedView(pos, s.eoval + 1, s.opts[k].arg.val, r.opts[k].arg.val)) &&
            (forall k :: OptCount(s.opts) <= k < |s.opts| ==> r.opts[k] == s.opts[k])
  {
    var pos: nat := Pos(s, Ioper, end);
    var r := PermuteVal(s, Ioper, val, end);
    assert r.opts == BumpOpts(s.opts, pos, s.eoval + 1, Ioper);
    BumpedTable(s.opts, s.opts, pos, s.eoval + 1, Ioper);
  }

  /** The bumping loop over a table that differs from `opts` at most in the
      target's entry: every other live view is bumped, the rest untouched. */
  lemma BumpedTable(opts: seq<Opt>, opts1: seq<Opt>, pos: nat, stop: nat, t: Target)
    requires SameOpts(opts1, opts)
    requires forall k :: 0 <= k < |opts| && t != OptVal(k) ==> opts1[k] == opts[k]
    ensures var r := BumpOpts(opts1, pos, stop, t);
            SameOpts(r, opts) &&
            (forall k :: 0 <= k < OptCount(opts) && t != OptVal(k) ==> BumpedView(pos, stop, opts[k].arg.val, r[k].arg.val)) &&
            (forall k :: OptCount(opts) <= k < |opts| && t != OptVal(k) ==> r[k] == opts[k])
  {
    SameOptsCount(opts1, opts);
  }

  /** The values a view holds: n cells from its start, none when unset. */
  function Cells(args: seq<string>, v: View, n: nat): seq<string>
    requires v.start.Some? ==> v.start.value + n <= |args|
  {
    if v.start.Some? then args[v.start.value..v.start.value + n] else []
  }

  /** A view that lies wholly before pos, or wholly in the shifted block,
      holds the same values after permute_val (once bumped). */
  lemma PermuteKeepsOther(s: State, t: Target, val: string, end: bool, w: View, n: nat)
    requires CanPermute(s, t, end)
    requires w.start.Some? ==> w.start.value + n <= Pos(s, t, end) || (Pos(s, t, end) <= w.start.value && w.start.value + n <= s.eoval)
    ensures var r := PermuteVal(s, t, val, end);
            var w' := IncrBetween(Pos(s, t, end), s.eoval + 1, w);
            (w'.start.Some? ==> w'.start.value + n <= |r.args|) &&
            Cells(r.args, w', n) == Cells(s.args, w, n)
  {
    PermuteValCells(s, t, val, end);
    PermuteValViews(s, t, val, end);
    var r := PermuteVal(s, t, val, end);
    var pos := Pos(s, t, end);
    if w.start.Some? {
      var a := w.start.value;
      var w' := IncrBetween(pos, s.eoval + 1, w);
      if pos <= a {
        assert w'.start == Some(a + 1);
        assert forall k :: a + 1 <= k < a + 1 + n ==> r.args[k] == s.args[k - 1];
        assert Cells(r.args, w', n) == Cells(s.args, w, n);
      } else {
        assert w' == w;
        assert forall k :: a <= k < a + n ==> r.args[k] == s.args[k];
        assert Cells(r.args, w', n) == Cells(s.args, w, n);
      }
    }
  }

  /** The target gains exactly the new value at its end. */
  lemma PermuteGrowsTarget(s: State, t: Target, val: string, end: bool)
    requires CanPermute(s, t, end)
    ensures var r := PermuteVal(s, t, val, end);
            var n := TargetView(s, t).len;
            var st := View(Some(StartOf(s, t, end)), n);
            TargetView(r, t) == st &&
            Cells(r.args, st, n) == Cells(s.args, st, n - 1) + [val]
  {
    PermuteValCells(s, t, val, end);
    var r := PermuteVal(s, t, val, end);
    var n := TargetView(s, t).len;
    var st := View(Some(StartOf(s, t, end)), n);
    var a := StartOf(s, t, end);
    assert forall k :: a <= k < a + n - 1 ==> r.args[k] == s.args[k];
    assert Cells(r.args, st, n) == Cells(s.args, st, n - 1) + [val];
  }

  /** permute_rest copies the block [from, from + len) to [target, target + len)
      and leaves every other cell alone. */
  lemma PermuteRestSpec(args: seq<string>, target: nat, from: nat, len: nat)
    requires target + len <= |args| && from + len <= |args|
    ensures PermuteRest(args, target, from, len)[target..target + len] == args[from..from + len]
    ensures PermuteRest(args, target, from, len)[..target] == args[..target]
    ensures PermuteRest(args, target, from, len)[target + len..] == args[target + len..]
  {
    var r := PermuteRest(args, target, from, len);
    assert forall k :: target <= k < target + len ==> r[k] == args[from + (k - target)];
  }

  /** The values option k holds in the array: Placed(s, k) cells from the
      start of its view (none while unset). */
  function OptValues(s: State, k: nat): seq<string>
    requires k < |s.opts|
  {
    var v := s.opts[k].arg.val;
    var n := Placed(s, k);
    if n >= 0 && (v.start.Some? ==> v.start.value + n <= |s.args|) then Cells(s.args, v, n) else []
  }

  /** The intermediate operands ioper holds in the array. */
  function IoperValues(s: State): seq<string>
  {
    if s.ioper.start.Some? ==> s.ioper.start.value + s.ioper.len <= |s.args| then Cells(s.args, s.ioper, s.ioper.len) else []
  }

  /** Every value-taking option other than `except` holds in r the values it
      held in s. */
  predicate KeepsOptValues(s: State, r: State, except: Option<nat>)
  {
    |r.opts| == |s.opts| &&
    forall k {:trigger OptValues(r, k)} :: 0 <= k < OptCount(s.opts) && s.opts[k].req && except != Some(k) ==> OptValues(r, k) == OptValues(s, k)
  }

  /** Moving the token cursor changes no option's values. */
  lemma KeepsAfterCursor(s: State, r: State, except: Option<nat>, arg: nat)
    requires KeepsOptValues(s, r, except)
    ensures KeepsOptValues(s, r.(arg := arg), except)
  {
    forall k | 0 <= k < OptCount(s.opts) && s.opts[k].req && except != Some(k)
      ensures OptValues(r.(arg := arg), k) == OptValues(s, k)
    {
      assert OptValues(r.(arg := arg), k) == OptValues(r, k);
    }
  }

  // ---- Layout preservation

  /** The layout makes the intermediate operands apart from every option's
      values as well: the options' blocks end where ioper begins. */
  lemma LayoutIoperApart(s: State, k: nat)
    requires Layout(s) && k < OptCount(s.opts) && s.opts[k].req
    ensures Apart(s.opts[k].arg.val, Placed(s, k), s.ioper, s.ioper.len)
  {
  }

  /** Option i has just been counted and its newest value is about to be
      placed: the layout holds with that value not yet in the array. */
  predicate Placing(s: State, i: nat)
  {
    i < OptCount(s.opts) && s.opts[i].req && !s.pending && s.cur == Some(i) &&
    s.eoval <= s.arg < |s.args| && s.opts[i].arg.val.len >= 1 && Layout(s.(pending := true))
  }

  /** While option i's value is being placed, its block holds one value less
      than its count, every other option's block holds its count, and the
      new value's cell lies at or below the start of the operands. */
  lemma PlacingFits(s: State, i: nat)
    requires Placing(s, i)
    ensures OptFits(s.opts[i].arg.val, s.opts[i].arg.val.len - 1, IoperBase(s))
    ensures CanPermute(s, OptVal(i), false) && Pos(s, OptVal(i), false) <= IoperBase(s)
  {
    var q := s.(pending := true);
    assert Placed(q, i) == s.opts[i].arg.val.len - 1;
    assert OptFits(s.opts[i].arg.val, Placed(q, i), IoperBase(q));
  }

  /** Where the values of another value-taking option k lie when option i
      takes a new value: wholly before i's block, or wholly between the new
      value's cell and the intermediate operands. */
  lemma OtherSide(s: State, i: nat, k: nat)
    requires Placing(s, i) && k < OptCount(s.opts) && k != i && s.opts[k].req
    ensures var w := s.opts[k].arg.val;
            var pos := StartOf(s, OptVal(i), false) + s.opts[i].arg.val.len - 1;
            OptFits(w, w.len, IoperBase(s)) &&
            (w.start.Some? ==> w.start.value + w.len <= StartOf(s, OptVal(i), false) || pos <= w.start.value)
  {
    var q := s.(pending := true);
    assert Placed(q, k) == s.opts[k].arg.val.len;
    assert Placed(q, i) == s.opts[i].arg.val.len - 1;
    assert OptFits(s.opts[i].arg.val, Placed(q, i), IoperBase(q));
    assert OptFits(s.opts[k].arg.val, Placed(q, k), IoperBase(q));
    assert ApartAt(q.opts, Held(q), i, k);
  }

  /** Placing the newest value of option i keeps the layout, and every other
      option and ioper keep the values they hold. */
  lemma PermuteOptLayout(s: State, i: nat, val: string)
    requires Placing(s, i)
    ensures CanPermute(s, OptVal(i), false)
    ensures Pos(s, OptVal(i), false) <= IoperBase(s)
    ensures var r := PermuteVal(s, OptVal(i), val, false);
            Layout(r) && KeepsOptValues(s, r, Some(i)) && IoperValues(r) == IoperValues(s)
  {
    PlacingFits(s, i);
    PermuteOptFits(s, i, val);
    PermuteOptApart(s, i, val);
    PermuteOptKeeps(s, i, val);
  }

  lemma PermuteOptFits(s: State, i: nat, val: string)
    requires Placing(s, i) && CanPermute(s, OptVal(i), false)
    ensures var r := PermuteVal(s, OptVal(i), val, false);
            (r.ioper.start.None? ==> r.ioper.len == 0) &&
            (r.ioper.start.Some? ==> r.ioper.start.value + r.ioper.len == r.eoval) &&
            (forall k :: 0 <= k < OptCount(r.opts) && r.opts[k].req ==> OptFits(r.opts[k].arg.val, Placed(r, k), IoperBase(r)))
  {
    PlacingFits(s, i);
    var q := s.(pending := true);
    assert Layout(q);
    PermuteValCells(s, OptVal(i), val, false);
    PermuteValViews(s, OptVal(i), val, false);
    var r := PermuteVal(s, OptVal(i), val, false);
    SameOptsCount(r.opts, s.opts);
    forall k | 0 <= k < OptCount(r.opts) && r.opts[k].req
      ensures OptFits(r.opts[k].arg.val, Placed(r, k), IoperBase(r))
    {
      assert Placed(r, k) == r.opts[k].arg.val.len;
      if k != i {
        OtherSide(s, i, k);
      }
    }
  }

  lemma PermuteOptApart(s: State, i: nat, val: string)
    requires Placing(s, i) && CanPermute(s, OptVal(i), false)
    ensures OptsApart(PermuteVal(s, OptVal(i), val, false))
  {
    var r := PermuteVal(s, OptVal(i), val, false);
    PermuteValViews(s, OptVal(i), val, false);
    SameOptsCount(r.opts, s.opts);
    forall j, k | 0 <= j < OptCount(r.opts) && 0 <= k < OptCount(r.opts) && j != k && r.opts[j].req && r.opts[k].req
      ensures ApartAt(r.opts, Held(r), j, k)
    {
      ApartPair(s, i, val, j, k);
    }
  }

  /** One pair of options after option i's value is placed. */
  lemma ApartPair(s: State, i: nat, val: string, j: nat, k: nat)
    requires Placing(s, i) && CanPermute(s, OptVal(i), false)
    requires j < OptCount(s.opts) && k < OptCount(s.opts) && j != k && s.opts[j].req && s.opts[k].req
    ensures var r := PermuteVal(s, OptVal(i), val, false);
            j < |r.opts| && k < |r.opts| &&
            ApartAt(r.opts, Held(r), j, k)
  {
    PermuteValViews(s, OptVal(i), val, false);
    var r := PermuteVal(s, OptVal(i), val, false);
    assert Placed(r, j) == r.opts[j].arg.val.len && Placed(r, k) == r.opts[k].arg.val.len;
    if j == i {
      OtherSide(s, i, k);
    } else if k == i {
      OtherSide(s, i, j);
    } else {
      OtherSide(s, i, j);
      OtherSide(s, i, k);
      var q := s.(pending := true);
      assert Placed(q, j) == s.opts[j].arg.val.len && Placed(q, k) == s.opts[k].arg.val.len;
      assert ApartAt(q.opts, Held(q), j, k);
    }
  }

  lemma PermuteOptKeeps(s: State, i: nat, val: string)
    requires Placing(s, i) && CanPermute(s, OptVal(i), false) && Pos(s, OptVal(i), false) <= IoperBase(s)
    ensures var r := PermuteVal(s, OptVal(i), val, false);
            KeepsOptValues(s, r, Some(i)) && IoperValues(r) == IoperValues(s)
  {
    var r := PermuteVal(s, OptVal(i), val, false);
    var pos := Pos(s, OptVal(i), false);
    PermuteValCells(s, OptVal(i), val, false);
    OptTargetViews(s, i, val, false);
    forall k | 0 <= k < OptCount(s.opts) && s.opts[k].req && Some(i) != Some(k)
      ensures OptValues(r, k) == OptValues(s, k)
    {
      var w := s.opts[k].arg.val;
      OtherSide(s, i, k);
      PermuteKeepsOther(s, OptVal(i), val, false, w, w.len);
      assert r.opts[k].arg.val == IncrBetween(pos, s.eoval + 1, w);
      assert Placed(r, k) == w.len && Placed(s, k) == w.len;
    }
    var q := s.(pending := true);
    assert Layout(q);
    PermuteKeepsOther(s, OptVal(i), val, false, s.ioper, s.ioper.len);
    assert r.ioper == IncrBetween(pos, s.eoval + 1, s.ioper);
  }

  /** Placing a new intermediate operand at the end of ioper keeps the layout,
      the operand lands at the old eoval, and every option keeps its values. */
  lemma PermuteOperLayout(s: State, val: string)
    requires Layout(s) && !s.pending
    requires s.eoval <= s.arg < |s.args|
    ensures var s1 := s.(ioper := s.ioper.(len := s.ioper.len + 1));
            CanPermute(s1, Ioper, true) &&
            Pos(s1, Ioper, true) == s.eoval &&
            var r := PermuteVal(s1, Ioper, val, true);
            Layout(r) && KeepsOptValues(s, r, None) &&
            (forall k :: 0 <= k < OptCount(s.opts) && s.opts[k].req ==> r.opts[k] == s.opts[k])
  {
    var s1 := s.(ioper := s.ioper.(len := s.ioper.len + 1));
    assert CanPermute(s1, Ioper, true);
    PermuteOperOpts(s, val);
    var r := PermuteVal(s1, Ioper, val, true);
    forall k | 0 <= k < OptCount(s.opts) && s.opts[k].req
      ensures OptValues(r, k) == OptValues(s, k)
    {
      assert OptFits(s.opts[k].arg.val, Placed(s, k), IoperBase(s));
      BelowKept(s, r, k);
    }
    assert OptsApart(s);
    forall j, k | 0 <= j < OptCount(r.opts) && 0 <= k < OptCount(r.opts) && j != k && r.opts[j].req && r.opts[k].req
      ensures ApartAt(r.opts, Held(r), j, k)
    {
      assert Placed(r, j) == Placed(s, j) && Placed(r, k) == Placed(s, k);
      assert ApartAt(s.opts, Held(s), j, k);
    }
  }

  /** The operand's cell lies above every option's block, so no option view
      moves and the operand's own view is the one that grows. */
  lemma PermuteOperOpts(s: State, val: string)
    requires Layout(s) && !s.pending
    requires s.eoval <= s.arg < |s.args|
    ensures var s1 := s.(ioper := s.ioper.(len := s.ioper.len + 1));
            CanPermute(s1, Ioper, true) &&
            var r := PermuteVal(s1, Ioper, val, true);
            Pos(s1, Ioper, true) == s.eoval && r.pending == s.pending && r.cur == s.cur &&
            |r.args| == |s.args| && (forall m :: 0 <= m < s.eoval ==> r.args[m] == s.args[m]) &&
            SameOpts(r.opts, s.opts) && OptCount(r.opts) == OptCount(s.opts) &&
            (forall k :: 0 <= k < OptCount(s.opts) && s.opts[k].req ==> r.opts[k] == s.opts[k]) &&
            (r.ioper.start.None? ==> r.ioper.len == 0) &&
            (r.ioper.start.Some? ==> r.ioper.start.value + r.ioper.len == r.eoval) &&
            IoperBase(r) == IoperBase(s)
  {
    var s1 := s.(ioper := s.ioper.(len := s.ioper.len + 1));
    assert CanPermute(s1, Ioper, true);
    PermuteValCells(s1, Ioper, val, true);
    PermuteValViews(s1, Ioper, val, true);
    var r := PermuteVal(s1, Ioper, val, true);
    SameOptsCount(r.opts, s.opts);
    forall k | 0 <= k < OptCount(s.opts) && s.opts[k].req
      ensures r.opts[k] == s.opts[k]
    {
      assert Placed(s, k) == s.opts[k].arg.val.len;
      assert OptFits(s.opts[k].arg.val, Placed(s, k), IoperBase(s));
    }
  }

  /** An option whose block ends at or below eoval keeps its values when only
      the cells from eoval on change. */
  lemma BelowKept(s: State, r: State, k: nat)
    requires k < |s.opts| && k < |r.opts| && r.opts[k] == s.opts[k] && r.pending == s.pending && r.cur == s.cur
    requires |r.args| == |s.args| && s.eoval <= |s.args|
    requires forall m :: 0 <= m < s.eoval ==> r.args[m] == s.args[m]
    requires OptFits(s.opts[k].arg.val, Placed(s, k), s.eoval)
    ensures OptValues(r, k) == OptValues(s, k)
  {
    var w := s.opts[k].arg.val;
    var n := Placed(s, k);
    assert Placed(r, k) == n;
    if w.start.Some? {
      assert r.args[w.start.value..w.start.value + n] == s.args[w.start.value..w.start.value + n];
    }
  }
}
