/** The parser object of readarg.h and readopt.c: the token array, the two
    declaration tables and the parse cursors, all updated in place. Each
    method implements a C function, or one loop or branch of one, and is
    proved to make exactly the transition its Machine function describes. */
module Engine {
  import opened Decl
  import opened Matcher
  import opened Distributor
  import opened Machine
  import opened Steps

  class Parser {
    /** The token array (args.strings, without the program name). */
    const args: array<string>
    /** The option table; its entries past the first invalid one are unused. */
    const opts: array<Opt>
    /** The operand table; likewise ended by the first unnamed entry. */
    const opers: array<Arg>
    var pending: bool
    var grppos: Option<string>
    var cur: Option<nat>
    var arg: nat
    var eoval: nat
    var ioper: View

    /** The state the fields and the arrays denote. */
    function Snap(): State
      reads this, args, opts, opers
    {
      State(args[..], opts[..], opers[..], pending, grppos, cur, arg, eoval, ioper)
    }

    /** parser_init: both cursors on the first token, the rest zero. */
    constructor (a: array<string>, o: array<Opt>, p: array<Arg>)
      ensures args == a && opts == o && opers == p
      ensures Snap() == Init(a[..], o[..], p[..])
    {
      args, opts, opers := a, o, p;
      pending, grppos, cur := false, None, None;
      arg, eoval := 0, 0;
      ioper := View(None, 0);
    }

    // ---- The matcher

    /** match_opt: the scan by option and by name, keeping the longest
        inexact match; an exact match returns at once. The caller applies
        match_finish. */
    method MatchOpt(form: Form, needle: string) returns (m: Option<Match>)
      ensures m == Matcher.MatchOpt(opts[..], form, needle)
    {
      ghost var t := opts[..];
      var loose: Option<Match> := None;
      var i := 0;
      while i < opts.Length && ValidateOpt(opts[i])
        invariant 0 <= i <= opts.Length
        invariant Scan(t, form, needle, 0, 0, None) == Scan(t, form, needle, i, 0, loose)
        decreases opts.Length - i
      {
        var names := if form == Short then opts[i].names.short else opts[i].names.long;
        if names.Some? {
          var j := 0;
          while j < |names.value|
            invariant 0 <= j <= |names.value|
            invariant Scan(t, form, needle, 0, 0, None) == Scan(t, form, needle, i, j, loose)
          {
            var cmp := SkipIncl(needle, names.value[j]);
            if cmp.Some? {
              if cmp.value == |needle| {
                return Some(Match(i, cmp.value));
              } else if loose.None? || cmp.value > loose.value.adv {
                loose := Some(Match(i, cmp.value));
              }
            }
            j := j + 1;
          }
        }
        i := i + 1;
      }
      return loose;
    }

    // ---- The permuter

    /** permute_val: give the target its fallback start if unset, move the
        block [pos, eoval) one cell right, store val at pos, and bump the
        other views whose start lies in [pos, eoval]. */
    method PermuteVal(t: Target, val: string, end: bool)
      requires CanPermute(Snap(), t, end)
      modifies this, args, opts
      ensures Snap() == Machine.PermuteVal(old(Snap()), t, val, end)
    {
      ghost var s := Snap();
      var v := if t.OptVal? then opts[t.i].arg.val else ioper;
      if v.start.None? {
        v := v.(start := Some(if end then eoval else eoval - ioper.len));
      }
      assert v == TargetView(s, t).(start := Some(StartOf(s, t, end)));
      var pos: nat := v.start.value + v.len - 1;
      SetTarget(t, v);
      ghost var s1 := Snap();
      MoveRight(pos, val);
      ghost var s2 := Snap();
      BumpViews(pos, t);
      PermuteValIs(s, t, val, end, v, pos, s1);
      assert s2 == s1.(args := Shift(s.args, pos, s.eoval, val), eoval := s.eoval + 1);
    }

    /** Machine.PermuteVal, field by field. */
    static lemma PermuteValIs(s: State, t: Target, val: string, end: bool, v: View, pos: nat, s1: State)
      requires CanPermute(s, t, end)
      requires v == TargetView(s, t).(start := Some(StartOf(s, t, end)))
      requires pos == v.start.value + v.len - 1 && s1 == WithView(s, t, v)
      ensures Machine.PermuteVal(s, t, val, end) ==
              State(Shift(s.args, pos, s.eoval, val), Machine.BumpOpts(s1.opts, pos, s.eoval + 1, t), s.opers,
                    s.pending, s.grppos, s.cur, s.arg, s.eoval + 1,
                    if t == Ioper then s1.ioper else IncrBetween(pos, s.eoval + 1, s1.ioper))
    {
    }

    /** Store the view of the target. */
    method SetTarget(t: Target, v: View)
      requires t.OptVal? ==> t.i < opts.Length
      modifies this, opts
      ensures Snap() == WithView(old(Snap()), t, v)
    {
      if t.OptVal? {
        opts[t.i] := opts[t.i].(arg := opts[t.i].arg.(val := v));
      } else {
        ioper := v;
      }
    }

    /** The memmove of permute_val, the store of the new value and the
        growth of eoval. */
    method MoveRight(pos: nat, val: string)
      requires pos <= eoval < args.Length
      modifies this, args
      ensures Snap() == old(Snap()).(args := Shift(old(args[..]), pos, old(eoval), val), eoval := old(eoval) + 1)
    {
      ShiftCells(pos, val);
      eoval := eoval + 1;
    }

    method ShiftCells(pos: nat, val: string)
      requires pos <= eoval < args.Length
      modifies args
      ensures args[..] == Shift(old(args[..]), pos, eoval, val)
    {
      ghost var a := args[..];
      var k := eoval;
      while k > pos
        invariant pos <= k <= eoval
        invariant forall j :: 0 <= j < args.Length && (j <= k || eoval < j) ==> args[j] == a[j]
        invariant forall j :: k < j <= eoval ==> args[j] == a[j - 1]
      {
        args[k] := args[k - 1];
        k := k - 1;
      }
      args[pos] := val;
      assert forall j :: 0 <= j < args.Length ==> args[j] == Shift(a, pos, eoval, val)[j];
    }

    /** The bumping of permute_val: every view other than the target whose
        start lies in [pos, eoval] moves up one cell. */
    method BumpViews(pos: nat, t: Target)
      modifies this, opts
      ensures Snap() == old(Snap()).(opts := Machine.BumpOpts(old(opts[..]), pos, eoval, t),
                                     ioper := if t == Ioper then old(ioper) else IncrBetween(pos, eoval, old(ioper)))
    {
      BumpOpts(pos, t);
      if t != Ioper {
        ioper := IncrBetween(pos, eoval, ioper);
      }
    }

    /** The bumping loop of permute_val over the valid options. */
    method BumpOpts(pos: nat, t: Target)
      modifies opts
      ensures opts[..] == Machine.BumpOpts(old(opts[..]), pos, eoval, t)
    {
      ghost var o := opts[..];
      var i := 0;
      while i < opts.Length && ValidateOpt(opts[i])
        invariant 0 <= i <= opts.Length
        invariant forall j :: 0 <= j < i ==> opts[j] == BumpedOpt(o, j, pos, eoval, t) && ValidateOpt(o[j])
        invariant forall j :: i <= j < opts.Length ==> opts[j] == o[j]
      {
        if t != OptVal(i) {
          opts[i] := opts[i].(arg := opts[i].arg.(val := IncrBetween(pos, eoval, opts[i].arg.val)));
        }
        i := i + 1;
      }
      OptCountAt(o, i);
      assert forall j :: 0 <= j < opts.Length ==> opts[j] == Machine.BumpOpts(o, pos, eoval, t)[j];
    }

    /** permute_rest: the memmove of a block of len tokens down to target. */
    method PermuteRest(target: nat, from: nat, len: nat)
      requires target <= from && from + len <= args.Length
      modifies args
      ensures args[..] == Machine.PermuteRest(old(args[..]), target, from, len)
    {
      ghost var a := args[..];
      var k := 0;
      while k < len
        invariant 0 <= k <= len
        invariant forall j :: target <= j < target + k ==> args[j] == a[from + (j - target)]
        invariant forall j :: 0 <= j < args.Length && !(target <= j < target + k) ==> args[j] == a[j]
      {
        assert args[from + k] == a[from + k];
        args[target + k] := args[from + k];
        k := k + 1;
      }
      assert forall j :: 0 <= j < args.Length ==> args[j] == Machine.PermuteRest(a, target, from, len)[j];
    }

    // ---- Value and occurrence bookkeeping

    /** occ_opt. */
    method OccOpt(i: nat)
      requires i < opts.Length
      modifies this, opts
      ensures Snap() == Machine.OccOpt(old(Snap()), i)
    {
      cur := Some(i);
      var v := opts[i].arg.val;
      opts[i] := opts[i].(arg := opts[i].arg.(val := v.(len := v.len + 1)));
    }

    /** add_val (with end = 0). */
    method AddVal(i: nat, val: string) returns (st: Status)
      requires Room(Snap(), i)
      modifies this, args, opts
      ensures (Snap(), st) == Machine.AddVal(old(Snap()), i, val)
    {
      pending := false;
      if !ValidateWithin(opts[i].arg) {
        return RangeOpt;
      }
      PermuteVal(OptVal(i), val, false);
      return Success;
    }

    /** update_opt for the matched option i. */
    method UpdateOpt(i: nat, attach: Option<string>) returns (st: Status)
      requires Settled(Snap()) && i < OptCount(opts[..])
      modifies this, args, opts
      ensures (Snap(), st) == Machine.UpdateOpt(old(Snap()), i, attach)
    {
      if opts[i].req {
        if attach.Some? {
          assert OptFits(opts[i].arg.val, Placed(Snap(), i), IoperBase(Snap()));
          OccOpt(i);
          st := AddVal(i, attach.value);
        } else {
          pending := true;
          OccOpt(i);
          st := Success;
        }
      } else {
        OccOpt(i);
        st := if attach.Some? then NotReq else Success;
      }
    }

    /** update_oper. */
    method UpdateOper(val: Operands)
      requires Settled(Snap())
      requires val.InArgs? ==> val.len >= 1 && arg < val.from && val.from + val.len <= args.Length
      modifies this, args, opts
      ensures Snap() == Machine.UpdateOper(old(Snap()), val)
    {
      ghost var s := Snap();
      if val.Literal? || val.len == 1 {
        UpdateOperSingle(s, val);
        var tok := if val.Literal? then val.tok else args[val.from];
        ioper := ioper.(len := ioper.len + 1);
        assert Snap() == s.(ioper := s.ioper.(len := s.ioper.len + 1));
        PermuteVal(Ioper, tok, true);
      } else {
        UpdateOperBlock(s, val.from, val.len);
        PermuteRest(eoval, val.from, val.len);
        ioper := ioper.(len := ioper.len + val.len);
        assert opts[..] == s.opts && opers[..] == s.opers;
      }
    }

    // ---- Token classification

    /** parse_opt in the short form; inGroup says that frag is the group. */
    method ParseShort(frag: string, inGroup: bool) returns (st: Status)
      requires Settled(Snap())
      modifies this, args, opts
      ensures (Snap(), st) == Machine.ParseShort(old(Snap()), frag, inGroup, false)
    {
      var m := MatchOpt(Short, frag);
      if m.None? {
        return NotOpt;
      }
      ghost var s := Snap();
      MatchIsPrefix(s.opts, Short, frag);
      var i := m.value.opt;
      var strpos := frag[m.value.adv..];
      ghost var s1 := s.(cur := Some(i), grppos := GroupAfter(s, s.opts[i].req, strpos, inGroup, false));
      ParseShortIs(s, frag, inGroup, s1);
      cur := Some(i);
      if !opts[i].req && strpos != [] {
        grppos := Some(strpos);
        assert Snap() == s1;
        st := UpdateOpt(i, None);
      } else {
        if inGroup {
          grppos := None;
        }
        assert Snap() == s1;
        st := UpdateOpt(i, if strpos != [] then Some(strpos) else None);
      }
    }

    /** Machine.ParseShort once the match is known. */
    static lemma ParseShortIs(s: State, frag: string, inGroup: bool, s1: State)
      requires Settled(s) && Matcher.MatchOpt(s.opts, Short, frag).Some?
      requires var m := Matcher.MatchOpt(s.opts, Short, frag).value;
               m.opt < OptCount(s.opts) && m.adv <= |frag| &&
               s1 == s.(cur := Some(m.opt), grppos := GroupAfter(s, s.opts[m.opt].req, frag[m.adv..], inGroup, false))
      ensures var m := Matcher.MatchOpt(s.opts, Short, frag).value;
              var strpos := frag[m.adv..];
              Settled(s1) && m.opt < OptCount(s1.opts) &&
              Machine.ParseShort(s, frag, inGroup, false) ==
                Machine.UpdateOpt(s1, m.opt, if !s.opts[m.opt].req || strpos == [] then None else Some(strpos))
    {
    }

    /** parse_opt in the long form. */
    method ParseLong(frag: string) returns (st: Status)
      requires Settled(Snap())
      modifies this, args, opts
      ensures (Snap(), st) == Machine.ParseLong(old(Snap()), frag)
    {
      var m := MatchOpt(Long, frag);
      if m.None? {
        return NotOpt;
      }
      MatchIsPrefix(opts[..], Long, frag);
      var i := m.value.opt;
      var rest := frag[m.value.adv..];
      cur := Some(i);
      if rest == [] {
        st := UpdateOpt(i, None);
      } else if rest[0] == '=' {
        st := UpdateOpt(i, Some(rest[1..]));
      } else {
        st := NotOpt;
      }
    }

    /** parse_arg. */
    method ParseArg() returns (st: Status)
      requires Settled(Snap())
      modifies this, args, opts
      ensures (Snap(), st) == Machine.ParseArg(old(Snap()))
    {
      ParseArgCases(Snap());
      if grppos.Some? {
        st := ParseShort(grppos.value, true);
      } else {
        st := ParseToken(args[arg]);
      }
    }

    /** parse_arg on a fresh token: "--" alone, a long option, a short option
        or group, or an operand (which includes "-" alone). */
    method ParseToken(tok: string) returns (st: Status)
      requires Settled(Snap()) && grppos.None? && tok == args[arg]
      modifies this, args, opts
      ensures (Snap(), st) == Machine.ParseArg(old(Snap()))
    {
      if EndOfOptions(tok) {
        ParseArgDash(Snap());
        st := EndOfOptionsArg();
      } else if LongForm(tok) {
        ParseArgLong(Snap());
        st := ParseLong(tok[2..]);
      } else if ShortForm(tok) {
        ParseArgShort(Snap());
        st := ParseShort(tok[1..], false);
      } else {
        ParseArgOperand(Snap());
        UpdateOper(Literal(tok));
        st := Success;
      }
    }

    /** "--": nothing after it, or the block of every token after it. */
    method EndOfOptionsArg() returns (st: Status)
      requires Settled(Snap())
      modifies this, args, opts
      ensures (Snap(), st) == EndOptions(old(Snap()))
    {
      st := Success;
      if args.Length - arg == 1 {
        EndOptionsLast(Snap());
      } else {
        ghost var s := Snap();
        DashDash(s);
        EndOptionsBulk(s, Machine.UpdateOper(s, InArgs(s.arg + 1, |s.args| - s.arg - 1)));
      }
    }

    /** The bare "--" branch of parse_arg: every token after it is an
        operand, so the block is handed to update_oper at once and the cursor
        moves to the last token. */
    method DashDash(ghost s: State)
      requires s == Snap() && Settled(s) && |s.args| - s.arg > 1
      modifies this, args, opts
      ensures Snap() == Machine.UpdateOper(s, InArgs(s.arg + 1, |s.args| - s.arg - 1)).(arg := |s.args| - 1)
    {
      var o := InArgs(arg + 1, args.Length - arg - 1);
      assert o == InArgs(s.arg + 1, |s.args| - s.arg - 1);
      UpdateOper(o);
      ghost var u := Snap();
      assert u == Machine.UpdateOper(s, InArgs(s.arg + 1, |s.args| - s.arg - 1));
      MoveTo(args.Length - 1);
    }

    /** Set the token cursor. */
    method MoveTo(k: nat)
      modifies this
      ensures Snap() == old(Snap()).(arg := k)
    {
      arg := k;
    }

    static lemma EndOptionsLast(s: State)
      requires Settled(s) && |s.args| - s.arg == 1
      ensures EndOptions(s) == (s, Success)
    {
    }

    // ---- The distributor

    /** assign_opers: nlower summed over the valid slots, then each slot, in
        order, takes its required and optional share of the intermediate
        operands. */
    method AssignOpers() returns (st: Status)
      modifies opers
      ensures (opers[..], st) == Assign(old(opers[..]), ioper)
    {
      ghost var o := opers[..];
      ghost var n := OperCount(o);
      var count := ioper.len;
      var nlower := SumLowers();
      if count < nlower {
        return RangeOper;
      }
      var extra: nat, req: nat := count - nlower, nlower;
      var i := 0;
      while i < opers.Length && ValidateArg(opers[i])
        modifies opers
        invariant 0 <= i <= n
        invariant extra + req <= count
        invariant SameOpers(opers[..], o)
        invariant Distribute(o, n, 0, count, Rest(count - nlower, nlower), ioper.start) ==
                  Distribute(opers[..], n, i, count, Rest(extra, req), ioper.start)
      {
        assert opers[i].name == o[i].name;
        extra, req := FillSlot(i, count, extra, req);
        i := i + 1;
      }
      assert i == n;
      st := if extra != 0 || req != 0 then RangeOper else Success;
    }

    /** The first loop of assign_opers: the lower bounds of the valid slots, summed. */
    method SumLowers() returns (nlower: nat)
      ensures nlower == SumLower(opers[..], OperCount(opers[..]))
    {
      ghost var o := opers[..];
      nlower := 0;
      var i := 0;
      while i < opers.Length && ValidateArg(opers[i])
        invariant 0 <= i <= opers.Length
        invariant forall k :: 0 <= k < i ==> ValidateArg(opers[k])
        invariant nlower == SumLower(o, i)
      {
        nlower := nlower + SelectLower(opers[i].bounds);
        i := i + 1;
      }
      OperCountAt(o, i);
    }

    /** The body of the second loop of assign_opers on slot i: its start, if
        unset (or if there are no operands at all), then its required share,
        then its optional share of what is left. */
    method FillSlot(i: nat, count: nat, extra0: nat, req0: nat) returns (extra: nat, req: nat)
      requires i < opers.Length && extra0 + req0 <= count
      modifies opers
      ensures opers[..] == old(opers[..])[i := Fill(old(opers[i]), count, Rest(extra0, req0), ioper.start)]
      ensures Rest(extra, req) == Drain(old(opers[i]), Rest(extra0, req0))
    {
      extra, req := extra0, req0;
      var a := opers[i];
      var start := a.val.start;
      if count == 0 || start.None? {
        start := StartAt(ioper.start, count - (extra + req));
      }
      var lower := SelectLower(a.bounds);
      var upper := SelectUpper(a.bounds);
      var len := a.val.len;
      var add := if req > lower then lower else req;
      assert add == AddReq(a, Rest(extra0, req0));
      len, req := len + add, req - add;
      add := if a.bounds.inf then extra else if extra > upper then upper else extra;
      assert add == AddExtra(a, extra0);
      len, extra := len + add, extra - add;
      opers[i] := a.(val := View(start, len));
    }

    // ---- The step

    /** readopt_parse (readarg_parse records the same status in its error
        field): one step of the parser. */
    method Step() returns (a: Answer)
      requires Valid(Snap())
      modifies this, args, opts, opers
      ensures (Snap(), a) == Machine.Step(old(Snap()))
    {
      if arg >= args.Length {
        a := Finish();
      } else if pending {
        a := TakePending();
      } else {
        a := ParseNext();
      }
    }

    /** The step at the end of the array: NOVAL for a pending option, then
        the bounds of every option, then assign_opers. */
    method Finish() returns (a: Answer)
      requires Valid(Snap()) && arg >= args.Length
      modifies opers
      ensures (Snap(), a) == Machine.Step(old(Snap()))
    {
      if pending {
        return Answer(true, NoVal);
      }
      var i := 0;
      while i < opts.Length && ValidateOpt(opts[i])
        invariant 0 <= i <= opts.Length
        invariant forall k :: 0 <= k < i ==> ValidateWithin(opts[k].arg) && ValidateOpt(opts[k])
      {
        if !ValidateWithin(opts[i].arg) {
          assert i < OptCount(opts[..]);
          return Answer(true, RangeOpt);
        }
        i := i + 1;
      }
      OptCountAt(opts[..], i);
      var st := AssignOpers();
      return Answer(true, st);
    }

    /** The step with a value pending: the whole token is the value. */
    method TakePending() returns (a: Answer)
      requires Valid(Snap()) && arg < args.Length && pending
      modifies this, args, opts
      ensures (Snap(), a) == Machine.Step(old(Snap()))
    {
      StepPendingIs(Snap());
      var st := AddVal(cur.value, args[arg]);
      arg := arg + 1;
      return Answer(false, st);
    }

    /** The step on a fresh token or on the rest of a group. */
    method ParseNext() returns (a: Answer)
      requires Valid(Snap()) && arg < args.Length && !pending
      modifies this, args, opts
      ensures (Snap(), a) == Machine.Step(old(Snap()))
    {
      ghost var s := Snap();
      StepFresh(s);
      var st := ParseArg();
      ghost var p := Machine.ParseArg(s);
      assert Snap() == p.0 && st == p.1;
      if grppos.None? {
        arg := arg + 1;
      }
      return Answer(false, st);
    }
  }
}
