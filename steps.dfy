/** Properties of the bookkeeping functions and of one parser step: what
    update_opt, add_val and update_oper do, and that every successful step
    keeps the state invariant Valid. */
module Steps {
  import opened Decl
  import opened Matcher
  import opened Distributor
  import opened Machine
  import opened Permuter

  // ---- Bookkeeping

  /** add_val always clears pending. A count outside the bounds gives
      RANGEOPT and places nothing; otherwise the value is permuted in. */
  lemma AddValSpec(s: State, i: nat, val: string)
    requires Room(s, i)
    ensures var r := AddVal(s, i, val);
            !r.0.pending &&
            (r.1 == Success <==> ValidateWithin(s.opts[i].arg)) &&
            (r.1 != Success ==> r.1 == RangeOpt && r.0 == s.(pending := false)) &&
            (r.1 == Success ==> r.0 == PermuteVal(s.(pending := false), OptVal(i), val, false))
  {
  }

  /** update_opt: the occurrence is always counted first and option i becomes
      the current option. A value-taking option with an attached value then
      returns the status of add_val; without one it sets pending and
      succeeds; a flag succeeds unless a value is attached (NOTREQ). */
  lemma UpdateOptSpec(s: State, i: nat, attach: Option<string>)
    requires Settled(s) && i < OptCount(s.opts)
    ensures var r := UpdateOpt(s, i, attach);
            var counted := OccOpt(s, i);
            r.0.cur == Some(i) &&
            r.0.opts[i].arg.val.len == s.opts[i].arg.val.len + 1 &&
            (s.opts[i].req && attach.Some? ==>
               !r.0.pending &&
               (r.1 == Success <==> ValidateWithin(counted.opts[i].arg)) &&
               (r.1 == Success ==> r.0 == PermuteVal(counted, OptVal(i), attach.value, false)) &&
               (r.1 != Success ==> r.1 == RangeOpt && r.0 == counted)) &&
            (s.opts[i].req && attach.None? ==> r == (counted.(pending := true), Success)) &&
            (!s.opts[i].req ==> r.0 == counted && (r.1 == NotReq <==> attach.Some?) && (r.1 != NotReq ==> r.1 == Success))
  {
    if s.opts[i].req && attach.Some? {
      assert OptFits(s.opts[i].arg.val, Placed(s, i), IoperBase(s));
      var c := OccOpt(s, i);
      assert c.(pending := false) == c;
      if ValidateWithin(c.opts[i].arg) {
        PermuteValViews(c, OptVal(i), attach.value, false);
      }
    }
  }

  /** Counting an occurrence keeps the layout when a value-taking option
      becomes pending (its placed count is unchanged) and for a flag (whose
      view the layout does not constrain). */
  lemma OccKeepsLayout(s: State, i: nat)
    requires Settled(s) && i < OptCount(s.opts)
    ensures Layout(OccOpt(s, i).(pending := s.opts[i].req))
  {
    var r := OccOpt(s, i).(pending := s.opts[i].req);
    forall k | 0 <= k < OptCount(r.opts) && r.opts[k].req
      ensures OptFits(r.opts[k].arg.val, Placed(r, k), IoperBase(r))
    {
      assert Placed(s, k) == s.opts[k].arg.val.len;
    }
    forall j, k | 0 <= j < OptCount(r.opts) && 0 <= k < OptCount(r.opts) && j != k && r.opts[j].req && r.opts[k].req
      ensures ApartAt(r.opts, Held(r), j, k)
    {
      assert ApartAt(s.opts, Held(s), j, k);
    }
  }

  /** Placing the attached value of a just counted option keeps the layout,
      and every other option and ioper keep the values they hold. */
  lemma OccPlaceKeeps(s: State, i: nat, val: string)
    requires Settled(s) && i < OptCount(s.opts) && s.opts[i].req
    ensures var c := OccOpt(s, i);
            CanPermute(c, OptVal(i), false) &&
            var r := PermuteVal(c, OptVal(i), val, false);
            Layout(r) && r.arg == s.arg && r.eoval == s.eoval + 1 && |r.args| == |s.args| &&
            r.cur == Some(i) && r.grppos == s.grppos && !r.pending && SameOpts(r.opts, s.opts)
    ensures var r := PermuteVal(OccOpt(s, i), OptVal(i), val, false);
            KeepsOptValues(s, r, Some(i)) && IoperValues(r) == IoperValues(s)
  {
    var c := OccOpt(s, i);
    OccKeepsLayout(s, i);
    assert Placing(c, i);
    PermuteOptLayout(c, i, val);
    PermuteValCells(c, OptVal(i), val, false);
    PermuteValViews(c, OptVal(i), val, false);
    OccKeepsValues(s, i);
    OccTransfer(s, i, PermuteVal(c, OptVal(i), val, false));
  }

  /** What keeps the values of the counted state keeps those of the state before. */
  lemma OccTransfer(s: State, i: nat, r: State)
    requires i < |s.opts| && KeepsOptValues(s, OccOpt(s, i), Some(i)) && KeepsOptValues(OccOpt(s, i), r, Some(i))
    ensures KeepsOptValues(s, r, Some(i))
  {
    var c := OccOpt(s, i);
    forall k | 0 <= k < OptCount(s.opts) && s.opts[k].req && Some(i) != Some(k)
      ensures OptValues(r, k) == OptValues(s, k)
    {
      assert OptValues(r, k) == OptValues(c, k);
      assert OptValues(c, k) == OptValues(s, k);
    }
  }

  /** Counting an occurrence of option i, and making it pending, changes no
      other option's values and no operand. */
  lemma OccKeepsValues(s: State, i: nat)
    requires Settled(s) && i < OptCount(s.opts)
    ensures KeepsOptValues(s, OccOpt(s, i), Some(i)) && IoperValues(OccOpt(s, i)) == IoperValues(s)
    ensures KeepsOptValues(s, OccOpt(s, i).(pending := true), Some(i)) && IoperValues(OccOpt(s, i).(pending := true)) == IoperValues(s)
  {
    var c := OccOpt(s, i);
    var c' := c.(pending := true);
    forall k | 0 <= k < OptCount(s.opts) && s.opts[k].req && Some(i) != Some(k)
      ensures OptValues(c, k) == OptValues(s, k) && OptValues(c', k) == OptValues(s, k)
    {
      assert c.opts[k] == s.opts[k] && Placed(c, k) == Placed(s, k) && Placed(c', k) == Placed(s, k);
    }
  }

  /** A successful update_opt keeps the layout, moves eoval by at most the one
      value it places, changes the array only when it places a value, and
      leaves every other option's values and the operands as they were. */
  lemma UpdateOptKeeps(s: State, i: nat, attach: Option<string>)
    requires Settled(s) && i < OptCount(s.opts)
    requires UpdateOpt(s, i, attach).1 == Success
    ensures var r := UpdateOpt(s, i, attach).0;
            Layout(r) && r.arg == s.arg && s.eoval <= r.eoval <= s.eoval + 1 && |r.args| == |s.args| &&
            r.cur == Some(i) && r.grppos == s.grppos && SameOpts(r.opts, s.opts) &&
            (r.pending ==> s.opts[i].req && attach.None? && r.opts[i].arg.val.len >= 1) &&
            (!(s.opts[i].req && attach.Some?) ==> r.args == s.args && r.eoval == s.eoval)
    ensures var r := UpdateOpt(s, i, attach).0;
            r.ioper.len == s.ioper.len && KeepsOptValues(s, r, Some(i)) && IoperValues(r) == IoperValues(s)
  {
    if s.opts[i].req && attach.Some? {
      var c := OccOpt(s, i);
      assert c.(pending := false) == c;
      OccPlaceKeeps(s, i, attach.value);
      PermuteValViews(c, OptVal(i), attach.value, false);
    } else {
      OccKeepsLayout(s, i);
      OccKeepsValues(s, i);
      assert OccOpt(s, i).(pending := false) == OccOpt(s, i);
    }
  }

  /** update_oper with one token: ioper grows by one, the token lands at the
      old eoval and is appended to ioper's values, the layout is kept, and
      every value-taking option keeps its view and its values. */
  lemma UpdateOperOne(s: State, tok: string)
    requires Settled(s)
    ensures CanPermute(s.(ioper := s.ioper.(len := s.ioper.len + 1)), Ioper, true)
    ensures var r := PermuteVal(s.(ioper := s.ioper.(len := s.ioper.len + 1)), Ioper, tok, true);
            |r.args| == |s.args| && r.arg == s.arg && !r.pending && r.grppos == s.grppos && r.cur == s.cur &&
            r.opers == s.opers && SameOpts(r.opts, s.opts) &&
            r.ioper.len == s.ioper.len + 1 && r.eoval == s.eoval + 1 && r.ioper.start == Some(IoperBase(s))
    ensures var r := PermuteVal(s.(ioper := s.ioper.(len := s.ioper.len + 1)), Ioper, tok, true);
            r.args[s.eoval] == tok && Cells(r.args, r.ioper, r.ioper.len) == Cells(s.args, s.ioper, s.ioper.len) + [tok]
    ensures Layout(PermuteVal(s.(ioper := s.ioper.(len := s.ioper.len + 1)), Ioper, tok, true))
    ensures KeepsOptValues(s, PermuteVal(s.(ioper := s.ioper.(len := s.ioper.len + 1)), Ioper, tok, true), None)
  {
    var s1 := s.(ioper := s.ioper.(len := s.ioper.len + 1));
    PermuteOperLayout(s, tok);
    PermuteValCells(s1, Ioper, tok, true);
    PermuteValViews(s1, Ioper, tok, true);
    PermuteGrowsTarget(s1, Ioper, tok, true);
    assert Cells(s1.args, View(Some(StartOf(s1, Ioper, true)), s1.ioper.len), s.ioper.len) == Cells(s.args, s.ioper, s.ioper.len);
  }

  /** update_oper on a single operand, given literally or as a one-token
      block: it is permuted to the end of ioper. */
  lemma UpdateOperSingle(s: State, val: Operands)
    requires Settled(s)
    requires val.InArgs? ==> val.len == 1 && s.arg < val.from && val.from + val.len <= |s.args|
    ensures var tok := if val.Literal? then val.tok else s.args[val.from];
            var s1 := s.(ioper := s.ioper.(len := s.ioper.len + 1));
            CanPermute(s1, Ioper, true) && UpdateOper(s, val) == PermuteVal(s1, Ioper, tok, true)
  {
    var s1 := s.(ioper := s.ioper.(len := s.ioper.len + 1));
    assert CanPermute(s1, Ioper, true);
  }

  /** update_oper on a block of two or more tokens: they are copied to eoval
      in bulk and ioper grows by their number; eoval, ioper's start, the
      tables and every other field stay as they were. */
  lemma UpdateOperBlock(s: State, from: nat, len: nat)
    requires Settled(s)
    requires len >= 2 && s.arg < from && from + len <= |s.args|
    ensures var r := UpdateOper(s, InArgs(from, len));
            r.args == PermuteRest(s.args, s.eoval, from, len) &&
            r.args[s.eoval..s.eoval + len] == s.args[from..from + len] &&
            r.args[..s.eoval] == s.args[..s.eoval] && r.args[s.eoval + len..] == s.args[s.eoval + len..] &&
            r.ioper == View(s.ioper.start, s.ioper.len + len) &&
            r == s.(args := r.args, ioper := r.ioper)
  {
    PermuteRestSpec(s.args, s.eoval, from, len);
  }

  // ---- Invariant preservation

  /** What a successful parse_opt leaves behind: the layout, a current
      option, a pending option only with no group in progress, and a group
      cursor only over a non-empty suffix of frag, with the array untouched. */
  predicate ParsedFrom(s: State, r: State, frag: string)
  {
    Layout(r) && r.arg == s.arg && r.eoval <= s.eoval + 1 && |r.args| == |s.args| &&
    SameOpts(r.opts, s.opts) && r.cur.Some? && r.cur.value < OptCount(s.opts) &&
    (r.pending ==> r.opts[r.cur.value].req && r.opts[r.cur.value].arg.val.len >= 1 && r.grppos.None?) &&
    (r.grppos.Some? ==> r.grppos.value != [] && |r.grppos.value| <= |frag| && r.args == s.args && r.eoval == s.eoval)
  }

  lemma ParseShortKeeps(s: State, frag: string, inGroup: bool)
    requires Settled(s) && (!inGroup ==> s.grppos.None?)
    requires ParseShort(s, frag, inGroup, false).1 == Success
    ensures ParsedFrom(s, ParseShort(s, frag, inGroup, false).0, frag)
  {
    var m := MatchOpt(s.opts, Short, frag);
    MatchIsPrefix(s.opts, Short, frag);
    var i := m.value.opt;
    var strpos := frag[m.value.adv..];
    var s1 := s.(cur := Some(i), grppos := GroupAfter(s, s.opts[i].req, strpos, inGroup, false));
    SameOptsCount(s.opts, s.opts);
    if !s.opts[i].req && strpos != [] {
      UpdateOptKeeps(s1, i, None);
    } else {
      UpdateOptKeeps(s1, i, if strpos != [] then Some(strpos) else None);
    }
    SameOptsCount(ParseShort(s, frag, inGroup, false).0.opts, s.opts);
  }

  lemma ParseLongKeeps(s: State, frag: string)
    requires Settled(s) && s.grppos.None?
    requires ParseLong(s, frag).1 == Success
    ensures ParsedFrom(s, ParseLong(s, frag).0, frag) && ParseLong(s, frag).0.grppos.None?
  {
    var m := MatchOpt(s.opts, Long, frag);
    MatchIsPrefix(s.opts, Long, frag);
    var i := m.value.opt;
    var rest := frag[m.value.adv..];
    var s1 := s.(cur := Some(i));
    if rest == [] {
      UpdateOptKeeps(s1, i, None);
    } else {
      UpdateOptKeeps(s1, i, Some(rest[1..]));
    }
    SameOptsCount(ParseLong(s, frag).0.opts, s.opts);
  }

  /** The state after a step of parse_arg, before the cursor moves on. */
  function Advance(r: State): State
  {
    if r.grppos.None? then r.(arg := r.arg + 1) else r
  }

  lemma ParsedValid(s: State, r: State, frag: string)
    requires Valid(s) && s.arg < |s.args| && ParsedFrom(s, r, frag)
    requires r.grppos.Some? ==> |frag| < |s.args[s.arg]|
    ensures Valid(Advance(r))
  {
    SameOptsCount(r.opts, s.opts);
  }

  lemma OperandValid(s: State, tok: string)
    requires Valid(s) && s.arg < |s.args| && !s.pending && s.grppos.None?
    ensures Valid(UpdateOper(s, Literal(tok)).(arg := s.arg + 1))
    ensures Advance(UpdateOper(s, Literal(tok))) == UpdateOper(s, Literal(tok)).(arg := s.arg + 1)
  {
    OperandPlaced(s, tok);
    ValidAdvanced(UpdateOper(s, Literal(tok)), s.arg + 1);
  }

  /** The shape update_oper leaves after one literal operand. */
  lemma OperandPlaced(s: State, tok: string)
    requires Settled(s)
    ensures var r := UpdateOper(s, Literal(tok));
            Layout(r) && !r.pending && r.grppos.None? == s.grppos.None? && r.arg == s.arg &&
            r.eoval == s.eoval + 1 && |r.args| == |s.args| && (r.cur.Some? ==> r.cur.value < OptCount(r.opts))
  {
    UpdateOperSingle(s, Literal(tok));
    UpdateOperOne(s, tok);
    var r := PermuteVal(s.(ioper := s.ioper.(len := s.ioper.len + 1)), Ioper, tok, true);
    SameOptsCount(r.opts, s.opts);
  }

  /** A settled-shaped state stays valid when the cursor moves to `arg`. */
  lemma ValidAdvanced(r: State, arg: nat)
    requires Layout(r) && !r.pending && r.grppos.None? && r.eoval <= arg <= |r.args|
    requires r.cur.Some? ==> r.cur.value < OptCount(r.opts)
    ensures Valid(r.(arg := arg))
  {
    LayoutIgnoresCursor(r, arg);
  }

  /** The layout does not depend on the token cursor. */
  lemma LayoutIgnoresCursor(r: State, arg: nat)
    requires Layout(r)
    ensures Layout(r.(arg := arg))
  {
    var u := r.(arg := arg);
    assert forall k :: 0 <= k < |r.opts| ==> Placed(u, k) == Placed(r, k);
  }

  lemma DashDashValid(s: State)
    requires Valid(s) && s.arg + 1 < |s.args| && !s.pending && s.grppos.None?
    ensures var off := |s.args| - s.arg;
            Valid(UpdateOper(s, InArgs(s.arg + 1, off - 1)).(arg := |s.args|))
    ensures UpdateOper(s, InArgs(s.arg + 1, |s.args| - s.arg - 1)).grppos.None?
  {
    var off := |s.args| - s.arg;
    if off - 1 == 1 {
      UpdateOperSingle(s, InArgs(s.arg + 1, 1));
      UpdateOperOne(s, s.args[s.arg + 1]);
    } else {
      UpdateOperBlock(s, s.arg + 1, off - 1);
    }
    SameOptsCount(UpdateOper(s, InArgs(s.arg + 1, off - 1)).opts, s.opts);
  }

  /** A step on a fresh token or on the rest of a group: parse_arg, then the
      cursor moves on unless a group is left to parse. */
  lemma StepFresh(s: State)
    requires Valid(s) && s.arg < |s.args| && !s.pending
    ensures Settled(s)
    ensures var p := ParseArg(s);
            Step(s) == (if p.0.grppos.None? then p.0.(arg := p.0.arg + 1) else p.0, Answer(false, p.1))
  {
  }

  /** A step with a value pending: add_val on the whole token, and the
      cursor moves on. */
  lemma StepPendingIs(s: State)
    requires Valid(s) && s.arg < |s.args| && s.pending
    ensures Room(s, s.cur.value)
    ensures var p := AddVal(s, s.cur.value, s.args[s.arg]);
            Step(s) == (p.0.(arg := s.arg + 1), Answer(false, p.1))
  {
    assert OptFits(s.opts[s.cur.value].arg.val, Placed(s, s.cur.value), IoperBase(s));
  }

  /** The branches of ParseArg, one per kind of token. */
  lemma ParseArgCases(s: State)
    requires Settled(s)
    ensures s.grppos.Some? ==> ParseArg(s) == ParseShort(s, s.grppos.value, true, false)
    ensures s.grppos.None? && EndOfOptions(s.args[s.arg]) && |s.args| - s.arg == 1 ==> ParseArg(s) == (s, Success)
    ensures s.grppos.None? && EndOfOptions(s.args[s.arg]) && |s.args| - s.arg != 1 ==>
              ParseArg(s) == (UpdateOper(s, InArgs(s.arg + 1, |s.args| - s.arg - 1)).(arg := |s.args| - 1), Success)
    ensures s.grppos.None? && LongForm(s.args[s.arg]) ==> ParseArg(s) == ParseLong(s, s.args[s.arg][2..])
    ensures s.grppos.None? && ShortForm(s.args[s.arg]) ==> ParseArg(s) == ParseShort(s, s.args[s.arg][1..], false, false)
    ensures var tok := s.args[s.arg];
            s.grppos.None? && !EndOfOptions(tok) && !LongForm(tok) && !ShortForm(tok) ==>
              ParseArg(s) == (UpdateOper(s, Literal(tok)), Success)
  {
    var tok := s.args[s.arg];
    if s.grppos.Some? {
    } else if EndOfOptions(tok) {
      if |s.args| - s.arg == 1 {
        ParseArgLast(s);
      } else {
        ParseArgBulk(s);
      }
    } else if LongForm(tok) {
      ParseArgLong(s);
    } else if ShortForm(tok) {
      ParseArgShort(s);
    } else {
      ParseArgOperand(s);
    }
  }

  /** "--" takes the EndOptions branch. */
  lemma ParseArgDash(s: State)
    requires Settled(s) && s.grppos.None? && EndOfOptions(s.args[s.arg])
    ensures ParseArg(s) == EndOptions(s)
  {
  }

  lemma ParseArgLast(s: State)
    requires Settled(s) && s.grppos.None? && EndOfOptions(s.args[s.arg]) && |s.args| - s.arg == 1
    ensures ParseArg(s) == (s, Success)
  {
    ParseArgDash(s);
  }

  lemma ParseArgBulk(s: State)
    requires Settled(s) && s.grppos.None? && EndOfOptions(s.args[s.arg]) && |s.args| - s.arg != 1
    ensures ParseArg(s) == (UpdateOper(s, InArgs(s.arg + 1, |s.args| - s.arg - 1)).(arg := |s.args| - 1), Success)
  {
    ParseArgDash(s);
    EndOptionsBulk(s, UpdateOper(s, InArgs(s.arg + 1, |s.args| - s.arg - 1)));
  }

  /** More than one token after "--": they go to the operands in one block. */
  lemma EndOptionsBulk(s: State, u: State)
    requires Settled(s) && |s.args| - s.arg > 1
    requires u == UpdateOper(s, InArgs(s.arg + 1, |s.args| - s.arg - 1))
    ensures EndOptions(s) == (u.(arg := |s.args| - 1), Success)
  {
  }

  lemma ParseArgLong(s: State)
    requires Settled(s) && s.grppos.None? && LongForm(s.args[s.arg])
    ensures ParseArg(s) == ParseLong(s, s.args[s.arg][2..])
  {
  }

  lemma ParseArgShort(s: State)
    requires Settled(s) && s.grppos.None? && ShortForm(s.args[s.arg])
    ensures ParseArg(s) == ParseShort(s, s.args[s.arg][1..], false, false)
  {
  }

  lemma ParseArgOperand(s: State)
    requires Settled(s) && s.grppos.None? && OperandForm(s.args[s.arg])
    ensures ParseArg(s) == (UpdateOper(s, Literal(s.args[s.arg])), Success)
  {
  }

  lemma ParseArgValid(s: State)
    requires Valid(s) && s.arg < |s.args| && !s.pending
    requires ParseArg(s).1 == Success
    ensures Valid(Advance(ParseArg(s).0))
  {
    var tok := s.args[s.arg];
    if s.grppos.Some? {
      GroupValid(s);
    } else if EndOfOptions(tok) {
      DashValid(s);
    } else if LongForm(tok) {
      LongFormValid(s);
    } else if ShortForm(tok) {
      ShortFormValid(s);
    } else {
      OperandFormValid(s);
    }
  }

  lemma OperandFormValid(s: State)
    requires Valid(s) && s.arg < |s.args| && !s.pending
    requires s.grppos.None? && OperandForm(s.args[s.arg])
    ensures Valid(Advance(ParseArg(s).0))
  {
    ParseArgOperand(s);
    OperandValid(s, s.args[s.arg]);
  }

  lemma GroupValid(s: State)
    requires Valid(s) && s.arg < |s.args| && !s.pending
    requires ParseArg(s).1 == Success
    requires s.grppos.Some?
    ensures Valid(Advance(ParseArg(s).0))
  {
    ParseArgGroup(s);
    ShortValid(s, s.grppos.value, true, ParseArg(s));
  }

  lemma DashValid(s: State)
    requires Valid(s) && s.arg < |s.args| && !s.pending
    requires ParseArg(s).1 == Success
    requires s.grppos.None? && EndOfOptions(s.args[s.arg])
    ensures Valid(Advance(ParseArg(s).0))
  {
    ParseArgDash(s);
    if |s.args| - s.arg != 1 {
      EndOptionsValid(s, ParseArg(s));
    }
  }

  lemma LongFormValid(s: State)
    requires Valid(s) && s.arg < |s.args| && !s.pending
    requires ParseArg(s).1 == Success
    requires s.grppos.None? && !EndOfOptions(s.args[s.arg]) && LongForm(s.args[s.arg])
    ensures Valid(Advance(ParseArg(s).0))
  {
    ParseArgLong(s);
    LongValid(s, s.args[s.arg][2..], ParseArg(s));
  }

  lemma ShortFormValid(s: State)
    requires Valid(s) && s.arg < |s.args| && !s.pending
    requires ParseArg(s).1 == Success
    requires s.grppos.None? && !EndOfOptions(s.args[s.arg]) && !LongForm(s.args[s.arg])
    requires ShortForm(s.args[s.arg])
    ensures Valid(Advance(ParseArg(s).0))
  {
    ParseArgShort(s);
    ShortValid(s, s.args[s.arg][1..], false, ParseArg(s));
  }

  lemma ParseArgGroup(s: State)
    requires Settled(s) && s.grppos.Some?
    ensures ParseArg(s) == ParseShort(s, s.grppos.value, true, false)
  {
  }

  lemma ShortValid(s: State, frag: string, inGroup: bool, p: (State, Status))
    requires Valid(s) && s.arg < |s.args| && !s.pending
    requires inGroup ==> s.grppos == Some(frag)
    requires !inGroup ==> s.grppos.None? && |frag| < |s.args[s.arg]|
    requires p == ParseShort(s, frag, inGroup, false) && p.1 == Success
    ensures Valid(Advance(p.0))
  {
    ParseShortKeeps(s, frag, inGroup);
    ParsedValid(s, p.0, frag);
  }

  lemma LongValid(s: State, frag: string, p: (State, Status))
    requires Valid(s) && s.arg < |s.args| && !s.pending && s.grppos.None?
    requires p == ParseLong(s, frag) && p.1 == Success
    ensures Valid(Advance(p.0))
  {
    ParseLongKeeps(s, frag);
    ParsedValid(s, p.0, frag);
  }

  lemma EndOptionsValid(s: State, p: (State, Status))
    requires Valid(s) && s.arg + 1 < |s.args| && !s.pending && s.grppos.None?
    requires p == EndOptions(s)
    ensures Valid(Advance(p.0))
  {
    DashDashValid(s);
  }

  lemma PendingValid(s: State)
    requires Valid(s) && s.arg < |s.args| && s.pending
    requires Step(s).1.status == Success
    ensures Valid(Step(s).0)
  {
    var i := s.cur.value;
    var s1 := s.(pending := false);
    assert s1.(pending := true) == s;
    assert Placing(s1, i);
    PermuteOptLayout(s1, i, s.args[s.arg]);
    PermuteValCells(s1, OptVal(i), s.args[s.arg], false);
    PermuteValViews(s1, OptVal(i), s.args[s.arg], false);
    SameOptsCount(PermuteVal(s1, OptVal(i), s.args[s.arg], false).opts, s.opts);
  }

  /** Every successful step keeps the state invariant. */
  lemma StepValid(s: State)
    requires Valid(s) && Step(s).1.status == Success
    ensures Valid(Step(s).0)
  {
    if s.arg >= |s.args| {
    } else if s.pending {
      PendingValid(s);
    } else {
      ParseArgValid(s);
    }
  }

  /** No value-taking option holds a value yet: the declarations a parse
      starts from. */
  predicate Unparsed(opts: seq<Opt>)
  {
    forall k :: 0 <= k < OptCount(opts) && opts[k].req ==> opts[k].arg.val == View(None, 0)
  }

  /** parser_init starts a valid parse exactly when no value-taking option
      already holds values, or the token array is empty. */
  lemma InitValid(args: seq<string>, opts: seq<Opt>, opers: seq<Arg>)
    ensures Valid(Init(args, opts, opers)) <==> (args == [] || Unparsed(opts))
  {
    var s := Init(args, opts, opers);
    if args != [] && Valid(s) {
      forall k | 0 <= k < OptCount(opts) && opts[k].req
        ensures opts[k].arg.val == View(None, 0)
      {
        assert OptFits(s.opts[k].arg.val, Placed(s, k), IoperBase(s));
      }
    }
  }
}
