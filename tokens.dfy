/** What one step of the parser does with each kind of token: the end of the
    array, a pending value, "--" (Guideline 10 of section 12.2 of POSIX.1-2017
    XBD), a lone "-" or an operand, long options and their suffixes, short
    options and groups of short flags (Guideline 5 of the same section). */
module Tokens {
  import opened Decl
  import opened Matcher
  import opened Distributor
  import opened Machine
  import opened Permuter
  import opened Steps

  /** The bounds check add_val makes: on the count that already includes the
      new occurrence. */
  predicate WithinAfterOcc(a: Arg)
  {
    ValidateWithin(a.(val := a.val.(len := a.val.len + 1)))
  }

  // ---- Values

  /** Permuting a value into option i's view appends it to the values the
      view holds. */
  lemma OptGains(s: State, i: nat, val: string)
    requires CanPermute(s, OptVal(i), false)
    requires s.opts[i].arg.val.start.None? ==> s.opts[i].arg.val.len == 1
    ensures var r := PermuteVal(s, OptVal(i), val, false);
            var v := s.opts[i].arg.val;
            r.opts[i].arg.val.len == v.len &&
            r.opts[i].arg.val.start.Some? && r.opts[i].arg.val.start.value + v.len <= |r.args| &&
            (v.start.Some? ==> v.start.value + v.len - 1 <= |s.args|) &&
            Cells(r.args, r.opts[i].arg.val, v.len) == Cells(s.args, v, v.len - 1) + [val]
  {
    PermuteGrowsTarget(s, OptVal(i), val, false);
    PermuteValCells(s, OptVal(i), val, false);
  }

  /** update_opt of a value-taking option with an attached value: the count
      grows, and the value is appended to the option's values exactly when the
      new count is within the bounds (RANGEOPT otherwise, with the array
      untouched). Either way every other option and ioper keep their values. */
  lemma UpdateOptValue(s: State, i: nat, v: string)
    requires Settled(s) && i < OptCount(s.opts) && s.opts[i].req
    ensures var r := UpdateOpt(s, i, Some(v));
            var w := s.opts[i].arg.val;
            !r.0.pending && r.0.cur == Some(i) && r.0.arg == s.arg && r.0.opts[i].arg.val.len == w.len + 1 &&
            (r.1 == Success <==> WithinAfterOcc(s.opts[i].arg)) &&
            (r.1 != Success ==> r.1 == RangeOpt && r.0.args == s.args && r.0.eoval == s.eoval) &&
            (r.1 == Success ==>
               (w.start.Some? ==> w.start.value + w.len <= |s.args|) &&
               r.0.opts[i].arg.val.start.Some? && r.0.opts[i].arg.val.start.value + w.len + 1 <= |r.0.args| &&
               Cells(r.0.args, r.0.opts[i].arg.val, w.len + 1) == Cells(s.args, w, w.len) + [v])
    ensures var r := UpdateOpt(s, i, Some(v));
            KeepsOptValues(s, r.0, Some(i)) && IoperValues(r.0) == IoperValues(s)
  {
    UpdateOptSpec(s, i, Some(v));
    var c := OccOpt(s, i);
    assert OptFits(s.opts[i].arg.val, Placed(s, i), IoperBase(s));
    assert c.opts[i].arg == s.opts[i].arg.(val := s.opts[i].arg.val.(len := s.opts[i].arg.val.len + 1));
    if WithinAfterOcc(s.opts[i].arg) {
      OccPlaceKeeps(s, i, v);
      OptGains(c, i, v);
    } else {
      OccKeepsValues(s, i);
    }
  }

  /** Every update_opt leaves the cursor and the array size alone. */
  lemma UpdateOptCursor(s: State, i: nat, attach: Option<string>)
    requires Settled(s) && i < OptCount(s.opts)
    ensures UpdateOpt(s, i, attach).0.arg == s.arg && |UpdateOpt(s, i, attach).0.args| == |s.args|
  {
    if s.opts[i].req && attach.Some? {
      UpdateOptValue(s, i, attach.value);
      if UpdateOpt(s, i, attach).1 == Success {
        UpdateOptKeeps(s, i, attach);
      }
    }
  }

  // ---- The end of the array

  /** At the end of the array the step ends the parse: NOVAL when a value is
      still pending; else RANGEOPT when some option's count is outside its
      bounds, before any operand is distributed; else the result of
      assign_opers. */
  lemma StepAtEnd(s: State)
    requires Valid(s) && s.arg >= |s.args|
    ensures var r := Step(s);
            r.1.end &&
            (s.pending ==> r == (s, Answer(true, NoVal))) &&
            (!s.pending && (exists k :: 0 <= k < OptCount(s.opts) && !ValidateWithin(s.opts[k].arg)) ==>
               r == (s, Answer(true, RangeOpt))) &&
            (!s.pending && AllWithin(s.opts) ==>
               r == (s.(opers := Assign(s.opers, s.ioper).0), Answer(true, Assign(s.opers, s.ioper).1)))
  {
  }

  // ---- A pending value

  lemma PendingRoom(s: State)
    requires Valid(s) && s.arg < |s.args| && s.pending
    ensures var i := s.cur.value;
            var s1 := s.(pending := false);
            CanPermute(s1, OptVal(i), false) &&
            (s.opts[i].arg.val.start.None? ==> s.opts[i].arg.val.len == 1)
  {
    var i := s.cur.value;
    var s1 := s.(pending := false);
    assert s1.(pending := true) == s;
    assert Placing(s1, i);
    PermuteOptLayout(s1, i, s.args[s.arg]);
  }

  /** A pending option takes the whole next token as its value and the cursor
      moves past it, leaving every other option's values and the operands as
      they were; a count outside the bounds gives RANGEOPT instead. */
  lemma StepPending(s: State)
    requires Valid(s) && s.arg < |s.args| && s.pending
    ensures var r := Step(s);
            var i := s.cur.value;
            var w := s.opts[i].arg.val;
            !r.1.end && !r.0.pending && r.0.arg == s.arg + 1 && r.0.grppos.None? && r.0.opts[i].arg.val.len == w.len &&
            (r.1.status == Success <==> ValidateWithin(s.opts[i].arg)) &&
            (r.1.status != Success ==> r.1.status == RangeOpt && r.0 == s.(pending := false, arg := s.arg + 1)) &&
            (r.1.status == Success ==>
               (w.start.Some? ==> w.start.value + w.len - 1 <= |s.args|) &&
               r.0.opts[i].arg.val.start.Some? && r.0.opts[i].arg.val.start.value + w.len <= |r.0.args| &&
               Cells(r.0.args, r.0.opts[i].arg.val, w.len) == Cells(s.args, w, w.len - 1) + [s.args[s.arg]])
    ensures var r := Step(s);
            r.1.status == Success ==> KeepsOptValues(s, r.0, Some(s.cur.value)) && IoperValues(r.0) == IoperValues(s)
  {
    var i := s.cur.value;
    PendingRoom(s);
    if ValidateWithin(s.opts[i].arg) {
      OptGains(s.(pending := false), i, s.args[s.arg]);
      StepPendingKeeps(s);
    }
  }

  lemma PendingShape(s1: State, i: nat, val: string)
    requires CanPermute(s1, OptVal(i), false)
    ensures var p := PermuteVal(s1, OptVal(i), val, false);
            p.cur == s1.cur && p.ioper.len == s1.ioper.len
  {
    PermuteValCells(s1, OptVal(i), val, false);
    PermuteValViews(s1, OptVal(i), val, false);
  }

  lemma StepPendingKeeps(s: State)
    requires Valid(s) && s.arg < |s.args| && s.pending && ValidateWithin(s.opts[s.cur.value].arg)
    ensures KeepsOptValues(s, Step(s).0, Some(s.cur.value)) && IoperValues(Step(s).0) == IoperValues(s)
    ensures Step(s).0.cur == s.cur && Step(s).0.ioper.len == s.ioper.len
  {
    PendingPlaced(s);
    PendingMoved(s, Step(s).0);
  }

  /** The state after a pending value is placed and the cursor moves on. */
  lemma PendingMoved(s: State, r: State)
    requires Valid(s) && s.arg < |s.args| && s.pending && CanPermute(s.(pending := false), OptVal(s.cur.value), false)
    requires r == PermuteVal(s.(pending := false), OptVal(s.cur.value), s.args[s.arg], false).(arg := s.arg + 1)
    ensures KeepsOptValues(s, r, Some(s.cur.value)) && IoperValues(r) == IoperValues(s)
    ensures r.cur == s.cur && r.ioper.len == s.ioper.len
  {
    var i := s.cur.value;
    var tok := s.args[s.arg];
    PendingKeeps(s, tok);
    var p := PermuteVal(s.(pending := false), OptVal(i), tok, false);
    KeepsAfterCursor(s, p, Some(i), s.arg + 1);
    assert IoperValues(r) == IoperValues(p);
  }

  /** A pending value within the bounds is permuted in, and the cursor moves on. */
  lemma PendingPlaced(s: State)
    requires Valid(s) && s.arg < |s.args| && s.pending && ValidateWithin(s.opts[s.cur.value].arg)
    ensures CanPermute(s.(pending := false), OptVal(s.cur.value), false)
    ensures Step(s).0 == PermuteVal(s.(pending := false), OptVal(s.cur.value), s.args[s.arg], false).(arg := s.arg + 1)
  {
    var i := s.cur.value;
    var tok := s.args[s.arg];
    StepPendingIs(s);
    AddValSpec(s, i, tok);
  }

  /** Placing a pending value changes no other option's values and no operand. */
  lemma PendingKeeps(s: State, val: string)
    requires Valid(s) && s.arg < |s.args| && s.pending
    ensures var s1 := s.(pending := false);
            CanPermute(s1, OptVal(s.cur.value), false) &&
            var p := PermuteVal(s1, OptVal(s.cur.value), val, false);
            KeepsOptValues(s, p, Some(s.cur.value)) && IoperValues(p) == IoperValues(s)
    ensures var p := PermuteVal(s.(pending := false), OptVal(s.cur.value), val, false);
            p.cur == s.cur && p.ioper.len == s.ioper.len
  {
    var i := s.cur.value;
    var s1 := s.(pending := false);
    assert s1.(pending := true) == s;
    assert Placing(s1, i);
    PermuteOptLayout(s1, i, val);
    PendingShape(s1, i, val);
    UnpendKeeps(s, PermuteVal(s1, OptVal(i), val, false));
  }

  /** Clearing pending changes no value but the current option's. */
  lemma UnpendKeeps(s: State, p: State)
    requires s.cur.Some? && s.cur.value < |s.opts| && KeepsOptValues(s.(pending := false), p, s.cur)
    ensures KeepsOptValues(s, p, s.cur)
  {
    var s1 := s.(pending := false);
    forall k | 0 <= k < OptCount(s.opts) && s.opts[k].req && s.cur != Some(k)
      ensures OptValues(p, k) == OptValues(s, k)
    {
      assert OptValues(p, k) == OptValues(s1, k);
      assert Placed(s1, k) == Placed(s, k);
    }
  }

  // ---- "--", "-" and operands

  lemma ParseArgCursor(s: State)
    requires Settled(s)
    ensures var r := ParseArg(s).0;
            |r.args| == |s.args| &&
            (s.grppos.None? && EndOfOptions(s.args[s.arg]) && s.arg + 1 < |s.args| ==> r.arg == |s.args| - 1 && r.grppos.None?) &&
            (!(s.grppos.None? && EndOfOptions(s.args[s.arg]) && s.arg + 1 < |s.args|) ==> r.arg == s.arg)
  {
    ParseArgCases(s);
    var tok := s.args[s.arg];
    if s.grppos.Some? {
      ParseShortCursor(s, s.grppos.value, true);
    } else if EndOfOptions(tok) {
      if s.arg + 1 < |s.args| {
        DashDashShape(s);
      }
    } else if LongForm(tok) {
      ParseLongCursor(s, tok[2..]);
    } else if ShortForm(tok) {
      ParseShortCursor(s, tok[1..], false);
    } else {
      UpdateOperSingle(s, Literal(tok));
      UpdateOperOne(s, tok);
    }
  }

  lemma DashDashShape(s: State)
    requires Settled(s) && s.arg + 1 < |s.args|
    ensures var r := UpdateOper(s, InArgs(s.arg + 1, |s.args| - s.arg - 1));
            |r.args| == |s.args| && r.grppos == s.grppos
  {
    var k := |s.args| - s.arg - 1;
    if k == 1 {
      UpdateOperSingle(s, InArgs(s.arg + 1, 1));
      UpdateOperOne(s, s.args[s.arg + 1]);
    } else {
      UpdateOperBlock(s, s.arg + 1, k);
    }
  }

  lemma ParseShortCursor(s: State, frag: string, inGroup: bool)
    requires Settled(s)
    ensures ParseShort(s, frag, inGroup, false).0.arg == s.arg
    ensures |ParseShort(s, frag, inGroup, false).0.args| == |s.args|
  {
    var m := MatchOpt(s.opts, Short, frag);
    if m.Some? {
      MatchIsPrefix(s.opts, Short, frag);
      var i := m.value.opt;
      var strpos := frag[m.value.adv..];
      var s1 := s.(cur := Some(i), grppos := GroupAfter(s, s.opts[i].req, strpos, inGroup, false));
      UpdateOptCursor(s1, i, None);
      UpdateOptCursor(s1, i, Some(strpos));
    }
  }

  lemma ParseLongCursor(s: State, frag: string)
    requires Settled(s)
    ensures ParseLong(s, frag).0.arg == s.arg
    ensures |ParseLong(s, frag).0.args| == |s.args|
  {
    var m := MatchOpt(s.opts, Long, frag);
    if m.Some? {
      MatchIsPrefix(s.opts, Long, frag);
      var i := m.value.opt;
      var rest := frag[m.value.adv..];
      var s1 := s.(cur := Some(i));
      UpdateOptCursor(s1, i, None);
      if rest != [] {
        UpdateOptCursor(s1, i, Some(rest[1..]));
      }
    }
  }

  /** A step before the end never ends the parse. A pending value moves the
      cursor by one; "--" with tokens after it moves it past the end; any
      other token moves it by one unless a group of short options is left to
      parse, in which case the cursor stays. */
  lemma StepCursor(s: State)
    requires Valid(s) && s.arg < |s.args|
    ensures var r := Step(s);
            var bulk := !s.pending && s.grppos.None? && EndOfOptions(s.args[s.arg]) && s.arg + 1 < |s.args|;
            !r.1.end && |r.0.args| == |s.args| &&
            (s.pending ==> r.0.arg == s.arg + 1) &&
            (bulk ==> r.0.arg == |s.args|) &&
            (!s.pending && !bulk ==> r.0.arg == (if r.0.grppos.Some? then s.arg else s.arg + 1))
  {
    if s.pending {
      StepPending(s);
      PendingRoom(s);
      PermuteValCells(s.(pending := false), OptVal(s.cur.value), s.args[s.arg], false);
    } else {
      ParseArgCursor(s);
    }
  }

  /** "--" as the last token ends the options and changes nothing but the
      cursor. */
  lemma DashDashLast(s: State)
    requires Valid(s) && s.arg + 1 == |s.args| && !s.pending && s.grppos.None? && EndOfOptions(s.args[s.arg])
    ensures Step(s) == (s.(arg := |s.args|), Answer(false, Success))
  {
    ParseArgCases(s);
    StepFresh(s);
  }

  /** "--" followed by k >= 2 tokens copies them in bulk to eoval and adds k
      to ioper's length (its start stays as it was, unset if it was); the
      cursor goes past the end, and nothing else changes. */
  lemma DashDashBlock(s: State)
    requires Valid(s) && s.arg + 2 < |s.args| && !s.pending && s.grppos.None? && EndOfOptions(s.args[s.arg])
    ensures var k := |s.args| - s.arg - 1;
            var r := Step(s);
            r.1 == Answer(false, Success) && r.0.arg == |s.args| && |r.0.args| == |s.args| &&
            r.0.eoval == s.eoval && r.0.ioper == View(s.ioper.start, s.ioper.len + k) &&
            r.0.args[s.eoval..s.eoval + k] == s.args[s.arg + 1..] &&
            r.0.args[..s.eoval] == s.args[..s.eoval] && r.0.args[s.eoval + k..] == s.args[s.eoval + k..] &&
            r.0.opts == s.opts && r.0.opers == s.opers && r.0.cur == s.cur && !r.0.pending && r.0.grppos.None?
  {
    var k := |s.args| - s.arg - 1;
    DashDashStep(s);
    UpdateOperBlock(s, s.arg + 1, k);
    var u := UpdateOper(s, InArgs(s.arg + 1, k));
    assert Step(s).0 == u.(arg := |s.args|);
    assert u == s.(args := u.args, ioper := View(s.ioper.start, s.ioper.len + k));
    assert s.args[s.arg + 1..] == s.args[s.arg + 1..s.arg + 1 + k];
  }

  /** "--" followed by a single token takes the single-operand path: the
      token lands at eoval and is appended to ioper, and every option keeps
      its values. */
  lemma DashDashOne(s: State)
    requires Valid(s) && s.arg + 2 == |s.args| && !s.pending && s.grppos.None? && EndOfOptions(s.args[s.arg])
    ensures var r := Step(s);
            var tok := s.args[s.arg + 1];
            r.1 == Answer(false, Success) && r.0.arg == |s.args| && |r.0.args| == |s.args| &&
            r.0.eoval == s.eoval + 1 && r.0.args[s.eoval] == tok &&
            r.0.ioper.len == s.ioper.len + 1 && r.0.ioper.start == Some(IoperBase(s)) &&
            Cells(r.0.args, r.0.ioper, r.0.ioper.len) == Cells(s.args, s.ioper, s.ioper.len) + [tok] &&
            SameOpts(r.0.opts, s.opts) && r.0.opers == s.opers && !r.0.pending && r.0.grppos.None?
    ensures KeepsOptValues(s, Step(s).0, None)
  {
    var tok := s.args[s.arg + 1];
    DashDashStep(s);
    UpdateOperSingle(s, InArgs(s.arg + 1, 1));
    UpdateOperOne(s, tok);
    var u := PermuteVal(s.(ioper := s.ioper.(len := s.ioper.len + 1)), Ioper, tok, true);
    assert Step(s).0 == u.(arg := |s.args|);
    KeepsAfterCursor(s, u, None, |s.args|);
  }

  /** "--" with tokens after it: update_oper on all of them, and the cursor past the end. */
  lemma DashDashStep(s: State)
    requires Valid(s) && s.arg + 1 < |s.args| && !s.pending && s.grppos.None? && EndOfOptions(s.args[s.arg])
    ensures Step(s) == (UpdateOper(s, InArgs(s.arg + 1, |s.args| - s.arg - 1)).(arg := |s.args|), Answer(false, Success))
  {
    ParseArgCases(s);
    DashDashShape(s);
    StepFresh(s);
  }

  /** A lone "-", and any token not starting with '-', becomes the next
      intermediate operand: it lands at the old eoval, is appended to ioper,
      every option keeps its values, and the cursor moves on. */
  lemma StepOperand(s: State)
    requires Valid(s) && s.arg < |s.args| && !s.pending && s.grppos.None?
    requires OperandForm(s.args[s.arg])
    ensures var r := Step(s);
            var tok := s.args[s.arg];
            r.1 == Answer(false, Success) && r.0.arg == s.arg + 1 && |r.0.args| == |s.args| &&
            r.0.eoval == s.eoval + 1 && r.0.args[s.eoval] == tok &&
            r.0.ioper.len == s.ioper.len + 1 && r.0.ioper.start == Some(IoperBase(s)) &&
            Cells(r.0.args, r.0.ioper, r.0.ioper.len) == Cells(s.args, s.ioper, s.ioper.len) + [tok] &&
            SameOpts(r.0.opts, s.opts) && r.0.opers == s.opers && !r.0.pending && r.0.grppos.None?
    ensures KeepsOptValues(s, Step(s).0, None)
  {
    var tok := s.args[s.arg];
    OperandStepIs(s);
    UpdateOperSingle(s, Literal(tok));
    UpdateOperOne(s, tok);
    var u := PermuteVal(s.(ioper := s.ioper.(len := s.ioper.len + 1)), Ioper, tok, true);
    assert Step(s).0 == u.(arg := s.arg + 1);
    KeepsAfterCursor(s, u, None, s.arg + 1);
  }

  /** An operand token is one update_oper, and the cursor moves on. */
  lemma OperandStepIs(s: State)
    requires Valid(s) && s.arg < |s.args| && !s.pending && s.grppos.None?
    requires OperandForm(s.args[s.arg])
    ensures Settled(s) && Step(s) == (UpdateOper(s, Literal(s.args[s.arg])).(arg := s.arg + 1), Answer(false, Success))
  {
    StepFresh(s);
    ParseArgOperand(s);
  }

  /** The operand tokens are exactly "-" alone, the empty token, and the
      tokens that do not start with '-'. */
  lemma OperandFormIff(tok: string)
    ensures OperandForm(tok) <==> (tok == "-" || tok == [] || tok[0] != '-')
  {
    if |tok| == 1 && tok[0] == '-' {
      assert tok == "-";
    }
  }

  // ---- Option suffixes

  /** After a long name matches: the end of the token means no value; '='
      attaches the rest of the token (possibly empty) as the value; any other
      character is NOTOPT, with only the current option changed. No match is
      NOTOPT with nothing changed. */
  lemma LongSuffix(s: State, frag: string)
    requires Settled(s) && s.grppos.None?
    ensures var m := MatchOpt(s.opts, Long, frag);
            var r := ParseLong(s, frag);
            (m.None? ==> r == (s, NotOpt)) &&
            (m.Some? ==>
               m.value.opt < OptCount(s.opts) && m.value.adv <= |frag| &&
               var i := m.value.opt;
               var rest := frag[m.value.adv..];
               var o := s.opts[i];
               var w := o.arg.val;
               r.0.cur == Some(i) && r.0.grppos.None? &&
               (rest != [] && rest[0] != '=' ==> r == (s.(cur := Some(i)), NotOpt)) &&
               (rest == [] ==> r.1 == Success && r.0.opts[i].arg.val.len == w.len + 1 && r.0.pending == o.req && r.0.args == s.args) &&
               (rest != [] && rest[0] == '=' && !o.req ==> r.1 == NotReq && r.0.opts[i].arg.val.len == w.len + 1 && r.0.args == s.args) &&
               (rest != [] && rest[0] == '=' && o.req ==>
                  !r.0.pending && r.0.opts[i].arg.val.len == w.len + 1 &&
                  (r.1 == Success <==> WithinAfterOcc(o.arg)) &&
                  (r.1 != Success ==> r.1 == RangeOpt && r.0.args == s.args) &&
                  (r.1 == Success ==>
                     (w.start.Some? ==> w.start.value + w.len <= |s.args|) &&
                     r.0.opts[i].arg.val.start.Some? && r.0.opts[i].arg.val.start.value + w.len + 1 <= |r.0.args| &&
                     Cells(r.0.args, r.0.opts[i].arg.val, w.len + 1) == Cells(s.args, w, w.len) + [rest[1..]])))
  {
    var m := MatchOpt(s.opts, Long, frag);
    if m.Some? {
      MatchIsPrefix(s.opts, Long, frag);
      var i := m.value.opt;
      var rest := frag[m.value.adv..];
      if rest == [] {
        LongBare(s, i);
      } else if rest[0] == '=' {
        LongAttached(s, i, rest[1..]);
      }
    }
  }

  /** `--name` alone: the occurrence is counted and nothing is placed. */
  lemma LongBare(s: State, i: nat)
    requires Settled(s) && s.grppos.None? && i < OptCount(s.opts)
    ensures var r := UpdateOpt(s.(cur := Some(i)), i, None);
            r.0.cur == Some(i) && r.0.grppos.None? &&
            r.1 == Success && r.0.opts[i].arg.val.len == s.opts[i].arg.val.len + 1 && r.0.pending == s.opts[i].req && r.0.args == s.args
  {
    var s1 := s.(cur := Some(i));
    SettledMoves(s, s1);
    UpdateOptSpec(s1, i, None);
  }

  /** `--name=v`: a flag is NOTREQ, a value-taking option takes v. */
  lemma LongAttached(s: State, i: nat, v: string)
    requires Settled(s) && s.grppos.None? && i < OptCount(s.opts)
    ensures var r := UpdateOpt(s.(cur := Some(i)), i, Some(v));
            var o := s.opts[i];
            var w := o.arg.val;
            r.0.cur == Some(i) && r.0.grppos.None? && r.0.opts[i].arg.val.len == w.len + 1 &&
            (!o.req ==> r.1 == NotReq && r.0.args == s.args) &&
            (o.req ==>
               !r.0.pending &&
               (r.1 == Success <==> WithinAfterOcc(o.arg)) &&
               (r.1 != Success ==> r.1 == RangeOpt && r.0.args == s.args) &&
               (r.1 == Success ==>
                  (w.start.Some? ==> w.start.value + w.len <= |s.args|) &&
                  r.0.opts[i].arg.val.start.Some? && r.0.opts[i].arg.val.start.value + w.len + 1 <= |r.0.args| &&
                  Cells(r.0.args, r.0.opts[i].arg.val, w.len + 1) == Cells(s.args, w, w.len) + [v]))
  {
    var s1 := s.(cur := Some(i));
    SettledMoves(s, s1);
    UpdateOptSpec(s1, i, Some(v));
    if s.opts[i].req {
      UpdateOptValue(s1, i, v);
    }
  }

  /** After a short name matches in a fresh token, or in the rest of a group
      (inGroup): a flag with characters left starts or continues a group on
      them and otherwise ends it; a value-taking option takes the rest as its
      value, or sets pending when nothing is left, and the group ends. No
      match is NOTOPT with nothing changed. */
  lemma ShortSuffix(s: State, frag: string, inGroup: bool)
    requires Settled(s) && (inGroup || s.grppos.None?)
    ensures var m := MatchOpt(s.opts, Short, frag);
            var r := ParseShort(s, frag, inGroup, false);
            (m.None? ==> r == (s, NotOpt)) &&
            (m.Some? ==>
               m.value.opt < OptCount(s.opts) && m.value.adv <= |frag| &&
               var i := m.value.opt;
               var rest := frag[m.value.adv..];
               var o := s.opts[i];
               var w := o.arg.val;
               r.0.cur == Some(i) && r.0.opts[i].arg.val.len == w.len + 1 &&
               (!o.req ==> r.1 == Success && r.0.args == s.args && !r.0.pending &&
                           r.0.grppos == (if rest == [] then None else Some(rest))) &&
               (o.req && rest == [] ==> r.1 == Success && r.0.pending && r.0.args == s.args && r.0.grppos.None?) &&
               (o.req && rest != [] ==>
                  r.0.grppos.None? && !r.0.pending &&
                  (r.1 == Success <==> WithinAfterOcc(o.arg)) &&
                  (r.1 != Success ==> r.1 == RangeOpt && r.0.args == s.args) &&
                  (r.1 == Success ==>
                     (w.start.Some? ==> w.start.value + w.len <= |s.args|) &&
                     r.0.opts[i].arg.val.start.Some? && r.0.opts[i].arg.val.start.value + w.len + 1 <= |r.0.args| &&
                     Cells(r.0.args, r.0.opts[i].arg.val, w.len + 1) == Cells(s.args, w, w.len) + [rest])))
  {
    var m := MatchOpt(s.opts, Short, frag);
    if m.Some? {
      MatchIsPrefix(s.opts, Short, frag);
      var i := m.value.opt;
      var rest := frag[m.value.adv..];
      if s.opts[i].req && rest != [] {
        ShortValueSuffix(s, frag, inGroup);
      } else {
        var s1 := s.(cur := Some(i), grppos := GroupAfter(s, s.opts[i].req, rest, inGroup, false));
        UpdateOptSpec(s1, i, None);
      }
    }
  }

  /** The value case of ShortSuffix: the rest of the token is the value. */
  lemma ShortValueSuffix(s: State, frag: string, inGroup: bool)
    requires Settled(s) && (inGroup || s.grppos.None?) && MatchOpt(s.opts, Short, frag).Some?
    requires var m := MatchOpt(s.opts, Short, frag).value;
             m.opt < |s.opts| && s.opts[m.opt].req && m.adv < |frag|
    ensures var m := MatchOpt(s.opts, Short, frag).value;
            var r := ParseShort(s, frag, inGroup, false);
            var rest := frag[m.adv..];
            var w := s.opts[m.opt].arg.val;
            r.0.cur == Some(m.opt) && r.0.opts[m.opt].arg.val.len == w.len + 1 &&
            r.0.grppos.None? && !r.0.pending &&
            (r.1 == Success <==> WithinAfterOcc(s.opts[m.opt].arg)) &&
            (r.1 != Success ==> r.1 == RangeOpt && r.0.args == s.args) &&
            (r.1 == Success ==>
               (w.start.Some? ==> w.start.value + w.len <= |s.args|) &&
               r.0.opts[m.opt].arg.val.start.Some? && r.0.opts[m.opt].arg.val.start.value + w.len + 1 <= |r.0.args| &&
               Cells(r.0.args, r.0.opts[m.opt].arg.val, w.len + 1) == Cells(s.args, w, w.len) + [rest])
  {
    var m := MatchOpt(s.opts, Short, frag).value;
    var rest := frag[m.adv..];
    ShortValueMatched(s, frag, inGroup, false);
    var s2 := s.(cur := Some(m.opt), grppos := GroupAfter(s, true, rest, inGroup, false));
    UpdateOptValue(s2, m.opt, rest);
    UpdateOptKeepsGroup(s2, m.opt, Some(rest));
  }

  // ---- Groups of short options

  /** A step inside a group parses the next short option of the group. No
      match is NOTOPT with nothing changed. After a match the group goes on
      over what is left after a flag, and ends when nothing is left or when a
      value-taking option takes the rest as its value; the cursor stays on the
      token exactly while the group goes on. */
  lemma GroupStep(s: State)
    requires Valid(s) && s.arg < |s.args| && !s.pending && s.grppos.Some?
    ensures var g := s.grppos.value;
            var m := MatchOpt(s.opts, Short, g);
            var r := Step(s);
            !r.1.end &&
            (m.None? ==> r == (s, Answer(false, NotOpt))) &&
            (m.Some? ==>
               m.value.opt < OptCount(s.opts) && m.value.adv <= |g| &&
               var i := m.value.opt;
               var rest := g[m.value.adv..];
               r.0.grppos == (if rest == [] || s.opts[i].req then None else Some(rest)) &&
               r.0.arg == (if r.0.grppos.None? then s.arg + 1 else s.arg) &&
               r.0.cur == Some(i) && r.0.opts[i].arg.val.len == s.opts[i].arg.val.len + 1 &&
               r.0.pending == (s.opts[i].req && rest == []))
    ensures var g := s.grppos.value;
            var m := MatchOpt(s.opts, Short, g);
            var r := Step(s);
            m.Some? ==>
              m.value.opt < |s.opts| && m.value.adv <= |g| &&
              var i := m.value.opt;
              var rest := g[m.value.adv..];
              var w := s.opts[i].arg.val;
              (!(s.opts[i].req && rest != []) ==> r.1.status == Success && r.0.args == s.args) &&
              (s.opts[i].req && rest != [] ==>
                 (r.1.status == Success <==> WithinAfterOcc(s.opts[i].arg)) &&
                 (r.1.status != Success ==> r.1.status == RangeOpt && r.0.args == s.args) &&
                 (r.1.status == Success ==>
                    (w.start.Some? ==> w.start.value + w.len <= |s.args|) &&
                    r.0.opts[i].arg.val.start.Some? && r.0.opts[i].arg.val.start.value + w.len + 1 <= |r.0.args| &&
                    Cells(r.0.args, r.0.opts[i].arg.val, w.len + 1) == Cells(s.args, w, w.len) + [rest]))
  {
    StepFresh(s);
    GroupShape(s);
    GroupOutcome(s, Step(s));
  }

  /** parse_opt on the rest of a group: where the group cursor, the current
      option and its count end up. */
  lemma GroupShape(s: State)
    requires Settled(s) && s.grppos.Some?
    ensures var g := s.grppos.value;
            var m := MatchOpt(s.opts, Short, g);
            var p := ParseShort(s, g, true, false);
            p.0.arg == s.arg &&
            (m.None? ==> p == (s, NotOpt)) &&
            (m.Some? ==>
               m.value.opt < OptCount(s.opts) && m.value.adv <= |g| &&
               var i := m.value.opt;
               var rest := g[m.value.adv..];
               p.0.grppos == (if rest == [] || s.opts[i].req then None else Some(rest)) &&
               p.0.cur == Some(i) && p.0.opts[i].arg.val.len == s.opts[i].arg.val.len + 1 &&
               p.0.pending == (s.opts[i].req && rest == []))
  {
    var g := s.grppos.value;
    var m := MatchOpt(s.opts, Short, g);
    ParseShortCursor(s, g, true);
    if m.Some? {
      MatchIsPrefix(s.opts, Short, g);
      var i := m.value.opt;
      var rest := g[m.value.adv..];
      var s1 := s.(cur := Some(i), grppos := GroupAfter(s, s.opts[i].req, rest, true, false));
      UpdateOptSpec(s1, i, None);
      UpdateOptSpec(s1, i, Some(rest));
    }
  }

  /** The status and values of a group step r, read off parse_opt on the
      rest of the group (the cursor move does not matter here). */
  lemma GroupOutcome(s: State, r: (State, Answer))
    requires Settled(s) && s.grppos.Some?
    requires var p := ParseShort(s, s.grppos.value, true, false);
             r.0.args == p.0.args && r.0.opts == p.0.opts && r.1.status == p.1
    ensures var g := s.grppos.value;
            var m := MatchOpt(s.opts, Short, g);
            m.Some? ==>
              m.value.opt < |s.opts| && m.value.adv <= |g| &&
              var i := m.value.opt;
              var rest := g[m.value.adv..];
              var w := s.opts[i].arg.val;
              (!(s.opts[i].req && rest != []) ==> r.1.status == Success && r.0.args == s.args) &&
              (s.opts[i].req && rest != [] ==>
                 (r.1.status == Success <==> WithinAfterOcc(s.opts[i].arg)) &&
                 (r.1.status != Success ==> r.1.status == RangeOpt && r.0.args == s.args) &&
                 (r.1.status == Success ==>
                    (w.start.Some? ==> w.start.value + w.len <= |s.args|) &&
                    r.0.opts[i].arg.val.start.Some? && r.0.opts[i].arg.val.start.value + w.len + 1 <= |r.0.args| &&
                    Cells(r.0.args, r.0.opts[i].arg.val, w.len + 1) == Cells(s.args, w, w.len) + [rest]))
  {
    ShortSuffix(s, s.grppos.value, true);
  }

  /** As written, a value-taking option inside a group leaves the group
      cursor on the value it took: the group ends only when nothing is left. */
  lemma GroupAsWritten(s: State)
    requires Settled(s) && s.grppos.Some?
    ensures var g := s.grppos.value;
            var m := MatchOpt(s.opts, Short, g);
            m.Some? ==>
              m.value.adv <= |g| &&
              var rest := g[m.value.adv..];
              ParseShort(s, g, true, true).0.grppos == (if rest == [] then None else Some(rest))
  {
    var g := s.grppos.value;
    var m := MatchOpt(s.opts, Short, g);
    if m.Some? {
      MatchIsPrefix(s.opts, Short, g);
      var i := m.value.opt;
      var rest := g[m.value.adv..];
      var s1 := s.(cur := Some(i), grppos := GroupAfter(s, s.opts[i].req, rest, true, true));
      UpdateOptKeepsGroup(s1, i, None);
      UpdateOptKeepsGroup(s1, i, Some(rest));
    }
  }

  /** update_opt never touches the group cursor. */
  lemma UpdateOptKeepsGroup(s: State, i: nat, attach: Option<string>)
    requires Settled(s) && i < OptCount(s.opts)
    ensures UpdateOpt(s, i, attach).0.grppos == s.grppos
  {
    if s.opts[i].req && attach.Some? {
      var c := OccOpt(s, i);
      assert c.(pending := false) == c;
      if ValidateWithin(c.opts[i].arg) {
        OccPlaceKeeps(s, i, attach.value);
      }
    }
  }

  /** A short value-taking option matched with characters left: the rest is
      its attached value, and the group cursor follows GroupAfter. */
  lemma ShortValueMatched(s: State, frag: string, inGroup: bool, asWritten: bool)
    requires Settled(s) && MatchOpt(s.opts, Short, frag).Some?
    requires var m := MatchOpt(s.opts, Short, frag).value;
             m.opt < |s.opts| && s.opts[m.opt].req && m.adv < |frag|
    ensures var m := MatchOpt(s.opts, Short, frag).value;
            var rest := frag[m.adv..];
            var s2 := s.(cur := Some(m.opt), grppos := GroupAfter(s, true, rest, inGroup, asWritten));
            Settled(s2) && m.opt < OptCount(s2.opts) &&
            ParseShort(s, frag, inGroup, asWritten) == UpdateOpt(s2, m.opt, Some(rest))
  {
    var m := MatchOpt(s.opts, Short, frag).value;
    MatchBounds(s.opts, Short, frag);
    var s2 := s.(cur := Some(m.opt), grppos := GroupAfter(s, true, frag[m.adv..], inGroup, asWritten));
    SettledMoves(s, s2);
  }

  /** Moving the current option or the group cursor of a settled state keeps it settled. */
  lemma SettledMoves(s: State, t: State)
    requires Settled(s) && t == s.(cur := t.cur, grppos := t.grppos)
    requires t.cur.Some? ==> t.cur.value < OptCount(t.opts)
    ensures Settled(t)
  {
    forall k | 0 <= k < OptCount(t.opts) && t.opts[k].req
      ensures OptFits(t.opts[k].arg.val, Placed(t, k), IoperBase(t))
    {
      assert Placed(t, k) == Placed(s, k);
    }
  }

  // ---- What a step leaves alone

  /** After a step from s to r, every value-taking option other than the one
      the step counted holds the values it held, and ioper holds its operands
      unless the step added operands. */
  predicate StepKeeps(s: State, r: State)
  {
    var added := r.ioper.len != s.ioper.len;
    KeepsOptValues(s, r, if added then None else r.cur) &&
    (!added ==> IoperValues(r) == IoperValues(s))
  }

  /** A settled state and the same state with another current option or
      group cursor hold the same values. */
  lemma KeepsFromMoved(s: State, c: Option<nat>, g: Option<string>, r: State, except: Option<nat>)
    requires !s.pending
    requires KeepsOptValues(s.(cur := c, grppos := g), r, except)
    requires IoperValues(r) == IoperValues(s.(cur := c, grppos := g))
    ensures KeepsOptValues(s, r, except) && IoperValues(r) == IoperValues(s)
  {
    var s1 := s.(cur := c, grppos := g);
    forall k | 0 <= k < OptCount(s.opts) && s.opts[k].req && except != Some(k)
      ensures OptValues(r, k) == OptValues(s, k)
    {
      assert OptValues(s1, k) == OptValues(s, k);
    }
  }

  /** A successful short-form parse_opt changes no values but those of the
      option it matched. */
  lemma ParseShortValues(s: State, frag: string, inGroup: bool)
    requires Settled(s) && ParseShort(s, frag, inGroup, false).1 == Success
    ensures var r := ParseShort(s, frag, inGroup, false).0;
            r.cur.Some? && r.ioper.len == s.ioper.len && KeepsOptValues(s, r, r.cur) && IoperValues(r) == IoperValues(s)
  {
    var m := MatchOpt(s.opts, Short, frag);
    MatchIsPrefix(s.opts, Short, frag);
    var i := m.value.opt;
    var strpos := frag[m.value.adv..];
    var g := GroupAfter(s, s.opts[i].req, strpos, inGroup, false);
    var s1 := s.(cur := Some(i), grppos := g);
    var attach := if !s.opts[i].req && strpos != [] then None else if strpos != [] then Some(strpos) else None;
    assert ParseShort(s, frag, inGroup, false) == UpdateOpt(s1, i, attach);
    UpdateOptKeeps(s1, i, attach);
    KeepsFromMoved(s, Some(i), g, UpdateOpt(s1, i, attach).0, Some(i));
  }

  /** A successful long-form parse_opt changes no values but those of the
      option it matched. */
  lemma ParseLongValues(s: State, frag: string)
    requires Settled(s) && ParseLong(s, frag).1 == Success
    ensures var r := ParseLong(s, frag).0;
            r.cur.Some? && r.ioper.len == s.ioper.len && KeepsOptValues(s, r, r.cur) && IoperValues(r) == IoperValues(s)
  {
    var m := MatchOpt(s.opts, Long, frag);
    MatchIsPrefix(s.opts, Long, frag);
    var i := m.value.opt;
    var rest := frag[m.value.adv..];
    var s1 := s.(cur := Some(i));
    var attach := if rest == [] then None else Some(rest[1..]);
    assert ParseLong(s, frag) == UpdateOpt(s1, i, attach);
    UpdateOptKeeps(s1, i, attach);
    assert s1 == s.(cur := Some(i), grppos := s.grppos);
    KeepsFromMoved(s, Some(i), s.grppos, UpdateOpt(s1, i, attach).0, Some(i));
  }

  /** The bulk copy after "--" lands at eoval and above, so every option keeps
      its values. */
  lemma BlockKeeps(s: State, from: nat, len: nat, arg: nat)
    requires Settled(s) && len >= 2 && s.arg < from && from + len <= |s.args|
    ensures StepKeeps(s, UpdateOper(s, InArgs(from, len)).(arg := arg))
  {
    UpdateOperBlock(s, from, len);
    var r := UpdateOper(s, InArgs(from, len));
    forall k | 0 <= k < OptCount(s.opts) && s.opts[k].req
      ensures OptValues(r, k) == OptValues(s, k)
    {
      assert OptFits(s.opts[k].arg.val, Placed(s, k), IoperBase(s));
      BelowKept(s, r, k);
    }
    AddedKeeps(s, r, arg);
  }

  lemma DashDashValues(s: State)
    requires Settled(s) && s.grppos.None? && EndOfOptions(s.args[s.arg])
    ensures StepKeeps(s, ParseArg(s).0)
  {
    ParseArgDash(s);
    EndOptionsKeeps(s);
  }

  /** "--" keeps every option's values, and ioper's when nothing follows it. */
  lemma EndOptionsKeeps(s: State)
    requires Settled(s)
    ensures StepKeeps(s, EndOptions(s).0)
  {
    var n := |s.args| - s.arg - 1;
    if n == 1 {
      OneKept(s, UpdateOper(s, InArgs(s.arg + 1, 1)));
    } else if n >= 2 {
      BlockKeeps(s, s.arg + 1, n, |s.args| - 1);
    }
  }

  lemma OneKept(s: State, u: State)
    requires Settled(s) && |s.args| - s.arg == 2 && u == UpdateOper(s, InArgs(s.arg + 1, 1))
    ensures StepKeeps(s, u.(arg := |s.args| - 1))
  {
    UpdateOperSingle(s, InArgs(s.arg + 1, 1));
    UpdateOperOne(s, s.args[s.arg + 1]);
    assert u.ioper.len != s.ioper.len;
    KeepsAfterCursor(s, u, None, |s.args| - 1);
  }

  /** A step that adds operands and keeps every option's values. */
  lemma AddedKeeps(s: State, u: State, arg: nat)
    requires KeepsOptValues(s, u, None) && u.ioper.len != s.ioper.len
    ensures StepKeeps(s, u.(arg := arg))
  {
    KeepsAfterCursor(s, u, None, arg);
  }

  lemma ParseArgValues(s: State)
    requires Valid(s) && s.arg < |s.args| && !s.pending && ParseArg(s).1 == Success
    ensures StepKeeps(s, ParseArg(s).0)
  {
    var tok := s.args[s.arg];
    if s.grppos.Some? {
      ParseArgGroup(s);
      ParseShortValues(s, s.grppos.value, true);
    } else if EndOfOptions(tok) {
      DashDashValues(s);
    } else if LongForm(tok) {
      ParseArgLong(s);
      ParseLongValues(s, tok[2..]);
    } else if ShortForm(tok) {
      ParseArgShort(s);
      ParseShortValues(s, tok[1..], false);
    } else {
      ParseArgOperand(s);
      UpdateOperSingle(s, Literal(tok));
      UpdateOperOne(s, tok);
    }
  }

  /** A successful step before the end of the array changes the values of no
      value-taking option except the one it counts, and changes ioper's
      operands only when it adds operands. */
  lemma StepKeepsValues(s: State)
    requires Valid(s) && s.arg < |s.args| && Step(s).1.status == Success
    ensures StepKeeps(s, Step(s).0)
  {
    if s.pending {
      PendingStepKeeps(s);
    } else {
      FreshStepKeeps(s);
    }
  }

  lemma PendingStepKeeps(s: State)
    requires Valid(s) && s.arg < |s.args| && s.pending && Step(s).1.status == Success
    ensures StepKeeps(s, Step(s).0)
  {
    StepPending(s);
    StepPendingKeeps(s);
  }

  lemma FreshStepKeeps(s: State)
    requires Valid(s) && s.arg < |s.args| && !s.pending && Step(s).1.status == Success
    ensures StepKeeps(s, Step(s).0)
  {
    StepFresh(s);
    ParseArgValues(s);
    var p := ParseArg(s).0;
    AdvanceKeeps(s, p);
    assert Step(s).0 == Advance(p);
  }

  /** Moving past the token keeps what the parse step kept. */
  lemma AdvanceKeeps(s: State, r: State)
    requires StepKeeps(s, r)
    ensures StepKeeps(s, Advance(r))
  {
    var except := if r.ioper.len != s.ioper.len then None else r.cur;
    KeepsAfterCursor(s, r, except, r.arg + 1);
  }
}
