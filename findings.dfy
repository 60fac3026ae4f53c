/** A grouped short option that takes a value. With v and f flags and o
    taking a value, the token "-vofoo" starts a group after v; o then takes
    "foo" as its value. As written the group cursor is left on "foo", so the
    token cursor stays behind the values already claimed; the corrected rule
    ends the group once a value-taking option has consumed its rest. */
module Findings {
  import opened Decl
  import opened Matcher
  import opened Distributor
  import opened Machine
  import opened Permuter
  import opened Steps
  import opened Tokens

  /** A flag with the one short name [c]. */
  function Flag(c: char): Opt
  {
    Opt(Names(Some([[c]]), None), false, Arg(None, Bounds(0, 0, true), View(None, 0)))
  }

  /** The table: -v and -f are flags, -o takes at most one value. */
  function Table(): seq<Opt>
  {
    [Flag('v'), Opt(Names(Some(["o"]), None), true, Arg(None, Bounds(0, 1, false), View(None, 0))), Flag('f')]
  }

  /** The state after the first step over "-vofoo": v counted, the group on "ofoo". */
  function AfterV(): State
  {
    var opts := Table();
    var v := opts[0];
    State(["-vofoo"], opts[0 := v.(arg := v.arg.(val := View(None, 1)))], [], false, Some("ofoo"), Some(0), 0, 0, View(None, 0))
  }

  lemma MatchV()
    ensures MatchOpt(Table(), Short, "vofoo") == Some(Match(0, 1))
  {
    var t := Table();
    assert Scan(t, Short, "vofoo", 3, 0, Some(Match(0, 1))) == Some(Match(0, 1));
    assert Scan(t, Short, "vofoo", 2, 1, Some(Match(0, 1))) == Some(Match(0, 1));
    assert Scan(t, Short, "vofoo", 2, 0, Some(Match(0, 1))) == Some(Match(0, 1));
    assert Scan(t, Short, "vofoo", 1, 1, Some(Match(0, 1))) == Some(Match(0, 1));
    assert Scan(t, Short, "vofoo", 1, 0, Some(Match(0, 1))) == Some(Match(0, 1));
    assert Scan(t, Short, "vofoo", 0, 1, Some(Match(0, 1))) == Some(Match(0, 1));
    assert "v" <= "vofoo";
  }

  lemma MatchO(opts: seq<Opt>)
    requires |opts| == 3 && forall k :: 0 <= k < 3 ==> opts[k].names == Table()[k].names
    ensures MatchOpt(opts, Short, "ofoo") == Some(Match(1, 1))
  {
    assert NamesIn(opts[0], Short) == ["v"] && NamesIn(opts[1], Short) == ["o"] && NamesIn(opts[2], Short) == ["f"];
    assert Scan(opts, Short, "ofoo", 3, 0, Some(Match(1, 1))) == Some(Match(1, 1));
    assert Scan(opts, Short, "ofoo", 2, 1, Some(Match(1, 1))) == Some(Match(1, 1));
    assert Scan(opts, Short, "ofoo", 2, 0, Some(Match(1, 1))) == Some(Match(1, 1));
    assert Scan(opts, Short, "ofoo", 1, 1, Some(Match(1, 1))) == Some(Match(1, 1));
    assert "o" <= "ofoo";
    assert Scan(opts, Short, "ofoo", 1, 0, None) == Some(Match(1, 1));
    assert "ofoo"[..1] == "o" && "o" != "v";
    assert Scan(opts, Short, "ofoo", 0, 1, None) == Some(Match(1, 1));
  }

  /** The first step over "-vofoo" counts v and leaves the group on "ofoo". */
  lemma FirstStep()
    ensures var s0 := Init(["-vofoo"], Table(), []);
            Valid(s0) && Step(s0) == (AfterV(), Answer(false, Success)) && Settled(AfterV())
  {
    var s0 := Init(["-vofoo"], Table(), []);
    StartValid();
    StepFresh(s0);
    FirstParse();
    AfterVSettled();
  }

  /** The parse starts valid: no option holds a value yet. */
  lemma StartValid()
    ensures Valid(Init(["-vofoo"], Table(), []))
  {
    assert Unparsed(Table());
    InitValid(["-vofoo"], Table(), []);
  }

  /** parse_arg on "-vofoo" matches the flag v and starts the group on "ofoo". */
  lemma FirstParse()
    ensures var s0 := Init(["-vofoo"], Table(), []);
            Settled(s0) && ParseArg(s0) == (AfterV(), Success)
  {
    var s0 := Init(["-vofoo"], Table(), []);
    StartValid();
    MatchV();
    assert s0.args[0][1..] == "vofoo";
    ParseArgShort(s0);
    assert "vofoo"[1..] == "ofoo";
    var s1 := s0.(cur := Some(0), grppos := Some("ofoo"));
    SettledMoves(s0, s1);
    UpdateOptSpec(s1, 0, None);
    assert OccOpt(s1, 0) == AfterV();
  }

  /** No view is set after the first step, so the layout holds trivially. */
  lemma AfterVSettled()
    ensures Settled(AfterV())
  {
    var s := AfterV();
    assert forall k :: 0 <= k < |s.opts| ==> s.opts[k].arg.val.start.None?;
    assert Placed(s, 1) == 0;
  }

  /** The second step matches o in the group and hands it "foo". */
  lemma ParseO(asWritten: bool)
    ensures Settled(AfterV())
    ensures var s2 := AfterV().(cur := Some(1), grppos := if asWritten then Some("foo") else None);
            Settled(s2) && 1 < OptCount(s2.opts) &&
            ParseShort(AfterV(), "ofoo", true, asWritten) == UpdateOpt(s2, 1, Some("foo"))
  {
    FirstStep();
    var s1 := AfterV();
    MatchO(s1.opts);
    assert s1.opts[1].req;
    assert "ofoo"[1..] == "foo";
    ShortValueMatched(s1, "ofoo", true, asWritten);
  }

  /** o takes "foo": it lands in the first cell, which eoval now covers. */
  lemma PlaceFoo(s: State)
    requires Settled(s) && 1 < OptCount(s.opts) && s.args == ["-vofoo"] && s.arg == 0 && s.eoval == 0
    requires s.ioper == View(None, 0) && s.opts[1].req && s.opts[1].arg == Table()[1].arg
    ensures var r := UpdateOpt(s, 1, Some("foo"));
            r.1 == Success && r.0.args == ["foo"] && r.0.arg == 0 && r.0.eoval == 1 &&
            r.0.grppos == s.grppos && r.0.opts[1].arg.val == View(Some(0), 1) && !r.0.pending &&
            Layout(r.0) && SameOpts(r.0.opts, s.opts) && r.0.ioper == View(None, 0) &&
            (forall k :: 0 <= k < |s.opts| && k != 1 ==> r.0.opts[k].arg.val.len == s.opts[k].arg.val.len)
  {
    var c := OccOpt(s, 1);
    assert c.opts[1].arg.val == View(None, 1);
    assert ValidateWithin(c.opts[1].arg);
    OccPlaceKeeps(s, 1, "foo");
    assert c.(pending := false) == c;
    PermuteValCells(c, OptVal(1), "foo", false);
    PermuteValViews(c, OptVal(1), "foo", false);
    assert Pos(c, OptVal(1), false) == 0;
    var r := PermuteVal(c, OptVal(1), "foo", false);
    assert r.args == ["foo"];
  }

  /** As written: the second step gives o the value "foo" but leaves the
      group cursor on it, so readarg_parse does not move the cursor, which now
      lies behind eoval; the state breaks the condition permute_val asserts
      (arg >= eoval) for the next value, which "foo" re-read as the group
      f, o, "o" would place. */
  lemma GroupedValueAsWritten()
    ensures Settled(AfterV()) &&
            var r := ParseShort(AfterV(), "ofoo", true, true);
            r.1 == Success && r.0.grppos == Some("foo") && r.0.args == ["foo"] &&
            r.0.arg == 0 && r.0.eoval == 1 && !Valid(r.0)
  {
    ParseO(true);
    PlaceFoo(AfterV().(cur := Some(1), grppos := Some("foo")));
  }

  /** Corrected: the group ends with the value-taking option, the cursor moves
      past the token, the state is valid, and the next step ends the parse
      without error. */
  lemma GroupedValueCorrected()
    ensures Valid(AfterV()) &&
            var r := Step(AfterV());
            r.1 == Answer(false, Success) && r.0.grppos.None? && r.0.arg == 1 && r.0.args == ["foo"] &&
            r.0.opts[1].arg.val == View(Some(0), 1) && Valid(r.0) &&
            Step(r.0).1 == Answer(true, Success)
  {
    CorrectedStep();
    StepValid(AfterV());
    FinalStep(Step(AfterV()).0);
  }

  lemma CorrectedStep()
    ensures Valid(AfterV())
    ensures var r := Step(AfterV());
            r.1 == Answer(false, Success) && r.0.grppos.None? && r.0.arg == 1 && r.0.args == ["foo"] &&
            r.0.opts[1].arg.val == View(Some(0), 1) && !r.0.pending && r.0.opers == [] &&
            r.0.ioper == View(None, 0) && SameOpts(r.0.opts, Table()) &&
            r.0.opts[0].arg.val.len == 1 && r.0.opts[2].arg.val.len == 0
  {
    ValidAfterV();
    CorrectedParse();
    StepInGroup(AfterV(), ParseShort(AfterV(), "ofoo", true, false));
  }

  /** Corrected: parse_opt on the group "ofoo" ends the group once o has taken "foo". */
  lemma CorrectedParse()
    ensures Settled(AfterV())
    ensures var p := ParseShort(AfterV(), "ofoo", true, false);
            p.1 == Success && p.0.grppos.None? && p.0.arg == 0 && p.0.args == ["foo"] &&
            p.0.opts[1].arg.val == View(Some(0), 1) && !p.0.pending && p.0.opers == [] &&
            p.0.ioper == View(None, 0) && SameOpts(p.0.opts, Table()) &&
            p.0.opts[0].arg.val.len == 1 && p.0.opts[2].arg.val.len == 0
  {
    ParseO(false);
    PlaceFoo(AfterV().(cur := Some(1), grppos := None));
  }

  lemma ValidAfterV()
    ensures Valid(AfterV())
  {
    FirstStep();
    StepValid(Init(["-vofoo"], Table(), []));
  }

  /** A step inside a group is parse_opt on the group. */
  lemma StepInGroup(s: State, p: (State, Status))
    requires Valid(s) && s.arg < |s.args| && !s.pending && s.grppos.Some?
    requires ParseShort(s, s.grppos.value, true, false) == p
    ensures Step(s) == (if p.0.grppos.None? then p.0.(arg := p.0.arg + 1) else p.0, Answer(false, p.1))
  {
  }

  lemma FinalStep(r: State)
    requires Valid(r) && r.arg == 1 && r.args == ["foo"] && !r.pending && r.opers == [] && r.ioper == View(None, 0)
    requires SameOpts(r.opts, Table())
    requires r.opts[0].arg.val.len == 1 && r.opts[1].arg.val.len == 1 && r.opts[2].arg.val.len == 0
    ensures Step(r).1 == Answer(true, Success)
  {
    AllWithinHere(r);
    assert OperCount([]) == 0;
    assert Assign([], View(None, 0)).1 == Success;
  }

  lemma AllWithinHere(r: State)
    requires SameOpts(r.opts, Table())
    requires r.opts[0].arg.val.len == 1 && r.opts[1].arg.val.len == 1 && r.opts[2].arg.val.len == 0
    ensures AllWithin(r.opts)
  {
    SameOptsCount(r.opts, Table());
    assert OptCount(Table()) == 3 by { OptCountAt(Table(), 3); }
  }
}
