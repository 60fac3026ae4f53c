/** Progress of the step function and the loop of readopt_parse_all: every
    successful step before the end moves the cursor forward or shortens the
    group being parsed, so repeating steps reaches an end or an error. An
    empty short name is the one declaration that breaks this. */
module Progress {
  import opened Decl
  import opened Matcher
  import opened Distributor
  import opened Machine
  import opened Permuter
  import opened Steps
  import opened Tokens

  /** No flag declares the empty string as a short name. (A value-taking
      option with an empty short name still makes progress: it takes what is
      left of the token as its value.) */
  predicate NoEmptyFlagNames(opts: seq<Opt>)
  {
    forall i, j :: 0 <= i < OptCount(opts) && !opts[i].req && 0 <= j < |NamesIn(opts[i], Short)| ==> NamesIn(opts[i], Short)[j] != []
  }

  /** What is left of the current token to parse: the group, else the whole token. */
  function GroupLen(s: State): nat
  {
    if s.grppos.Some? then |s.grppos.value| else if s.arg < |s.args| then |s.args[s.arg]| else 0
  }

  lemma SameOptsNames(a: seq<Opt>, b: seq<Opt>)
    requires SameOpts(a, b) && NoEmptyFlagNames(b)
    ensures NoEmptyFlagNames(a)
  {
    SameOptsCount(a, b);
    forall i, j | 0 <= i < OptCount(a) && !a[i].req && 0 <= j < |NamesIn(a[i], Short)|
      ensures NamesIn(a[i], Short)[j] != []
    {
      assert NamesIn(a[i], Short) == NamesIn(b[i], Short);
    }
  }

  /** With no empty flag name, a short match of a flag covers at least one
      character. */
  lemma ShortAdvances(opts: seq<Opt>, frag: string)
    requires NoEmptyFlagNames(opts) && MatchOpt(opts, Short, frag).Some?
    requires MatchOpt(opts, Short, frag).value.opt < |opts| && !opts[MatchOpt(opts, Short, frag).value.opt].req
    ensures MatchOpt(opts, Short, frag).value.adv >= 1
  {
    MatchIsPrefix(opts, Short, frag);
  }

  /** A successful step keeps the declarations and either moves the cursor
      forward or, keeping it, leaves a group shorter than what was left. */
  lemma StepProgress(s: State)
    requires Valid(s) && s.arg < |s.args| && NoEmptyFlagNames(s.opts)
    requires Step(s).1.status == Success
    ensures var r := Step(s).0;
            |r.args| == |s.args| && SameOpts(r.opts, s.opts) &&
            (r.arg > s.arg || (r.arg == s.arg && r.grppos.Some? && |r.grppos.value| < GroupLen(s)))
  {
    StepCursor(s);
    if s.pending {
      PendingRoom(s);
      PermuteValViews(s.(pending := false), OptVal(s.cur.value), s.args[s.arg], false);
    } else if s.grppos.Some? {
      GroupProgress(s);
    } else {
      var tok := s.args[s.arg];
      ParseArgCases(s);
      if EndOfOptions(tok) {
        if |s.args| - s.arg != 1 {
          var k := |s.args| - s.arg - 1;
          if k == 1 {
            UpdateOperSingle(s, InArgs(s.arg + 1, 1));
            UpdateOperOne(s, s.args[s.arg + 1]);
          } else {
            UpdateOperBlock(s, s.arg + 1, k);
          }
        }
      } else if LongForm(tok) {
        ParseLongKeeps(s, tok[2..]);
      } else if ShortForm(tok) {
        ParseShortKeeps(s, tok[1..], false);
      } else {
        UpdateOperSingle(s, Literal(tok));
        UpdateOperOne(s, tok);
      }
    }
  }

  /** Inside a group, a step that keeps the cursor on the token leaves a
      shorter group: only a flag keeps the group going, and its name is not
      empty. */
  lemma GroupProgress(s: State)
    requires Valid(s) && s.arg < |s.args| && NoEmptyFlagNames(s.opts) && !s.pending && s.grppos.Some?
    requires Step(s).1.status == Success
    ensures var r := Step(s).0;
            |r.args| == |s.args| && SameOpts(r.opts, s.opts) &&
            (r.arg > s.arg || (r.arg == s.arg && r.grppos.Some? && |r.grppos.value| < GroupLen(s)))
  {
    var g := s.grppos.value;
    ParseShortKeeps(s, g, true);
    GroupStep(s);
    var m := MatchOpt(s.opts, Short, g);
    if m.Some? {
      MatchIsPrefix(s.opts, Short, g);
      if !s.opts[m.value.opt].req {
        ShortAdvances(s.opts, g);
      }
    }
  }

  /** readopt_parse_all: steps until the answer ends the parse or is not
      SUCCESS, and returns the last state and answer. */
  function RunAll(s: State): (r: (State, Answer))
    requires Valid(s) && NoEmptyFlagNames(s.opts)
    ensures r.1.end || r.1.status != Success
    ensures r.1.status == Success ==> Valid(r.0)
    decreases |s.args| - s.arg, GroupLen(s)
  {
    var r := Step(s);
    if r.1.end || r.1.status != Success then
      if r.1.status == Success then StepValid(s); r else r
    else
      StepValid(s);
      StepProgress(s);
      SameOptsNames(r.0.opts, s.opts);
      RunAll(r.0)
  }

  /** A successful step that does not end the parse leaves RunAll's result
      unchanged: the loop only repeats single steps. */
  lemma RunAllUnfolds(s: State)
    requires Valid(s) && NoEmptyFlagNames(s.opts)
    requires !Step(s).1.end && Step(s).1.status == Success
    ensures Valid(Step(s).0) && NoEmptyFlagNames(Step(s).0.opts)
    ensures RunAll(s) == RunAll(Step(s).0)
  {
    StepValid(s);
    StepCursor(s);
    StepProgress(s);
    SameOptsNames(Step(s).0.opts, s.opts);
  }

  /** The table of one flag whose only short name is empty. */
  function EmptyNameTable(): seq<Opt>
  {
    [Opt(Names(Some([""]), None), false, Arg(None, Bounds(0, 0, true), View(None, 0)))]
  }

  lemma EmptyNameMatches(opts: seq<Opt>, g: string)
    requires |opts| == 1 && opts[0].names == EmptyNameTable()[0].names && g != []
    ensures MatchOpt(opts, Short, g) == Some(Match(0, 0))
  {
    assert NamesIn(opts[0], Short) == [""];
    assert Scan(opts, Short, g, 1, 0, Some(Match(0, 0))) == Some(Match(0, 0));
    assert Scan(opts, Short, g, 0, 1, Some(Match(0, 0))) == Some(Match(0, 0));
    assert "" <= g;
  }

  /** With an empty short name, a step inside a group succeeds without
      consuming anything: the group and the cursor stay where they were and
      only the flag's count grows, so the steps never reach the end. */
  lemma EmptyNameStalls(s: State)
    requires Valid(s) && s.arg < |s.args| && !s.pending && s.grppos.Some?
    requires |s.opts| == 1 && s.opts[0].names == EmptyNameTable()[0].names && !s.opts[0].req
    ensures var r := Step(s);
            r.1 == Answer(false, Success) && r.0.grppos == s.grppos && r.0.arg == s.arg &&
            r.0.opts[0].arg.val.len == s.opts[0].arg.val.len + 1 && Valid(r.0)
  {
    EmptyNameMatches(s.opts, s.grppos.value);
    GroupStep(s);
    OptCountAt(s.opts, 1);
    var g := s.grppos.value;
    var s1 := s.(cur := Some(0), grppos := GroupAfter(s, false, g, true, false));
    assert g[0..] == g;
    UpdateOptSpec(s1, 0, None);
    StepValid(s);
  }
}
