/** The parser state machine over indices: the token array, the two
    declaration tables, and the cursors of the C parser state (arg, eoval,
    the intermediate operand view ioper, pending, grppos and the current
    option). One function per C function of the engine; the class
    Engine.Parser implements each of them in place. */
module Machine {
  import opened Decl
  import opened Matcher
  import opened Distributor

  /** The parser state. `args` is the token array, permuted in place; `arg`
      is the current token, `eoval` the end of the claimed values; `cur` is
      curr.opt as a table index; `grppos` is the rest of the short-option
      group being parsed (the string the C pointer denotes). */
  datatype State = State(
    args: seq<string>,
    opts: seq<Opt>,
    opers: seq<Arg>,
    pending: bool,
    grppos: Option<string>,
    cur: Option<nat>,
    arg: nat,
    eoval: nat,
    ioper: View)

  /** readopt_answer: whether the parse has ended, and the status of the step. */
  datatype Answer = Answer(end: bool, status: Status)

  /** The view permute_val writes into: the value view of option i, or ioper. */
  datatype Target = OptVal(i: nat) | Ioper

  /** The view handed to update_oper: a one-token literal, or a block of
      tokens inside the array. */
  datatype Operands = Literal(tok: string) | InArgs(from: nat, len: nat)

  /** parser_init: both cursors at the first token, everything else zero. */
  function Init(args: seq<string>, opts: seq<Opt>, opers: seq<Arg>): (s: State)
    ensures s.args == args && s.opts == opts && s.opers == opers
    ensures s.arg == 0 && s.eoval == 0 && !s.pending && s.grppos.None? && s.cur.None?
    ensures s.ioper == View(None, 0)
  {
    State(args, opts, opers, false, None, None, 0, 0, View(None, 0))
  }

  // ---- The permuter (permute_val, incr_between, permute_rest)

  function TargetView(s: State, t: Target): View
    requires t.OptVal? ==> t.i < |s.opts|
  {
    match t
    case OptVal(i) => s.opts[i].arg.val
    case Ioper => s.ioper
  }

  /** The table with the value view of option i replaced. */
  function SetView(opts: seq<Opt>, i: nat, v: View): (r: seq<Opt>)
    requires i < |opts|
    ensures |r| == |opts| && r[i].arg.val == v
    ensures SameOpts(r, opts)
    ensures forall k :: 0 <= k < |opts| && k != i ==> r[k] == opts[k]
  {
    opts[i := opts[i].(arg := opts[i].arg.(val := v))]
  }

  function WithView(s: State, t: Target, v: View): State
    requires t.OptVal? ==> t.i < |s.opts|
  {
    match t
    case OptVal(i) => s.(opts := SetView(s.opts, i, v))
    case Ioper => s.(ioper := v)
  }

  /** The fallback start of a target with no value yet: at eoval for an
      operand, in front of the intermediate operands for an option value. */
  function Fallback(s: State, end: bool): int
  {
    if end then s.eoval else s.eoval - s.ioper.len
  }

  function StartOf(s: State, t: Target, end: bool): int
    requires t.OptVal? ==> t.i < |s.opts|
  {
    var v := TargetView(s, t);
    if v.start.Some? then v.start.value else Fallback(s, end)
  }

  /** What permute_val needs: the cursor has not fallen behind eoval, the
      target already counts the new value, and the cell the value goes to
      (start + len - 1) lies at or below eoval. */
  predicate CanPermute(s: State, t: Target, end: bool)
  {
    (t.OptVal? ==> t.i < |s.opts|) &&
    s.eoval <= s.arg < |s.args| &&
    TargetView(s, t).len >= 1 &&
    0 <= StartOf(s, t, end) &&
    StartOf(s, t, end) + TargetView(s, t).len - 1 <= s.eoval
  }

  /** The memmove of permute_val: the block [pos, eoval) moves one cell to
      the right and `val` is written at pos. */
  function Shift(args: seq<string>, pos: nat, eoval: nat, val: string): (r: seq<string>)
    requires pos <= eoval < |args|
    ensures |r| == |args| && r[pos] == val
    ensures forall k :: 0 <= k < pos || eoval < k < |args| ==> r[k] == args[k]
    ensures forall k :: pos < k <= eoval ==> r[k] == args[k - 1]
  {
    args[..pos] + [val] + args[pos..eoval] + args[eoval + 1..]
  }

  /** incr_between for a view other than the excluded target. */
  function IncrBetween(start: nat, stop: nat, v: View): View
  {
    if v.start.Some? && start <= v.start.value <= stop then v.(start := Some(v.start.value + 1)) else v
  }

  /** Option k after the bumping loop of permute_val. */
  function BumpedOpt(opts: seq<Opt>, k: nat, start: nat, stop: nat, t: Target): Opt
    requires k < |opts|
  {
    if k < OptCount(opts) && t != OptVal(k) then opts[k].(arg := opts[k].arg.(val := IncrBetween(start, stop, opts[k].arg.val)))
    else opts[k]
  }

  function BumpOpts(opts: seq<Opt>, start: nat, stop: nat, t: Target): (r: seq<Opt>)
    ensures |r| == |opts| && SameOpts(r, opts)
    ensures forall k :: 0 <= k < |opts| ==> r[k] == BumpedOpt(opts, k, start, stop, t)
  {
    seq(|opts|, k requires 0 <= k < |opts| => BumpedOpt(opts, k, start, stop, t))
  }

  /** permute_val: store `val` as the last value of the target view, at the
      end of its block, shifting everything up to eoval one cell right and
      bumping the starts of the other views in the shifted range. */
  function PermuteVal(s: State, t: Target, val: string, end: bool): State
    requires CanPermute(s, t, end)
  {
    var v := TargetView(s, t);
    var st: nat := StartOf(s, t, end);
    var pos: nat := st + v.len - 1;
    var s1 := WithView(s, t, v.(start := Some(st)));
    var stop := s.eoval + 1;
    s1.(args := Shift(s.args, pos, s.eoval, val),
        eoval := stop,
        opts := BumpOpts(s1.opts, pos, stop, t),
        ioper := if t == Ioper then s1.ioper else IncrBetween(pos, stop, s1.ioper))
  }

  /** permute_rest: the memmove of a block of len tokens from `from` to `target`. */
  function PermuteRest(args: seq<string>, target: nat, from: nat, len: nat): (r: seq<string>)
    requires target + len <= |args| && from + len <= |args|
    ensures |r| == |args|
    ensures forall k :: target <= k < target + len ==> r[k] == args[from + (k - target)]
    ensures forall k :: 0 <= k < |args| && !(target <= k < target + len) ==> r[k] == args[k]
  {
    args[..target] + args[from..from + len] + args[target + len..]
  }

  // ---- The layout the steps keep

  /** A view holding n placed values fits below eoval; an unset one holds none. */
  predicate ViewFits(v: View, n: int, eoval: nat)
  {
    n >= 0 && (v.start.None? ==> n == 0) && (v.start.Some? ==> v.start.value + n <= eoval)
  }

  /** How many values option k has in the array: its count, minus the one
      still pending. */
  function Placed(s: State, k: nat): int
    requires k < |s.opts|
  {
    s.opts[k].arg.val.len - (if s.pending && s.cur == Some(k) then 1 else 0)
  }

  /** An option's value view holding n placed values: unset while it has
      none, otherwise a non-empty block ending at or below `bound`. */
  predicate OptFits(v: View, n: int, bound: int)
  {
    n >= 0 && (v.start.None? ==> n == 0) && (v.start.Some? ==> n >= 1 && v.start.value + n <= bound)
  }

  /** Where the intermediate operands begin: they end at eoval. */
  function IoperBase(s: State): int
  {
    s.eoval - s.ioper.len
  }

  /** Two blocks of placed values, n cells from v's start and m cells from
      w's start, share no cell. */
  predicate Apart(v: View, n: int, w: View, m: int)
  {
    v.start.Some? && w.start.Some? ==> v.start.value + n <= w.start.value || w.start.value + m <= v.start.value
  }

  /** The option whose newest value is still pending, if any. */
  function Held(s: State): Option<nat>
  {
    if s.pending then s.cur else None
  }

  /** The values of options j and k share no cell, while option `held`'s
      newest value is not yet placed. */
  predicate ApartAt(opts: seq<Opt>, held: Option<nat>, j: nat, k: nat)
    requires j < |opts| && k < |opts|
  {
    Apart(opts[j].arg.val, opts[j].arg.val.len - (if held == Some(j) then 1 else 0),
          opts[k].arg.val, opts[k].arg.val.len - (if held == Some(k) then 1 else 0))
  }

  /** The values of two different value-taking options never share a cell. */
  predicate OptsApart(s: State)
  {
    ApartIn(s.opts, Held(s))
  }

  /** Every two different value-taking options in `opts` are apart. */
  predicate ApartIn(opts: seq<Opt>, held: Option<nat>)
  {
    forall j, k {:trigger ApartAt(opts, held, j, k)} ::
      0 <= j < OptCount(opts) && 0 <= k < OptCount(opts) && j != k && opts[j].req && opts[k].req ==> ApartAt(opts, held, j, k)
  }

  /** The claimed prefix of the array holds the option values, each option's
      in a block of its own, then the intermediate operands, which end exactly
      at eoval. */
  predicate Layout(s: State)
  {
    (s.ioper.start.None? ==> s.ioper.len == 0) &&
    (s.ioper.start.Some? ==> s.ioper.start.value + s.ioper.len == s.eoval) &&
    (forall k :: 0 <= k < OptCount(s.opts) && s.opts[k].req ==> OptFits(s.opts[k].arg.val, Placed(s, k), IoperBase(s))) &&
    OptsApart(s)
  }

  /** The state invariant of a parse that has not failed. */
  predicate Valid(s: State)
  {
    s.eoval <= s.arg <= |s.args| &&
    (s.cur.Some? ==> s.cur.value < OptCount(s.opts)) &&
    (s.pending ==> s.cur.Some? && s.opts[s.cur.value].req && s.opts[s.cur.value].arg.val.len >= 1 && s.grppos.None?) &&
    (s.grppos.Some? ==> s.arg < |s.args| && s.grppos.value != [] && |s.grppos.value| < |s.args[s.arg]|) &&
    (s.arg < |s.args| ==> Layout(s))
  }

  /** A state in which a fresh token (or group position) can be parsed. */
  predicate Settled(s: State)
  {
    s.eoval <= s.arg < |s.args| && !s.pending && Layout(s) &&
    (s.cur.Some? ==> s.cur.value < OptCount(s.opts))
  }

  /** The value view of option i has room for its newest value. */
  predicate Room(s: State, i: nat)
  {
    i < |s.opts| && s.eoval <= s.arg < |s.args| && s.opts[i].arg.val.len >= 1 &&
    ViewFits(s.opts[i].arg.val, s.opts[i].arg.val.len - 1, s.eoval) &&
    ViewFits(s.ioper, s.ioper.len, s.eoval)
  }

  // ---- Value and occurrence bookkeeping

  /** occ_opt: option i becomes the current option and its count grows. */
  function OccOpt(s: State, i: nat): State
    requires i < |s.opts|
  {
    var v := s.opts[i].arg.val;
    s.(cur := Some(i), opts := SetView(s.opts, i, v.(len := v.len + 1)))
  }

  /** add_val on option i's value view (always with end = 0). */
  function AddVal(s: State, i: nat, val: string): (State, Status)
    requires Room(s, i)
  {
    var s1 := s.(pending := false);
    if !ValidateWithin(s.opts[i].arg) then (s1, RangeOpt)
    else (PermuteVal(s1, OptVal(i), val, false), Success)
  }

  /** update_opt for the just matched option i (match_finish made it the
      current option). */
  function UpdateOpt(s: State, i: nat, attach: Option<string>): (State, Status)
    requires Settled(s) && i < OptCount(s.opts)
  {
    if s.opts[i].req then
      if attach.Some? then
        assert OptFits(s.opts[i].arg.val, Placed(s, i), IoperBase(s));
        AddVal(OccOpt(s, i), i, attach.value)
      else (OccOpt(s, i).(pending := true), Success)
    else (OccOpt(s, i), if attach.Some? then NotReq else Success)
  }

  /** update_oper: one token is permuted to the end of ioper; a block of two
      or more is copied to eoval in bulk. */
  function UpdateOper(s: State, val: Operands): State
    requires Settled(s)
    requires val.InArgs? ==> val.len >= 1 && s.arg < val.from && val.from + val.len <= |s.args|
  {
    match val
    case Literal(tok) => PermuteVal(s.(ioper := s.ioper.(len := s.ioper.len + 1)), Ioper, tok, true)
    case InArgs(from, len) =>
      if len == 1 then PermuteVal(s.(ioper := s.ioper.(len := s.ioper.len + 1)), Ioper, s.args[from], true)
      else s.(args := PermuteRest(s.args, s.eoval, from, len), ioper := s.ioper.(len := s.ioper.len + len))
  }

  // ---- Token classification

  /** The group cursor after a short option matched with `strpos` left over.
      A value-less option with characters left starts or continues a group.
      Otherwise a group is over once exhausted; as written, the group of a
      value-taking option with an attached value also stays on the value. */
  function GroupAfter(s: State, req: bool, strpos: string, inGroup: bool, asWritten: bool): Option<string>
  {
    if !req && strpos != [] then Some(strpos)
    else if inGroup && asWritten && strpos != [] then Some(strpos)
    else if inGroup then None
    else s.grppos
  }

  /** parse_opt in the short form on `frag` (inGroup: frag is grppos). */
  function ParseShort(s: State, frag: string, inGroup: bool, asWritten: bool): (State, Status)
    requires Settled(s)
  {
    var m := MatchOpt(s.opts, Short, frag);
    if m.None? then (s, NotOpt)
    else
      MatchBounds(s.opts, Short, frag);
      var i := m.value.opt;
      var strpos := frag[m.value.adv..];
      var s1 := s.(cur := Some(i), grppos := GroupAfter(s, s.opts[i].req, strpos, inGroup, asWritten));
      if !s.opts[i].req && strpos != [] then UpdateOpt(s1, i, None)
      else UpdateOpt(s1, i, if strpos != [] then Some(strpos) else None)
  }

  /** parse_opt in the long form on `frag` (the token after "--"). */
  function ParseLong(s: State, frag: string): (State, Status)
    requires Settled(s)
  {
    var m := MatchOpt(s.opts, Long, frag);
    if m.None? then (s, NotOpt)
    else
      MatchBounds(s.opts, Long, frag);
      var i := m.value.opt;
      var rest := frag[m.value.adv..];
      var s1 := s.(cur := Some(i));
      if rest == [] then UpdateOpt(s1, i, None)
      else if rest[0] == '=' then UpdateOpt(s1, i, Some(rest[1..]))
      else (s1, NotOpt)
  }

  /** The token "--", which ends the options. */
  predicate EndOfOptions(tok: string)
  {
    |tok| == 2 && tok[0] == '-' && tok[1] == '-'
  }

  /** A long option: "--" followed by at least one character. */
  predicate LongForm(tok: string)
  {
    |tok| > 2 && tok[0] == '-' && tok[1] == '-'
  }

  /** A short option or group: '-' followed by anything but a second '-'. */
  predicate ShortForm(tok: string)
  {
    |tok| >= 2 && tok[0] == '-' && tok[1] != '-'
  }

  /** An operand: any token of none of the three forms above. */
  predicate OperandForm(tok: string)
  {
    !EndOfOptions(tok) && !LongForm(tok) && !ShortForm(tok)
  }

  /** The "--" branch of parse_arg: the tokens after it, if any, go to
      update_oper as one block and the cursor moves to the last token. */
  function EndOptions(s: State): (State, Status)
    requires Settled(s)
  {
    if |s.args| - s.arg == 1 then (s, Success)
    else (UpdateOper(s, InArgs(s.arg + 1, |s.args| - s.arg - 1)).(arg := |s.args| - 1), Success)
  }

  /** parse_arg on the token at the cursor, or on the rest of the group. The
      nested switch over the first characters of the token selects one of
      four forms; everything else ("-" alone, or a token not starting with
      '-') is an operand. */
  function ParseArg(s: State): (State, Status)
    requires Settled(s)
  {
    if s.grppos.Some? then ParseShort(s, s.grppos.value, true, false)
    else
      var tok := s.args[s.arg];
      if EndOfOptions(tok) then EndOptions(s)
      else if LongForm(tok) then ParseLong(s, tok[2..])
      else if ShortForm(tok) then ParseShort(s, tok[1..], false, false)
      else (UpdateOper(s, Literal(tok)), Success)
  }

  /** Every option's count is within its bounds (the loop before assign_opers). */
  predicate AllWithin(opts: seq<Opt>)
  {
    forall k :: 0 <= k < OptCount(opts) ==> ValidateWithin(opts[k].arg)
  }

  /** readopt_parse: one step of the parser. */
  function Step(s: State): (State, Answer)
    requires Valid(s)
  {
    if s.arg >= |s.args| then
      if s.pending then (s, Answer(true, NoVal))
      else if !AllWithin(s.opts) then (s, Answer(true, RangeOpt))
      else
        var (o, st) := Assign(s.opers, s.ioper);
        (s.(opers := o), Answer(true, st))
    else if s.pending then
      assert OptFits(s.opts[s.cur.value].arg.val, Placed(s, s.cur.value), IoperBase(s));
      var (s1, st) := AddVal(s, s.cur.value, s.args[s.arg]);
      (s1.(arg := s.arg + 1), Answer(false, st))
    else
      var (s1, st) := ParseArg(s);
      (if s1.grppos.None? then s1.(arg := s1.arg + 1) else s1, Answer(false, st))
  }
}
