/** Declarations shared by both versions of the parser (readarg.h and readopt.c):
    bounds, string views, option and operand declarations, error codes, and the
    pure helpers over them (select_upper, select_lower, validate_within,
    validate_opt, validate_arg). */
module Decl {

  datatype Option<T> = None | Some(value: T)

  /** readarg_bounds: the two numbers of `val` and the `inf` flag. */
  datatype Bounds = Bounds(lo: nat, hi: nat, inf: bool)

  /** A view into the token array: a start index (unset is the C NULL pointer)
      and a length. */
  datatype View = View(start: Option<nat>, len: nat)

  /** readarg_arg (readopt_oper): an operand slot, or the value part of an option.
      An unset name is the sentinel that ends an operand table. */
  datatype Arg = Arg(name: Option<string>, bounds: Bounds, val: View)

  /** The two name lists of an option; an unset list is a NULL `names[form]`. */
  datatype Names = Names(short: Option<seq<string>>, long: Option<seq<string>>)

  datatype Opt = Opt(names: Names, req: bool, arg: Arg)

  datatype Form = Short | Long

  /** The error codes of readarg.h (READARG_E*) and the status codes of
      readopt.c (READOPT_STATUS_*), in the same order. */
  datatype Status = Success | NoVal | NotReq | NotOpt | RangeOpt | RangeOper

  function Max(a: nat, b: nat): nat { if a >= b then a else b }
  function Min(a: nat, b: nat): nat { if a <= b then a else b }

  /** select_upper: the larger of the two numbers. */
  function SelectUpper(b: Bounds): (r: nat)
    ensures r >= b.lo && r >= b.hi
    ensures r == b.lo || r == b.hi
  {
    if b.lo > b.hi then b.lo else b.hi
  }

  /** select_lower: the smaller of the two numbers, except that an unbounded
      interval has the larger one as its lower limit. */
  function SelectLower(b: Bounds): (r: nat)
    ensures b.inf ==> r == Max(b.lo, b.hi)
    ensures !b.inf ==> r == Min(b.lo, b.hi)
    ensures r <= SelectUpper(b)
  {
    if b.inf then SelectUpper(b) else if b.lo < b.hi then b.lo else b.hi
  }

  /** validate_within: the view's length lies in the interval; an unbounded
      interval has no upper limit. */
  function ValidateWithin(a: Arg): (r: bool)
    ensures a.bounds.inf ==> (r <==> Max(a.bounds.lo, a.bounds.hi) <= a.val.len)
    ensures !a.bounds.inf ==> (r <==> Min(a.bounds.lo, a.bounds.hi) <= a.val.len <= Max(a.bounds.lo, a.bounds.hi))
  {
    var occ := a.val.len;
    occ >= SelectLower(a.bounds) && (occ <= SelectUpper(a.bounds) || a.bounds.inf)
  }

  /** validate_opt: an entry with at least one name list is a real option. */
  predicate ValidateOpt(o: Opt)
  {
    o.names.short.Some? || o.names.long.Some?
  }

  /** validate_arg: an entry with a name is a real operand slot. */
  predicate ValidateArg(a: Arg)
  {
    a.name.Some?
  }

  /** The names of one form; an unset list behaves as an empty one, since the
      matcher skips both. */
  function NamesIn(o: Opt, form: Form): seq<string>
  {
    var l := if form == Short then o.names.short else o.names.long;
    if l.Some? then l.value else []
  }

  /** The number of entries a loop guarded by validate_opt visits: the valid
      prefix of the table, ended by the first sentinel or by the array's end. */
  function OptCount(opts: seq<Opt>): (n: nat)
    ensures n <= |opts|
    ensures forall i :: 0 <= i < n ==> ValidateOpt(opts[i])
    ensures n < |opts| ==> !ValidateOpt(opts[n])
  {
    if opts == [] || !ValidateOpt(opts[0]) then 0 else 1 + OptCount(opts[1..])
  }

  /** The same for an operand table guarded by validate_arg. */
  function OperCount(opers: seq<Arg>): (n: nat)
    ensures n <= |opers|
    ensures forall i :: 0 <= i < n ==> ValidateArg(opers[i])
    ensures n < |opers| ==> !ValidateArg(opers[n])
  {
    if opers == [] || !ValidateArg(opers[0]) then 0 else 1 + OperCount(opers[1..])
  }

  /** The guard of a scan stops exactly at the count. */
  lemma OptCountAt(opts: seq<Opt>, i: nat)
    requires i <= |opts|
    requires forall k :: 0 <= k < i ==> ValidateOpt(opts[k])
    requires i == |opts| || !ValidateOpt(opts[i])
    ensures OptCount(opts) == i
  {
  }

  lemma OperCountAt(opers: seq<Arg>, i: nat)
    requires i <= |opers|
    requires forall k :: 0 <= k < i ==> ValidateArg(opers[k])
    requires i == |opers| || !ValidateArg(opers[i])
    ensures OperCount(opers) == i
  {
  }

  /** Two tables that differ only in the recorded value views. */
  predicate SameOpts(a: seq<Opt>, b: seq<Opt>)
  {
    |a| == |b| && forall k :: 0 <= k < |a| ==> a[k].names == b[k].names && a[k].req == b[k].req && a[k].arg.bounds == b[k].arg.bounds
  }

  predicate SameOpers(a: seq<Arg>, b: seq<Arg>)
  {
    |a| == |b| && forall k :: 0 <= k < |a| ==> a[k].name == b[k].name && a[k].bounds == b[k].bounds
  }

  /** Recording values never changes how many entries are visited. */
  lemma SameOptsCount(a: seq<Opt>, b: seq<Opt>)
    requires SameOpts(a, b)
    ensures OptCount(a) == OptCount(b)
  {
    var n := OptCount(a);
    forall k | 0 <= k < n ensures ValidateOpt(b[k]) { assert ValidateOpt(a[k]); }
    OptCountAt(b, n);
  }

  lemma SameOpersCount(a: seq<Arg>, b: seq<Arg>)
    requires SameOpers(a, b)
    ensures OperCount(a) == OperCount(b)
  {
    var n := OperCount(a);
    forall k | 0 <= k < n ensures ValidateArg(b[k]) { assert ValidateArg(a[k]); }
    OperCountAt(b, n);
  }
}
