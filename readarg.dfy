/** The single-header driver of readarg.h: the engine is the same, but a
    failing step writes its error into the parser's `error` field instead of
    returning it, and readarg_parse answers whether the caller should go on. */
module ReadArg {
  import opened Decl
  import opened Machine
  import opened Steps
  import opened Engine

  /** The error field after a step with status st: a failure overwrites it,
      a success leaves it as it was. */
  function Record(error: Status, st: Status): Status
  {
    if st == Success then error else st
  }

  /** What readarg_parse returns after a step with answer a has left the
      error field at e: zero at the end of the array, else whether no error
      has been recorded. */
  function Continue(a: Answer, e: Status): bool
  {
    !a.end && e == Success
  }

  /** The error field is clean after a step exactly when it was clean and
      the step succeeded; once an error is recorded, whatever the step's
      answer, the field stays an error and readarg_parse returns zero. */
  lemma ErrorSticks(error: Status, a: Answer)
    ensures Record(error, a.status) == Success <==> error == Success && a.status == Success
    ensures error != Success ==> Record(error, a.status) != Success && !Continue(a, Record(error, a.status))
  {
  }

  /** From a clean error field, readarg_parse goes on exactly when
      readopt_parse's answer would make readopt_parse_all go on. */
  lemma SameVerdict(a: Answer)
    ensures Continue(a, Record(Success, a.status)) <==> !a.end && a.status == Success
  {
  }

  class ArgParser {
    /** The parse state shared with readopt.c. */
    const p: Parser
    /** rp->error: ESUCCESS until a step fails. */
    var error: Status

    /** readarg_parser_init: the engine's initial state and no error. */
    constructor (a: array<string>, o: array<Opt>, q: array<Arg>)
      ensures p.args == a && p.opts == o && p.opers == q
      ensures p.Snap() == Init(a[..], o[..], q[..]) && error == Success
      ensures fresh(p)
    {
      p := new Parser(a, o, q);
      error := Success;
    }

    /** readarg_parse: one step of the engine. A failing status overwrites
        `error`, a success leaves it alone; the result is nonzero exactly when
        the step did not reach the end and no error is recorded, so once an
        error is set every later call returns zero and the error stays. */
    method Parse() returns (more: bool)
      requires Valid(p.Snap())
      modifies this, p, p.args, p.opts, p.opers
      ensures p.Snap() == Machine.Step(old(p.Snap())).0
      ensures var st := Machine.Step(old(p.Snap())).1.status;
              (st != Success ==> error == st) && (st == Success ==> error == old(error))
      ensures var a := Machine.Step(old(p.Snap())).1;
              more <==> !a.end && a.status == Success && old(error) == Success
      ensures old(error) != Success ==> !more && error != Success
    {
      var a := p.Step();
      error := Record(error, a.status);
      more := Continue(a, error);
    }
  }
}
