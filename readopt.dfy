/** The two entry points readopt.c adds around the engine: the loop of
    readopt_parse_all and the key/value split of readopt_keyval. A single
    readopt_parse is Engine.Parser.Step, whose answer is the pair of an end
    flag and a status. */
module ReadOpt {
  import opened Decl
  import opened Machine
  import opened Steps
  import opened Progress
  import opened Engine

  /** readopt_parse_all: readopt_parse is repeated until the answer ends the
      parse or carries an error, and that last answer is returned. The loop
      is the do-while of the source; RunAll is the same loop on states. */
  method ParseAll(p: Parser) returns (a: Answer)
    requires Valid(p.Snap()) && NoEmptyFlagNames(p.Snap().opts)
    modifies p, p.args, p.opts, p.opers
    ensures (p.Snap(), a) == RunAll(old(p.Snap()))
    ensures a.end || a.status != Success
  {
    ghost var s := p.Snap();
    a := p.Step();
    while !a.end && a.status == Success
      invariant Valid(s) && NoEmptyFlagNames(s.opts)
      invariant (p.Snap(), a) == Step(s)
      invariant RunAll(s) == RunAll(old(p.Snap()))
      decreases |s.args| - s.arg, GroupLen(s)
    {
      RunAllUnfolds(s);
      StepProgress(s);
      s := p.Snap();
      a := p.Step();
    }
  }

  /** The key and the value of "key=value": the text before the first '='
      and the text after it. */
  function Split(t: string): (r: (string, string))
    requires '=' in t
    ensures r.0 + "=" + r.1 == t
    ensures '=' !in r.0
  {
    if t[0] == '=' then ("", t[1..])
    else
      assert '=' in t[1..] by { var k :| 0 <= k < |t| && t[k] == '='; assert t[1..][k - 1] == '='; }
      var (k, v) := Split(t[1..]);
      ([t[0]] + k, v)
  }

  /** The split is the only one with a key free of '='. */
  lemma {:induction false} SplitUnique(t: string, k: string, v: string)
    requires '=' !in k && t == k + "=" + v
    ensures '=' in t && Split(t) == (k, v)
  {
    assert t[|k|] == '=';
    if k == [] {
      assert t[1..] == v;
    } else {
      assert k[0] != '=';
      assert t[1..] == k[1..] + "=" + v;
      assert '=' !in k[1..] by {
        forall m | 0 <= m < |k[1..]| ensures k[1..][m] != '=' { assert k[1..][m] == k[m + 1]; }
      }
      SplitUnique(t[1..], k[1..], v);
      assert [t[0]] + k[1..] == k;
    }
  }

  /** readopt_keyval: the first '=' of the string is overwritten with the
      terminator and the index just after it, where the value begins, is
      returned. The string must contain '=': the scan has no other bound. */
  method Keyval(s: array<char>) returns (v: nat)
    requires '=' in s[..]
    modifies s
    ensures 1 <= v <= s.Length
    ensures s[..] == old(s[..])[v - 1 := '\0']
    ensures old(s[..])[..v - 1] == Split(old(s[..])).0
    ensures s[v..] == Split(old(s[..])).1
  {
    ghost var t := s[..];
    var i := 0;
    while s[i] != '='
      invariant 0 <= i < s.Length
      invariant '=' in s[i..]
      invariant '=' !in s[..i]
      decreases s.Length - i
    {
      assert s[i..] == [s[i]] + s[i + 1..];
      assert s[..i + 1] == s[..i] + [s[i]];
      i := i + 1;
    }
    assert t == t[..i] + "=" + t[i + 1..];
    SplitUnique(t, t[..i], t[i + 1..]);
    s[i] := '\0';
    v := i + 1;
    assert s[v..] == t[v..];
  }
}
