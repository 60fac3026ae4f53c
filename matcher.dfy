/** The option matcher (readarg_match_opt / match_opt and skip_incl): a declared
    name matches when it is a prefix of the typed fragment; a name equal to the
    whole fragment wins at once, otherwise the longest matching name wins and a
    later one replaces it only when strictly longer. */
module Matcher {
  import opened Decl

  /** The result of a match: the option's index in the table and how many
      characters of the fragment its name covers. */
  datatype Match = Match(opt: nat, adv: nat)

  /** skip_incl(outer, inner): the offset into `outer` just past `inner` when
      `inner` is a prefix of `outer`, and nothing otherwise. */
  method SkipIncl(outer: string, inner: string) returns (r: Option<nat>)
    ensures r.Some? <==> inner <= outer
    ensures r.Some? ==> r.value == |inner| && outer[..r.value] == inner
  {
    var k := 0;
    while k < |inner| && k < |outer| && inner[k] == outer[k]
      invariant k <= |inner| && k <= |outer|
      invariant inner[..k] == outer[..k]
    {
      k := k + 1;
    }
    if k == |inner| {
      assert inner == outer[..k];
      return Some(k);
    }
    assert k < |inner|;
    assert k == |outer| || inner[k] != outer[k];
    return None;
  }

  /** The names of the form at table index i (none past the end). */
  function NamesAt(opts: seq<Opt>, form: Form, i: nat): seq<string>
  {
    if i < |opts| then NamesIn(opts[i], form) else []
  }

  /** The scan of match_opt from option i, name j, with `loose` the best
      inexact match recorded so far. */
  function Scan(opts: seq<Opt>, form: Form, needle: string, i: nat, j: nat, loose: Option<Match>): Option<Match>
    requires j <= |NamesAt(opts, form, i)|
    decreases |opts| - i, |NamesAt(opts, form, i)| - j
  {
    if i >= |opts| || !ValidateOpt(opts[i]) then loose
    else if j == |NamesIn(opts[i], form)| then Scan(opts, form, needle, i + 1, 0, loose)
    else
      var name := NamesIn(opts[i], form)[j];
      if name <= needle && |name| == |needle| then Some(Match(i, |name|))
      else if name <= needle && (loose.None? || |name| > loose.value.adv) then
        Scan(opts, form, needle, i, j + 1, Some(Match(i, |name|)))
      else Scan(opts, form, needle, i, j + 1, loose)
  }

  /** match_opt's result, before match_finish applies it. */
  function MatchOpt(opts: seq<Opt>, form: Form, needle: string): Option<Match>
  {
    Scan(opts, form, needle, 0, 0, None)
  }

  /** Name j of option i is declared and is a prefix of the fragment. */
  predicate Hit(opts: seq<Opt>, form: Form, needle: string, i: nat, j: nat)
  {
    i < OptCount(opts) && j < |NamesIn(opts[i], form)| && NamesIn(opts[i], form)[j] <= needle
  }

  /** Name j of option i equals the whole fragment. */
  predicate ExactHit(opts: seq<Opt>, form: Form, needle: string, i: nat, j: nat)
  {
    Hit(opts, form, needle, i, j) && |NamesIn(opts[i], form)[j]| == |needle|
  }

  /** Position (i, j) is not before (i0, j0) in scan order. */
  predicate From(i0: nat, j0: nat, i: nat, j: nat)
  {
    i > i0 || (i == i0 && j >= j0)
  }

  /** Position (i, j) comes strictly before (i1, j1) in scan order. */
  predicate Before(i: nat, j: nat, i1: nat, j1: nat)
  {
    i < i1 || (i == i1 && j < j1)
  }

  lemma HitInTable(opts: seq<Opt>, form: Form, needle: string, i: nat, j: nat)
    requires Hit(opts, form, needle, i, j)
    ensures i < |opts| && ValidateOpt(opts[i])
  {
  }

  /** Nothing is found exactly when no name of the form is a prefix. */
  lemma {:induction false} ScanNone(opts: seq<Opt>, form: Form, needle: string, i: nat, j: nat, loose: Option<Match>)
    requires j <= |NamesAt(opts, form, i)|
    requires i <= OptCount(opts)
    ensures Scan(opts, form, needle, i, j, loose).None? <==>
              loose.None? && forall i': nat, j': nat :: From(i, j, i', j') && Hit(opts, form, needle, i', j') ==> false
    decreases |opts| - i, |NamesAt(opts, form, i)| - j
  {
    if i >= |opts| || !ValidateOpt(opts[i]) {
      assert i == OptCount(opts);
    } else if j == |NamesIn(opts[i], form)| {
      ScanNone(opts, form, needle, i + 1, 0, loose);
      forall i': nat, j': nat | From(i, j, i', j') && Hit(opts, form, needle, i', j') ensures From(i + 1, 0, i', j') { }
    } else {
      var name := NamesIn(opts[i], form)[j];
      if name <= needle && |name| == |needle| {
        assert Hit(opts, form, needle, i, j);
      } else if name <= needle && (loose.None? || |name| > loose.value.adv) {
        ScanNone(opts, form, needle, i, j + 1, Some(Match(i, |name|)));
        assert Hit(opts, form, needle, i, j);
      } else {
        ScanNone(opts, form, needle, i, j + 1, loose);
        forall i': nat, j': nat | From(i, j, i', j') && Hit(opts, form, needle, i', j') && !From(i, j + 1, i', j')
          ensures loose.Some?
        {
          assert i' == i && j' == j;
        }
      }
    }
  }

  /** A found option is either the recorded one or has a name of the reported
      length that is a prefix of the fragment, at or after the start. */
  lemma {:induction false} ScanSound(opts: seq<Opt>, form: Form, needle: string, i: nat, j: nat, loose: Option<Match>)
    requires j <= |NamesAt(opts, form, i)|
    requires i <= OptCount(opts)
    requires Scan(opts, form, needle, i, j, loose).Some?
    ensures var m := Scan(opts, form, needle, i, j, loose).value;
            Some(m) == loose ||
            exists j': nat :: From(i, j, m.opt, j') && Hit(opts, form, needle, m.opt, j') && |NamesIn(opts[m.opt], form)[j']| == m.adv
    decreases |opts| - i, |NamesAt(opts, form, i)| - j
  {
    if i >= |opts| || !ValidateOpt(opts[i]) {
    } else if j == |NamesIn(opts[i], form)| {
      ScanSound(opts, form, needle, i + 1, 0, loose);
    } else {
      var name := NamesIn(opts[i], form)[j];
      if name <= needle && |name| == |needle| {
        assert Hit(opts, form, needle, i, j);
      } else if name <= needle && (loose.None? || |name| > loose.value.adv) {
        ScanSound(opts, form, needle, i, j + 1, Some(Match(i, |name|)));
        assert Hit(opts, form, needle, i, j);
      } else {
        ScanSound(opts, form, needle, i, j + 1, loose);
      }
    }
  }

  /** When some remaining name equals the fragment, the scan stops at the first
      such name in scan order. */
  lemma {:induction false} ScanExact(opts: seq<Opt>, form: Form, needle: string, i: nat, j: nat, loose: Option<Match>, ie: nat, je: nat)
    requires j <= |NamesAt(opts, form, i)|
    requires i <= OptCount(opts)
    requires From(i, j, ie, je) && ExactHit(opts, form, needle, ie, je)
    requires forall i': nat, j': nat :: From(i, j, i', j') && Before(i', j', ie, je) ==> !ExactHit(opts, form, needle, i', j')
    ensures Scan(opts, form, needle, i, j, loose) == Some(Match(ie, |needle|))
    decreases |opts| - i, |NamesAt(opts, form, i)| - j
  {
    HitInTable(opts, form, needle, ie, je);
    if i >= |opts| || !ValidateOpt(opts[i]) {
    } else if j == |NamesIn(opts[i], form)| {
      ScanExact(opts, form, needle, i + 1, 0, loose, ie, je);
    } else {
      var name := NamesIn(opts[i], form)[j];
      if name <= needle && |name| == |needle| {
        assert ExactHit(opts, form, needle, i, j);
        assert !Before(i, j, ie, je);
      } else {
        assert !(ie == i && je == j);
        var next := if name <= needle && (loose.None? || |name| > loose.value.adv) then Some(Match(i, |name|)) else loose;
        ScanExact(opts, form, needle, i, j + 1, next, ie, je);
      }
    }
  }

  /** Without an exact name, the scan ends with a match at least as long as the
      recorded one and as every remaining prefix name. */
  lemma {:induction false} ScanLongest(opts: seq<Opt>, form: Form, needle: string, i: nat, j: nat, loose: Option<Match>)
    requires j <= |NamesAt(opts, form, i)|
    requires i <= OptCount(opts)
    requires forall i': nat, j': nat :: From(i, j, i', j') ==> !ExactHit(opts, form, needle, i', j')
    requires Scan(opts, form, needle, i, j, loose).Some?
    ensures var m := Scan(opts, form, needle, i, j, loose).value;
            (loose.Some? ==> m.adv >= loose.value.adv) &&
            forall i': nat, j': nat :: From(i, j, i', j') && Hit(opts, form, needle, i', j') ==> |NamesIn(opts[i'], form)[j']| <= m.adv
    decreases |opts| - i, |NamesAt(opts, form, i)| - j
  {
    if i >= |opts| || !ValidateOpt(opts[i]) {
      assert i == OptCount(opts);
    } else if j == |NamesIn(opts[i], form)| {
      ScanLongest(opts, form, needle, i + 1, 0, loose);
      forall i': nat, j': nat | From(i, j, i', j') && Hit(opts, form, needle, i', j') ensures From(i + 1, 0, i', j') { }
    } else {
      var name := NamesIn(opts[i], form)[j];
      assert !ExactHit(opts, form, needle, i, j);
      assert i < OptCount(opts);
      var next := if name <= needle && (loose.None? || |name| > loose.value.adv) then Some(Match(i, |name|)) else loose;
      ScanLongest(opts, form, needle, i, j + 1, next);
      var m := Scan(opts, form, needle, i, j, loose).value;
      if name <= needle {
        assert Hit(opts, form, needle, i, j);
        assert |name| <= m.adv;
      }
    }
  }

  /** No prefix name at or after (i, j) and before (m.opt, jm) is as long as m. */
  ghost predicate NoneAsLongBefore(opts: seq<Opt>, form: Form, needle: string, i: nat, j: nat, m: Match, jm: nat)
  {
    forall i': nat, j': nat :: From(i, j, i', j') && Before(i', j', m.opt, jm) && Hit(opts, form, needle, i', j') ==>
      |NamesIn(opts[i'], form)[j']| < m.adv
  }

  lemma WidenName(opts: seq<Opt>, form: Form, needle: string, i: nat, j: nat, m: Match, jm: nat)
    requires NoneAsLongBefore(opts, form, needle, i, j + 1, m, jm)
    requires Hit(opts, form, needle, i, j) && Before(i, j, m.opt, jm) ==> |NamesIn(opts[i], form)[j]| < m.adv
    ensures NoneAsLongBefore(opts, form, needle, i, j, m, jm)
  {
    forall i': nat, j': nat | From(i, j, i', j') && Before(i', j', m.opt, jm) && Hit(opts, form, needle, i', j')
      ensures |NamesIn(opts[i'], form)[j']| < m.adv
    {
      if i' != i || j' != j { assert From(i, j + 1, i', j'); }
    }
  }

  lemma WidenRow(opts: seq<Opt>, form: Form, needle: string, i: nat, j: nat, m: Match, jm: nat)
    requires NoneAsLongBefore(opts, form, needle, i + 1, 0, m, jm)
    requires j == |NamesAt(opts, form, i)|
    ensures NoneAsLongBefore(opts, form, needle, i, j, m, jm)
  {
    forall i': nat, j': nat | From(i, j, i', j') && Before(i', j', m.opt, jm) && Hit(opts, form, needle, i', j')
      ensures |NamesIn(opts[i'], form)[j']| < m.adv
    {
      assert From(i + 1, 0, i', j');
    }
  }

  /** Among equally long prefix names the first one in scan order wins: a later
      name replaces the recorded match only when strictly longer. The witness
      is the position of the winning name. */
  lemma {:induction false} ScanFirstOfLongest(opts: seq<Opt>, form: Form, needle: string, i: nat, j: nat, loose: Option<Match>) returns (jm: nat)
    requires j <= |NamesAt(opts, form, i)|
    requires i <= OptCount(opts)
    requires forall i': nat, j': nat :: From(i, j, i', j') ==> !ExactHit(opts, form, needle, i', j')
    requires Scan(opts, form, needle, i, j, loose).Some?
    ensures var m := Scan(opts, form, needle, i, j, loose).value;
            Some(m) == loose ||
            ((loose.Some? ==> m.adv > loose.value.adv) &&
             From(i, j, m.opt, jm) && Hit(opts, form, needle, m.opt, jm) && |NamesIn(opts[m.opt], form)[jm]| == m.adv &&
             NoneAsLongBefore(opts, form, needle, i, j, m, jm))
    decreases |opts| - i, |NamesAt(opts, form, i)| - j, 1
  {
    var m := Scan(opts, form, needle, i, j, loose).value;
    if i >= |opts| || !ValidateOpt(opts[i]) {
      jm := 0;
    } else if j == |NamesIn(opts[i], form)| {
      jm := ScanFirstOfLongest(opts, form, needle, i + 1, 0, loose);
      if Some(m) != loose {
        WidenRow(opts, form, needle, i, j, m, jm);
      }
    } else {
      jm := FirstOfLongestAt(opts, form, needle, i, j, loose);
    }
  }

  /** ScanFirstOfLongest at a name of a declared option. */
  lemma {:induction false} FirstOfLongestAt(opts: seq<Opt>, form: Form, needle: string, i: nat, j: nat, loose: Option<Match>) returns (jm: nat)
    requires i < |opts| && ValidateOpt(opts[i]) && j < |NamesIn(opts[i], form)|
    requires j <= |NamesAt(opts, form, i)|
    requires i <= OptCount(opts)
    requires forall i': nat, j': nat :: From(i, j, i', j') ==> !ExactHit(opts, form, needle, i', j')
    requires Scan(opts, form, needle, i, j, loose).Some?
    ensures var m := Scan(opts, form, needle, i, j, loose).value;
            Some(m) == loose ||
            ((loose.Some? ==> m.adv > loose.value.adv) &&
             From(i, j, m.opt, jm) && Hit(opts, form, needle, m.opt, jm) && |NamesIn(opts[m.opt], form)[jm]| == m.adv &&
             NoneAsLongBefore(opts, form, needle, i, j, m, jm))
    decreases |opts| - i, |NamesAt(opts, form, i)| - j, 0
  {
    var m := Scan(opts, form, needle, i, j, loose).value;
    var name := NamesIn(opts[i], form)[j];
    assert !ExactHit(opts, form, needle, i, j);
    assert i < OptCount(opts);
    if name <= needle && (loose.None? || |name| > loose.value.adv) {
      var next := Some(Match(i, |name|));
      jm := ScanFirstOfLongest(opts, form, needle, i, j + 1, next);
      if Some(m) == next {
        jm := j;
        assert NoneAsLongBefore(opts, form, needle, i, j, m, jm);
      } else {
        WidenName(opts, form, needle, i, j, m, jm);
      }
    } else {
      jm := ScanFirstOfLongest(opts, form, needle, i, j + 1, loose);
      if Some(m) != loose {
        WidenName(opts, form, needle, i, j, m, jm);
      }
    }
  }

  // ---- The matcher's contract, stated on the whole table ----

  /** match_opt reports no option exactly when no declared name of the form is
      a prefix of the fragment. */
  lemma MatchNoneIff(opts: seq<Opt>, form: Form, needle: string)
    ensures MatchOpt(opts, form, needle).None? <==> forall i: nat, j: nat :: !Hit(opts, form, needle, i, j)
  {
    ScanNone(opts, form, needle, 0, 0, None);
  }

  /** A reported option is a real table entry with a name of the reported length
      that is a prefix of the fragment. */
  lemma MatchIsPrefix(opts: seq<Opt>, form: Form, needle: string)
    requires MatchOpt(opts, form, needle).Some?
    ensures var m := MatchOpt(opts, form, needle).value;
            m.opt < OptCount(opts) && m.adv <= |needle| &&
            exists j: nat :: Hit(opts, form, needle, m.opt, j) && |NamesIn(opts[m.opt], form)[j]| == m.adv
  {
    ScanSound(opts, form, needle, 0, 0, None);
  }

  /** The bounds part of MatchIsPrefix, without the witness: the option is
      declared and the match is no longer than the fragment. */
  lemma MatchBounds(opts: seq<Opt>, form: Form, needle: string)
    requires MatchOpt(opts, form, needle).Some?
    ensures MatchOpt(opts, form, needle).value.opt < OptCount(opts)
    ensures MatchOpt(opts, form, needle).value.adv <= |needle|
  {
    MatchIsPrefix(opts, form, needle);
  }

  /** A name equal to the whole fragment returns at once: the first option (in
      table order) that declares it wins and the whole fragment is consumed. */
  lemma MatchExactFirst(opts: seq<Opt>, form: Form, needle: string, ie: nat, je: nat)
    requires ExactHit(opts, form, needle, ie, je)
    ensures exists i0: nat, j0: nat :: ExactHit(opts, form, needle, i0, j0) && i0 <= ie &&
              MatchOpt(opts, form, needle) == Some(Match(i0, |needle|)) &&
              forall i': nat, j': nat :: i' < i0 ==> !ExactHit(opts, form, needle, i', j')
  {
    var i0, j0 := FirstExact(opts, form, needle, ie, je);
    ScanExact(opts, form, needle, 0, 0, None, i0, j0);
  }

  /** The first exact name in scan order. */
  lemma FirstExact(opts: seq<Opt>, form: Form, needle: string, ie: nat, je: nat) returns (i0: nat, j0: nat)
    requires ExactHit(opts, form, needle, ie, je)
    ensures ExactHit(opts, form, needle, i0, j0) && i0 <= ie
    ensures forall i': nat, j': nat :: Before(i', j', i0, j0) ==> !ExactHit(opts, form, needle, i', j')
  {
    i0, j0 := ie, je;
    while exists i': nat, j': nat :: Before(i', j', i0, j0) && ExactHit(opts, form, needle, i', j')
      invariant ExactHit(opts, form, needle, i0, j0) && i0 <= ie
      decreases i0, j0
    {
      var i': nat, j': nat :| Before(i', j', i0, j0) && ExactHit(opts, form, needle, i', j');
      i0, j0 := i', j';
    }
  }

  /** Without an exact name, the match is the longest prefix name, and of the
      longest ones the first in scan order: no earlier name is as long. */
  lemma MatchLongestFirst(opts: seq<Opt>, form: Form, needle: string)
    requires forall i: nat, j: nat :: !ExactHit(opts, form, needle, i, j)
    requires MatchOpt(opts, form, needle).Some?
    ensures var m := MatchOpt(opts, form, needle).value;
            m.adv < |needle| &&
            (forall i: nat, j: nat :: Hit(opts, form, needle, i, j) ==> |NamesIn(opts[i], form)[j]| <= m.adv) &&
            exists jm: nat :: Hit(opts, form, needle, m.opt, jm) && |NamesIn(opts[m.opt], form)[jm]| == m.adv &&
              forall i: nat, j: nat :: Before(i, j, m.opt, jm) && Hit(opts, form, needle, i, j) ==> |NamesIn(opts[i], form)[j]| < m.adv
  {
    ScanLongest(opts, form, needle, 0, 0, None);
    var jm := ScanFirstOfLongest(opts, form, needle, 0, 0, None);
    var m := MatchOpt(opts, form, needle).value;
    assert !ExactHit(opts, form, needle, m.opt, jm);
    forall i: nat, j: nat | Before(i, j, m.opt, jm) && Hit(opts, form, needle, i, j)
      ensures |NamesIn(opts[i], form)[j]| < m.adv
    {
      assert From(0, 0, i, j);
    }
  }
}
