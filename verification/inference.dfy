/** Type inference, the fallback for a path whose ending names no format.
    `ConfigManager.TypeInference` enumerates by reflection every type defined
    in its assembly; here that enumeration is an explicit, ordered sequence
    of candidates,
    each with the tag of its direct base type and the outcome each of its
    constructors would have when invoked with the path. */
module Inference {
  import opened Outcomes

  /** What invoking one constructor with the file path does: it returns an
      adapter, or it throws (any exception at all). */
  datatype Attempt<A> = Ok(adapter: A) | Fail

  /** The direct base type of a candidate type. Only types deriving directly
      from `XmlConfig` are tried. */
  datatype BaseType = XmlConfigBase | OtherBase

  /** One type of the assembly, with its declared constructors in order. */
  datatype Candidate<A> = Candidate(baseType: BaseType, constructors: seq<Attempt<A>>)

  predicate Eligible<A>(c: Candidate<A>) {
    c.baseType == XmlConfigBase
  }

  /** The inner loop: constructors are invoked in order, a throwing one is
      skipped, and the first that returns ends the loop with its adapter. */
  function FirstSuccess<A>(attempts: seq<Attempt<A>>): Option<A> {
    if |attempts| == 0 then None
    else if attempts[0].Ok? then Some(attempts[0].adapter)
    else FirstSuccess(attempts[1..])
  }

  /** The inner loop yields nothing exactly when every constructor throws;
      otherwise it yields the adapter of a returning constructor that has
      only throwing ones before it. */
  lemma {:induction false} FirstSuccessMeaning<A>(attempts: seq<Attempt<A>>)
    ensures FirstSuccess(attempts).None? <==> forall k :: 0 <= k < |attempts| ==> attempts[k].Fail?
    ensures FirstSuccess(attempts).Some? ==>
              exists k :: 0 <= k < |attempts| && attempts[k] == Ok(FirstSuccess(attempts).value)
                          && forall j :: 0 <= j < k ==> attempts[j].Fail?
  {
    if |attempts| > 0 && attempts[0].Fail? {
      var rest := attempts[1..];
      FirstSuccessMeaning(rest);
      assert forall k :: 0 < k < |attempts| ==> attempts[k] == rest[k - 1];
      if FirstSuccess(rest).Some? {
        var k :| 0 <= k < |rest| && rest[k] == Ok(FirstSuccess(rest).value)
                 && forall j :: 0 <= j < k ==> rest[j].Fail?;
        assert attempts[k + 1] == Ok(FirstSuccess(attempts).value);
      }
    }
  }

  /** What one candidate leaves behind: nothing when it is not eligible or
      all its constructors throw, otherwise the first constructed adapter. */
  function Contribution<A>(c: Candidate<A>): Option<A> {
    if Eligible(c) then FirstSuccess(c.constructors) else None
  }

  /** The adapter `TypeInference` returns: the outer loop never stops early
      and a later success overwrites an earlier one. */
  function Inferred<A>(cands: seq<Candidate<A>>): Option<A> {
    if |cands| == 0 then None
    else
      var last := Contribution(cands[|cands| - 1]);
      if last.Some? then last else Inferred(cands[..|cands| - 1])
  }

  /** Inference returns null exactly when no eligible candidate has a
      constructor that returns; otherwise it returns the contribution of the
      LAST candidate that made one. */
  lemma {:induction false} InferredMeaning<A>(cands: seq<Candidate<A>>)
    ensures Inferred(cands).None? <==>
              forall i, k :: 0 <= i < |cands| && Eligible(cands[i])
                             && 0 <= k < |cands[i].constructors|
                             ==> cands[i].constructors[k].Fail?
    ensures Inferred(cands).Some? ==>
              exists i :: 0 <= i < |cands| && Eligible(cands[i])
                          && Contribution(cands[i]) == Inferred(cands)
                          && forall j :: i < j < |cands| ==> Contribution(cands[j]).None?
  {
    if |cands| > 0 {
      var n := |cands| - 1;
      var init := cands[..n];
      InferredMeaning(init);
      FirstSuccessMeaning(cands[n].constructors);
      assert forall i :: 0 <= i < n ==> init[i] == cands[i];
      if Contribution(cands[n]).None? {
        forall i | 0 <= i < n && Eligible(cands[i])
          ensures FirstSuccess(cands[i].constructors) == FirstSuccess(init[i].constructors)
        {
        }
      }
    }
  }

  /** `TypeInference` as written: for each eligible type, its constructors
      are tried until one returns; exceptions are swallowed; the variable
      holding the result is never reset between types. */
  method TypeInference<A>(cands: seq<Candidate<A>>) returns (con: Option<A>)
    ensures con == Inferred(cands)
    ensures con.Some? ==>
              exists i :: 0 <= i < |cands| && Eligible(cands[i])
                          && FirstSuccess(cands[i].constructors) == con
  {
    con := None;
    for i := 0 to |cands|
      invariant con == Inferred(cands[..i])
    {
      var item := cands[i];
      ghost var before := con;
      if item.baseType == XmlConfigBase {
        for k := 0 to |item.constructors|
          invariant con == before
          invariant forall j :: 0 <= j < k ==> item.constructors[j].Fail?
        {
          var attempt := item.constructors[k];
          if attempt.Ok? {
            con := Some(attempt.adapter);
            FirstSuccessAt(item.constructors, k);
            break;
          }
        }
        FirstSuccessMeaning(item.constructors);
      }
      assert cands[..i + 1][..i] == cands[..i];
    }
    assert cands[..|cands|] == cands;
    InferredMeaning(cands);
  }

  /** A constructor that returns after only throwing ones before it is the one
      the inner loop settles on. */
  lemma {:induction false} FirstSuccessAt<A>(attempts: seq<Attempt<A>>, k: nat)
    requires k < |attempts| && attempts[k].Ok?
    requires forall j :: 0 <= j < k ==> attempts[j].Fail?
    ensures FirstSuccess(attempts) == Some(attempts[k].adapter)
  {
    if k > 0 {
      FirstSuccessAt(attempts[1..], k - 1);
    }
  }

  /** Once a constructor has returned, the constructors declared after it
      are never invoked: appending more changes nothing. */
  lemma {:induction false} LaterConstructorsIgnored<A>(s: seq<Attempt<A>>, t: seq<Attempt<A>>)
    requires FirstSuccess(s).Some?
    ensures FirstSuccess(s + t) == FirstSuccess(s)
  {
    if s[0].Fail? {
      assert (s + t)[1..] == s[1..] + t;
      LaterConstructorsIgnored(s[1..], t);
    }
  }

  /** A candidate that contributes nothing — not derived from `XmlConfig`, or
      every constructor throws — can be removed from anywhere in the
      enumeration without changing the result. */
  lemma {:induction false} SilentCandidateIgnored<A>(s: seq<Candidate<A>>, c: Candidate<A>, t: seq<Candidate<A>>)
    requires Contribution(c).None?
    ensures Inferred(s + [c] + t) == Inferred(s + t)
  {
    if |t| == 0 {
      assert s + [c] + t == s + [c];
      assert (s + [c])[..|s|] == s;
      assert s + t == s;
    } else {
      var t' := t[..|t| - 1];
      assert (s + [c] + t)[..|s + [c] + t| - 1] == s + [c] + t';
      assert (s + t)[..|s + t| - 1] == s + t';
      SilentCandidateIgnored(s, c, t');
    }
  }

  /** In particular every candidate whose base type is not `XmlConfig` has no
      effect on inference, whatever its constructors would do. */
  lemma IneligibleCandidateIgnored<A>(s: seq<Candidate<A>>, c: Candidate<A>, t: seq<Candidate<A>>)
    requires !Eligible(c)
    ensures Inferred(s + [c] + t) == Inferred(s + t)
  {
    SilentCandidateIgnored(s, c, t);
  }

  /** A candidate that constructs an adapter overrides everything enumerated
      before it, and is itself overridden only by a later one that does. */
  lemma {:induction false} LaterSuccessOverrides<A>(s: seq<Candidate<A>>, c: Candidate<A>, t: seq<Candidate<A>>)
    requires Contribution(c).Some?
    ensures Inferred(s + [c] + t) == Inferred([c] + t)
  {
    if |t| == 0 {
      assert (s + [c] + t)[..|s + [c] + t| - 1] == s;
      assert [c] + t == [c];
    } else {
      var t' := t[..|t| - 1];
      assert (s + [c] + t)[..|s + [c] + t| - 1] == s + [c] + t';
      assert ([c] + t)[..|[c] + t| - 1] == [c] + t';
      LaterSuccessOverrides(s, c, t');
    }
  }

  /** The reading in which the first candidate that constructs an adapter is
      adopted and the enumeration stops there. */
  function FirstWinner<A>(cands: seq<Candidate<A>>): Option<A> {
    if |cands| == 0 then None
    else if Contribution(cands[0]).Some? then Contribution(cands[0])
    else FirstWinner(cands[1..])
  }

  /** Under the first-success reading the result is null exactly when no
      candidate contributes, and otherwise is the contribution of a
      candidate before which none contributes. */
  lemma {:induction false} FirstWinnerMeaning<A>(cands: seq<Candidate<A>>)
    ensures FirstWinner(cands).None? <==> forall i :: 0 <= i < |cands| ==> Contribution(cands[i]).None?
    ensures FirstWinner(cands).Some? ==>
              exists i :: 0 <= i < |cands| && Contribution(cands[i]) == FirstWinner(cands)
                          && forall j :: 0 <= j < i ==> Contribution(cands[j]).None?
  {
    if |cands| > 0 && Contribution(cands[0]).None? {
      var rest := cands[1..];
      FirstWinnerMeaning(rest);
      assert forall i :: 0 < i < |cands| ==> cands[i] == rest[i - 1];
      if FirstWinner(rest).Some? {
        var i :| 0 <= i < |rest| && Contribution(rest[i]) == FirstWinner(rest)
                 && forall j :: 0 <= j < i ==> Contribution(rest[j]).None?;
        assert Contribution(cands[i + 1]) == FirstWinner(cands);
      }
    }
  }

  /** When at most one candidate can construct an adapter, the loop as
      written and the first-success reading agree. */
  lemma InferredAgreesWithFirstWinner<A>(cands: seq<Candidate<A>>)
    requires forall i, j :: 0 <= i < j < |cands| && Contribution(cands[i]).Some?
                            ==> Contribution(cands[j]).None?
    ensures Inferred(cands) == FirstWinner(cands)
  {
    InferredMeaning(cands);
    FirstWinnerMeaning(cands);
    var r := Inferred(cands);
    var f := FirstWinner(cands);
    if r.Some? {
      var i :| 0 <= i < |cands| && Eligible(cands[i]) && Contribution(cands[i]) == r
               && forall j :: i < j < |cands| ==> Contribution(cands[j]).None?;
      assert f.Some?;
      var i' :| 0 <= i' < |cands| && Contribution(cands[i']) == f
                && forall j :: 0 <= j < i' ==> Contribution(cands[j]).None?;
      assert i == i';
    } else {
      forall i | 0 <= i < |cands|
        ensures Contribution(cands[i]).None?
      {
        FirstSuccessMeaning(cands[i].constructors);
      }
    }
  }

  /** When two candidates both construct an adapter, the loop as written
      keeps the second: the last success wins, not the first. */
  lemma LastSuccessWinsExample()
    ensures Inferred([Candidate(XmlConfigBase, [Ok(1)]),
                      Candidate(OtherBase, [Ok(3)]),
                      Candidate(XmlConfigBase, [Fail, Ok(2)])]) == Some(2)
    ensures FirstWinner([Candidate(XmlConfigBase, [Ok(1)]),
                         Candidate(OtherBase, [Ok(3)]),
                         Candidate(XmlConfigBase, [Fail, Ok(2)])]) == Some(1)
  {
  }
}
