/**
 * `uniquemodulename` (pypy/translator/gensupp.py): hands out `name_1`,
 * `name_2`, ... and never the same module name twice. The dictionary the
 * source keeps as a mutable default argument lives on as the `seen` field
 * of one registry object.
 */
module ModuleNames {
  import opened Text
  import opened Sets

  /** `'%s_%d' % (name, i)`. */
  function Candidate(name: string, i: nat): (c: string)
    ensures |c| > |name| + 1
  {
    name + "_" + Decimal(i)
  }

  /** Different counters give different candidates. */
  lemma CandidateInjective(name: string, i: nat, j: nat)
    requires Candidate(name, i) == Candidate(name, j)
    ensures i == j
  {
    assert Candidate(name, i)[|name| + 1..] == Decimal(i);
    assert Candidate(name, j)[|name| + 1..] == Decimal(j);
    DecimalInjective(i, j);
  }

  /** The candidates tried for counters `1..i`. */
  function Candidates(name: string, i: nat): set<string> {
    set j | 1 <= j <= i :: Candidate(name, j)
  }

  /** The first `i` candidates are `i` different strings. */
  lemma {:induction false} CandidatesCount(name: string, i: nat)
    ensures |Candidates(name, i)| == i
  {
    if i == 0 {
      assert Candidates(name, 0) == {};
    } else {
      CandidatesCount(name, i - 1);
      assert Candidates(name, i) == Candidates(name, i - 1) + {Candidate(name, i)};
      if Candidate(name, i) in Candidates(name, i - 1) {
        var j :| 1 <= j <= i - 1 && Candidate(name, j) == Candidate(name, i);
        CandidateInjective(name, j, i);
      }
    }
  }

  /** Among the first `|seen| + 1` candidates one is free, so the search stops. */
  lemma SomeCandidateFree(name: string, seen: set<string>)
    ensures exists i :: 1 <= i <= |seen| + 1 && Candidate(name, i) !in seen
  {
    if forall i :: 1 <= i <= |seen| + 1 ==> Candidate(name, i) in seen {
      CandidatesCount(name, |seen| + 1);
      SubsetCard(Candidates(name, |seen| + 1), seen);
      assert false;
    }
  }

  class ModuleNameRegistry {
    /** The module names handed out so far (the `SEEN` default argument). */
    var seen: set<string>

    constructor()
      ensures seen == {}
    {
      seen := {};
    }

    /** `uniquemodulename(name)`: the first unused `name_i`, `i >= 1`, recorded as used. */
    method UniqueModuleName(name: string) returns (result: string)
      modifies this
      ensures result !in old(seen)
      ensures seen == old(seen) + {result}
      ensures exists i :: 1 <= i && result == Candidate(name, i) &&
                forall j :: 1 <= j < i ==> Candidate(name, j) in old(seen)
    {
      var i := 1;
      result := Candidate(name, i);
      while result in seen
        invariant 1 <= i && result == Candidate(name, i)
        invariant seen == old(seen)
        invariant forall j :: 1 <= j < i ==> Candidate(name, j) in seen
        decreases |seen| - i
      {
        CandidatesCount(name, i);
        SubsetCard(Candidates(name, i), seen);
        i := i + 1;
        result := Candidate(name, i);
      }
      assert forall j :: 1 <= j < i ==> Candidate(name, j) in old(seen);
      seen := seen + {result};
    }
  }
}
