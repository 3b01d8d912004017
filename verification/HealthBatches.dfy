/** What a Router request makes of the share ids it names: each is taken once, in the order of its first mention. */
module HealthBatches {
  import opened Text

  predicate Distinct(shares: seq<string>) {
    forall i, j :: 0 <= i < j < |shares| ==> shares[i] != shares[j]
  }

  /** How often a share is named. */
  function Multiplicity(shares: seq<string>, x: string): nat {
    if shares == [] then 0
    else Multiplicity(shares[..|shares| - 1], x) + if shares[|shares| - 1] == x then 1 else 0
  }

  /** The trimmed ids, each at its first mention. */
  function FirstMentions(ids: seq<string>): seq<string> {
    if ids == [] then []
    else
      var before, id := FirstMentions(ids[..|ids| - 1]), Trim(ids[|ids| - 1]);
      if id in before then before else before + [id]
  }

  /** The shares among `admitted`, in order. */
  function Filter(shares: seq<string>, admitted: set<string>): seq<string> {
    if shares == [] then []
    else
      var before, x := Filter(shares[..|shares| - 1], admitted), shares[|shares| - 1];
      if x in admitted then before + [x] else before
  }

  /**
   * The shares of one Provider's group: of the ids a request names, those whose share is active, bound to the
   * Provider and selected for automatic probes. Which those are is decided elsewhere and is an input here.
   */
  function GroupShares(ids: seq<string>, admitted: set<string>): seq<string> { Filter(FirstMentions(ids), admitted) }

  lemma DistinctAppend(shares: seq<string>, x: string)
    requires Distinct(shares) && x !in shares
    ensures Distinct(shares + [x])
  {
  }

  ghost predicate Mentioned(ids: seq<string>, x: string) { exists i :: 0 <= i < |ids| && Trim(ids[i]) == x }

  lemma MentionedOneMore(ids: seq<string>, x: string)
    requires ids != []
    ensures Mentioned(ids, x) <==> Mentioned(ids[..|ids| - 1], x) || Trim(ids[|ids| - 1]) == x
  {
    var front := ids[..|ids| - 1];
    if Mentioned(front, x) {
      var i :| 0 <= i < |front| && Trim(front[i]) == x;
      assert Trim(ids[i]) == x;
    }
    if Mentioned(ids, x) {
      var i :| 0 <= i < |ids| && Trim(ids[i]) == x;
      assert i < |front| ==> Trim(front[i]) == x;
    }
  }

  lemma {:induction false} FirstMentionsAreAll(ids: seq<string>, x: string)
    ensures x in FirstMentions(ids) <==> Mentioned(ids, x)
  {
    if ids != [] {
      FirstMentionsAreAll(ids[..|ids| - 1], x);
      MentionedOneMore(ids, x);
    }
  }

  /** Every id named appears once, trimmed, and nothing else does. */
  lemma {:induction false} FirstMentionsAreDistinct(ids: seq<string>)
    ensures Distinct(FirstMentions(ids))
    ensures forall x :: x in FirstMentions(ids) <==> Mentioned(ids, x)
  {
    if ids != [] {
      var front, id := ids[..|ids| - 1], Trim(ids[|ids| - 1]);
      FirstMentionsAreDistinct(front);
      if id !in FirstMentions(front) {
        DistinctAppend(FirstMentions(front), id);
      }
    }
    forall x ensures x in FirstMentions(ids) <==> Mentioned(ids, x) {
      FirstMentionsAreAll(ids, x);
    }
  }

  lemma {:induction false} FilterIsDistinct(shares: seq<string>, admitted: set<string>)
    requires Distinct(shares)
    ensures Distinct(Filter(shares, admitted))
    ensures forall x :: x in Filter(shares, admitted) <==> x in shares && x in admitted
  {
    if shares != [] {
      var front, x := shares[..|shares| - 1], shares[|shares| - 1];
      assert shares == front + [x];
      FilterIsDistinct(front, admitted);
      assert x !in front;
      if x in admitted {
        DistinctAppend(Filter(front, admitted), x);
      }
    }
  }

  /** Whatever a request names, and however often, each group names a share at most once. */
  lemma GroupSharesAreDistinct(ids: seq<string>, admitted: set<string>)
    ensures Distinct(GroupShares(ids, admitted))
    ensures forall x :: x in GroupShares(ids, admitted) <==>
              x in admitted && Mentioned(ids, x)
  {
    FirstMentionsAreDistinct(ids);
    FilterIsDistinct(FirstMentions(ids), admitted);
  }

  lemma {:induction false} NamedIsCounted(shares: seq<string>, x: string)
    ensures Multiplicity(shares, x) > 0 <==> x in shares
  {
    if shares != [] {
      var front, last := shares[..|shares| - 1], shares[|shares| - 1];
      assert shares == front + [last];
      NamedIsCounted(front, x);
    }
  }

  ghost predicate NamedOnce(shares: seq<string>) { forall x :: Multiplicity(shares, x) <= 1 }

  /** A list names each share once exactly when no share is counted twice. */
  lemma {:induction false} DistinctExactly(shares: seq<string>)
    ensures Distinct(shares) <==> NamedOnce(shares)
  {
    if shares != [] {
      var front, last := shares[..|shares| - 1], shares[|shares| - 1];
      assert shares == front + [last];
      DistinctExactly(front);
      NamedIsCounted(front, last);
      if last in front {
        assert Multiplicity(shares, last) > 1;
        var i :| 0 <= i < |front| && front[i] == last;
        assert shares[i] == shares[|front|];
        assert !Distinct(shares);
      } else {
        assert Distinct(shares) <==> Distinct(front);
        if Distinct(front) {
          forall x ensures Multiplicity(shares, x) <= 1 {
            assert Multiplicity(front, x) <= 1;
          }
        } else {
          var x :| Multiplicity(front, x) > 1;
          assert Multiplicity(shares, x) > 1;
        }
      }
    }
  }

  /** The loop over the targets of a request, with its set of ids seen. */
  method DedupeTargets(ids: seq<string>, admitted: set<string>) returns (targets: seq<string>)
    ensures targets == GroupShares(ids, admitted)
    ensures Distinct(targets)
  {
    var dedupe: set<string> := {};
    targets := [];
    for i := 0 to |ids|
      invariant targets == GroupShares(ids[..i], admitted)
      invariant forall x :: x in dedupe <==> x in FirstMentions(ids[..i])
    {
      assert ids[..i + 1][..i] == ids[..i];
      var id := Trim(ids[i]);
      if id in dedupe {
        continue;
      }
      ghost var before := FirstMentions(ids[..i]);
      assert (before + [id])[..|before|] == before;
      dedupe := dedupe + {id};
      if id in admitted {
        targets := targets + [id];
      }
    }
    assert ids[..|ids|] == ids;
    GroupSharesAreDistinct(ids, admitted);
  }
}
