/** `calculate_bonus_eligibility` of csv_formatter.py: a fundraiser is
    eligible when approved donations make up at least 70% of the donations
    with a counted status. The ratio test `approved / total >= 0.7` is stated
    by cross-multiplication. */
module Eligibility {

  datatype Eligibility = Eligible | NotEligible {
    /** The text written into the bonus column. */
    function Label(): string {
      if Eligible? then "eligible" else "not-eligible"
    }
  }

  /** The statuses the rule counts at all. */
  predicate IsRelevant(status: string) {
    status == "cancellation" || status == "active" || status == "billable" ||
    status == "approved" || status == "conditionally approved"
  }

  /** The statuses counted as approved. */
  predicate IsApproved(status: string) {
    status == "approved" || status == "conditionally approved"
  }

  /** `relevant_donors`: the statuses the rule counts, in order. */
  function Relevant(statuses: seq<string>): (r: seq<string>)
    ensures forall i :: 0 <= i < |r| ==> IsRelevant(r[i])
  {
    if statuses == [] then []
    else (if IsRelevant(statuses[0]) then [statuses[0]] else []) + Relevant(statuses[1..])
  }

  /** `approved_donors`: the approved statuses among the given ones. */
  function Approved(statuses: seq<string>): (r: seq<string>)
    ensures forall i :: 0 <= i < |r| ==> IsApproved(r[i])
  {
    if statuses == [] then []
    else (if IsApproved(statuses[0]) then [statuses[0]] else []) + Approved(statuses[1..])
  }

  /** The rule over the status column of one fundraiser's rows. */
  function CalculateBonusEligibility(statuses: seq<string>): Eligibility {
    var relevant := Relevant(statuses);
    var total := |relevant|;
    var approved := |Approved(relevant)|;
    if total == 0 then NotEligible
    else if 10 * approved >= 7 * total then Eligible
    else NotEligible
  }

  // ---------------------------------------------------------------------
  // Properties

  lemma {:induction false} ApprovedAtMostAll(statuses: seq<string>)
    ensures |Approved(statuses)| <= |statuses|
  {
    if statuses != [] {
      ApprovedAtMostAll(statuses[1..]);
    }
  }

  /** With no row in a counted status the fundraiser is not eligible. */
  lemma {:induction false} NoRelevantRowsNotEligible(statuses: seq<string>)
    requires forall i :: 0 <= i < |statuses| ==> !IsRelevant(statuses[i])
    ensures Relevant(statuses) == []
    ensures CalculateBonusEligibility(statuses) == NotEligible
  {
    if statuses != [] {
      NoRelevantRowsNotEligible(statuses[1..]);
    }
  }

  /** A row whose status is not counted, wherever it stands, never changes
      the result. */
  lemma IgnoresOtherStatuses(a: seq<string>, x: string, b: seq<string>)
    requires !IsRelevant(x)
    ensures CalculateBonusEligibility(a + [x] + b) == CalculateBonusEligibility(a + b)
  {
    RelevantSplit(a + [x], b);
    RelevantSplit(a, [x]);
    RelevantSplit(a, b);
    assert Relevant([x]) == [] by {
      assert [x][1..] == [];
    }
    assert Relevant(a + [x] + b) == Relevant(a + b) by {
      assert Relevant(a) + [] == Relevant(a);
    }
  }

  /** One more approved donation never costs eligibility. */
  lemma ApprovedNeverHurts(statuses: seq<string>)
    requires CalculateBonusEligibility(statuses) == Eligible
    ensures CalculateBonusEligibility(statuses + ["approved"]) == Eligible
  {
    var r := Relevant(statuses);
    RelevantSplit(statuses, ["approved"]);
    assert Relevant(["approved"]) == ["approved"];
    ApprovedSplit(r, ["approved"]);
    assert Approved(["approved"]) == ["approved"];
  }

  /** One more cancellation never turns a non-eligible fundraiser eligible. */
  lemma CancellationNeverHelps(statuses: seq<string>)
    requires CalculateBonusEligibility(statuses) == NotEligible
    ensures CalculateBonusEligibility(statuses + ["cancellation"]) == NotEligible
  {
    var r := Relevant(statuses);
    RelevantSplit(statuses, ["cancellation"]);
    assert Relevant(["cancellation"]) == ["cancellation"];
    ApprovedSplit(r, ["cancellation"]);
    assert Approved(["cancellation"]) == [];
    ApprovedAtMostAll(r);
  }

  /** The 70% boundary on ten counted donations: 7 approved is eligible,
      6 approved is not. */
  lemma SeventyPercentBoundary(statuses: seq<string>)
    requires |Relevant(statuses)| == 10
    ensures |Approved(Relevant(statuses))| == 7 ==> CalculateBonusEligibility(statuses) == Eligible
    ensures |Approved(Relevant(statuses))| == 6 ==> CalculateBonusEligibility(statuses) == NotEligible
  {
  }

  lemma {:induction false} RelevantSplit(a: seq<string>, b: seq<string>)
    ensures Relevant(a + b) == Relevant(a) + Relevant(b)
  {
    if a != [] {
      assert (a + b)[1..] == a[1..] + b;
      RelevantSplit(a[1..], b);
    } else {
      assert a + b == b;
    }
  }

  lemma {:induction false} ApprovedSplit(a: seq<string>, b: seq<string>)
    ensures Approved(a + b) == Approved(a) + Approved(b)
  {
    if a != [] {
      assert (a + b)[1..] == a[1..] + b;
      ApprovedSplit(a[1..], b);
    } else {
      assert a + b == b;
    }
  }
}
