/** The two string predicates of the ingest program: the plan-name relevance
    rule and the location path filter. */
module Filters {
  import opened Strings

  /** Plan-type token, matched case-insensitively. */
  const PlanType: string := "ppo"
  /** Region tokens, matched case-insensitively: the two-letter code and the written name. */
  const RegionCode: string := "ny"
  const RegionName: string := "new york"
  /** Directory marker a location must contain, matched case-sensitively. */
  const LocationMarker: string := "anthem/NY"

  /** isPlanRelevant: the lower-cased plan name mentions the region (code or
      name) and the plan type. */
  function IsPlanRelevant(planName: string): (relevant: bool)
    ensures relevant <==>
              var lower := ToLower(planName);
              (exists i :: OccursAt(lower, PlanType, i)) &&
              ((exists i :: OccursAt(lower, RegionCode, i)) || (exists i :: OccursAt(lower, RegionName, i)))
  {
    var lower := ToLower(planName);
    (Contains(lower, RegionCode) || Contains(lower, RegionName)) && Contains(lower, PlanType)
  }

  /** containsLocationFilter: the location contains the marker, exactly as written. */
  function ContainsLocationFilter(location: string): (passes: bool)
    ensures passes <==> exists i :: OccursAt(location, LocationMarker, i)
  {
    Contains(location, LocationMarker)
  }

  /** Flipping the ASCII case of any letters of a plan name does not change its relevance. */
  lemma PlanRelevanceIgnoresCase(planName: string, variant: string)
    requires CaseVariant(planName, variant)
    ensures IsPlanRelevant(planName) == IsPlanRelevant(variant)
  {
    CaseVariantLowersAlike(planName, variant);
  }

  /** A location in which `N` does not occur cannot contain the marker. */
  lemma NoCapitalNRejected(location: string)
    requires forall i :: 0 <= i < |location| ==> location[i] != 'N'
    ensures !ContainsLocationFilter(location)
  {
    if ContainsLocationFilter(location) {
      var i :| OccursAt(location, LocationMarker, i);
      OccurrenceChar(location, LocationMarker, i, 7);
      assert false;
    }
  }

  /** The location filter is case-sensitive: the marker in lower case does not pass. */
  lemma LocationFilterIsCaseSensitive()
    ensures ContainsLocationFilter("anthem/NY/a.json")
    ensures !ContainsLocationFilter("x/anthem/ny/a.json")
  {
    OccursBetween("", LocationMarker, "/a.json");
    assert "" + LocationMarker + "/a.json" == "anthem/NY/a.json";
    NoCapitalNRejected("x/anthem/ny/a.json");
  }

  /** The marker may stand anywhere in a location, after any prefix. */
  lemma LocationFilterMatchesAnywhere(prefix: string, suffix: string)
    ensures ContainsLocationFilter(prefix + LocationMarker + suffix)
  {
    OccursBetween(prefix, LocationMarker, suffix);
  }

  /** `word`, lower-cased, occurs in the lower-cased `a + word + b` right after `a`. */
  lemma LowerOccursBetween(a: string, word: string, b: string)
    ensures OccursAt(ToLower(a + word + b), ToLower(word), |a|)
  {
    ToLowerConcat(a + word, b);
    ToLowerConcat(a, word);
    OccursBetween(ToLower(a), ToLower(word), ToLower(b));
  }

  /** A plan name with no letter `p` in either case is never relevant. */
  lemma NoLetterPNotRelevant(planName: string)
    requires forall i :: 0 <= i < |planName| ==> planName[i] != 'p' && planName[i] != 'P'
    ensures !IsPlanRelevant(planName)
  {
    if IsPlanRelevant(planName) {
      var i :| OccursAt(ToLower(planName), PlanType, i);
      OccurrenceChar(ToLower(planName), PlanType, i, 0);
      assert false;
    }
  }

  /** Relevance examples: case does not matter and both tokens are needed. */
  lemma PlanRelevanceExamples()
    ensures IsPlanRelevant("Anthem PPO New York")
    ensures IsPlanRelevant("ANTHEM ppo NY")
    ensures !IsPlanRelevant("Anthem HMO California")
  {
    assert ToLower("PPO") == PlanType && ToLower("ppo") == PlanType;
    assert ToLower("New York") == RegionName && ToLower("NY") == RegionCode;
    LowerOccursBetween("Anthem ", "PPO", " New York");
    LowerOccursBetween("Anthem PPO ", "New York", "");
    assert "Anthem " + "PPO" + " New York" == "Anthem PPO " + "New York" + "" == "Anthem PPO New York";
    LowerOccursBetween("ANTHEM ", "ppo", " NY");
    LowerOccursBetween("ANTHEM ppo ", "NY", "");
    assert "ANTHEM " + "ppo" + " NY" == "ANTHEM ppo " + "NY" + "" == "ANTHEM ppo NY";
    NoLetterPNotRelevant("Anthem HMO California");
  }

  /** The region code is matched inside words too: "Company" carries "ny". */
  lemma RegionCodeMatchesInsideWords()
    ensures IsPlanRelevant("Anthem PPO Company")
  {
    assert ToLower("PPO") == PlanType && ToLower("ny") == RegionCode;
    LowerOccursBetween("Anthem ", "PPO", " Company");
    LowerOccursBetween("Anthem PPO Compa", "ny", "");
    assert "Anthem " + "PPO" + " Company" == "Anthem PPO Compa" + "ny" + "" == "Anthem PPO Company";
  }
}
