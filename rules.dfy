/**
 * The algorithm selectors of the repository are chains of `if (guard)
 * return pick;` ending in a default. A chain is a sequence of rules; the
 * first rule whose guard holds decides.
 */
module Rules {

  datatype Rule<T> = Rule(guard: bool, pick: T)

  /** The pick of the first rule whose guard holds, or `otherwise` when none holds. */
  function FirstMatch<T>(rules: seq<Rule<T>>, otherwise: T): (r: T)
    ensures forall i :: 0 <= i < |rules| && rules[i].guard && (forall j :: 0 <= j < i ==> !rules[j].guard) ==> r == rules[i].pick
    ensures (forall i :: 0 <= i < |rules| ==> !rules[i].guard) ==> r == otherwise
    decreases |rules|
  {
    if rules == [] then otherwise
    else if rules[0].guard then rules[0].pick
    else
      var r := FirstMatch(rules[1..], otherwise);
      assert forall i :: 1 <= i < |rules| ==> rules[i] == rules[1..][i - 1];
      r
  }

  /** The decision is one of the picks or the default. */
  lemma {:induction false} FirstMatchIsPick<T>(rules: seq<Rule<T>>, otherwise: T)
    ensures FirstMatch(rules, otherwise) == otherwise ||
            exists i :: 0 <= i < |rules| && rules[i].guard && FirstMatch(rules, otherwise) == rules[i].pick
    decreases |rules|
  {
    if rules != [] && !rules[0].guard {
      FirstMatchIsPick(rules[1..], otherwise);
      var r := FirstMatch(rules, otherwise);
      if r != otherwise {
        var i :| 0 <= i < |rules[1..]| && rules[1..][i].guard && r == rules[1..][i].pick;
        assert rules[i + 1] == rules[1..][i];
      }
    }
  }
}
