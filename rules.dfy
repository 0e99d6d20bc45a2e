/** Ordered tables of string tests. The page generator uses two evaluation
    disciplines over such tables: an if/elif chain, where the first matching
    row decides, and a chain of independent ifs rebinding one variable, where
    every row is evaluated and the last matching row decides. */
module Rules {
  import opened Wrappers

  /** str == p, or str.startswith(p). */
  datatype Pattern = Exact(text: string) | Prefix(text: string)

  predicate Matches(p: Pattern, s: string)
  {
    match p
    case Exact(t) => s == t
    case Prefix(t) => t <= s
  }

  /** if/elif chain: the value of the first row whose pattern matches. */
  function FirstMatch<T>(rules: seq<(Pattern, T)>, s: string): (r: Option<T>)
    ensures r.None? <==> forall i :: 0 <= i < |rules| ==> !Matches(rules[i].0, s)
    ensures forall i :: 0 <= i < |rules| && Matches(rules[i].0, s) &&
                        (forall j :: 0 <= j < i ==> !Matches(rules[j].0, s)) ==>
                        r == Some(rules[i].1)
  {
    if rules == [] then None
    else if Matches(rules[0].0, s) then Some(rules[0].1)
    else
      var r := FirstMatch(rules[1..], s);
      assert forall i :: 1 <= i < |rules| ==> rules[i] == rules[1..][i - 1];
      r
  }

  /** Independent ifs evaluated in full, each match overwriting the current value. */
  function LastMatch<T>(rules: seq<(Pattern, T)>, s: string, current: T): (r: T)
    ensures (forall i :: 0 <= i < |rules| ==> !Matches(rules[i].0, s)) ==> r == current
    ensures forall i :: 0 <= i < |rules| && Matches(rules[i].0, s) &&
                        (forall j :: i < j < |rules| ==> !Matches(rules[j].0, s)) ==>
                        r == rules[i].1
  {
    if rules == [] then current
    else
      var next := if Matches(rules[0].0, s) then rules[0].1 else current;
      var r := LastMatch(rules[1..], s, next);
      assert forall i :: 1 <= i < |rules| ==> rules[i] == rules[1..][i - 1];
      r
  }
}
