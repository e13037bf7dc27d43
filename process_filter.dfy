/**
 * The name filter of the process picker (`filter_processes`): from the
 * table of running processes, keep those whose name contains the text typed
 * into the filter box, or all of them when the box is empty.
 */
module ProcessFilter {

  /** An operating-system process identifier. */
  type Pid = nat

  /** `pat` occurs in `s` starting at position `i`. */
  ghost predicate OccursAt(s: string, pat: string, i: nat) {
    i + |pat| <= |s| && s[i..i + |pat|] == pat
  }

  /** Rust's `str::contains` for a string pattern: the empty pattern occurs in every string. */
  function Contains(s: string, pat: string): (found: bool)
    ensures pat == [] ==> found
    ensures found ==> |pat| <= |s|
    ensures pat == s ==> found
    decreases |s|
  {
    if |pat| <= |s| && s[..|pat|] == pat then true
    else if s == [] then false
    else Contains(s[1..], pat)
  }

  /** `Contains` finds a pattern exactly when it occurs somewhere in the string. */
  lemma {:induction false} ContainsIff(s: string, pat: string)
    ensures Contains(s, pat) <==> exists i: nat :: OccursAt(s, pat, i)
    decreases |s|
  {
    if |pat| <= |s| && s[..|pat|] == pat {
      assert OccursAt(s, pat, 0);
    } else if s != [] {
      ContainsIff(s[1..], pat);
      if exists j: nat :: OccursAt(s[1..], pat, j) {
        var j: nat :| OccursAt(s[1..], pat, j);
        assert s[j + 1..j + 1 + |pat|] == s[1..][j..j + |pat|];
        assert OccursAt(s, pat, j + 1);
      }
      if exists i: nat :: OccursAt(s, pat, i) {
        var i: nat :| OccursAt(s, pat, i);
        assert i != 0;
        assert s[1..][i - 1..i - 1 + |pat|] == s[i..i + |pat|];
        assert OccursAt(s[1..], pat, i - 1);
      }
    }
  }

  /**
   * The processes the picker lists: exactly the entries of `table` whose
   * name passes the filter, each with its own name.
   */
  function FilterProcesses(table: map<Pid, string>, filter: string): (r: map<Pid, string>)
    ensures r.Keys <= table.Keys
    ensures forall p :: p in r ==> r[p] == table[p]
    ensures forall p :: p in table ==> (p in r <==> (filter == [] || Contains(table[p], filter)))
  {
    map p | p in table && (filter == [] || Contains(table[p], filter)) :: table[p]
  }

  /** An empty filter keeps every process. */
  lemma EmptyFilterKeepsAll(table: map<Pid, string>)
    ensures FilterProcesses(table, "") == table
  {
  }

  /**
   * With a non-empty filter the listed processes are those whose name has the
   * filter as a substring; the source's separate empty-filter branch agrees
   * with `contains`, which finds the empty pattern in every name.
   */
  lemma FilterBySubstring(table: map<Pid, string>, filter: string, p: Pid)
    requires p in table
    ensures p in FilterProcesses(table, filter) <==> exists i: nat :: OccursAt(table[p], filter, i)
  {
    ContainsIff(table[p], filter);
    if filter == [] {
      assert OccursAt(table[p], filter, 0);
    }
  }
}
