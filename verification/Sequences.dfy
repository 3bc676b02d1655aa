/** Membership in a list, whatever its elements. */
module Sequences {

  /** `x` is in the list, at some place. */
  predicate Listed<T(==)>(s: seq<T>, x: T) { exists i :: 0 <= i < |s| && s[i] == x }

  lemma ListedCons<T>(head: T, rest: seq<T>, x: T)
    ensures Listed([head] + rest, x) <==> x == head || Listed(rest, x)
  {
    var all := [head] + rest;
    if x == head { assert all[0] == x; }
    if Listed(rest, x) { var i :| 0 <= i < |rest| && rest[i] == x; assert all[i + 1] == x; }
    if Listed(all, x) { var i :| 0 <= i < |all| && all[i] == x; if i > 0 { assert rest[i - 1] == x; } }
  }

  lemma ListedSnoc<T>(front: seq<T>, last: T, x: T)
    ensures Listed(front + [last], x) <==> Listed(front, x) || x == last
  {
    var all := front + [last];
    if x == last { assert all[|front|] == x; }
    if Listed(front, x) { var i :| 0 <= i < |front| && front[i] == x; assert all[i] == x; }
    if Listed(all, x) { var i :| 0 <= i < |all| && all[i] == x; if i < |front| { assert front[i] == x; } }
  }
}
