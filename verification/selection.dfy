/**
 * Python's built-in `min(s, key=...)` and `max(s, key=...)`: they scan left to
 * right and keep the first element whose key is least (greatest), so ties go to
 * the earliest element.
 */
module Selection {

  /** Index of the element `min(s, key=key)` returns. */
  function FirstMinIndex<T>(s: seq<T>, key: T -> real): (i: nat)
    requires |s| > 0
    ensures i < |s|
    ensures forall j :: 0 <= j < |s| ==> key(s[i]) <= key(s[j])
    ensures forall j :: 0 <= j < i ==> key(s[i]) < key(s[j])
    decreases |s|
  {
    if |s| == 1 then 0
    else
      var k := FirstMinIndex(s[..|s| - 1], key);
      if key(s[|s| - 1]) < key(s[k]) then |s| - 1 else k
  }

  /** Index of the element `max(s, key=key)` returns. */
  function FirstMaxIndex<T>(s: seq<T>, key: T -> real): (i: nat)
    requires |s| > 0
    ensures i < |s|
    ensures forall j :: 0 <= j < |s| ==> key(s[j]) <= key(s[i])
    ensures forall j :: 0 <= j < i ==> key(s[j]) < key(s[i])
    decreases |s|
  {
    if |s| == 1 then 0
    else
      var k := FirstMaxIndex(s[..|s| - 1], key);
      if key(s[k]) < key(s[|s| - 1]) then |s| - 1 else k
  }

  /** The element `min` returns is at most every member, stated by membership. */
  lemma MinBelowMembers<T>(s: seq<T>, key: T -> real)
    requires |s| > 0
    ensures forall x :: x in s ==> key(s[FirstMinIndex(s, key)]) <= key(x)
  {
    forall x | x in s ensures key(s[FirstMinIndex(s, key)]) <= key(x) {
      var j :| 0 <= j < |s| && s[j] == x;
    }
  }

  /** The element `max` returns is at least every member, stated by membership. */
  lemma MaxAboveMembers<T>(s: seq<T>, key: T -> real)
    requires |s| > 0
    ensures forall x :: x in s ==> key(x) <= key(s[FirstMaxIndex(s, key)])
  {
    forall x | x in s ensures key(x) <= key(s[FirstMaxIndex(s, key)]) {
      var j :| 0 <= j < |s| && s[j] == x;
    }
  }
}
