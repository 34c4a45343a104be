/**
 * The ball-class filter: from a detector's class table, keep the ids of the
 * classes whose name contains "ball" in any letter case.  Every front-end
 * builds it once, after loading the detector, and passes it to every call of
 * the detector; an empty list becomes "no filter".
 */
module BallFilter {
  import opened Values

  /** A detector's class table `model.names`: (class id, class name) pairs in the table's iteration order. */
  type ClassNames = seq<(int, string)>

  /** The ids of a class table are dictionary keys, hence pairwise different. */
  ghost predicate DistinctIds(names: ClassNames) {
    forall i, j :: 0 <= i < j < |names| ==> names[i].0 != names[j].0
  }

  /** ASCII case folding of one character. */
  function LowerChar(c: char): char {
    if 'A' <= c <= 'Z' then (c as int + 32) as char else c
  }

  /** ASCII case folding of a string (`str.lower`). */
  function Lower(s: string): string {
    seq(|s|, i requires 0 <= i < |s| => LowerChar(s[i]))
  }

  /** `t` occurs in `s` starting at position `i`. */
  ghost predicate OccursAt(s: string, t: string, i: nat) {
    i + |t| <= |s| && s[i..i + |t|] == t
  }

  /** Python's substring test `t in s`. */
  function Contains(s: string, t: string): bool
    decreases |s|
  {
    t <= s || (|s| > 0 && Contains(s[1..], t))
  }

  /** `Contains` finds exactly the positions where `t` occurs in `s`. */
  lemma {:induction false} ContainsIffOccurs(s: string, t: string)
    ensures Contains(s, t) <==> exists i: nat :: OccursAt(s, t, i)
    decreases |s|
  {
    if t <= s {
      assert OccursAt(s, t, 0);
    } else if |s| > 0 {
      ContainsIffOccurs(s[1..], t);
      if Contains(s[1..], t) {
        var i: nat :| OccursAt(s[1..], t, i);
        assert s[1..][i..i + |t|] == s[i + 1..i + 1 + |t|];
        assert OccursAt(s, t, i + 1);
      }
      if i: nat :| OccursAt(s, t, i) {
        if i == 0 {
          assert false;
        }
        assert s[1..][i - 1..i - 1 + |t|] == s[i..i + |t|];
        assert OccursAt(s[1..], t, i - 1);
      }
    } else {
      if i: nat :| OccursAt(s, t, i) {
        assert false;
      }
    }
  }

  /** `'ball' in name.lower()`. */
  predicate IsBallName(name: string) {
    Contains(Lower(name), "ball")
  }

  /** Two names that agree up to ASCII case are both ball classes or neither is. */
  lemma IsBallNameIgnoresCase(s: string, t: string)
    requires |s| == |t|
    requires forall i :: 0 <= i < |s| ==> LowerChar(s[i]) == LowerChar(t[i])
    ensures IsBallName(s) == IsBallName(t)
  {
    assert Lower(s) == Lower(t);
  }

  /** `[k for k, v in names.items() if 'ball' in v.lower()]`. */
  function BallIds(names: ClassNames): (ids: seq<int>)
    ensures forall id :: id in ids <==> exists k :: 0 <= k < |names| && names[k].0 == id && IsBallName(names[k].1)
  {
    if names == [] then []
    else
      var rest := BallIds(names[1..]);
      assert forall k :: 1 <= k < |names| ==> names[k] == names[1..][k - 1];
      (if IsBallName(names[0].1) then [names[0].0] else []) + rest
  }

  /** The filter keeps the table's order: filtering a concatenation concatenates the filtered parts. */
  lemma {:induction false} BallIdsAppend(a: ClassNames, b: ClassNames)
    ensures BallIds(a + b) == BallIds(a) + BallIds(b)
  {
    if a != [] {
      assert (a + b)[1..] == a[1..] + b;
      BallIdsAppend(a[1..], b);
    } else {
      assert a + b == b;
    }
  }

  /** A table with distinct ids yields a filter without repeated ids. */
  lemma {:induction false} BallIdsDistinct(names: ClassNames)
    requires DistinctIds(names)
    ensures var ids := BallIds(names); forall i, j :: 0 <= i < j < |ids| ==> ids[i] != ids[j]
  {
    if names != [] {
      var rest := names[1..];
      assert DistinctIds(rest) by {
        forall i, j | 0 <= i < j < |rest| ensures rest[i].0 != rest[j].0 {
          assert rest[i] == names[i + 1] && rest[j] == names[j + 1];
        }
      }
      BallIdsDistinct(rest);
      if IsBallName(names[0].1) {
        var ids := BallIds(names);
        assert ids == [names[0].0] + BallIds(rest);
        forall j | 0 < j < |ids| ensures ids[0] != ids[j] {
          assert ids[j] in BallIds(rest);
          var k :| 0 <= k < |rest| && rest[k].0 == ids[j] && IsBallName(rest[k].1);
          assert rest[k] == names[k + 1];
        }
      }
    }
  }

  /** `target_classes`: the ball ids, or `None` (no filter) when there are none. */
  function TargetClasses(names: ClassNames): (target: Option<seq<int>>)
    ensures target.None? <==> forall k :: 0 <= k < |names| ==> !IsBallName(names[k].1)
    ensures target.Some? ==> target.value == BallIds(names) && |target.value| > 0
  {
    var ids := BallIds(names);
    if |ids| > 0 then
      assert ids[0] in ids;
      Some(ids)
    else
      assert forall k :: 0 <= k < |names| && IsBallName(names[k].1) ==> names[k].0 in ids;
      None
  }
}
