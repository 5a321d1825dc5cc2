/** The rotary section check: a closed form stands in for a loop over an untrusted number of pairs. */
module Rope {
  function Min(a: nat, b: nat): nat {
    if a < b then a else b
  }

  /** The pair at position `i` rotates with axis 1 or 2 when the interleaving reaches its section. */
  predicate OnAxis(axis: nat, section: nat, i: nat) {
    i % 3 == axis && i < 3 * section
  }

  /** How many of the first `pairs` pairs rotate with an axis. */
  function Count(axis: nat, section: nat, pairs: nat): nat {
    if pairs == 0 then 0
    else Count(axis, section, pairs - 1) + if OnAxis(axis, section, pairs - 1) then 1 else 0
  }

  /** The counting loop that the closed form replaces. */
  method CountAxes(section1: nat, section2: nat, pairs: nat) returns (axes: (nat, nat, nat))
    ensures axes.0 + axes.1 + axes.2 == pairs
    ensures axes.1 == Count(1, section1, pairs) && axes.2 == Count(2, section2, pairs)
  {
    var a0, a1, a2 := 0, 0, 0;
    for i := 0 to pairs
      invariant a0 + a1 + a2 == i && a1 == Count(1, section1, i) && a2 == Count(2, section2, i)
    {
      if OnAxis(1, section1, i) {
        a1 := a1 + 1;
      } else if OnAxis(2, section2, i) {
        a2 := a2 + 1;
      } else {
        a0 := a0 + 1;
      }
    }
    return (a0, a1, a2);
  }

  /** The closed forms count the same pairs, for every section and every number of pairs. */
  lemma {:induction false} CountClosed(section: nat, pairs: nat)
    ensures Count(1, section, pairs) == Min(section, (pairs + 1) / 3)
    ensures Count(2, section, pairs) == Min(section, pairs / 3)
  {
    if pairs > 0 {
      CountClosed(section, pairs - 1);
    }
  }

  /** The axes the source computes. */
  function Axes(sections: (nat, nat, nat), pairs: nat): (int, nat, nat) {
    var axis1 := Min(sections.1, (pairs + 1) / 3);
    var axis2 := Min(sections.2, pairs / 3);
    (pairs - axis1 - axis2, axis1, axis2)
  }

  /** The closed form is the loop's result, so its subtraction never underflows. */
  lemma {:induction false} AxesAreCounts(sections: (nat, nat, nat), pairs: nat)
    ensures Axes(sections, pairs) ==
      (pairs - Count(1, sections.1, pairs) - Count(2, sections.2, pairs),
       Count(1, sections.1, pairs), Count(2, sections.2, pairs))
    ensures Axes(sections, pairs).0 >= 0
  {
    CountClosed(sections.1, pairs);
    CountClosed(sections.2, pairs);
  }

  /** The section checks of the source, for a rotary width that has been found even and nonzero. */
  predicate SectionsOk(sections: (nat, nat, nat), width: nat) {
    && sections.0 + sections.1 + sections.2 == width / 2
    && Axes(sections, width / 2) == sections
  }

  /** Every declared section is fully used: all pairs an axis could rotate lie below the width. */
  ghost predicate FullyUsed(axis: nat, section: nat, pairs: nat) {
    forall k :: 0 <= k < section ==> Position(axis, k) < pairs
  }

  function Position(axis: nat, k: nat): nat {
    3 * k + axis
  }

  /** The check passes exactly when the sections add up and both interleaved sections are fully used. */
  lemma SectionsExact(sections: (nat, nat, nat), width: nat)
    ensures SectionsOk(sections, width) <==>
      && sections.0 + sections.1 + sections.2 == width / 2
      && FullyUsed(1, sections.1, width / 2) && FullyUsed(2, sections.2, width / 2)
  {
    UsedExact(1, sections.1, width / 2);
    UsedExact(2, sections.2, width / 2);
  }

  lemma UsedExact(axis: nat, section: nat, pairs: nat)
    requires axis < 3
    ensures FullyUsed(axis, section, pairs) <==> section == 0 || 3 * (section - 1) + axis < pairs
  {
    if section > 0 && FullyUsed(axis, section, pairs) {
      assert Position(axis, section - 1) < pairs;
    }
  }
}
