/**
 * Construction of a per-class rule list. Each parsed rule is inserted so that the list stays in
 * non-increasing case-insensitive order of the origin text; resolution later takes the first
 * rule in this order that matches, so the order is the precedence of the rules.
 */
module ContextList {
  import opened SesqliteHeader
  import CI = CaseInsensitive

  /** Every rule's origin compares at least its successor's. */
  predicate NonIncreasing(l: seq<ContextElement>) {
    forall i :: 0 <= i < |l| - 1 ==> CI.Compare(l[i].origin, l[i + 1].origin) >= 0
  }

  /** Where `sortedInsert` puts `x`: before the first rule whose origin compares at most x's. */
  function InsertionPoint(l: seq<ContextElement>, x: ContextElement): (k: nat)
    ensures k <= |l|
    ensures forall j :: 0 <= j < k ==> CI.Compare(l[j].origin, x.origin) > 0
    ensures k < |l| ==> CI.Compare(l[k].origin, x.origin) <= 0
  {
    if |l| == 0 || CI.Compare(l[0].origin, x.origin) <= 0 then 0
    else 1 + InsertionPoint(l[1..], x)
  }

  /** The list after `sortedInsert(&l, x)`. */
  function SortedInserted(l: seq<ContextElement>, x: ContextElement): (r: seq<ContextElement>)
    ensures |r| == |l| + 1
  {
    var k := InsertionPoint(l, x);
    l[..k] + [x] + l[k..]
  }

  /** Inserting into an ordered list keeps it ordered. */
  lemma SortedInsertKeepsOrder(l: seq<ContextElement>, x: ContextElement)
    requires NonIncreasing(l)
    ensures NonIncreasing(SortedInserted(l, x))
  {
    var k := InsertionPoint(l, x);
    var r := SortedInserted(l, x);
    forall i | 0 <= i < |r| - 1 ensures CI.Compare(r[i].origin, r[i + 1].origin) >= 0 {
      if i + 1 < k {
        assert r[i] == l[i] && r[i + 1] == l[i + 1];
      } else if i + 1 == k {
        assert r[i] == l[k - 1] && r[i + 1] == x;
      } else if i == k {
        assert r[i] == x && r[i + 1] == l[k];
        CI.CompareAntisymmetric(l[k].origin, x.origin);
      } else {
        assert r[i] == l[i - 1] && r[i + 1] == l[i];
      }
    }
  }

  /**
   * Exactly one rule is added, at the insertion point, and removing it gives back the old list,
   * so every old rule keeps its relative order.
   */
  lemma SortedInsertAddsOne(l: seq<ContextElement>, x: ContextElement)
    ensures |SortedInserted(l, x)| == |l| + 1
    ensures SortedInserted(l, x)[InsertionPoint(l, x)] == x
    ensures var k := InsertionPoint(l, x);
            SortedInserted(l, x)[..k] + SortedInserted(l, x)[k + 1..] == l
    ensures multiset(SortedInserted(l, x)) == multiset(l) + multiset{x}
  {
    var k := InsertionPoint(l, x);
    var r := SortedInserted(l, x);
    assert r[..k] == l[..k];
    assert r[k + 1..] == l[k..];
    assert l == l[..k] + l[k..];
    calc {
      multiset(r);
      multiset(l[..k]) + multiset([x]) + multiset(l[k..]);
      multiset(l[..k]) + multiset(l[k..]) + multiset{x};
      { assert l == l[..k] + l[k..]; }
      multiset(l) + multiset{x};
    }
  }

  /**
   * Every rule in front of the new one compares strictly greater, so an old rule whose origin
   * compares equal to the new one's ends up behind it.
   */
  lemma SortedInsertAheadOfEqualKeys(l: seq<ContextElement>, x: ContextElement)
    ensures forall j :: 0 <= j < InsertionPoint(l, x) ==>
              CI.Compare(SortedInserted(l, x)[j].origin, x.origin) > 0
  {
    var k := InsertionPoint(l, x);
    assert forall j :: 0 <= j < k ==> SortedInserted(l, x)[j] == l[j];
  }

  /** In an ordered list, at-least holds between any earlier and any later rule. */
  lemma {:induction false} NonIncreasingPairwise(l: seq<ContextElement>, i: nat, j: nat)
    requires NonIncreasing(l) && i <= j < |l|
    ensures CI.Compare(l[i].origin, l[j].origin) >= 0
    decreases j - i
  {
    if i == j {
      CI.CompareReflexive(l[i].origin);
    } else {
      NonIncreasingPairwise(l, i + 1, j);
      CI.CompareTransitive(l[i].origin, l[i + 1].origin, l[j].origin);
    }
  }

  /** A rule whose origin compares strictly greater than another's sits before it. */
  lemma GreaterOriginComesFirst(l: seq<ContextElement>, i: nat, j: nat)
    requires NonIncreasing(l) && i < |l| && j < |l|
    requires CI.Compare(l[i].origin, l[j].origin) > 0
    ensures i < j
  {
    if j <= i {
      NonIncreasingPairwise(l, j, i);
      CI.CompareAntisymmetric(l[i].origin, l[j].origin);
    }
  }

  /** The list obtained by inserting `rules` one after another into an empty list, as loading does. */
  function InsertAll(rules: seq<ContextElement>): seq<ContextElement> {
    if |rules| == 0 then [] else SortedInserted(InsertAll(rules[..|rules| - 1]), rules[|rules| - 1])
  }

  /** Loading yields an ordered list holding exactly the loaded rules. */
  lemma {:induction false} InsertAllOrdered(rules: seq<ContextElement>)
    ensures NonIncreasing(InsertAll(rules))
    ensures multiset(InsertAll(rules)) == multiset(rules)
  {
    if |rules| > 0 {
      var init := rules[..|rules| - 1];
      var last := rules[|rules| - 1];
      InsertAllOrdered(init);
      SortedInsertKeepsOrder(InsertAll(init), last);
      SortedInsertAddsOne(InsertAll(init), last);
      assert rules == init + [last];
    }
  }

  /** The head of one rule list, as `struct sesqlite_context_element **head_ref` designates it. */
  class RuleList {
    var elements: seq<ContextElement>

    constructor ()
      ensures elements == []
    {
      elements := [];
    }

    /** `sortedInsert`: link `node` in before the first rule whose origin compares at most its own. */
    method SortedInsert(node: ContextElement)
      modifies this
      ensures elements == SortedInserted(old(elements), node)
    {
      if |elements| == 0 || CI.Compare(elements[0].origin, node.origin) <= 0 {
        elements := [node] + elements;
      } else {
        var current := 0;
        while current + 1 < |elements| && CI.Compare(elements[current + 1].origin, node.origin) > 0
          invariant 0 <= current < |elements|
          invariant forall j :: 0 <= j <= current ==> CI.Compare(elements[j].origin, node.origin) > 0
          decreases |elements| - current
        {
          current := current + 1;
        }
        InsertionPointIsFirstAtMost(elements, node, current + 1);
        elements := elements[..current + 1] + [node] + elements[current + 1..];
      }
    }
  }

  /** The insertion point is the only index with all earlier rules greater and itself at most x. */
  lemma InsertionPointIsFirstAtMost(l: seq<ContextElement>, x: ContextElement, k: nat)
    requires k <= |l|
    requires forall j :: 0 <= j < k ==> CI.Compare(l[j].origin, x.origin) > 0
    requires k < |l| ==> CI.Compare(l[k].origin, x.origin) <= 0
    ensures InsertionPoint(l, x) == k
  {
  }
}
