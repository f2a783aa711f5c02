/** The order lists of the runtime tables: ids without duplicates, taken out one at a time. */
module IdLists {
  ghost predicate NoDuplicates(order: seq<string>) {
    forall i, j :: 0 <= i < j < |order| ==> order[i] != order[j]
  }

  function RemoveFirst(order: seq<string>, id: string): seq<string> {
    if order == [] then [] else if order[0] == id then order[1..] else [order[0]] + RemoveFirst(order[1..], id)
  }

  lemma AppendOrder(order: seq<string>, id: string)
    ensures forall x :: x in order + [id] <==> x in order || x == id
    ensures NoDuplicates(order) && id !in order ==> NoDuplicates(order + [id])
  {}

  lemma {:induction false} RemoveFirstExact(order: seq<string>, id: string)
    requires NoDuplicates(order)
    ensures NoDuplicates(RemoveFirst(order, id))
    ensures forall x :: x in RemoveFirst(order, id) <==> x in order && x != id
    ensures |RemoveFirst(order, id)| <= |order|
    decreases |order|
  {
    if order != [] {
      RemoveFirstExact(order[1..], id);
      assert order == [order[0]] + order[1..];
      assert order[0] !in order[1..];
      var rest := RemoveFirst(order[1..], id);
      if order[0] != id {
        var more := [order[0]] + rest;
        assert forall j :: 0 < j < |more| ==> more[j] in rest;
      }
    }
  }

  /** The others stay in their places, one after the other. */
  lemma {:induction false} RemoveFirstCut(order: seq<string>, id: string, k: nat)
    requires k < |order| && order[k] == id && id !in order[..k]
    ensures RemoveFirst(order, id) == order[..k] + order[k + 1..]
    decreases |order|
  {
    if k > 0 {
      assert order[0] in order[..k] && order[1..][..k - 1] == order[..k][1..];
      RemoveFirstCut(order[1..], id, k - 1);
    }
  }

  lemma {:induction false} RemoveAbsent(order: seq<string>, id: string)
    requires id !in order
    ensures RemoveFirst(order, id) == order
    decreases |order|
  {
    if order != [] {
      RemoveAbsent(order[1..], id);
    }
  }

  lemma RemoveStep(order: seq<string>, i: nat, id: string)
    requires i < |order|
    ensures order[..i] + RemoveFirst(order[i..], id) ==
            if order[i] == id then order[..i] + order[i + 1..] else order[..i + 1] + RemoveFirst(order[i + 1..], id)
  {
    assert order[i..][1..] == order[i + 1..];
    assert order[..i + 1] == order[..i] + [order[i]];
  }

  /** The search and removal that the tables do on their order list. */
  method Remove(order: seq<string>, id: string) returns (shorter: seq<string>)
    ensures shorter == RemoveFirst(order, id)
  {
    hide RemoveFirst;
    assert order[..0] + RemoveFirst(order[0..], id) == RemoveFirst(order, id) by {
      assert order[0..] == order;
    }
    for i := 0 to |order|
      invariant RemoveFirst(order, id) == order[..i] + RemoveFirst(order[i..], id)
    {
      RemoveStep(order, i, id);
      if order[i] == id {
        return order[..i] + order[i + 1..];
      }
    }
    NothingToRemove(order, id);
    return order;
  }

  lemma NothingToRemove(order: seq<string>, id: string)
    ensures order[..|order|] + RemoveFirst(order[|order|..], id) == order
  {}
}
