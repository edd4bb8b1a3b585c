/**
 The 7-bag sequence generator, stated as a relation between the bag before
 and after one draw. The bag is a stack: the generator pushes at the end
 and a draw pops from the end.
 */
module Bag {
  import opened Shapes

  /** Every identity occurs exactly once: `bag` is an ordering of the seven. */
  ghost predicate EachOnce(bag: seq<Shape>)
  {
    forall s :: multiset(bag)[s] == 1
  }

  /** The orderings of the seven identities are exactly the permutations of `AllShapes`. */
  lemma EachOnceIsPermutation(bag: seq<Shape>)
    ensures EachOnce(bag) <==> multiset(bag) == multiset(AllShapes)
  {
    forall s ensures multiset(AllShapes)[s] == 1 {
      AllShapesOnce(s);
    }
  }

  /** An ordering of the seven identities has seven entries. */
  lemma EachOnceLength(bag: seq<Shape>)
    requires EachOnce(bag)
    ensures |bag| == 7
  {
    EachOnceIsPermutation(bag);
    assert |multiset(bag)| == |multiset(AllShapes)|;
  }

  /**
   One draw takes `bag0` to `bag1` and deals `name`: an empty bag is first
   refilled with some ordering of all seven identities, then the top is
   popped.
   */
  ghost predicate Dealt(bag0: seq<Shape>, bag1: seq<Shape>, name: Shape)
  {
    if bag0 == [] then EachOnce(bag1 + [name])
    else bag1 + [name] == bag0
  }

  /** What is left in the bag is part of one 7-bag: no identity occurs twice. */
  ghost predicate InBag(bag: seq<Shape>)
  {
    forall s :: multiset(bag)[s] <= 1
  }

  /** A draw keeps the bag within one 7-bag. */
  lemma DealtKeepsInBag(bag0: seq<Shape>, bag1: seq<Shape>, name: Shape)
    requires InBag(bag0) && Dealt(bag0, bag1, name)
    ensures InBag(bag1)
    ensures |bag1| == (if bag0 == [] then 6 else |bag0| - 1)
  {
    if bag0 == [] {
      EachOnceLength(bag1 + [name]);
      assert forall s :: multiset(bag1 + [name])[s] == multiset(bag1)[s] + multiset{name}[s];
    } else {
      assert multiset(bag0) == multiset(bag1) + multiset{name};
    }
  }

  /** A bag within one 7-bag holds at most seven pieces, and is a sub-multiset of the seven. */
  lemma InBagBounds(bag: seq<Shape>)
    requires InBag(bag)
    ensures multiset(bag) <= multiset(AllShapes)
    ensures |bag| <= 7
  {
    forall s ensures multiset(bag)[s] <= multiset(AllShapes)[s] {
      AllShapesOnce(s);
    }
    var rest := multiset(AllShapes) - multiset(bag);
    assert multiset(AllShapes) == multiset(bag) + rest;
  }

  /** The identities dealt so far and those left in the bag make up one 7-bag. */
  ghost predicate Splits(dealt: seq<Shape>, bag: seq<Shape>)
  {
    forall s :: multiset(dealt)[s] + multiset(bag)[s] == 1
  }

  /** Before the generator deals anything, all seven identities are left. */
  lemma NoneDealt()
    ensures Splits([], AllShapes)
  {
    forall s ensures multiset(AllShapes)[s] == 1 {
      AllShapesOnce(s);
    }
  }

  /** Taking the entry at any position `i` out of what is left and dealing it keeps the split. */
  lemma DealAt(dealt: seq<Shape>, rest: seq<Shape>, i: int)
    requires Splits(dealt, rest) && 0 <= i < |rest|
    ensures Splits(dealt + [rest[i]], rest[..i] + rest[i + 1..])
  {
    assert rest == rest[..i] + [rest[i]] + rest[i + 1..];
    assert multiset(rest) == multiset(rest[..i] + rest[i + 1..]) + multiset{rest[i]};
    assert multiset(dealt + [rest[i]]) == multiset(dealt) + multiset{rest[i]};
  }

  /** The first draw from an empty bag deals one identity and leaves the other six. */
  lemma FirstDraw(bag1: seq<Shape>, name: Shape)
    requires Dealt([], bag1, name)
    ensures Splits([name], bag1) && |bag1| == 6
  {
    assert EachOnce(bag1 + [name]);
    EachOnceLength(bag1 + [name]);
    forall s ensures multiset([name])[s] + multiset(bag1)[s] == 1 {
      assert multiset(bag1 + [name]) == multiset([name]) + multiset(bag1);
      assert multiset(bag1 + [name])[s] == 1;
    }
  }

  /** Once the bag is empty, the dealt identities are an ordering of the seven. */
  lemma DealtAll(dealt: seq<Shape>)
    requires Splits(dealt, [])
    ensures EachOnce(dealt) && multiset(dealt) == multiset(AllShapes)
  {
    EachOnceIsPermutation(dealt);
  }

  /** A draw from a non-empty bag moves its top to the dealt identities. */
  lemma LaterDraw(dealt: seq<Shape>, bag0: seq<Shape>, bag1: seq<Shape>, name: Shape)
    requires Splits(dealt, bag0) && bag0 != [] && Dealt(bag0, bag1, name)
    ensures Splits(dealt + [name], bag1) && |bag1| == |bag0| - 1
  {
    assert multiset(bag0) == multiset(bag1) + multiset{name};
    assert multiset(dealt + [name]) == multiset(dealt) + multiset{name};
  }

  /**
   The 7-bag guarantee: seven consecutive draws starting from an empty bag
   deal every identity exactly once, and leave the bag empty again, so the
   next seven draws do the same.
   */
  lemma {:induction false} SevenDraws(bags: seq<seq<Shape>>, names: seq<Shape>)
    requires |bags| == 8 && |names| == 7 && bags[0] == []
    requires forall k :: 0 <= k < 7 ==> Dealt(bags[k], bags[k + 1], names[k])
    ensures EachOnce(names) && multiset(names) == multiset(AllShapes)
    ensures bags[7] == []
  {
    FirstDraw(bags[1], names[0]);
    assert names[..1] == [names[0]];
    var k := 1;
    while k < 7
      invariant 1 <= k <= 7
      invariant Splits(names[..k], bags[k]) && |bags[k]| == 7 - k
    {
      LaterDraw(names[..k], bags[k], bags[k + 1], names[k]);
      assert names[..k + 1] == names[..k] + [names[k]];
      k := k + 1;
    }
    assert names[..7] == names;
    DealtAll(names);
  }
}
