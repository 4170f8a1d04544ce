/** `collect_strings`: every string leaf of a JSON value, depth first, in order. */
module StringCollector {
  import opened JsonValues

  /** The string leaves of `j` in depth-first order; numbers, booleans, null and object
      keys contribute nothing. */
  function Collect(j: Json): seq<string>
    decreases j, 1
  {
    match j
    case JStr(s) => [s]
    case JArr(items) => CollectItems(items)
    case JObj(members) => CollectMembers(members)
    case _ => []
  }

  /** The leaves of the elements of an array, element after element. */
  function CollectItems(items: seq<Json>): seq<string>
    decreases items, 0
  {
    if items == [] then []
    else CollectItems(items[..|items| - 1]) + Collect(items[|items| - 1])
  }

  /** The leaves of the values of an object, value after value. */
  function CollectMembers(members: seq<Member>): seq<string>
    decreases members, 0
  {
    if members == [] then []
    else CollectMembers(members[..|members| - 1]) + Collect(members[|members| - 1].value)
  }

  /** The values of an object's members, in order. */
  function Values(members: seq<Member>): (vs: seq<Json>)
    ensures |vs| == |members|
    ensures forall i :: 0 <= i < |members| ==> vs[i] == members[i].value
  {
    seq(|members|, i requires 0 <= i < |members| => members[i].value)
  }

  /** `JStr(s)` occurs in `j` as a value (not as an object key), at any depth. */
  ghost predicate HasLeaf(j: Json, s: string)
    decreases j
  {
    match j
    case JStr(t) => t == s
    case JArr(items) => exists i :: 0 <= i < |items| && HasLeaf(items[i], s)
    case JObj(members) => exists i :: 0 <= i < |members| && HasLeaf(members[i].value, s)
    case _ => false
  }

  /** The number of string leaves of `j`. */
  function LeafCount(j: Json): nat
    decreases j, 1
  {
    match j
    case JStr(_) => 1
    case JArr(items) => ItemsLeafCount(items)
    case JObj(members) => MembersLeafCount(members)
    case _ => 0
  }

  function ItemsLeafCount(items: seq<Json>): nat
    decreases items, 0
  {
    if items == [] then 0 else LeafCount(items[0]) + ItemsLeafCount(items[1..])
  }

  function MembersLeafCount(members: seq<Member>): nat
    decreases members, 0
  {
    if members == [] then 0 else LeafCount(members[0].value) + MembersLeafCount(members[1..])
  }

  /** A string collects to itself; every other scalar to nothing. */
  lemma CollectScalars(j: Json)
    requires !j.JArr? && !j.JObj?
    ensures j.JStr? ==> Collect(j) == [j.s]
    ensures !j.JStr? ==> Collect(j) == []
  {
  }

  /** Collecting over an array is a homomorphism from concatenation of arrays to
      concatenation of results. */
  lemma {:induction false} CollectItemsAppend(a: seq<Json>, b: seq<Json>)
    ensures CollectItems(a + b) == CollectItems(a) + CollectItems(b)
    decreases |b|
  {
    if b == [] {
      assert a + b == a;
    } else {
      var b' := b[..|b| - 1];
      assert (a + b)[..|a + b| - 1] == a + b';
      assert (a + b)[|a + b| - 1] == b[|b| - 1];
      CollectItemsAppend(a, b');
    }
  }

  /** An array collects to the in-order concatenation of what its elements collect to. */
  lemma {:induction false} CollectItemsCons(x: Json, rest: seq<Json>)
    ensures CollectItems([x] + rest) == Collect(x) + CollectItems(rest)
  {
    CollectItemsAppend([x], rest);
    assert CollectItems([x]) == Collect(x) by {
      assert [x][..0] == [];
    }
  }

  /** Object keys never contribute: an object collects to what the array of its values
      collects to. */
  lemma {:induction false} CollectMembersIsValues(members: seq<Member>)
    ensures CollectMembers(members) == CollectItems(Values(members))
    decreases |members|
  {
    if members != [] {
      var n := |members| - 1;
      assert Values(members)[..n] == Values(members[..n]);
      CollectMembersIsValues(members[..n]);
    }
  }

  /** The result holds exactly one entry per string leaf. */
  lemma {:induction false} CollectLength(j: Json)
    ensures |Collect(j)| == LeafCount(j)
    decreases j, 1
  {
    match j
    case JArr(items) => CollectItemsLength(items);
    case JObj(members) => CollectMembersLength(members);
    case _ =>
  }

  lemma {:induction false} CollectItemsLength(items: seq<Json>)
    ensures |CollectItems(items)| == ItemsLeafCount(items)
    decreases items, 0
  {
    if items != [] {
      CollectLength(items[0]);
      CollectItemsLength(items[1..]);
      CollectItemsCons(items[0], items[1..]);
      assert [items[0]] + items[1..] == items;
    }
  }

  lemma {:induction false} CollectMembersLength(members: seq<Member>)
    ensures |CollectMembers(members)| == MembersLeafCount(members)
    decreases members, 0
  {
    if members != [] {
      CollectLength(members[0].value);
      CollectMembersLength(members[1..]);
      CollectMembersIsValues(members);
      CollectMembersIsValues(members[1..]);
      CollectItemsCons(members[0].value, Values(members[1..]));
      ValuesCons(members);
    }
  }

  lemma ValuesCons(members: seq<Member>)
    requires members != []
    ensures Values(members) == [members[0].value] + Values(members[1..])
  {
    var vs, rest := Values(members), Values(members[1..]);
    assert forall i :: 0 < i < |vs| ==> vs[i] == rest[i - 1];
  }

  /** A string is collected exactly when it occurs as a leaf. */
  lemma {:induction false} CollectMembership(j: Json, s: string)
    ensures s in Collect(j) <==> HasLeaf(j, s)
    decreases j, 1
  {
    match j
    case JArr(items) =>
      CollectItemsMembership(items, s);
    case JObj(members) =>
      CollectMembersMembership(members, s);
    case _ =>
  }

  lemma {:induction false} CollectItemsMembership(items: seq<Json>, s: string)
    ensures s in CollectItems(items) <==> exists i :: 0 <= i < |items| && HasLeaf(items[i], s)
    decreases items, 0
  {
    if items != [] {
      var n := |items| - 1;
      CollectItemsMembership(items[..n], s);
      CollectMembership(items[n], s);
      assert forall i :: 0 <= i < n ==> items[..n][i] == items[i];
    }
  }

  lemma {:induction false} CollectMembersMembership(members: seq<Member>, s: string)
    ensures s in CollectMembers(members) <==>
            exists i :: 0 <= i < |members| && HasLeaf(members[i].value, s)
    decreases members, 0
  {
    if members != [] {
      var n := |members| - 1;
      CollectMembersMembership(members[..n], s);
      CollectMembership(members[n].value, s);
      assert forall i :: 0 <= i < n ==> members[..n][i] == members[i];
    }
  }

  /** `collect_strings` as the script runs it: a fresh list, extended in a loop over the
      values of a dict or the items of a list by the recursive result for each. */
  method CollectStrings(obj: Json) returns (strings: seq<string>)
    ensures strings == Collect(obj)
    decreases obj
  {
    strings := [];
    match obj {
      case JStr(s) =>
        strings := strings + [s];
      case JObj(members) =>
        for i := 0 to |members|
          invariant strings == CollectMembers(members[..i])
        {
          var sub := CollectStrings(members[i].value);
          assert members[..i + 1][..i] == members[..i];
          strings := strings + sub;
        }
        assert members[..|members|] == members;
      case JArr(items) =>
        for i := 0 to |items|
          invariant strings == CollectItems(items[..i])
        {
          var sub := CollectStrings(items[i]);
          assert items[..i + 1][..i] == items[..i];
          strings := strings + sub;
        }
        assert items[..|items|] == items;
      case _ =>
    }
  }
}
