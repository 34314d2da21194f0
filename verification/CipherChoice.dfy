/** Choosing the cipher suite with equal-preference groups (`ssl3_choose_cipher` in `handshake_server.cc`). */
module CipherChoice {
  import opened Common

  /** The first position of a cipher in a list, as `sk_SSL_CIPHER_find` reports it. */
  function Position(list: seq<nat>, c: nat): (i: nat)
    requires c in list
    ensures i < |list| && list[i] == c && c !in list[..i]
  {
    if list[0] == c then 0
    else
      assert list[1..][..Position(list[1..], c)] == list[1..][..Position(list[1..], c)];
      assert list == [list[0]] + list[1..];
      Position(list[1..], c) + 1
  }

  /**
   * What the choice is made from: the list whose order decides with its group flags, the list to look the ciphers up
   * in, and the ciphers the version and the server's keys allow. A flag is set on every member of a group but the last.
   */
  datatype Choice = Choice(prio: seq<nat>, inGroup: seq<bool>, allow: seq<nat>, usable: nat -> bool) {
    predicate Valid() { |inGroup| == |prio| }

    predicate Eligible(i: nat)
      requires i < |prio|
    {
      usable(prio[i]) && prio[i] in allow
    }

    /** The last member of the group that entry `i` is in; the length of the list when that group is left open. */
    function GroupEnd(i: nat): (j: nat)
      requires Valid() && i <= |prio|
      ensures i <= j <= |prio| && (j < |prio| ==> !inGroup[j]) && forall k :: i <= k < j ==> inGroup[k]
      decreases |prio| - i
    {
      if i == |prio| || !inGroup[i] then i else GroupEnd(i + 1)
    }

    predicate FirstEligible(e: nat)
      requires e < |prio|
    {
      Eligible(e) && forall i :: 0 <= i < e ==> !Eligible(i)
    }

    /** Entry `k` is the eligible member of the group from `e` on that comes first in the other list. */
    predicate BestOfGroup(e: nat, k: nat)
      requires Valid() && e < |prio|
    {
      && e <= k <= GroupEnd(e) && k < |prio| && Eligible(k)
      && forall i :: e <= i <= GroupEnd(e) && i < |prio| && Eligible(i) ==> Position(allow, prio[k]) <= Position(allow, prio[i])
    }
  }

  /** The result of the search: the cipher, if any, and the member of the priority list it stands for. */
  method Choose(c: Choice) returns (chosen: Option<nat>, ghost e: nat, ghost k: nat)
    requires c.Valid()
    ensures chosen.Some? ==> e < |c.prio| && c.FirstEligible(e) && c.BestOfGroup(e, k) && chosen.value == c.prio[k] && c.GroupEnd(e) < |c.prio|
    ensures chosen.None? ==> forall i :: 0 <= i < |c.prio| && c.Eligible(i) ==> c.GroupEnd(i) == |c.prio|
  {
    var groupMin: Option<nat> := None;
    e, k := 0, 0;
    var i := 0;
    while i < |c.prio|
      invariant 0 <= i <= |c.prio|
      invariant groupMin.None? ==> forall j :: 0 <= j < i ==> !c.Eligible(j)
      invariant groupMin.Some? ==>
        && e <= k < i && c.FirstEligible(e) && c.Eligible(k) && groupMin.value == Position(c.allow, c.prio[k])
        && (forall j :: e <= j < i ==> c.inGroup[j])
        && (forall j :: e <= j < i && c.Eligible(j) ==> groupMin.value <= Position(c.allow, c.prio[j]))
    {
      if c.usable(c.prio[i]) && c.prio[i] in c.allow {
        var cipherIndex := Position(c.allow, c.prio[i]);
        if groupMin.None? { e := i; }
        if groupMin.None? || groupMin.value > cipherIndex { k := i; }
        if c.inGroup[i] {
          if groupMin.None? || groupMin.value > cipherIndex { groupMin := Some(cipherIndex); }
        } else {
          if groupMin.Some? && groupMin.value < cipherIndex { cipherIndex := groupMin.value; }
          GroupEnds(c, e, i);
          return Some(c.allow[cipherIndex]), e, k;
        }
      }
      if !c.inGroup[i] && groupMin.Some? {
        GroupEnds(c, e, i);
        return Some(c.allow[groupMin.value]), e, k;
      }
      i := i + 1;
    }
    if groupMin.Some? {
      forall j | e <= j < |c.prio| ensures c.GroupEnd(j) == |c.prio| { OpenGroup(c, j); }
    }
    chosen := None;
  }

  lemma {:induction false} GroupEnds(c: Choice, e: nat, i: nat)
    requires c.Valid() && e <= i < |c.prio| && !c.inGroup[i] && forall j :: e <= j < i ==> c.inGroup[j]
    ensures c.GroupEnd(e) == i
  {
  }

  lemma {:induction false} OpenGroup(c: Choice, j: nat)
    requires c.Valid() && j < |c.prio| && forall k :: j <= k < |c.prio| ==> c.inGroup[k]
    ensures c.GroupEnd(j) == |c.prio|
  {
  }

  predicate SomeEligible(c: Choice)
    requires c.Valid()
  {
    exists i :: 0 <= i < |c.prio| && c.Eligible(i)
  }

  /** The lists as they are built: the last flag is clear. */
  predicate Closed(c: Choice)
    requires c.Valid()
  {
    c.prio == [] || !c.inGroup[|c.prio| - 1]
  }

  /** With the last flag clear no group is left open. */
  lemma {:induction false} ClosedGroups(c: Choice, i: nat)
    requires c.Valid() && Closed(c) && i < |c.prio|
    ensures c.GroupEnd(i) < |c.prio|
  {
  }

  /** On lists whose last flag is clear, no cipher is chosen exactly when the two ends share none. */
  method ChooseClosed(c: Choice) returns (chosen: Option<nat>, ghost e: nat, ghost k: nat)
    requires c.Valid() && Closed(c)
    ensures chosen.Some? <==> SomeEligible(c)
    ensures chosen.Some? ==> e < |c.prio| && c.FirstEligible(e) && c.BestOfGroup(e, k) && chosen.value == c.prio[k]
  {
    chosen, e, k := Choose(c);
    if chosen.None? {
      forall i | 0 <= i < |c.prio| ensures !c.Eligible(i) { ClosedGroups(c, i); }
    }
  }

  /** Without groups the choice is the first eligible cipher of the priority list. */
  lemma {:induction false} NoGroups(c: Choice, e: nat, k: nat)
    requires c.Valid() && (forall i :: 0 <= i < |c.prio| ==> !c.inGroup[i])
    requires e < |c.prio| && c.BestOfGroup(e, k)
    ensures k == e
  {
  }

  /** Both ends have one cipher, and the last flag of the list is set. */
  function OneInOpenGroup(cipher: nat): (c: Choice)
    ensures c.Valid()
  {
    Choice([cipher], [true], [cipher], (_: nat) => true)
  }

  /** An open group at the end of a list would hide its members: a shared cipher is not chosen. The rule parser builds none. */
  method OpenGroupHides(cipher: nat) returns (chosen: Option<nat>)
    ensures SomeEligible(OneInOpenGroup(cipher)) && chosen == None
  {
    var c := OneInOpenGroup(cipher);
    assert c.Eligible(0);
    OpenGroup(c, 0);
    ghost var e, k;
    chosen, e, k := Choose(c);
  }
}
