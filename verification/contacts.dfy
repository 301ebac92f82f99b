/** Optional values, and the `filter(x => x !== null)` step of the response formatter. */
module Options {

  /** A nullable column or an optional request field. */
  datatype Option<+T> = None | Some(value: T)

  /** The present values of `s`, in order. */
  function Somes<T>(s: seq<Option<T>>): (r: seq<T>)
    ensures |r| <= |s|
    ensures |s| > 0 && s[0].Some? ==> |r| > 0 && r[0] == s[0].value
  {
    if |s| == 0 then []
    else (if s[0].Some? then [s[0].value] else []) + Somes(s[1..])
  }

  /** Nothing is deduplicated: every present value keeps exactly as many occurrences
      as it had in `s`, and no value appears that was not present. */
  lemma {:induction false} SomesCounts<T(!new)>(s: seq<Option<T>>)
    ensures forall x :: multiset(Somes(s))[x] == multiset(s)[Some(x)]
  {
    if |s| > 0 {
      SomesCounts(s[1..]);
      assert s == [s[0]] + s[1..];
    }
  }

  /** Filtering distributes over concatenation, so the order of the present values is kept. */
  lemma {:induction false} SomesAppend<T(!new)>(a: seq<Option<T>>, b: seq<Option<T>>)
    ensures Somes(a + b) == Somes(a) + Somes(b)
  {
    if |a| == 0 {
      assert a + b == b;
    } else {
      assert (a + b)[1..] == a[1..] + b;
      SomesAppend(a[1..], b);
    }
  }
}

/** The Contact table and the invariants a well-formed contact graph keeps. */
module Contacts {
  import opened Options

  datatype Precedence = Primary | Secondary

  /** One row of the Contact table; timestamps are never read by the logic and are omitted. */
  datatype Contact = Contact(
    id: nat,
    email: Option<string>,
    phoneNumber: Option<string>,
    linkPrecedence: Precedence,
    linkedId: Option<nat>)

  /** The whole table, in ascending id order (the order of autoincrement inserts). */
  type Store = seq<Contact>

  /** Ids strictly increase along the store, so they are distinct and the first
      row satisfying a condition is the one with the lowest id. */
  ghost predicate IdsAscending(s: seq<Contact>) {
    forall i, j :: 0 <= i < j < |s| ==> s[i].id < s[j].id
  }

  /** Autoincrement ids start at 1, so no id is falsy. */
  ghost predicate IdsPositive(s: Store) {
    forall i :: 0 <= i < |s| ==> s[i].id >= 1
  }

  /** Some row with id `k` is a PRIMARY. */
  ghost predicate IsPrimaryId(s: Store, k: nat) {
    exists j :: 0 <= j < |s| && s[j].id == k && s[j].linkPrecedence == Primary
  }

  /** PRIMARY rows have no link; SECONDARY rows link directly to a PRIMARY (depth one). */
  ghost predicate LinksFlat(s: Store) {
    forall i :: 0 <= i < |s| ==>
      && (s[i].linkPrecedence == Primary <==> s[i].linkedId.None?)
      && (s[i].linkedId.Some? ==> IsPrimaryId(s, s[i].linkedId.value))
  }

  /** The unique constraint on (phoneNumber, email): no two rows carry the same complete pair. */
  ghost predicate PairsUnique(s: Store) {
    forall i, j :: 0 <= i < j < |s| && s[i].email.Some? && s[i].phoneNumber.Some? ==>
      s[i].email != s[j].email || s[i].phoneNumber != s[j].phoneNumber
  }

  ghost predicate Valid(s: Store) {
    IdsAscending(s) && IdsPositive(s) && LinksFlat(s) && PairsUnique(s)
  }

  /** The largest id in the store, 0 when it is empty. */
  function MaxId(s: Store): (m: nat)
    ensures forall i :: 0 <= i < |s| ==> s[i].id <= m
    ensures |s| == 0 ==> m == 0
    ensures |s| > 0 ==> exists i :: 0 <= i < |s| && s[i].id == m
  {
    if |s| == 0 then 0
    else
      var m := MaxId(s[1..]);
      if s[0].id >= m then s[0].id else m
  }

  /** The id autoincrement hands to the next insert: positive and above every id in use. */
  function NextId(s: Store): (n: nat)
    ensures n >= 1
    ensures forall i :: 0 <= i < |s| ==> s[i].id < n
  {
    MaxId(s) + 1
  }
}
