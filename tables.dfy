/**
 * Generic helpers over the in-memory stand-ins for database tables: tables are maps from
 * autoincrement ids to rows, and many-to-many relations are duplicate-free sequences of ids.
 */
module Tables {
  import opened Wrappers

  predicate NoDuplicates<T(==)>(s: seq<T>) {
    forall i, j :: 0 <= i < j < |s| ==> s[i] != s[j]
  }

  /** Prisma's relation `connect`: add `x` to the relation unless it is already there. */
  function Connect<T(==,!new)>(s: seq<T>, x: T): (r: seq<T>)
    ensures forall y :: y in r <==> y in s || y == x
    ensures x in s ==> r == s
    ensures NoDuplicates(s) ==> NoDuplicates(r)
    ensures |r| == if x in s then |s| else |s| + 1
  {
    if x in s then s else s + [x]
  }

  /** Prisma's relation `disconnect`: remove `x` from the relation; a no-op when it is absent. */
  function Disconnect<T(==,!new)>(s: seq<T>, x: T): (r: seq<T>)
    ensures forall y :: y in r <==> y in s && y != x
    ensures x !in s ==> r == s
    ensures NoDuplicates(s) ==> NoDuplicates(r)
    ensures NoDuplicates(s) && x in s ==> |r| == |s| - 1
  {
    if s == [] then []
    else
      var rest := Disconnect(s[1..], x);
      NoDuplicatesUncons(s);
      if s[0] == x then rest else [s[0]] + rest
  }

  lemma NoDuplicatesUncons<T>(s: seq<T>)
    requires s != []
    ensures NoDuplicates(s) <==> s[0] !in s[1..] && NoDuplicates(s[1..])
  {
  }

  /** `connectOrCreate` over a list: connect every element of `xs`, in order. */
  function ConnectAll<T(==,!new)>(s: seq<T>, xs: seq<T>): (r: seq<T>)
    ensures forall y :: y in r <==> y in s || y in xs
    ensures NoDuplicates(s) ==> NoDuplicates(r)
    decreases |xs|
  {
    if xs == [] then s else ConnectAll(Connect(s, xs[0]), xs[1..])
  }

  /** The largest key below `bound` whose row satisfies `p`: a lookup by a column. */
  function FindKey<V>(m: map<nat, V>, p: V -> bool, bound: nat): (r: Option<nat>)
    ensures r.Some? ==> r.value < bound && r.value in m && p(m[r.value])
    ensures r.None? ==> forall x :: x in m && x < bound ==> !p(m[x])
  {
    if bound == 0 then None
    else if bound - 1 in m && p(m[bound - 1]) then Some(bound - 1)
    else FindKey(m, p, bound - 1)
  }

  /** The keys of a table below `bound`, in ascending order: a full table scan. */
  function KeysBelow<V>(m: map<nat, V>, bound: nat): (r: seq<nat>)
    ensures forall x :: x in r <==> x in m && x < bound
    ensures forall i, j :: 0 <= i < j < |r| ==> r[i] < r[j]
  {
    if bound == 0 then []
    else
      var below := KeysBelow(m, bound - 1);
      assert forall i :: 0 <= i < |below| ==> below[i] in below;
      below + (if bound - 1 in m then [bound - 1] else [])
  }

  /** The keys below `bound` whose row satisfies `p`, in ascending order: `findMany` with a where-predicate. */
  function KeysWhere<V>(m: map<nat, V>, p: V -> bool, bound: nat): (r: seq<nat>)
    ensures forall x :: x in r <==> x in m && x < bound && p(m[x])
    ensures forall i, j :: 0 <= i < j < |r| ==> r[i] < r[j]
  {
    if bound == 0 then []
    else
      var below := KeysWhere(m, p, bound - 1);
      assert forall i :: 0 <= i < |below| ==> below[i] in below;
      below + (if bound - 1 in m && p(m[bound - 1]) then [bound - 1] else [])
  }
}
