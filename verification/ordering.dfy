/** `OrderBy(x => x.Name)` over users: names compared character by character
    (ordinal order), ties broken by id. The sort is an insertion sort over
    the rows in id order. */
module Ordering {
  import opened Domain

  /** Strict lexicographic order on strings by character code. */
  predicate StrLess(a: string, b: string)
    decreases |a|
  {
    if a == [] then b != []
    else if b == [] then false
    else a[0] < b[0] || (a[0] == b[0] && StrLess(a[1..], b[1..]))
  }

  lemma {:induction false} StrLessIrreflexive(a: string)
    ensures !StrLess(a, a)
    decreases |a|
  {
    if a != [] {
      StrLessIrreflexive(a[1..]);
    }
  }

  lemma {:induction false} StrLessTransitive(a: string, b: string, c: string)
    requires StrLess(a, b) && StrLess(b, c)
    ensures StrLess(a, c)
    decreases |a|
  {
    if a != [] && b != [] && c != [] && a[0] == b[0] && b[0] == c[0] {
      StrLessTransitive(a[1..], b[1..], c[1..]);
    }
  }

  lemma {:induction false} StrLessTotal(a: string, b: string)
    requires a != b
    ensures StrLess(a, b) || StrLess(b, a)
    decreases |a|
  {
    if a != [] && b != [] && a[0] == b[0] {
      StrLessTotal(a[1..], b[1..]);
    }
  }

  /** The sort key: by name, then by id. */
  predicate Before(u: UserDto, v: UserDto) {
    StrLess(u.name, v.name) || (u.name == v.name && u.id < v.id)
  }

  predicate SortedByName(s: seq<UserDto>) {
    forall i, j | 0 <= i < j < |s| :: Before(s[i], s[j])
  }

  predicate DistinctIds(s: seq<UserDto>) {
    forall i, j | 0 <= i < j < |s| :: s[i].id != s[j].id
  }

  function Insert(s: seq<UserDto>, u: UserDto): (r: seq<UserDto>)
    ensures multiset(r) == multiset(s) + multiset{u}
  {
    if s == [] then [u]
    else if Before(u, s[0]) then [u] + s
    else
      assert s == [s[0]] + s[1..];
      [s[0]] + Insert(s[1..], u)
  }

  lemma BeforeTransitive(u: UserDto, v: UserDto, w: UserDto)
    requires Before(u, v) && Before(v, w)
    ensures Before(u, w)
  {
    if StrLess(u.name, v.name) && StrLess(v.name, w.name) {
      StrLessTransitive(u.name, v.name, w.name);
    }
  }

  lemma BeforeTotal(u: UserDto, v: UserDto)
    requires u.id != v.id
    ensures Before(u, v) || Before(v, u)
  {
    if u.name != v.name {
      StrLessTotal(u.name, v.name);
    }
  }

  /** Inserting a user whose id is new keeps a sorted list sorted. */
  lemma {:induction false} InsertSorted(s: seq<UserDto>, u: UserDto)
    requires SortedByName(s)
    requires forall k | 0 <= k < |s| :: s[k].id != u.id
    ensures SortedByName(Insert(s, u))
  {
    var r := Insert(s, u);
    if s == [] {
    } else if Before(u, s[0]) {
      forall i, j | 0 <= i < j < |r|
        ensures Before(r[i], r[j])
      {
        if i == 0 {
          if j > 1 {
            BeforeTransitive(u, s[0], s[j - 1]);
          }
        }
      }
    } else {
      BeforeTotal(u, s[0]);
      InsertSorted(s[1..], u);
      var rest := Insert(s[1..], u);
      assert r == [s[0]] + rest;
      forall j | 0 <= j < |rest|
        ensures Before(s[0], rest[j])
      {
        assert rest[j] in multiset(rest);
        assert rest[j] in multiset(s[1..]) + multiset{u};
        if rest[j] != u {
          assert rest[j] in s[1..];
          var k :| 0 <= k < |s[1..]| && s[1..][k] == rest[j];
          assert s[k + 1] == rest[j];
        }
      }
    }
  }

  /** Sorts by name; the result is a permutation of the input. */
  function SortByName(s: seq<UserDto>): (r: seq<UserDto>)
    ensures multiset(r) == multiset(s)
    ensures DistinctIds(s) ==> SortedByName(r)
  {
    if s == [] then []
    else
      var rest := SortByName(s[1..]);
      assert s == [s[0]] + s[1..];
      if DistinctIds(s) then
        assert forall k | 0 <= k < |rest| :: rest[k].id != s[0].id by {
          forall k | 0 <= k < |rest|
            ensures rest[k].id != s[0].id
          {
            assert rest[k] in multiset(s[1..]);
            var m :| 0 <= m < |s[1..]| && s[1..][m] == rest[k];
            assert s[m + 1] == rest[k];
          }
        }
        InsertSorted(rest, s[0]);
        Insert(rest, s[0])
      else
        Insert(rest, s[0])
  }
}
