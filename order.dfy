/** The order Rust's `sort` puts `String`s in: lexicographic on the UTF-8
    bytes, which is lexicographic on code points, a prefix coming first. */
module Order {

  predicate Less(a: string, b: string)
  {
    if a == [] then b != []
    else if b == [] then false
    else a[0] < b[0] || (a[0] == b[0] && Less(a[1..], b[1..]))
  }

  lemma {:induction false} LessIrreflexive(a: string)
    ensures !Less(a, a)
  {
    if a != [] {
      LessIrreflexive(a[1..]);
    }
  }

  lemma {:induction false} LessTransitive(a: string, b: string, c: string)
    requires Less(a, b) && Less(b, c)
    ensures Less(a, c)
  {
    if a != [] && b != [] && c != [] && a[0] == b[0] == c[0] {
      LessTransitive(a[1..], b[1..], c[1..]);
    }
  }

  /** Any two different strings are ordered one way, and only one. */
  lemma {:induction false} LessTotal(a: string, b: string)
    ensures a == b || Less(a, b) || Less(b, a)
    ensures !(Less(a, b) && Less(b, a))
  {
    if a != [] && b != [] && a[0] == b[0] {
      LessTotal(a[1..], b[1..]);
      if a[1..] == b[1..] {
        assert a == [a[0]] + a[1..] && b == [b[0]] + b[1..];
      }
    }
  }

  predicate Ascending(s: seq<string>) {
    forall i, j | 0 <= i < j < |s| :: Less(s[i], s[j])
  }

  /** The least element of a non-empty set of strings. */
  ghost function Minimum(keys: set<string>): (m: string)
    requires keys != {}
    ensures m in keys
    ensures forall k | k in keys && k != m :: Less(m, k)
    decreases |keys|
  {
    var x :| x in keys;
    if keys == {x} then x
    else
      var m := Minimum(keys - {x});
      LessTotal(x, m);
      forall k | k in keys && k != m && k != x ensures Less(m, k) { }
      if Less(x, m) then
        forall k | k in keys && k != x ensures Less(x, k) {
          if k != m {
            LessTransitive(x, m, k);
          }
        }
        x
      else m
  }

  /** A set of strings in ascending order, each once: what `sort` makes
      of any listing of the set, which holds each string once. */
  ghost function SortedKeys(keys: set<string>): (r: seq<string>)
    ensures |r| == |keys|
    ensures forall k :: k in r <==> k in keys
    ensures Ascending(r)
    decreases |keys|
  {
    if keys == {} then []
    else
      var m := Minimum(keys);
      var rest := SortedKeys(keys - {m});
      AscendingCons(m, rest);
      [m] + rest
  }

  /** A string less than every element of an ascending sequence can be put
      in front of it. */
  lemma AscendingCons(m: string, rest: seq<string>)
    requires Ascending(rest)
    requires forall k | k in rest :: Less(m, k)
    ensures Ascending([m] + rest)
  {
    hide Less;
    var s := [m] + rest;
    forall i, j | 0 <= i < j < |s| ensures Less(s[i], s[j]) {
      assert s[j] == rest[j - 1];
      if i > 0 {
        assert s[i] == rest[i - 1];
      }
    }
  }

  /** Two ascending sequences with the same elements are equal: the sorted
      listing of a set is unique. */
  lemma {:induction false} AscendingUnique(s: seq<string>, t: seq<string>)
    requires Ascending(s) && Ascending(t)
    requires forall k :: k in s <==> k in t
    ensures s == t
  {
    assert s == [] <==> t == [] by {
      if s != [] { assert s[0] in t; }
      if t != [] { assert t[0] in s; }
    }
    if s != [] {
      if s[0] != t[0] {
        assert t[0] in s;
        assert s[0] in t;
        var i :| 0 <= i < |s| && s[i] == t[0];
        var j :| 0 <= j < |t| && t[j] == s[0];
        assert Less(s[0], s[i]);
        assert Less(t[0], t[j]);
        LessTotal(s[0], t[0]);
        assert false;
      }
      forall k ensures k in s[1..] <==> k in t[1..] {
        if k in s[1..] {
          var i :| 1 <= i < |s| && s[i] == k;
          LessIrreflexive(s[0]);
          assert k != s[0] && k in t;
          var j :| 0 <= j < |t| && t[j] == k;
          assert j != 0;
          assert t[1..][j - 1] == k;
        }
        if k in t[1..] {
          var j :| 1 <= j < |t| && t[j] == k;
          LessIrreflexive(t[0]);
          assert k != t[0] && k in s;
          var i :| 0 <= i < |s| && s[i] == k;
          assert i != 0;
          assert s[1..][i - 1] == k;
        }
      }
      AscendingUnique(s[1..], t[1..]);
      assert s == [s[0]] + s[1..] && t == [t[0]] + t[1..];
    }
  }

  /** `k` put into its place in an ascending sequence, unless already there. */
  function Insert(s: seq<string>, k: string): (r: seq<string>)
    requires Ascending(s)
    ensures Ascending(r)
    ensures forall x :: x in r <==> x in s || x == k
  {
    if s == [] then [k]
    else if k == s[0] then s
    else if Less(k, s[0]) then
      var r := [k] + s;
      forall i, j | 0 <= i < j < |r| ensures Less(r[i], r[j]) {
        if i == 0 && j > 1 {
          LessTransitive(k, s[0], s[j - 1]);
        }
      }
      r
    else
      LessTotal(k, s[0]);
      var tail := Insert(s[1..], k);
      var r := [s[0]] + tail;
      forall i, j | 0 <= i < j < |r| ensures Less(r[i], r[j]) {
        if i == 0 {
          assert r[j] in tail;
        }
      }
      r
  }

  /** The keys of two maps gathered in a `HashSet`, collected and sorted:
      the keys are taken one at a time, in no particular order, and
      inserted into an ascending sequence. */
  method SortedFields(a: set<string>, b: set<string>) returns (fields: seq<string>)
    ensures fields == SortedKeys(a + b)
  {
    fields := [];
    var pending := a + b;
    while pending != {}
      invariant pending <= a + b
      invariant Ascending(fields)
      invariant forall k :: k in fields <==> k in a + b && k !in pending
      decreases |pending|
    {
      var k :| k in pending;
      fields := Insert(fields, k);
      pending := pending - {k};
    }
    AscendingUnique(fields, SortedKeys(a + b));
  }
}
