/** The ordered containers the host code relies on: a `std::set` of column
    numbers is modelled by its in-order contents (a strictly increasing
    sequence), with its `insert`, the rank of an element (the renumbering
    `r2l` builds by walking the set) and `std::lower_bound`. */
module SortedSet {

  predicate Sorted(s: seq<nat>)
  {
    forall i, j :: 0 <= i < j < |s| ==> s[i] < s[j]
  }

  function Elems(s: seq<nat>): set<nat>
  {
    set c | c in s
  }

  /** `set.insert(c)`: the set gains c, stays ordered, and grows by one
      exactly when c was new. */
  function Insert(s: seq<nat>, c: nat): (r: seq<nat>)
    requires Sorted(s)
    ensures Sorted(r) && Elems(r) == Elems(s) + {c}
    ensures |r| == if c in s then |s| else |s| + 1
  {
    if |s| == 0 then [c]
    else if c < s[0] then [c] + s
    else if c == s[0] then s
    else
      var t := Insert(s[1..], c);
      InsertBehindHead(s, c, t);
      [s[0]] + t
  }

  /** Inserting c behind a smaller head: the head followed by the tail with
      c inserted. */
  lemma InsertBehindHead(s: seq<nat>, c: nat, t: seq<nat>)
    requires Sorted(s) && |s| > 0 && s[0] < c
    requires Sorted(t) && Elems(t) == Elems(s[1..]) + {c}
    requires |t| == if c in s[1..] then |s| - 1 else |s|
    ensures Sorted([s[0]] + t) && Elems([s[0]] + t) == Elems(s) + {c}
    ensures |[s[0]] + t| == if c in s then |s| else |s| + 1
  {
    assert s == [s[0]] + s[1..];
    assert c in s <==> c in s[1..];
    ElemsCons(s[0], s[1..]);
    ElemsCons(s[0], t);
    forall k | 0 <= k < |t| ensures s[0] < t[k] {
      assert t[k] in Elems(t);
    }
  }

  lemma ElemsCons(h: nat, t: seq<nat>)
    ensures Elems([h] + t) == {h} + Elems(t)
  {
    assert forall c :: c in [h] + t <==> c == h || c in t;
  }

  /** The position of c in s. */
  function IndexIn(s: seq<nat>, c: nat): (k: nat)
    requires c in s
    ensures k < |s| && s[k] == c
  {
    if s[0] == c then 0 else 1 + IndexIn(s[1..], c)
  }

  /** In an ordered set the position of the k-th element is k. */
  lemma IndexOfElement(s: seq<nat>, k: nat)
    requires Sorted(s) && k < |s|
    ensures IndexIn(s, s[k]) == k
  {
  }

  /** `std::lower_bound` on s[lo..hi]: the first position whose element is
      not below v. */
  method LowerBound(s: seq<nat>, lo: nat, hi: nat, v: nat) returns (r: nat)
    requires lo <= hi <= |s| && Sorted(s)
    ensures lo <= r <= hi
    ensures forall k :: lo <= k < r ==> s[k] < v
    ensures forall k :: r <= k < hi ==> v <= s[k]
  {
    var a, b := lo, hi;
    while a < b
      invariant lo <= a <= b <= hi
      invariant forall k :: lo <= k < a ==> s[k] < v
      invariant forall k :: b <= k < hi ==> v <= s[k]
    {
      var m := a + (b - a) / 2;
      if s[m] < v {
        a := m + 1;
      } else {
        b := m;
      }
    }
    r := a;
  }

  /** The `r2l` map both backends build: walking the ordered set, each column
      is mapped to the number of columns mapped before it. */
  method Renumber(s: seq<nat>) returns (r2l: map<nat, nat>)
    requires Sorted(s)
    ensures r2l.Keys == Elems(s)
    ensures forall k :: 0 <= k < |s| ==> r2l[s[k]] == k
  {
    r2l := map[];
    var k := 0;
    while k < |s|
      invariant k <= |s|
      invariant forall c :: c in r2l ==> exists t :: 0 <= t < k && s[t] == c
      invariant |r2l| == k
      invariant forall t :: 0 <= t < k ==> s[t] in r2l && r2l[s[t]] == t
    {
      var idx := |r2l|;
      r2l := r2l[s[k] := idx];
      k := k + 1;
    }
  }
}
