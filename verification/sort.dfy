/** The broad phase's sort (sr_stable_sort): an insertion sort of the id
    permutation by the bodies' lower edge on the sweep axis. Stability is stated
    through `Filter`: for every key value, the ids carrying that key appear in
    the same order before and after sorting. */
module Sort {
  import opened Geometry
  import opened Bodies

  /** The sort keys of all ids: the lower edge of each body on the sweep axis. */
  function Keys(bodies: seq<Body>, a: Axis): (keys: seq<real>)
    ensures |keys| == |bodies|
    ensures forall id :: 0 <= id < |bodies| ==> keys[id] == Lo(bodies[id].r, a)
  {
    seq(|bodies|, id requires 0 <= id < |bodies| => Lo(bodies[id].r, a))
  }

  /** The key of an id; ids outside the table never occur in a valid store. */
  function Key(keys: seq<real>, id: int): real {
    if 0 <= id < |keys| then keys[id] else 0.0
  }

  predicate SortedBy(keys: seq<real>, s: seq<int>) {
    forall p, q :: 0 <= p < q < |s| ==> Key(keys, s[p]) <= Key(keys, s[q])
  }

  /** The ids of `s` whose key is `k`, in their order in `s`. */
  function Filter(keys: seq<real>, s: seq<int>, k: real): seq<int> {
    if s == [] then []
    else Filter(keys, s[..|s| - 1], k) + (if Key(keys, s[|s| - 1]) == k then [s[|s| - 1]] else [])
  }

  /** `out` is `s` stably sorted: a permutation of it, ascending by key, and
      with equal keys in their original relative order. */
  ghost predicate StablySorted(keys: seq<real>, s: seq<int>, out: seq<int>) {
    && |out| == |s|
    && multiset(out) == multiset(s)
    && SortedBy(keys, out)
    && forall k :: Filter(keys, out, k) == Filter(keys, s, k)
  }

  lemma {:induction false} FilterConcat(keys: seq<real>, s: seq<int>, t: seq<int>, k: real)
    ensures Filter(keys, s + t, k) == Filter(keys, s, k) + Filter(keys, t, k)
    decreases |t|
  {
    if t == [] {
      assert s + t == s;
    } else {
      var t' := t[..|t| - 1];
      assert (s + t)[..|s + t| - 1] == s + t';
      FilterConcat(keys, s, t', k);
    }
  }

  /** Inserting `x` behind every element whose key is not greater than its own,
      into a sorted sequence whose tail after `j` holds only greater keys, keeps
      it sorted and stable with respect to appending `x`. */
  lemma InsertStep(keys: seq<real>, pre: seq<int>, j: int, x: int)
    requires SortedBy(keys, pre)
    requires -1 <= j < |pre|
    requires j >= 0 ==> Key(keys, pre[j]) <= Key(keys, x)
    requires forall m :: j < m < |pre| ==> Key(keys, x) < Key(keys, pre[m])
    ensures var out := pre[..j + 1] + [x] + pre[j + 1..];
      && |out| == |pre| + 1
      && multiset(out) == multiset(pre + [x])
      && SortedBy(keys, out)
      && forall k :: Filter(keys, out, k) == Filter(keys, pre + [x], k)
  {
    var out := pre[..j + 1] + [x] + pre[j + 1..];
    assert SortedBy(keys, out) by {
      InsertSorted(keys, pre, j, x);
    }
    assert multiset(out) == multiset(pre + [x]) by {
      InsertPermutes(pre, j, x);
    }
    assert forall k :: Filter(keys, out, k) == Filter(keys, pre + [x], k) by {
      forall k
        ensures Filter(keys, out, k) == Filter(keys, pre + [x], k)
      {
        InsertFilter(keys, pre, j, x, k);
      }
    }
  }

  lemma InsertPermutes(pre: seq<int>, j: int, x: int)
    requires -1 <= j < |pre|
    ensures multiset(pre[..j + 1] + [x] + pre[j + 1..]) == multiset(pre + [x])
  {
    assert pre == pre[..j + 1] + pre[j + 1..];
  }

  lemma InsertSorted(keys: seq<real>, pre: seq<int>, j: int, x: int)
    requires SortedBy(keys, pre)
    requires -1 <= j < |pre|
    requires j >= 0 ==> Key(keys, pre[j]) <= Key(keys, x)
    requires forall m :: j < m < |pre| ==> Key(keys, x) < Key(keys, pre[m])
    ensures SortedBy(keys, pre[..j + 1] + [x] + pre[j + 1..])
  {
    var out := pre[..j + 1] + [x] + pre[j + 1..];
    InsertShape(pre, j, x);
    forall p, q | 0 <= p < q < |out|
      ensures Key(keys, out[p]) <= Key(keys, out[q])
    {
      if q <= j {
      } else if q == j + 1 {
        if p < j { assert Key(keys, pre[p]) <= Key(keys, pre[j]); }
      } else if p == j + 1 {
      } else if p < j + 1 {
        assert Key(keys, pre[p]) <= Key(keys, pre[q - 1]);
      } else {
        assert Key(keys, pre[p - 1]) <= Key(keys, pre[q - 1]);
      }
    }
  }

  /** Where the elements of `pre` land once `x` is inserted after position `j`. */
  lemma InsertShape(pre: seq<int>, j: int, x: int)
    requires -1 <= j < |pre|
    ensures var out := pre[..j + 1] + [x] + pre[j + 1..];
      && |out| == |pre| + 1
      && (forall m :: 0 <= m <= j ==> out[m] == pre[m])
      && out[j + 1] == x
      && (forall m :: j + 1 < m < |out| ==> out[m] == pre[m - 1])
  {
  }

  lemma InsertFilter(keys: seq<real>, pre: seq<int>, j: int, x: int, k: real)
    requires -1 <= j < |pre|
    requires forall m :: j < m < |pre| ==> Key(keys, x) < Key(keys, pre[m])
    ensures Filter(keys, pre[..j + 1] + [x] + pre[j + 1..], k) == Filter(keys, pre + [x], k)
  {
    var lo, hi := pre[..j + 1], pre[j + 1..];
    assert pre == lo + hi;
    FilterConcat(keys, lo + [x], hi, k);
    FilterConcat(keys, lo, [x], k);
    FilterConcat(keys, lo + hi, [x], k);
    FilterConcat(keys, lo, hi, k);
    if Key(keys, x) == k {
      forall m | 0 <= m < |hi|
        ensures k < Key(keys, hi[m])
      {
        assert hi[m] == pre[j + 1 + m];
      }
      FilterNone(keys, hi, k);
    }
  }

  /** No id of `s` has key `k` when every key in `s` is greater. */
  lemma {:induction false} FilterNone(keys: seq<real>, s: seq<int>, k: real)
    requires forall m :: 0 <= m < |s| ==> k < Key(keys, s[m])
    ensures Filter(keys, s, k) == []
    decreases |s|
  {
    if s != [] {
      FilterNone(keys, s[..|s| - 1], k);
    }
  }

  /** A sequence that agrees with `a` before `j + 1` and after `i`, holds `a[i]`
      at `j + 1` and `a[j + 1..i]` shifted up one place is the insertion of
      `a[i]` after position `j`. */
  lemma ShiftedShape(a: seq<int>, out: seq<int>, i: nat, j: int)
    requires -1 <= j < i < |a| == |out|
    requires forall m {:trigger out[m]} :: 0 <= m <= j ==> out[m] == a[m]
    requires out[j + 1] == a[i]
    requires forall m {:trigger out[m]} :: j + 1 < m <= i ==> out[m] == a[m - 1]
    requires forall m {:trigger out[m]} :: i < m < |a| ==> out[m] == a[m]
    ensures out == a[..j + 1] + [a[i]] + a[j + 1..i] + a[i + 1..]
  {
  }

  /** One pass of the inner loop of sr_stable_sort: the element at `i` is
      taken out and the larger-keyed elements before it shift up one place
      until one with a key not greater than its own is met; it lands behind that one. */
  method InsertionPass(keys: seq<real>, a: seq<int>, i: nat) returns (out: seq<int>, j: int)
    requires i < |a|
    ensures -1 <= j < i
    ensures out == a[..j + 1] + [a[i]] + a[j + 1..i] + a[i + 1..]
    ensures j >= 0 ==> Key(keys, a[j]) <= Key(keys, a[i])
    ensures forall m :: j < m < i ==> Key(keys, a[i]) < Key(keys, a[m])
  {
    var shifted;
    shifted, j := ShiftLarger(keys, a, i);
    out := shifted[j + 1 := a[i]];
    ShiftedShape(a, out, i, j);
  }

  /** The shifting loop of an insertion pass: walking down from `i - 1`, every
      element whose key is greater than that of `a[i]` moves up one place; the
      walk stops at position `j`, the first whose key is not greater. */
  method ShiftLarger(keys: seq<real>, a: seq<int>, i: nat) returns (out: seq<int>, j: int)
    requires i < |a|
    ensures -1 <= j < i && |out| == |a|
    ensures forall m {:trigger out[m]} :: 0 <= m <= j ==> out[m] == a[m]
    ensures forall m {:trigger out[m]} :: j + 1 < m <= i ==> out[m] == a[m - 1]
    ensures forall m {:trigger out[m]} :: i < m < |a| ==> out[m] == a[m]
    ensures j >= 0 ==> Key(keys, a[j]) <= Key(keys, a[i])
    ensures forall m :: j < m < i ==> Key(keys, a[i]) < Key(keys, a[m])
  {
    out := a;
    var temp := a[i];
    j := i - 1;
    while j >= 0 && Key(keys, temp) < Key(keys, out[j])
      invariant -1 <= j <= i - 1
      invariant |out| == |a|
      invariant forall m {:trigger out[m]} :: 0 <= m <= j ==> out[m] == a[m]
      invariant forall m {:trigger out[m]} :: j + 1 < m <= i ==> out[m] == a[m - 1]
      invariant forall m {:trigger out[m]} :: i < m < |a| ==> out[m] == a[m]
      invariant forall m :: j < m < i ==> Key(keys, temp) < Key(keys, a[m])
    {
      out := out[j + 1 := out[j]];
      j := j - 1;
    }
  }

  /** One outer iteration of sr_stable_sort extends the stably sorted prefix by one. */
  lemma PassExtendsPrefix(keys: seq<real>, s: seq<int>, a: seq<int>, out: seq<int>, i: nat, j: int)
    requires i < |s| == |a|
    requires a[i..] == s[i..]
    requires StablySorted(keys, s[..i], a[..i])
    requires -1 <= j < i
    requires out == a[..j + 1] + [a[i]] + a[j + 1..i] + a[i + 1..]
    requires j >= 0 ==> Key(keys, a[j]) <= Key(keys, a[i])
    requires forall m :: j < m < i ==> Key(keys, a[i]) < Key(keys, a[m])
    ensures out[i + 1..] == s[i + 1..]
    ensures StablySorted(keys, s[..i + 1], out[..i + 1])
  {
    var pre, x := a[..i], a[i];
    assert out[..i + 1] == pre[..j + 1] + [x] + pre[j + 1..];
    assert out[i + 1..] == a[i + 1..];
    InsertStep(keys, pre, j, x);
    assert x == s[i];
    assert s[..i + 1] == s[..i] + [x];
    forall k
      ensures Filter(keys, pre + [x], k) == Filter(keys, s[..i] + [x], k)
    {
      FilterConcat(keys, pre, [x], k);
      FilterConcat(keys, s[..i], [x], k);
    }
  }

  /** One outer iteration of sr_stable_sort: with `a[..i]` a stable sort of
      `s[..i]` and the rest of `a` still as in `s`, one insertion pass extends the
      sorted prefix by the element at `i`. */
  method SortStep(keys: seq<real>, s: seq<int>, a: seq<int>, i: nat) returns (out: seq<int>)
    requires i < |s| == |a|
    requires a[i..] == s[i..]
    requires StablySorted(keys, s[..i], a[..i])
    ensures |out| == |s| && out[i + 1..] == s[i + 1..]
    ensures StablySorted(keys, s[..i + 1], out[..i + 1])
  {
    var j;
    out, j := InsertionPass(keys, a, i);
    PassExtendsPrefix(keys, s, a, out, i, j);
  }

  /** sr_stable_sort on `s[..n]`, the registered part of the permutation array;
      the entries from `n` on are left alone. */
  method StableSort(keys: seq<real>, s: seq<int>, n: nat) returns (out: seq<int>)
    requires n <= |s|
    ensures |out| == |s| && out[n..] == s[n..]
    ensures StablySorted(keys, s[..n], out[..n])
  {
    out := s;
    if n == 0 {
      return;
    }
    var i := 1;
    while i < n
      invariant 1 <= i <= n
      invariant |out| == |s| && out[i..] == s[i..]
      invariant StablySorted(keys, s[..i], out[..i])
    {
      out := SortStep(keys, s, out, i);
      i := i + 1;
    }
  }
}
