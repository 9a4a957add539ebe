/** PHP arrays with string keys, as the generator uses them: an
    insertion-ordered sequence of key/value entries in which every key occurs
    at most once. Assigning `$a[k] = v` replaces the value in place when `k`
    is present and appends otherwise; `array_merge`, `parse_str` and
    `array_change_key_case` are all folds of that assignment. */
module OrderedMap {

  /** One key/value entry. */
  type Entry = (string, string)

  /** A string-keyed PHP array; `UniqueKeys` holds of every array the code builds. */
  type Params = seq<Entry>

  /** The keys in array order. */
  function KeySeq(p: Params): seq<string> {
    seq(|p|, i requires 0 <= i < |p| => p[i].0)
  }

  function Keys(p: Params): set<string> {
    set i | 0 <= i < |p| :: p[i].0
  }

  predicate UniqueKeys(p: Params) {
    forall i, j :: 0 <= i < j < |p| ==> p[i].0 != p[j].0
  }

  /** The position of the first entry with key `k`, or `|p|` when there is none. */
  function IndexOfKey(p: Params, k: string): (i: nat)
    ensures i <= |p|
    ensures i < |p| ==> p[i].0 == k
    ensures forall j :: 0 <= j < i ==> p[j].0 != k
    decreases |p|
  {
    if |p| == 0 || p[0].0 == k then 0 else 1 + IndexOfKey(p[1..], k)
  }

  /** `$p[k]` for a key that is present. */
  function Lookup(p: Params, k: string): string
    requires k in Keys(p)
  {
    p[IndexOfKey(p, k)].1
  }

  /** In an array with unique keys, looking up the key of entry `i` gives the
      value of entry `i`. */
  lemma LookupAt(p: Params, i: nat)
    requires UniqueKeys(p) && i < |p|
    ensures p[i].0 in Keys(p)
    ensures IndexOfKey(p, p[i].0) == i
    ensures Lookup(p, p[i].0) == p[i].1
  {
  }

  lemma KeysOfSnoc(p: Params)
    requires |p| > 0
    ensures Keys(p) == Keys(p[..|p| - 1]) + {p[|p| - 1].0}
  {
    var q := p[..|p| - 1];
    forall k | k in Keys(p)
      ensures k in Keys(q) + {p[|p| - 1].0}
    {
      var i :| 0 <= i < |p| && p[i].0 == k;
      if i < |p| - 1 {
        assert q[i].0 == k;
      }
    }
    forall k | k in Keys(q)
      ensures k in Keys(p)
    {
      var i :| 0 <= i < |q| && q[i].0 == k;
      assert p[i].0 == k;
    }
  }

  /** In an array with unique keys, the last key does not occur before it. */
  lemma LastKeyIsNew(p: Params)
    requires UniqueKeys(p) && |p| > 0
    ensures UniqueKeys(p[..|p| - 1])
    ensures p[|p| - 1].0 !in Keys(p[..|p| - 1])
  {
    var q := p[..|p| - 1];
    forall j | 0 <= j < |q|
      ensures q[j].0 != p[|p| - 1].0
    {
      assert q[j] == p[j];
    }
  }

  /** The first position holding key `k` is the position `i` before which
      no entry has key `k` and at which entry `k` sits (or the end). */
  lemma IndexOfKeyIs(p: Params, k: string, i: nat)
    requires i <= |p| && (i < |p| ==> p[i].0 == k)
    requires forall j :: 0 <= j < i ==> p[j].0 != k
    ensures IndexOfKey(p, k) == i
  {
  }

  /** A key is present exactly when its first position lies inside the array. */
  lemma InKeys(p: Params, k: string)
    ensures k in Keys(p) <==> IndexOfKey(p, k) < |p|
  {
    if k in Keys(p) {
      var i :| 0 <= i < |p| && p[i].0 == k;
    }
  }

  /** Replacing the value of entry `i` in place keeps every key where it is. */
  lemma ReplaceAt(p: Params, i: nat, v: string)
    requires i < |p| && IndexOfKey(p, p[i].0) == i
    ensures var r := p[i := (p[i].0, v)];
      && Keys(r) == Keys(p)
      && KeySeq(r) == KeySeq(p)
      && p[i].0 in Keys(r) && Lookup(r, p[i].0) == v
      && forall k' :: k' in Keys(p) && k' != p[i].0 ==> Lookup(r, k') == Lookup(p, k')
  {
    var r := p[i := (p[i].0, v)];
    assert forall j :: 0 <= j < |p| ==> r[j].0 == p[j].0;
    assert Keys(r) == Keys(p);
    IndexOfKeyIs(r, p[i].0, i);
    forall k' | k' in Keys(p) && k' != p[i].0
      ensures Lookup(r, k') == Lookup(p, k')
    {
      IndexOfKeyIs(r, k', IndexOfKey(p, k'));
    }
  }

  /** Appending an entry under a new key keeps every earlier key where it is. */
  lemma AppendNew(p: Params, k: string, v: string)
    requires k !in Keys(p)
    ensures var r := p + [(k, v)];
      && Keys(r) == Keys(p) + {k}
      && KeySeq(r) == KeySeq(p) + [k]
      && Lookup(r, k) == v
      && forall k' :: k' in Keys(p) && k' != k ==> Lookup(r, k') == Lookup(p, k')
  {
    var r := p + [(k, v)];
    KeysOfSnoc(r);
    assert r[..|r| - 1] == p;
    assert forall j :: 0 <= j < |p| ==> p[j].0 in Keys(p);
    IndexOfKeyIs(r, k, |p|);
    forall k' | k' in Keys(p) && k' != k
      ensures Lookup(r, k') == Lookup(p, k')
    {
      InKeys(p, k');
      IndexOfKeyIs(r, k', IndexOfKey(p, k'));
    }
  }

  /** `$p[k] = v`: the first entry under `k` takes the value `v`, or `(k, v)`
      is appended when there is none. The array grows by at most one entry,
      and every entry afterwards is an old one or `(k, v)`. */
  function Put(p: Params, k: string, v: string): (r: Params)
    ensures |r| <= |p| + 1
    ensures forall e :: e in r ==> e in p || e == (k, v)
    decreases |p|
  {
    if |p| == 0 then [(k, v)]
    else if p[0].0 == k then [(k, v)] + p[1..]
    else [p[0]] + Put(p[1..], k, v)
  }

  lemma ConsUpdate(x: Entry, q: Params, i: nat, e: Entry)
    requires i < |q|
    ensures [x] + q[i := e] == ([x] + q)[i + 1 := e]
  {
  }

  /** Assignment by position: the entry at the first position of `k` is
      replaced, or the entry is appended when `k` is absent. */
  lemma {:induction false} PutAt(p: Params, k: string, v: string)
    ensures var i := IndexOfKey(p, k);
      Put(p, k, v) == if i < |p| then p[i := (k, v)] else p + [(k, v)]
    decreases |p|
  {
    if |p| > 0 {
      var q := p[1..];
      assert p == [p[0]] + q;
      if p[0].0 == k {
        assert [(k, v)] + q == p[0 := (k, v)];
      } else {
        PutAt(q, k, v);
        var i := IndexOfKey(q, k);
        if i < |q| {
          ConsUpdate(p[0], q, i, (k, v));
        } else {
          assert [p[0]] + (q + [(k, v)]) == p + [(k, v)];
        }
      }
    }
  }

  /** The key set gains `k`; the array grows exactly when `k` was new. */
  lemma PutKeys(p: Params, k: string, v: string)
    ensures Keys(Put(p, k, v)) == Keys(p) + {k}
    ensures |Put(p, k, v)| == if k in Keys(p) then |p| else |p| + 1
  {
    PutAt(p, k, v);
    InKeys(p, k);
    var i := IndexOfKey(p, k);
    if i < |p| {
      ReplaceAt(p, i, v);
    } else {
      AppendNew(p, k, v);
    }
  }

  /** After `$p[k] = v`, `k` maps to `v` and every other key keeps its value. */
  lemma PutValues(p: Params, k: string, v: string)
    ensures k in Keys(Put(p, k, v)) && Lookup(Put(p, k, v), k) == v
    ensures forall k' :: k' in Keys(p) && k' != k ==> k' in Keys(Put(p, k, v)) && Lookup(Put(p, k, v), k') == Lookup(p, k')
  {
    PutAt(p, k, v);
    InKeys(p, k);
    var i := IndexOfKey(p, k);
    if i < |p| {
      ReplaceAt(p, i, v);
    } else {
      AppendNew(p, k, v);
    }
  }

  /** Assigning to a present key keeps every key in its place; assigning to
      a new key appends the entry at the end. */
  lemma PutOrder(p: Params, k: string, v: string)
    ensures k in Keys(p) ==> KeySeq(Put(p, k, v)) == KeySeq(p)
    ensures k !in Keys(p) ==> Put(p, k, v) == p + [(k, v)] && KeySeq(Put(p, k, v)) == KeySeq(p) + [k]
  {
    PutAt(p, k, v);
    InKeys(p, k);
    var i := IndexOfKey(p, k);
    if i < |p| {
      ReplaceAt(p, i, v);
    } else {
      AppendNew(p, k, v);
    }
  }

  /** Assignment keeps the keys of an array unique. */
  lemma PutKeepsUnique(p: Params, k: string, v: string)
    requires UniqueKeys(p)
    ensures UniqueKeys(Put(p, k, v))
  {
    var r := Put(p, k, v);
    PutOrder(p, k, v);
    if k !in Keys(p) {
      forall i | 0 <= i < |p|
        ensures r[i].0 != k
      {
        assert p[i].0 in Keys(p);
      }
    } else {
      PutKeys(p, k, v);
      assert forall j :: 0 <= j < |p| ==> r[j].0 == KeySeq(r)[j] == KeySeq(p)[j] == p[j].0;
    }
  }

  /** The keys of `ks` that are not in `seen`, in their order (`ks` from left to right). */
  function Unseen(ks: seq<string>, seen: set<string>): seq<string>
    decreases |ks|
  {
    if |ks| == 0 then []
    else
      var last := ks[|ks| - 1];
      Unseen(ks[..|ks| - 1], seen) + (if last in seen then [] else [last])
  }

  /** `array_merge(a, b)` for string keys: the entries of `b` are assigned
      into a copy of `a` from left to right. Every key of either side is in
      the result and no other; every entry comes from one of the two. */
  function Merge(a: Params, b: seq<Entry>): (r: Params)
    requires UniqueKeys(a)
    ensures UniqueKeys(r)
    ensures Keys(r) == Keys(a) + Keys(b)
    ensures forall e :: e in r ==> e in a || e in b
    decreases |b|
  {
    if |b| == 0 then a
    else
      var last := b[|b| - 1];
      var front := b[..|b| - 1];
      KeysOfSnoc(b);
      assert forall e :: e in front ==> e in b;
      PutKeys(Merge(a, front), last.0, last.1);
      PutKeepsUnique(Merge(a, front), last.0, last.1);
      Put(Merge(a, front), last.0, last.1)
  }

  /** An array built by assigning the pairs of `ps` in order into an empty
      array (what `parse_str` and `array_change_key_case` do). */
  function Assemble(ps: seq<Entry>): (r: Params)
    ensures UniqueKeys(r)
    ensures Keys(r) == Keys(ps)
    ensures forall e :: e in r ==> e in ps
  {
    Merge([], ps)
  }

  /** Later assignments win: the value a key ends up with is the one of its
      last occurrence in `b`. */
  lemma {:induction false} MergeLastWins(a: Params, b: seq<Entry>, i: nat)
    requires UniqueKeys(a) && i < |b|
    requires forall j :: i < j < |b| ==> b[j].0 != b[i].0
    ensures b[i].0 in Keys(Merge(a, b))
    ensures Lookup(Merge(a, b), b[i].0) == b[i].1
    decreases |b|
  {
    var front := b[..|b| - 1];
    PutValues(Merge(a, front), b[|b| - 1].0, b[|b| - 1].1);
    if i < |b| - 1 {
      MergeLastWins(a, front, i);
    }
  }

  /** A key of `a` that `b` does not mention keeps its value from `a`. */
  lemma {:induction false} MergeKeepsUnmentioned(a: Params, b: seq<Entry>, k: string)
    requires UniqueKeys(a) && k in Keys(a) && k !in Keys(b)
    ensures k in Keys(Merge(a, b))
    ensures Lookup(Merge(a, b), k) == Lookup(a, k)
    decreases |b|
  {
    if |b| > 0 {
      var front := b[..|b| - 1];
      KeysOfSnoc(b);
      MergeKeepsUnmentioned(a, front, k);
      PutValues(Merge(a, front), b[|b| - 1].0, b[|b| - 1].1);
    }
  }

  lemma UnseenOfSnoc(b: seq<Entry>, seen: set<string>)
    requires |b| > 0
    ensures Unseen(KeySeq(b), seen)
         == Unseen(KeySeq(b[..|b| - 1]), seen) + (if b[|b| - 1].0 in seen then [] else [b[|b| - 1].0])
  {
    var ks := KeySeq(b);
    assert ks[..|ks| - 1] == KeySeq(b[..|b| - 1]);
  }

  /** Merging one more entry under a key new to `b` appends that key exactly
      when `a` lacks it. */
  lemma MergeSnocKeys(a: Params, b: seq<Entry>)
    requires UniqueKeys(a) && UniqueKeys(b) && |b| > 0
    ensures var last := b[|b| - 1].0;
      KeySeq(Merge(a, b)) == KeySeq(Merge(a, b[..|b| - 1])) + (if last in Keys(a) then [] else [last])
  {
    var last := b[|b| - 1];
    LastKeyIsNew(b);
    var m := Merge(a, b[..|b| - 1]);
    assert Merge(a, b) == Put(m, last.0, last.1);
    assert last.0 in Keys(m) <==> last.0 in Keys(a);
    PutOrder(m, last.0, last.1);
  }

  /** When `b` has unique keys, the merged array lists the keys of `a` in their
      order, followed by the keys of `b` that `a` lacks, in their order. */
  lemma {:induction false} MergeOrder(a: Params, b: seq<Entry>)
    requires UniqueKeys(a) && UniqueKeys(b)
    ensures KeySeq(Merge(a, b)) == KeySeq(a) + Unseen(KeySeq(b), Keys(a))
    decreases |b|
  {
    if |b| > 0 {
      var front := b[..|b| - 1];
      LastKeyIsNew(b);
      MergeOrder(a, front);
      UnseenOfSnoc(b, Keys(a));
      MergeSnocKeys(a, b);
    }
  }

  /** Assigning pairs with unique keys into an empty array gives them back
      unchanged, in order. */
  lemma {:induction false} AssembleUnique(ps: seq<Entry>)
    requires UniqueKeys(ps)
    ensures Assemble(ps) == ps
    decreases |ps|
  {
    if |ps| > 0 {
      var front := ps[..|ps| - 1];
      AssembleUnique(front);
      LastKeyIsNew(ps);
      PutOrder(front, ps[|ps| - 1].0, ps[|ps| - 1].1);
      assert front + [ps[|ps| - 1]] == ps;
    }
  }
}
