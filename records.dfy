/**
 * The record the layout builds for one row: a PHP array with string keys.
 * A PHP array is an ordered map: assigning to a key it already holds
 * overwrites the value in place, assigning a new key appends it. The model
 * is an association list in insertion order.
 */
module Records {
  import opened Wrappers

  /** A value of a flat record: a row caption, a cell value, or `null`. */
  datatype Field<V> = Text(text: string) | Scalar(value: V) | Null

  /** One `$result[$key] = $value` assignment. */
  type Write<V> = (string, Field<V>)

  /** An ordered key/value array, first-inserted key first. */
  type Record<V> = seq<Write<V>>

  function Keys<V>(r: Record<V>): seq<string>
  {
    seq(|r|, i requires 0 <= i < |r| => r[i].0)
  }

  /** `$r[$k]`, or None when the key is absent. */
  function Lookup<V>(r: Record<V>, k: string): Option<Field<V>>
  {
    if r == [] then None
    else if r[0].0 == k then Some(r[0].1)
    else Lookup(r[1..], k)
  }

  /** `$r[$k] = $v` on a PHP array. */
  function Assign<V>(r: Record<V>, k: string, v: Field<V>): Record<V>
  {
    if r == [] then [(k, v)]
    else if r[0].0 == k then [(k, v)] + r[1..]
    else [r[0]] + Assign(r[1..], k, v)
  }

  /** Assignment keeps a present key at its position and appends a new one. */
  lemma {:induction false} AssignKeys<V>(r: Record<V>, k: string, v: Field<V>)
    ensures Keys(Assign(r, k, v)) == if k in Keys(r) then Keys(r) else Keys(r) + [k]
  {
    if r != [] {
      assert Keys(r) == [r[0].0] + Keys(r[1..]);
      if r[0].0 == k {
        assert Keys(r)[0] == k;
        assert Keys(Assign(r, k, v)) == Keys(r);
      } else {
        AssignKeys(r[1..], k, v);
        assert Keys(Assign(r, k, v)) == [r[0].0] + Keys(Assign(r[1..], k, v));
      }
    }
  }

  /** After `$r[$k] = $v`, `k` holds `v` and every other key what it held before. */
  lemma {:induction false} AssignLookup<V>(r: Record<V>, k: string, v: Field<V>, k': string)
    ensures Lookup(Assign(r, k, v), k') == if k' == k then Some(v) else Lookup(r, k')
  {
    if r != [] && r[0].0 != k {
      AssignLookup(r[1..], k, v, k');
    }
  }

  /** The record an empty `array()` becomes after the writes, in order. */
  function Apply<V>(w: seq<Write<V>>): Record<V>
  {
    if w == [] then []
    else Assign(Apply(w[..|w| - 1]), w[|w| - 1].0, w[|w| - 1].1)
  }

  /** Building from one more write is one more assignment. */
  lemma ApplyPrefix<V>(w: seq<Write<V>>, n: nat)
    requires n < |w|
    ensures Apply(w[..n + 1]) == Assign(Apply(w[..n]), w[n].0, w[n].1)
  {
    assert w[..n + 1][..n] == w[..n];
  }

  function WriteKeys<V>(w: seq<Write<V>>): seq<string>
  {
    seq(|w|, i requires 0 <= i < |w| => w[i].0)
  }

  /** Reference order of the keys: each key once, at its first occurrence. */
  function FirstOccurrences<T(==)>(ks: seq<T>): seq<T>
  {
    if ks == [] then []
    else
      var prefix := FirstOccurrences(ks[..|ks| - 1]);
      if ks[|ks| - 1] in prefix then prefix else prefix + [ks[|ks| - 1]]
  }

  /** Reference value of a key: the value of the last write to it. */
  function LastWrite<V>(w: seq<Write<V>>, k: string): Option<Field<V>>
  {
    if w == [] then None
    else if w[|w| - 1].0 == k then Some(w[|w| - 1].1)
    else LastWrite(w[..|w| - 1], k)
  }

  predicate Distinct<T(==)>(s: seq<T>)
  {
    forall i, j :: 0 <= i < j < |s| ==> s[i] != s[j]
  }

  /** The keys of the built record are the written keys, each at its first position. */
  lemma {:induction false} ApplyKeys<V>(w: seq<Write<V>>)
    ensures Keys(Apply(w)) == FirstOccurrences(WriteKeys(w))
  {
    if w != [] {
      var n := |w| - 1;
      assert WriteKeys(w)[..n] == WriteKeys(w[..n]);
      ApplyKeys(w[..n]);
      AssignKeys(Apply(w[..n]), w[n].0, w[n].1);
    }
  }

  /** Every key holds the value of the last write to it: last write wins. */
  lemma {:induction false} ApplyLookup<V>(w: seq<Write<V>>, k: string)
    ensures Lookup(Apply(w), k) == LastWrite(w, k)
  {
    if w != [] {
      ApplyLookup(w[..|w| - 1], k);
      AssignLookup(Apply(w[..|w| - 1]), w[|w| - 1].0, w[|w| - 1].1, k);
    }
  }

  /** Assigning a key the record does not hold appends the pair. */
  lemma {:induction false} AssignNew<V>(r: Record<V>, k: string, v: Field<V>)
    requires k !in Keys(r)
    ensures Assign(r, k, v) == r + [(k, v)]
  {
    if r != [] {
      assert Keys(r)[0] == r[0].0;
      assert Keys(r[1..]) == Keys(r)[1..];
      AssignNew(r[1..], k, v);
      assert [r[0]] + (r[1..] + [(k, v)]) == r + [(k, v)];
    }
  }

  /** Writes to pairwise distinct keys build the record that lists them in order. */
  lemma {:induction false} ApplyDistinct<V>(w: seq<Write<V>>)
    requires Distinct(WriteKeys(w))
    ensures Apply(w) == w
  {
    if w != [] {
      var n := |w| - 1;
      assert WriteKeys(w[..n]) == WriteKeys(w)[..n];
      ApplyDistinct(w[..n]);
      assert Keys(w[..n]) == WriteKeys(w)[..n];
      assert w[n].0 == WriteKeys(w)[n];
      AssignNew(w[..n], w[n].0, w[n].1);
      assert w[..n] + [(w[n].0, w[n].1)] == w;
    }
  }

  /** A write to another key does not change what a key holds. */
  lemma LastWriteSkip<V>(w: seq<Write<V>>, k: string)
    requires w != [] && w[|w| - 1].0 != k
    ensures LastWrite(w, k) == LastWrite(w[..|w| - 1], k)
  {
  }

  /** FirstOccurrences lists every key of its input once and nothing else. */
  lemma {:induction false} FirstOccurrencesSpec<T>(ks: seq<T>)
    ensures Distinct(FirstOccurrences(ks))
    ensures forall x :: x in FirstOccurrences(ks) <==> x in ks
  {
    if ks != [] {
      var n := |ks| - 1;
      FirstOccurrencesSpec(ks[..n]);
      assert ks == ks[..n] + [ks[n]];
    }
  }

  /** Keys that are already distinct are kept exactly, in order. */
  lemma {:induction false} FirstOccurrencesOfDistinct<T>(ks: seq<T>)
    requires Distinct(ks)
    ensures FirstOccurrences(ks) == ks
  {
    if ks != [] {
      var n := |ks| - 1;
      FirstOccurrencesOfDistinct(ks[..n]);
      assert ks[n] !in ks[..n];
      assert ks[..n] + [ks[n]] == ks;
    }
  }

  /** Writes after a prefix override it key by key. */
  lemma {:induction false} LastWriteAppend<V>(a: seq<Write<V>>, b: seq<Write<V>>, k: string)
    ensures LastWrite(a + b, k) == if LastWrite(b, k).Some? then LastWrite(b, k) else LastWrite(a, k)
  {
    if b == [] {
      assert a + b == a;
    } else {
      var n := |b| - 1;
      assert (a + b)[..|a + b| - 1] == a + b[..n];
      LastWriteAppend(a, b[..n], k);
    }
  }

  /** A write that no later write to the same key follows is the one that stays. */
  lemma {:induction false} LastWriteAt<V>(w: seq<Write<V>>, j: nat)
    requires j < |w|
    requires forall m :: j < m < |w| ==> w[m].0 != w[j].0
    ensures LastWrite(w, w[j].0) == Some(w[j].1)
  {
    if j < |w| - 1 {
      LastWriteAt(w[..|w| - 1], j);
    }
  }

  /** A key nobody writes keeps no value. */
  lemma {:induction false} LastWriteAbsent<V>(w: seq<Write<V>>, k: string)
    requires forall m :: 0 <= m < |w| ==> w[m].0 != k
    ensures LastWrite(w, k) == None
  {
    if w != [] {
      LastWriteAbsent(w[..|w| - 1], k);
    }
  }
}
