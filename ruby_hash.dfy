/**
 * Ruby's Hash as the notification script uses it: string keys, entries kept
 * in insertion order, assignment to a key that is already present keeps that
 * key's position, and reading a key that is absent yields nil.
 */
module RubyHash {

  /** The values the script stores: nil, a String, or an Array of Strings. */
  datatype Value = Nil | Str(s: string) | List(items: seq<string>)

  datatype Entry = Entry(key: string, value: Value)

  /** An insertion-ordered hash. */
  type Table = seq<Entry>

  /** The keys of a table, in insertion order. */
  function Keys(t: Table): (ks: seq<string>)
    ensures |ks| == |t|
    ensures forall i :: 0 <= i < |t| ==> ks[i] == t[i].key
  {
    if t == [] then [] else [t[0].key] + Keys(t[1..])
  }

  predicate Distinct(ks: seq<string>)
  {
    forall i, j :: 0 <= i < j < |ks| ==> ks[i] != ks[j]
  }

  /** `h[k]`: the value stored under k, or nil when k is absent. */
  function Get(t: Table, k: string): Value
  {
    if t == [] then Nil
    else if t[0].key == k then t[0].value
    else Get(t[1..], k)
  }

  /** An absent key reads as nil. */
  lemma {:induction false} GetAbsent(t: Table, k: string)
    requires k !in Keys(t)
    ensures Get(t, k) == Nil
  {
    if t != [] {
      assert Keys(t)[0] == t[0].key;
      assert forall i :: 0 <= i < |t| - 1 ==> Keys(t[1..])[i] == Keys(t)[i + 1];
      GetAbsent(t[1..], k);
    }
  }

  /** A key that reads as something other than nil is present. */
  lemma GetPresent(t: Table, k: string)
    requires !Get(t, k).Nil?
    ensures k in Keys(t)
  {
    if k !in Keys(t) {
      GetAbsent(t, k);
    }
  }

  /** `h[k] = v`: afterwards k reads as v. */
  function Put(t: Table, k: string, v: Value): (r: Table)
    ensures Get(r, k) == v
  {
    if t == [] then [Entry(k, v)]
    else if t[0].key == k then [Entry(k, v)] + t[1..]
    else [t[0]] + Put(t[1..], k, v)
  }

  /** An existing key keeps its place, a new key goes to the end. */
  lemma {:induction false} PutKeys(t: Table, k: string, v: Value)
    ensures Keys(Put(t, k, v)) == if k in Keys(t) then Keys(t) else Keys(t) + [k]
    ensures k !in Keys(t) ==> Put(t, k, v) == t + [Entry(k, v)]
  {
    if t != [] && t[0].key != k {
      PutKeys(t[1..], k, v);
      assert Keys(t) == [t[0].key] + Keys(t[1..]);
    }
  }

  /** Assigning one key leaves every other key reading as before. */
  lemma {:induction false} PutOther(t: Table, k: string, v: Value, k': string)
    requires k' != k
    ensures Get(Put(t, k, v), k') == Get(t, k')
  {
    if t != [] && t[0].key != k {
      PutOther(t[1..], k, v, k');
    }
  }

  /** Assignment never duplicates a key. */
  lemma PutDistinct(t: Table, k: string, v: Value)
    requires Distinct(Keys(t))
    ensures Distinct(Keys(Put(t, k, v)))
  {
    PutKeys(t, k, v);
  }

  /** With distinct keys, each entry is what a read of its key returns. */
  lemma {:induction false} GetAt(t: Table, i: nat)
    requires Distinct(Keys(t))
    requires i < |t|
    ensures Get(t, t[i].key) == t[i].value
  {
    if i > 0 {
      assert t[0].key != t[i].key by { assert Keys(t)[0] != Keys(t)[i]; }
      assert Distinct(Keys(t[1..])) by {
        forall a, b | 0 <= a < b < |t| - 1 ensures Keys(t[1..])[a] != Keys(t[1..])[b] {
          assert Keys(t)[a + 1] != Keys(t)[b + 1];
        }
      }
      GetAt(t[1..], i - 1);
    }
  }
}
